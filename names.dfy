/**
  File names as the renamer sees them: the dot-suffix of a name, the
  case-insensitive test against the recognised image extensions, the decimal
  rendering of sequence numbers and the candidate names `N.ext`, `N_1.ext`,
  `N_2.ext`, ... tried by the collision loop.
 */
module Names {

  /** Index of the last occurrence of `c` in `s`, or -1 when there is none. */
  function LastIndex(s: string, c: char): (r: int)
    ensures -1 <= r < |s|
    ensures r >= 0 ==> s[r] == c
    ensures forall k :: r < k < |s| ==> s[k] != c
  {
    if |s| == 0 then -1
    else if s[|s| - 1] == c then |s| - 1
    else LastIndex(s[..|s| - 1], c)
  }

  /** Lower-cases the ASCII letters of `s` and leaves every other character alone. */
  function Lower(s: string): (r: string)
    ensures |r| == |s|
    ensures forall k :: 0 <= k < |s| ==>
      r[k] == (if 'A' <= s[k] <= 'Z' then (s[k] as int + 32) as char else s[k])
  {
    if s == [] then []
    else
      var c := s[0];
      [if 'A' <= c <= 'Z' then (c as int + 32) as char else c] + Lower(s[1..])
  }

  /** A dot-suffix as the path library produces it: a dot followed by at least one
      character, none of them a dot. */
  ghost predicate DotSuffix(x: string)
  {
    |x| >= 2 && x[0] == '.' && forall k :: 1 <= k < |x| ==> x[k] != '.'
  }

  /** The suffix of a final path component: from its last dot to its end, provided
      that dot is neither the first nor the last character; otherwise empty. */
  function Suffix(name: string): (r: string)
    ensures r == [] || DotSuffix(r)
    ensures r != [] ==> |r| < |name| && name[|name| - |r|..] == r
    ensures r != [] ==> forall k :: |name| - |r| < k < |name| ==> name[k] != '.'
  {
    var i := LastIndex(name, '.');
    if 0 < i < |name| - 1 then name[i..] else []
  }

  /** A name has a suffix exactly when its last dot is neither its first nor its
      last character. */
  lemma SuffixIffInnerLastDot(name: string)
    ensures Suffix(name) != [] <==> exists i :: 0 < i < |name| - 1 && name[i] == '.' && LastDot(name, i)
  {
    var i := LastIndex(name, '.');
    if 0 < i < |name| - 1 {
      assert name[i] == '.' && LastDot(name, i);
    } else {
      assert forall j :: 0 <= j < |name| && name[j] == '.' && LastDot(name, j) ==> j == i;
    }
  }

  /** No dot of `name` comes after position `i`. */
  ghost predicate LastDot(name: string, i: int)
  {
    forall k :: 0 <= k < |name| && i < k ==> name[k] != '.'
  }

  /** The nine recognised image extensions, in lower case. */
  const ImageExtensions: set<string> :=
    {".jpg", ".jpeg", ".png", ".gif", ".bmp", ".tiff", ".tif", ".webp", ".ico"}

  /** A final path component is an image name when its suffix, lower-cased, is one
      of the recognised extensions. */
  predicate IsImageName(name: string)
  {
    Lower(Suffix(name)) in ImageExtensions
  }

  /** Every recognised image name has a non-empty dot-suffix. */
  lemma ImageNameHasSuffix(name: string)
    requires IsImageName(name)
    ensures DotSuffix(Suffix(name))
  {
  }

  /** The decimal digit for 0 <= d < 10. */
  function Digit(d: nat): (c: char)
    requires d < 10
    ensures '0' <= c <= '9'
  {
    ('0' as int + d) as char
  }

  /** The decimal rendering of `n`, without leading zeros (Python's `str` on an
      `int`). */
  function Decimal(n: nat): (r: string)
    ensures |r| >= 1
    ensures forall k :: 0 <= k < |r| ==> '0' <= r[k] <= '9'
    ensures (|r| == 1) == (n < 10)
  {
    if n < 10 then [Digit(n)] else Decimal(n / 10) + [Digit(n % 10)]
  }

  /** The number a string of decimal digits denotes, most significant digit
      first. */
  function DigitsValue(s: string): (v: nat)
    requires forall k :: 0 <= k < |s| ==> '0' <= s[k] <= '9'
  {
    if s == [] then 0 else DigitsValue(s[..|s| - 1]) * 10 + (s[|s| - 1] as int - '0' as int)
  }

  /** The rendering denotes `n`, and starts with a zero only for zero. */
  lemma {:induction false} DecimalValue(n: nat)
    ensures DigitsValue(Decimal(n)) == n
    ensures (Decimal(n)[0] == '0') == (n == 0)
  {
    if n >= 10 {
      var r := Decimal(n);
      assert r[..|r| - 1] == Decimal(n / 10);
      DecimalValue(n / 10);
    }
  }

  /** Distinct numbers have distinct decimal renderings. */
  lemma {:induction false} DecimalInjective(a: nat, b: nat)
    requires Decimal(a) == Decimal(b)
    ensures a == b
  {
    if a >= 10 && b >= 10 {
      var da, db := Decimal(a), Decimal(b);
      assert da[|da| - 1] == Digit(a % 10) && db[|db| - 1] == Digit(b % 10);
      assert a % 10 == b % 10;
      assert Decimal(a / 10) == da[..|da| - 1] == db[..|db| - 1] == Decimal(b / 10);
      DecimalInjective(a / 10, b / 10);
    }
  }

  /** The name the collision loop holds after `k` bumps of its counter, for the
      file at sequence number `index` whose suffix is `suffix`: `{index}{suffix}`
      when k == 0, otherwise `{index}_{k}{suffix}`. */
  function CandidateName(index: nat, suffix: string, k: nat): string
  {
    if k == 0 then Decimal(index) + suffix
    else Decimal(index) + "_" + Decimal(k) + suffix
  }

  /** Every candidate starts with the sequence number and ends with the suffix,
      and only the first one has nothing in between. */
  lemma CandidateNameShape(index: nat, suffix: string, k: nat)
    ensures var r := CandidateName(index, suffix, k);
      |Decimal(index)| + |suffix| <= |r| && r[..|Decimal(index)|] == Decimal(index) &&
      r[|r| - |suffix|..] == suffix &&
      (k == 0 <==> |r| == |Decimal(index)| + |suffix|)
  {
  }

  /** Python's `s.rsplit('.', 1)` on a string that contains a dot: the part
      before the last dot and the part after it. */
  function RSplitDot(s: string): (r: (string, string))
    requires '.' in s
    ensures r.0 + "." + r.1 == s
    ensures '.' !in r.1
  {
    var i := LastIndex(s, '.');
    assert s == s[..i] + "." + s[i + 1..];
    (s[..i], s[i + 1..])
  }

  /** In `{index}{suffix}` the last dot is the one that starts the suffix. */
  lemma LastDotOfCandidate(index: nat, suffix: string)
    requires DotSuffix(suffix)
    ensures LastIndex(Decimal(index) + suffix, '.') == |Decimal(index)|
  {
    var d := Decimal(index);
    var s := d + suffix;
    var i := LastIndex(s, '.');
    assert s[|d|] == '.';
  }

  /** The loop splits `{index}{suffix}` at its last dot into the decimal index
      and the extension without its dot. */
  lemma SplitCandidate(index: nat, suffix: string)
    requires DotSuffix(suffix)
    ensures '.' in CandidateName(index, suffix, 0)
    ensures RSplitDot(CandidateName(index, suffix, 0)) == (Decimal(index), suffix[1..])
  {
    var d := Decimal(index);
    var s := d + suffix;
    assert s[|d|] == '.';
    LastDotOfCandidate(index, suffix);
    assert s[..|d|] == d;
    assert s[|d| + 1..] == suffix[1..];
  }

  /** So the name the loop builds for counter value k is the candidate name for k. */
  lemma RebuiltName(index: nat, suffix: string, k: nat)
    requires DotSuffix(suffix) && k >= 1
    ensures '.' in CandidateName(index, suffix, 0)
    ensures var parts := RSplitDot(CandidateName(index, suffix, 0));
      parts == (Decimal(index), suffix[1..]) &&
      parts.0 + "_" + Decimal(k) + "." + parts.1 == CandidateName(index, suffix, k)
  {
    SplitCandidate(index, suffix);
    var d, e := Decimal(index), Decimal(k);
    assert "." + suffix[1..] == suffix;
    assert d + "_" + e + "." + suffix[1..] == d + "_" + e + ("." + suffix[1..]);
  }

  /** Different counter values give different candidate names, so the loop never
      tries the same name twice. */
  lemma CandidateNameInjective(index: nat, suffix: string, j: nat, k: nat)
    requires CandidateName(index, suffix, j) == CandidateName(index, suffix, k)
    ensures j == k
  {
    var d := Decimal(index);
    if j != 0 && k != 0 {
      var a, b := Decimal(j), Decimal(k);
      var x := d + "_" + a + suffix;
      var y := d + "_" + b + suffix;
      assert |a| == |b|;
      assert x[|d| + 1..|d| + 1 + |a|] == a;
      assert y[|d| + 1..|d| + 1 + |b|] == b;
      DecimalInjective(j, k);
    }
  }
}

/**
  The folder path typed at the prompt: surrounding whitespace is stripped, then
  double quotes, then single quotes (so a path pasted with quotes around it is
  accepted), and an empty result means no folder was given.
 */
module Prompt {

  datatype Option<T> = None | Some(value: T)

  /** The characters Python's `str.strip()` removes when called without an
      argument: those for which `str.isspace()` holds. */
  predicate IsWhitespace(c: char)
  {
    '\t' <= c <= '\r' || '\U{1C}' <= c <= ' ' || c == '\U{85}' || c == '\U{A0}' ||
    c == '\U{1680}' || '\U{2000}' <= c <= '\U{200A}' || c == '\U{2028}' || c == '\U{2029}' ||
    c == '\U{202F}' || c == '\U{205F}' || c == '\U{3000}'
  }

  predicate IsDoubleQuote(c: char) { c == '"' }

  predicate IsSingleQuote(c: char) { c == '\'' }

  /** The length of the longest prefix of `s` made of characters in `cs`. */
  function LeadingRun(s: string, cs: char -> bool): (n: nat)
    ensures n <= |s|
    ensures forall k :: 0 <= k < n ==> cs(s[k])
    ensures n < |s| ==> !cs(s[n])
  {
    if s == [] || !cs(s[0]) then 0 else 1 + LeadingRun(s[1..], cs)
  }

  /** The length of the longest suffix of `s` made of characters in `cs`. */
  function TrailingRun(s: string, cs: char -> bool): (n: nat)
    ensures n <= |s|
    ensures forall k :: |s| - n <= k < |s| ==> cs(s[k])
    ensures n < |s| ==> !cs(s[|s| - 1 - n])
  {
    if s == [] || !cs(s[|s| - 1]) then 0 else 1 + TrailingRun(s[..|s| - 1], cs)
  }

  /** Python's `s.strip(chars)`: removes every leading and every trailing
      character that is in `cs`. */
  function Strip(s: string, cs: char -> bool): (r: string)
    ensures |r| <= |s|
    ensures r != [] ==> !cs(r[0]) && !cs(r[|r| - 1])
  {
    var a := LeadingRun(s, cs);
    var b := TrailingRun(s[a..], cs);
    s[a..|s| - b]
  }

  /** Stripping removes exactly the padding: a string made of `mid` with
      characters of `cs` around it strips to `mid`, provided `mid` neither starts
      nor ends with a character of `cs`. */
  lemma StripPadded(pre: string, mid: string, post: string, cs: char -> bool)
    requires forall k :: 0 <= k < |pre| ==> cs(pre[k])
    requires forall k :: 0 <= k < |post| ==> cs(post[k])
    requires mid != [] ==> !cs(mid[0]) && !cs(mid[|mid| - 1])
    ensures Strip(pre + mid + post, cs) == mid
  {
    var s := pre + mid + post;
    var a := LeadingRun(s, cs);
    assert forall k :: 0 <= k < |pre| ==> s[k] == pre[k];
    if mid != [] {
      assert s[|pre|] == mid[0];
      assert a == |pre|;
      var t := s[a..];
      assert t == mid + post;
      var b := TrailingRun(t, cs);
      assert forall k :: 0 <= k < |post| ==> t[|mid| + k] == post[k];
      assert t[|mid| - 1] == mid[|mid| - 1];
      assert b == |post|;
      assert s[a..|s| - b] == mid;
    } else {
      assert forall k :: |pre| <= k < |s| ==> s[k] == post[k - |pre|];
      assert forall k :: 0 <= k < |s| ==> cs(s[k]);
    }
  }

  /** Stripping a second time changes nothing. */
  lemma StripIdempotent(s: string, cs: char -> bool)
    ensures Strip(Strip(s, cs), cs) == Strip(s, cs)
  {
    var r := Strip(s, cs);
    StripPadded([], r, [], cs);
    assert [] + r + [] == r;
  }

  /** The input with surrounding whitespace, then double quotes, then single
      quotes stripped. */
  function Unquote(line: string): (p: string)
    ensures |p| <= |line|
    ensures p != [] ==> !IsSingleQuote(p[0]) && !IsSingleQuote(p[|p| - 1])
  {
    Strip(Strip(Strip(line, IsWhitespace), IsDoubleQuote), IsSingleQuote)
  }

  /** The path the program works on, or None when nothing is left after the
      stripping ("Please input proper folder path."). */
  function FolderPathFromInput(line: string): (r: Option<string>)
    ensures r.Some? ==> r.value != []
  {
    var p := Unquote(line);
    if p == [] then None else Some(p)
  }

  /** Stripping leaves a string alone whose ends are outside the set. */
  lemma StripUnpadded(s: string, cs: char -> bool)
    requires s != [] ==> !cs(s[0]) && !cs(s[|s| - 1])
    ensures Strip(s, cs) == s
  {
    StripPadded([], s, [], cs);
    assert [] + s + [] == s;
  }

  /** A path typed without quotes, with spaces around it, comes out as the
      bare path. */
  lemma PlainPath(pad1: string, path: string, pad2: string)
    requires forall k :: 0 <= k < |pad1| ==> IsWhitespace(pad1[k])
    requires forall k :: 0 <= k < |pad2| ==> IsWhitespace(pad2[k])
    requires path != [] && !IsWhitespace(path[0]) && !IsWhitespace(path[|path| - 1])
    requires path[0] !in {'"', '\''} && path[|path| - 1] !in {'"', '\''}
    ensures FolderPathFromInput(pad1 + path + pad2) == Some(path)
  {
    StripPadded(pad1, path, pad2, IsWhitespace);
    StripUnpadded(path, IsDoubleQuote);
    StripUnpadded(path, IsSingleQuote);
    assert Unquote(pad1 + path + pad2) == path;
  }

  /** A path typed with spaces around it and wrapped in double quotes comes out
      as the bare path. */
  lemma DoubleQuotedPath(pad1: string, path: string, pad2: string)
    requires forall k :: 0 <= k < |pad1| ==> IsWhitespace(pad1[k])
    requires forall k :: 0 <= k < |pad2| ==> IsWhitespace(pad2[k])
    requires path != [] && path[0] !in {'"', '\''} && path[|path| - 1] !in {'"', '\''}
    ensures FolderPathFromInput(pad1 + (['"'] + path + ['"']) + pad2) == Some(path)
  {
    var quoted := ['"'] + path + ['"'];
    StripPadded(pad1, quoted, pad2, IsWhitespace);
    StripPadded(['"'], path, ['"'], IsDoubleQuote);
    StripUnpadded(path, IsSingleQuote);
    assert Unquote(pad1 + quoted + pad2) == path;
  }

  /** A path wrapped in single quotes comes out as the bare path, too. */
  lemma SingleQuotedPath(path: string)
    requires path != [] && path[0] !in {'"', '\''} && path[|path| - 1] !in {'"', '\''}
    ensures FolderPathFromInput(['\''] + path + ['\'']) == Some(path)
  {
    var quoted := ['\''] + path + ['\''];
    StripUnpadded(quoted, IsWhitespace);
    StripUnpadded(quoted, IsDoubleQuote);
    StripPadded(['\''], path, ['\''], IsSingleQuote);
    assert Unquote(quoted) == path;
  }

  /** Input made only of whitespace gives no folder. */
  lemma BlankInput(line: string)
    requires forall k :: 0 <= k < |line| ==> IsWhitespace(line[k])
    ensures FolderPathFromInput(line) == None
  {
    StripPadded(line, [], [], IsWhitespace);
    assert line + [] + [] == line;
    StripUnpadded([], IsDoubleQuote);
    StripUnpadded([], IsSingleQuote);
    assert Unquote(line) == [];
  }

  /** A pair of double quotes with nothing inside gives no folder. */
  lemma EmptyQuotes(pad1: string, pad2: string)
    requires forall k :: 0 <= k < |pad1| ==> IsWhitespace(pad1[k])
    requires forall k :: 0 <= k < |pad2| ==> IsWhitespace(pad2[k])
    ensures FolderPathFromInput(pad1 + ['"', '"'] + pad2) == None
  {
    var quoted: string := ['"', '"'];
    StripPadded(pad1, quoted, pad2, IsWhitespace);
    StripPadded(quoted, [], [], IsDoubleQuote);
    assert quoted + [] + [] == quoted;
    StripUnpadded([], IsSingleQuote);
    assert Unquote(pad1 + quoted + pad2) == [];
  }
}

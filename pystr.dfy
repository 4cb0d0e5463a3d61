/** The pieces of Python's `str` that the commit parser uses: `strip()`,
    `split("\n")`, `"\n".join(...)`, and the line-bounded `.` of the `re` module. */
module PyStr {

  /** Python's whitespace table (`str.isspace`, which `str.strip()` with no
      argument uses): the C0 controls 0x09-0x0D and 0x1C-0x1F, the space,
      NEL, NO-BREAK SPACE and the Unicode space separators and line/paragraph
      separators. */
  predicate IsSpace(c: char) {
    c in WhitespaceChars
  }

  const WhitespaceChars: set<char> := {'\t', '\n', '\U{0B}', '\U{0C}', '\r', '\U{1C}', '\U{1D}', '\U{1E}', '\U{1F}', ' ',
    '\U{85}', '\U{A0}', '\U{1680}', '\U{2000}', '\U{2001}', '\U{2002}', '\U{2003}', '\U{2004}', '\U{2005}',
    '\U{2006}', '\U{2007}', '\U{2008}', '\U{2009}', '\U{200A}', '\U{2028}', '\U{2029}', '\U{202F}', '\U{205F}', '\U{3000}'}

  predicate AllSpace(s: string) {
    forall i :: 0 <= i < |s| ==> IsSpace(s[i])
  }

  /** How many whitespace characters `s` starts with. */
  function LeadingSpace(s: string): (n: nat)
    ensures n <= |s|
    ensures forall i :: 0 <= i < n ==> IsSpace(s[i])
    ensures n == |s| || !IsSpace(s[n])
  {
    if s == [] || !IsSpace(s[0]) then 0 else 1 + LeadingSpace(s[1..])
  }

  /** How many whitespace characters `s` ends with. */
  function TrailingSpace(s: string): (n: nat)
    ensures n <= |s|
    ensures forall i :: |s| - n <= i < |s| ==> IsSpace(s[i])
    ensures n == |s| || !IsSpace(s[|s| - n - 1])
  {
    if s == [] || !IsSpace(s[|s| - 1]) then 0 else 1 + TrailingSpace(s[..|s| - 1])
  }

  /** `s.strip()`: `s` without its leading and its trailing whitespace. */
  function Strip(s: string): (r: string)
    ensures r == [] <==> AllSpace(s)
    ensures r == [] || (!IsSpace(r[0]) && !IsSpace(r[|r| - 1]))
  {
    var t := s[LeadingSpace(s)..];
    t[..|t| - TrailingSpace(t)]
  }

  /** `Strip` is the only way to cut `s` into leading whitespace, a middle that
      is empty or starts and ends with non-whitespace, and trailing whitespace. */
  lemma StripUnique(s: string, i: nat, j: nat)
    requires i <= j <= |s|
    requires forall t :: 0 <= t < i ==> IsSpace(s[t])
    requires forall t :: j <= t < |s| ==> IsSpace(s[t])
    requires i == j || (!IsSpace(s[i]) && !IsSpace(s[j - 1]))
    ensures Strip(s) == s[i..j]
  {
    if i < j {
      LeadingSpaceIs(s, i);
      var t := s[i..];
      assert forall u :: j - i <= u < |t| ==> t[u] == s[u + i];
      assert t[j - i - 1] == s[j - 1];
      TrailingSpaceIs(t, |s| - j);
      assert t[..j - i] == s[i..j];
    } else {
      assert AllSpace(s);
    }
  }

  lemma LeadingSpaceIs(s: string, n: nat)
    requires n <= |s| && (forall t :: 0 <= t < n ==> IsSpace(s[t]))
    requires n == |s| || !IsSpace(s[n])
    ensures LeadingSpace(s) == n
  {
  }

  lemma TrailingSpaceIs(s: string, n: nat)
    requires n <= |s| && (forall t :: |s| - n <= t < |s| ==> IsSpace(s[t]))
    requires n == |s| || !IsSpace(s[|s| - n - 1])
    ensures TrailingSpace(s) == n
  {
  }

  /** A string with no whitespace at either end is its own strip. */
  lemma StripTrimmed(s: string)
    requires s == [] || (!IsSpace(s[0]) && !IsSpace(s[|s| - 1]))
    ensures Strip(s) == s
  {
    StripUnique(s, 0, |s|);
    assert s[0..|s|] == s;
  }

  lemma StripIdempotent(s: string)
    ensures Strip(Strip(s)) == Strip(s)
  {
    StripTrimmed(Strip(s));
  }

  /** The position of the first `c` in `s` (`s.index(c)`). */
  function IndexOf(s: string, c: char): (i: nat)
    requires c in s
    ensures i < |s| && s[i] == c && c !in s[..i]
  {
    if s[0] == c then 0
    else
      assert s == [s[0]] + s[1..];
      var j := IndexOf(s[1..], c);
      assert s[..j + 1] == [s[0]] + s[1..][..j];
      j + 1
  }

  /** An occurrence of `c` with no `c` before it is the one `IndexOf` finds. */
  lemma IndexOfUnique(s: string, c: char, j: nat)
    requires j < |s| && s[j] == c && c !in s[..j]
    ensures IndexOf(s, c) == j
  {
    var i := IndexOf(s, c);
    assert forall t :: 0 <= t < j ==> s[..j][t] == s[t];
    assert forall t :: 0 <= t < i ==> s[..i][t] == s[t];
  }

  /** `s.split("\n")`: the pieces between newlines; never an empty list. */
  function SplitOnNewline(s: string): (parts: seq<string>)
    ensures |parts| >= 1
    ensures forall k :: 0 <= k < |parts| ==> '\n' !in parts[k]
    decreases |s|
  {
    if '\n' !in s then [s]
    else
      var i := IndexOf(s, '\n');
      [s[..i]] + SplitOnNewline(s[i + 1..])
  }

  /** `"\n".join(parts)`; the empty list joins to `""`. */
  function JoinWithNewline(parts: seq<string>): string {
    if |parts| == 0 then ""
    else if |parts| == 1 then parts[0]
    else parts[0] + "\n" + JoinWithNewline(parts[1..])
  }

  /** Joining the pieces of a split gives the string back. */
  lemma {:induction false} JoinSplit(s: string)
    ensures JoinWithNewline(SplitOnNewline(s)) == s
    decreases |s|
  {
    if '\n' in s {
      var i := IndexOf(s, '\n');
      var rest := SplitOnNewline(s[i + 1..]);
      var parts := [s[..i]] + rest;
      assert SplitOnNewline(s) == parts;
      assert parts[1..] == rest;
      JoinSplit(s[i + 1..]);
      assert JoinWithNewline(parts) == s[..i] + "\n" + s[i + 1..];
      assert s == s[..i] + "\n" + s[i + 1..];
    }
  }

  /** Splitting a join of newline-free pieces gives the pieces back. */
  lemma {:induction false} SplitJoin(parts: seq<string>)
    requires |parts| >= 1
    requires forall k :: 0 <= k < |parts| ==> '\n' !in parts[k]
    ensures SplitOnNewline(JoinWithNewline(parts)) == parts
  {
    if |parts| > 1 {
      var p := parts[0];
      var rest := JoinWithNewline(parts[1..]);
      JoinFirstPiece(p, rest);
      SplitJoin(parts[1..]);
      assert parts == [p] + parts[1..];
    }
  }

  /** Splitting `p + "\n" + rest`, with `p` free of newlines, cuts off `p` first. */
  lemma JoinFirstPiece(p: string, rest: string)
    requires '\n' !in p
    ensures SplitOnNewline(p + "\n" + rest) == [p] + SplitOnNewline(rest)
  {
    var s := p + "\n" + rest;
    assert s[|p|] == '\n';
    assert s[..|p|] == p;
    IndexOfUnique(s, '\n', |p|);
    assert s[|p| + 1..] == rest;
  }

  /** What `"\n".join(s.split("\n")[1:])` rebuilds: the text after the first newline. */
  lemma RemainderAfterFirstLine(s: string)
    requires '\n' in s
    ensures JoinWithNewline(SplitOnNewline(s)[1..]) == s[IndexOf(s, '\n') + 1..]
  {
    var i := IndexOf(s, '\n');
    var rest := SplitOnNewline(s[i + 1..]);
    assert SplitOnNewline(s) == [s[..i]] + rest;
    assert SplitOnNewline(s)[1..] == rest;
    JoinSplit(s[i + 1..]);
  }

  /** What `.+` (or `.*`) consumes, greedily, at the start of `s`: every
      character up to the first newline, since `.` matches anything but `\n`. */
  function RestOfLine(s: string): (r: string)
    ensures r <= s && '\n' !in r
    ensures |r| == |s| || s[|r|] == '\n'
  {
    if '\n' in s then s[..IndexOf(s, '\n')] else s
  }

  /** The first piece of a split is the first line. */
  lemma FirstPieceIsFirstLine(s: string)
    ensures SplitOnNewline(s)[0] == RestOfLine(s)
  {
  }
}

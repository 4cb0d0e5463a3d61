/** The conventional-commit header pattern
      ^(feat|fix|chore|docs|refactor|test|style|perf|ci|build|revert)(\([^)]+\))?: .+
    as a hand-written matcher that follows the order in which Python's `re`
    tries the alternatives and the optional group, with `.+` read as the
    description capture the parser expects. */
module CommitRegex {
  import opened Wrappers
  import opened PyStr

  /** The type keywords of the first group, in the order the alternation tries them. */
  const Keywords: seq<string> :=
    ["feat", "fix", "chore", "docs", "refactor", "test", "style", "perf", "ci", "build", "revert"]

  /** The three captures of a successful match: the type keyword, the scope
      without its parentheses (absent when the optional group did not take
      part), and the description matched by `.+`. */
  datatype HeaderMatch = HeaderMatch(tipo: string, escopo: Option<string>, descripcion: string)

  /** The text the optional group consumes for a given scope. */
  function ScopeText(escopo: Option<string>): string {
    match escopo
    case None => ""
    case Some(s) => "(" + s + ")"
  }

  /** `: .+` at the start of `t`: the literal colon and space, then one or more
      characters other than a newline, taken greedily; yields what `.+` took. */
  function MatchColonDescription(t: string): (d: Option<string>)
    ensures d.Some? ==> |t| >= 2 && t[..2] == ": " && d.value != "" && d.value == RestOfLine(t[2..])
  {
    if |t| >= 3 && t[0] == ':' && t[1] == ' ' && t[2] != '\n' then Some(RestOfLine(t[2..])) else None
  }

  /** `\([^)]+\)` at the start of `t`: an opening parenthesis, one or more
      characters that are not a closing one, and the closing one. Yields the
      text between them and what follows. Since `[^)]` cannot take a `)`,
      there is only one way the group can match. */
  function MatchScopeGroup(t: string): (g: Option<(string, string)>)
    ensures g.Some? ==> g.value.0 != "" && ')' !in g.value.0 && t == "(" + g.value.0 + ")" + g.value.1
  {
    if |t| >= 1 && t[0] == '(' && ')' in t[1..] then
      var j := IndexOf(t[1..], ')');
      if j >= 1 then
        assert t == "(" + t[1..j + 1] + ")" + t[j + 2..];
        Some((t[1..j + 1], t[j + 2..]))
      else None
    else None
  }

  /** Everything after the type keyword `k`: `(\([^)]+\))?: .+`. The greedy `?`
      first tries the group; only when the rest fails after it does the
      engine retry without the group. */
  function MatchAfterType(k: string, t: string): (m: Option<HeaderMatch>)
    ensures m.Some? ==> m.value.tipo == k
  {
    var withScope :=
      match MatchScopeGroup(t)
      case Some((s, after)) =>
        (match MatchColonDescription(after)
         case Some(d) => Some(HeaderMatch(k, Some(s), d))
         case None => None)
      case None => None;
    if withScope.Some? then withScope
    else
      match MatchColonDescription(t)
      case Some(d) => Some(HeaderMatch(k, None, d))
      case None => None
  }

  /** One alternative of the alternation: keyword `k` at position 0, then the rest of the pattern. */
  function Attempt(k: string, h: string): (m: Option<HeaderMatch>)
    ensures m.Some? ==> m.value.tipo == k && k <= h
  {
    if k <= h then MatchAfterType(k, h[|k|..]) else None
  }

  /** The anchored alternation: try each keyword in turn at position 0 and
      keep the first one after which the rest of the pattern matches. */
  function MatchAlternatives(ks: seq<string>, h: string): (m: Option<HeaderMatch>)
    ensures m.Some? ==> m.value.tipo in ks && Attempt(m.value.tipo, h) == m
  {
    if ks == [] then None
    else
      var m := Attempt(ks[0], h);
      if m.Some? then m else MatchAlternatives(ks[1..], h)
  }

  /** `re.match(COMMIT_REGEX, h)`, with its captures. */
  function MatchHeader(h: string): (m: Option<HeaderMatch>)
    ensures m.Some? ==> m.value.tipo in Keywords
  {
    MatchAlternatives(Keywords, h)
  }

  /** The shape the pattern describes, for a one-line header: a keyword, an
      optional non-empty scope without `)` in parentheses, ": ", and a
      non-empty description; the header is exactly these pieces in order. */
  ghost predicate Conforms(h: string, m: HeaderMatch) {
    && m.tipo in Keywords
    && (m.escopo.Some? ==> m.escopo.value != "" && ')' !in m.escopo.value)
    && m.descripcion != "" && '\n' !in m.descripcion
    && h == m.tipo + ScopeText(m.escopo) + ": " + m.descripcion
  }

  /** The keywords, one by one. */
  lemma KeywordCases(k: string)
    requires k in Keywords
    ensures k == "feat" || k == "fix" || k == "chore" || k == "docs" || k == "refactor" || k == "test"
         || k == "style" || k == "perf" || k == "ci" || k == "build" || k == "revert"
  {
  }

  /** No keyword is a prefix of another, so at most one alternative applies. */
  lemma KeywordsPrefixFree(a: string, b: string)
    requires a in Keywords && b in Keywords && a <= b
    ensures a == b
  {
    KeywordCases(a);
    KeywordCases(b);
    assert a[0] == b[0] && a[1] == b[1];
    if a[0] == 'r' {
      assert a[2] == b[2];
    }
  }

  /** When keyword `k` starts `h`, no other keyword does. */
  lemma OtherKeywordFails(k: string, k': string, h: string)
    requires k in Keywords && k' in Keywords && k <= h && k != k'
    ensures Attempt(k', h).None?
  {
    if k' <= h {
      if |k'| <= |k| {
        assert k' <= k;
        KeywordsPrefixFree(k', k);
      } else {
        assert k <= k';
        KeywordsPrefixFree(k, k');
      }
    }
  }

  /** When every alternative fails, the alternation fails. */
  lemma {:induction false} NoKeywordApplies(ks: seq<string>, h: string)
    requires forall i :: 0 <= i < |ks| ==> Attempt(ks[i], h).None?
    ensures MatchAlternatives(ks, h).None?
  {
    if ks != [] {
      assert Attempt(ks[0], h).None?;
      NoKeywordApplies(ks[1..], h);
    }
  }

  /** Once keyword `k` starts `h`, the whole match is decided by what follows `k`. */
  lemma {:induction false} OnlyKeywordApplies(ks: seq<string>, k: string, h: string)
    requires forall i :: 0 <= i < |ks| ==> ks[i] in Keywords
    requires k in ks && k in Keywords && k <= h
    ensures MatchAlternatives(ks, h) == Attempt(k, h)
  {
    forall i | 0 <= i < |ks| && ks[i] != k
      ensures Attempt(ks[i], h).None?
    {
      OtherKeywordFails(k, ks[i], h);
    }
    if ks[0] != k {
      OnlyKeywordApplies(ks[1..], k, h);
    } else if Attempt(k, h).None? {
      NoKeywordApplies(ks[1..], h);
    }
  }

  /** On a one-line text, `: .+` takes everything after the colon and space. */
  lemma ColonDescriptionWhole(t: string)
    requires '\n' !in t
    ensures MatchColonDescription(t).Some? ==>
      '\n' !in MatchColonDescription(t).value && t == ": " + MatchColonDescription(t).value
  {
    if MatchColonDescription(t).Some? {
      assert t == t[..2] + t[2..];
      RestOfLineWhole(t[2..]);
    }
  }

  /** The parts after the keyword, for a one-line header. */
  lemma MatchAfterTypeSound(k: string, t: string)
    requires '\n' !in t
    ensures MatchAfterType(k, t).Some? ==>
      var m := MatchAfterType(k, t).value;
      && (m.escopo.Some? ==> m.escopo.value != "" && ')' !in m.escopo.value)
      && m.descripcion != "" && '\n' !in m.descripcion
      && t == ScopeText(m.escopo) + ": " + m.descripcion
  {
    var g := MatchScopeGroup(t);
    if g.Some? && MatchColonDescription(g.value.1).Some? {
      ScopeBranchSound(t);
    } else {
      ColonDescriptionWhole(t);
    }
  }

  /** The branch of `MatchAfterType` in which the optional group took part. */
  lemma ScopeBranchSound(t: string)
    requires '\n' !in t
    requires MatchScopeGroup(t).Some? && MatchColonDescription(MatchScopeGroup(t).value.1).Some?
    ensures var g := MatchScopeGroup(t).value;
      var d := MatchColonDescription(g.1).value;
      '\n' !in d && t == ScopeText(Some(g.0)) + ": " + d
  {
    var g := MatchScopeGroup(t).value;
    var after := g.1;
    assert t[|t| - |after|..] == after;
    NoCharInSuffix(t, '\n', |t| - |after|);
    ColonDescriptionWhole(after);
    var d := MatchColonDescription(after).value;
    assert t == "(" + g.0 + ")" + (": " + d);
  }

  /** Soundness: every match of a one-line header has the shape of the pattern,
      and the header is rebuilt from the captures. */
  lemma MatchSound(h: string)
    requires '\n' !in h
    ensures MatchHeader(h).Some? ==> Conforms(h, MatchHeader(h).value)
  {
    var m := MatchHeader(h);
    if m.Some? {
      var k := m.value.tipo;
      assert Attempt(k, h) == m;
      NoCharInSuffix(h, '\n', |k|);
      MatchAfterTypeSound(k, h[|k|..]);
      PrefixThenRest(h, k, ScopeText(m.value.escopo), m.value.descripcion);
    }
  }

  /** The parts after the keyword, for a header of the pattern's shape. */
  lemma MatchAfterTypeComplete(k: string, escopo: Option<string>, d: string)
    requires escopo.Some? ==> escopo.value != "" && ')' !in escopo.value
    requires d != "" && '\n' !in d
    ensures MatchAfterType(k, ScopeText(escopo) + ": " + d) == Some(HeaderMatch(k, escopo, d))
  {
    if escopo.Some? {
      assert ScopeText(escopo) + ": " + d == "(" + escopo.value + ")" + (": " + d);
      ScopedAfterTypeComplete(k, escopo.value, d);
    } else {
      assert ScopeText(escopo) + ": " + d == ": " + d;
      UnscopedAfterTypeComplete(k, d);
    }
  }

  lemma ScopedAfterTypeComplete(k: string, s: string, d: string)
    requires s != "" && ')' !in s
    requires d != "" && '\n' !in d
    ensures MatchAfterType(k, "(" + s + ")" + (": " + d)) == Some(HeaderMatch(k, Some(s), d))
  {
    ColonDescriptionComplete(d);
    ScopeGroupComplete(s, ": " + d);
  }

  lemma UnscopedAfterTypeComplete(k: string, d: string)
    requires d != "" && '\n' !in d
    ensures MatchAfterType(k, ": " + d) == Some(HeaderMatch(k, None, d))
  {
    ColonDescriptionComplete(d);
    assert (": " + d)[0] == ':';
  }

  /** `: .+` takes the whole of a non-empty one-line description. */
  lemma ColonDescriptionComplete(d: string)
    requires d != "" && '\n' !in d
    ensures MatchColonDescription(": " + d) == Some(d)
  {
    var tail := ": " + d;
    assert tail[2..] == d;
    RestOfLineWhole(d);
  }

  /** A non-empty scope without `)`, in parentheses, is what the group takes. */
  lemma ScopeGroupComplete(s: string, tail: string)
    requires s != "" && ')' !in s
    ensures MatchScopeGroup("(" + s + ")" + tail) == Some((s, tail))
  {
    var t := "(" + s + ")" + tail;
    var inner := t[1..];
    assert inner == s + ")" + tail;
    assert inner[|s|] == ')';
    assert inner[..|s|] == s;
    IndexOfUnique(inner, ')', |s|);
    assert t[1..|s| + 1] == s;
    assert t[|s| + 2..] == tail;
  }

  /** Completeness: every header of the pattern's shape matches, with exactly
      those captures. */
  lemma MatchComplete(h: string, m: HeaderMatch)
    requires Conforms(h, m)
    ensures MatchHeader(h) == Some(m)
  {
    var k := m.tipo;
    var t := ScopeText(m.escopo) + ": " + m.descripcion;
    assert forall i :: 0 <= i < |Keywords| ==> Keywords[i] in Keywords;
    RestAfterPrefix(k, ScopeText(m.escopo), m.descripcion);
    OnlyKeywordApplies(Keywords, k, h);
    MatchAfterTypeComplete(k, m.escopo, m.descripcion);
  }

  /** On a one-line header, a match and the pattern's shape are the same thing. */
  lemma MatchHeaderIff(h: string, m: HeaderMatch)
    requires '\n' !in h
    ensures MatchHeader(h) == Some(m) <==> Conforms(h, m)
  {
    MatchSound(h);
    if Conforms(h, m) {
      MatchComplete(h, m);
    }
  }

  /** Once a keyword starts the header, the rest of the pattern alone decides
      the match: no other alternative can start there. */
  lemma AfterKeywordDecides(k: string, rest: string)
    requires k in Keywords
    ensures MatchHeader(k + rest) == MatchAfterType(k, rest)
  {
    var h := k + rest;
    assert forall i :: 0 <= i < |Keywords| ==> Keywords[i] in Keywords;
    assert k <= h;
    OnlyKeywordApplies(Keywords, k, h);
    assert h[|k|..] == rest;
  }

  /** A header that no keyword starts never matches. */
  lemma NoKeywordNeverMatches(h: string)
    requires forall k :: k in Keywords ==> !(k <= h)
    ensures MatchHeader(h).None?
  {
    forall i | 0 <= i < |Keywords|
      ensures Attempt(Keywords[i], h).None?
    {
      assert Keywords[i] in Keywords;
    }
    NoKeywordApplies(Keywords, h);
  }

  /** A keyword followed directly by `!` never matches: the pattern has no
      breaking-change marker. */
  lemma BangAfterTypeNeverMatches(k: string, rest: string)
    requires k in Keywords
    ensures MatchHeader(k + "!" + rest).None?
  {
    assert k + "!" + rest == k + ("!" + rest);
    AfterKeywordDecides(k, "!" + rest);
  }

  /** The colon must be followed by a space. */
  lemma MissingSpaceNeverMatches(k: string, rest: string)
    requires k in Keywords && (rest == [] || rest[0] != ' ')
    ensures MatchHeader(k + ":" + rest).None?
  {
    assert k + ":" + rest == k + (":" + rest);
    AfterKeywordDecides(k, ":" + rest);
  }

  /** Empty parentheses are not a scope, and they cannot stand for the colon either. */
  lemma EmptyScopeNeverMatches(k: string, rest: string)
    requires k in Keywords
    ensures MatchHeader(k + "()" + rest).None?
  {
    var t := "()" + rest;
    assert k + "()" + rest == k + t;
    assert t[1..][0] == ')';
    IndexOfUnique(t[1..], ')', 0);
    AfterKeywordDecides(k, t);
  }

  /** `.+` needs at least one character after ": ", with or without a scope. */
  lemma EmptyDescriptionNeverMatches(k: string, escopo: Option<string>)
    requires k in Keywords
    requires escopo.Some? ==> escopo.value != "" && ')' !in escopo.value
    ensures MatchHeader(k + ScopeText(escopo) + ": ").None?
  {
    var t := ScopeText(escopo) + ": ";
    assert k + ScopeText(escopo) + ": " == k + t;
    EmptyDescriptionAfterType(k, escopo);
    AfterKeywordDecides(k, t);
  }

  lemma EmptyDescriptionAfterType(k: string, escopo: Option<string>)
    requires escopo.Some? ==> escopo.value != "" && ')' !in escopo.value
    ensures MatchAfterType(k, ScopeText(escopo) + ": ").None?
  {
    var t := ScopeText(escopo) + ": ";
    if escopo.Some? {
      var s := escopo.value;
      var inner := t[1..];
      assert inner == s + ")" + ": ";
      assert inner[|s|] == ')' && inner[..|s|] == s;
      IndexOfUnique(inner, ')', |s|);
      assert t[|s| + 2..] == ": ";
    }
  }

  lemma PrefixThenRest(h: string, k: string, st: string, d: string)
    requires k <= h && h[|k|..] == st + ": " + d
    ensures h == k + st + ": " + d
  {
    assert h == h[..|k|] + h[|k|..];
    assert k + (st + ": " + d) == k + st + ": " + d;
  }

  lemma RestAfterPrefix(k: string, st: string, d: string)
    ensures k <= k + st + ": " + d && (k + st + ": " + d)[|k|..] == st + ": " + d
  {
    assert k + st + ": " + d == k + (st + ": " + d);
  }

  lemma NoCharInSuffix(s: string, c: char, n: nat)
    requires c !in s && n <= |s|
    ensures c !in s[n..]
  {
    assert forall u :: 0 <= u < |s| - n ==> s[n..][u] == s[n + u];
  }

  lemma RestOfLineWhole(s: string)
    requires '\n' !in s
    ensures RestOfLine(s) == s
  {
  }
}

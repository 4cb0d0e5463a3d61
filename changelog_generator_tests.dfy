/** The parametrised cases of the parser's unit test, each stated as the
    record the model produces for the test's message and the hash "abc123". */
module ChangelogGeneratorTests {
  import opened Wrappers
  import opened PyStr
  import opened CommitRegex
  import opened ChangelogGenerator

  /** A message made of a header line, a newline and more text that ends in
      non-whitespace: the header is that line and the body the rest, stripped. */
  lemma HeaderAndRest(commitMsg: string, h: string, r: string)
    requires commitMsg == h + "\n" + r
    requires '\n' !in h && h != [] && !IsSpace(h[0])
    requires r != [] && !IsSpace(r[|r| - 1])
    ensures Header(commitMsg) == h && Body(commitMsg) == Some(Strip(r))
  {
    assert commitMsg[0] == h[0] && commitMsg[|commitMsg| - 1] == r[|r| - 1];
    StripTrimmed(commitMsg);
    JoinFirstPiece(h, r);
    assert SplitOnNewline(commitMsg)[1..] == SplitOnNewline(r);
    JoinSplit(r);
  }

  /** A one-line header followed only by whitespace: the header is that line
      and there is no body. */
  lemma HeaderAlone(commitMsg: string, h: string, ws: string)
    requires commitMsg == h + ws && AllSpace(ws)
    requires '\n' !in h && h != [] && !IsSpace(h[0]) && !IsSpace(h[|h| - 1])
    ensures Header(commitMsg) == h && Body(commitMsg).None?
  {
    assert commitMsg[0] == h[0] && commitMsg[|h| - 1] == h[|h| - 1];
    assert forall t :: |h| <= t < |commitMsg| ==> commitMsg[t] == ws[t - |h|];
    StripUnique(commitMsg, 0, |h|);
    assert commitMsg[0..|h|] == h;
  }

  /** The record for a header the pattern matches. */
  lemma AssembleMatched(commitMsg: string, h: string, b: Option<string>, m: HeaderMatch)
    requires Header(commitMsg) == h && Body(commitMsg) == b && MatchHeader(h) == Some(m)
    ensures ParseCommitMessage(commitMsg, "abc123")
         == Parsed("abc123", Msg(m.tipo, m.escopo, m.descripcion, b))
  {
    BodyNeverBlank(commitMsg);
  }

  /** The record for a header the pattern does not match. */
  lemma AssembleUnmatched(commitMsg: string, h: string, b: Option<string>)
    requires Header(commitMsg) == h && Body(commitMsg) == b && MatchHeader(h).None?
    ensures ParseCommitMessage(commitMsg, "abc123")
         == Parsed("abc123", Msg(Otro, None, h, b))
  {
    BodyNeverBlank(commitMsg);
  }

  /** A blank line and then a trimmed body: stripping drops the newline. */
  lemma StripAfterNewline(r: string, b: string)
    requires r == "\n" + b && b != [] && !IsSpace(b[0]) && !IsSpace(b[|b| - 1])
    ensures Strip(r) == b && !IsSpace(r[|r| - 1])
  {
    assert IsSpace('\n');
    StripUnique(r, 1, |r|);
    assert r[1..|r|] == b;
  }

  /** A header line, a blank line and a trimmed body: the header is that line
      and the body is kept as it is. */
  lemma HeaderBlankLineBody(commitMsg: string, h: string, b: string)
    requires commitMsg == h + "\n\n" + b
    requires '\n' !in h && h != [] && !IsSpace(h[0])
    requires b != [] && !IsSpace(b[0]) && !IsSpace(b[|b| - 1])
    ensures Header(commitMsg) == h && Body(commitMsg) == Some(b)
  {
    var r := "\n" + b;
    assert commitMsg == h + "\n" + r;
    StripAfterNewline(r, b);
    HeaderAndRest(commitMsg, h, r);
  }

  // The literal facts each case needs, one per lemma. Each states a single
  // fact about the test's string literals (an equality, a character test);
  // they are kept apart only so that the verifier checks each literal in a
  // small context.

  lemma TestBodiesTrimmed(b: string)
    requires b == "Agregar caracteristica importante." || b == "Arreglar error fatal."
    ensures b != [] && !IsSpace(b[0]) && !IsSpace(b[|b| - 1])
  {
  }

  lemma FeatApiHeaderLine(h: string)
    requires h == "feat(api): agregar caracteristica"
    ensures '\n' !in h && h != [] && !IsSpace(h[0]) && !IsSpace(h[|h| - 1])
  {
  }

  lemma FeatApiHeaderPieces(h: string)
    requires h == "feat(api): agregar caracteristica"
    ensures h == "feat" + ScopeText(Some("api")) + ": " + "agregar caracteristica"
  {
  }

  lemma FeatApiHeaderMatches(d: string)
    requires d == "agregar caracteristica"
    ensures MatchHeader("feat" + ScopeText(Some("api")) + ": " + d) == Some(HeaderMatch("feat", Some("api"), d))
  {
    MatchComplete("feat" + ScopeText(Some("api")) + ": " + d, HeaderMatch("feat", Some("api"), d));
  }

  lemma ScopeAndBodySplits(commitMsg: string)
    requires commitMsg == "feat(api): agregar caracteristica\n\nAgregar caracteristica importante."
    ensures commitMsg == "feat(api): agregar caracteristica" + "\n\n" + "Agregar caracteristica importante."
  {
  }

  lemma ScopeAndBodyParts(commitMsg: string)
    requires commitMsg == "feat(api): agregar caracteristica\n\nAgregar caracteristica importante."
    ensures Header(commitMsg) == "feat(api): agregar caracteristica"
    ensures Body(commitMsg) == Some("Agregar caracteristica importante.")
  {
    var h := "feat(api): agregar caracteristica";
    ScopeAndBodySplits(commitMsg);
    FeatApiHeaderLine(h);
    TestBodiesTrimmed("Agregar caracteristica importante.");
    HeaderBlankLineBody(commitMsg, h, "Agregar caracteristica importante.");
  }

  /** tests/test_changelog_generator.py:10-15: type, scope, description and body. */
  lemma ExampleScopeAndBody(commitMsg: string)
    requires commitMsg == "feat(api): agregar caracteristica\n\nAgregar caracteristica importante."
    ensures ParseCommitMessage(commitMsg, "abc123")
         == Parsed("abc123", Msg("feat", Some("api"), "agregar caracteristica", Some("Agregar caracteristica importante.")))
  {
    var h := "feat(api): agregar caracteristica";
    ScopeAndBodyParts(commitMsg);
    FeatApiHeaderPieces(h);
    FeatApiHeaderMatches("agregar caracteristica");
    AssembleMatched(commitMsg, h, Some("Agregar caracteristica importante."),
      HeaderMatch("feat", Some("api"), "agregar caracteristica"));
  }

  lemma FixHeaderLine(h: string)
    requires h == "fix: arreglar error"
    ensures '\n' !in h && h != [] && !IsSpace(h[0])
  {
  }

  lemma FixHeaderPieces(h: string)
    requires h == "fix: arreglar error"
    ensures h == "fix" + ScopeText(None) + ": " + "arreglar error"
  {
  }

  lemma FixHeaderMatches(d: string)
    requires d == "arreglar error"
    ensures MatchHeader("fix" + ScopeText(None) + ": " + d) == Some(HeaderMatch("fix", None, d))
  {
    MatchComplete("fix" + ScopeText(None) + ": " + d, HeaderMatch("fix", None, d));
  }

  lemma NoScopeSplits(commitMsg: string)
    requires commitMsg == "fix: arreglar error\n\nArreglar error fatal."
    ensures commitMsg == "fix: arreglar error" + "\n\n" + "Arreglar error fatal."
  {
  }

  lemma NoScopeParts(commitMsg: string)
    requires commitMsg == "fix: arreglar error\n\nArreglar error fatal."
    ensures Header(commitMsg) == "fix: arreglar error"
    ensures Body(commitMsg) == Some("Arreglar error fatal.")
  {
    var h := "fix: arreglar error";
    NoScopeSplits(commitMsg);
    FixHeaderLine(h);
    TestBodiesTrimmed("Arreglar error fatal.");
    HeaderBlankLineBody(commitMsg, h, "Arreglar error fatal.");
  }

  /** tests/test_changelog_generator.py:16-22: no scope. */
  lemma ExampleNoScope(commitMsg: string)
    requires commitMsg == "fix: arreglar error\n\nArreglar error fatal."
    ensures ParseCommitMessage(commitMsg, "abc123")
         == Parsed("abc123", Msg("fix", None, "arreglar error", Some("Arreglar error fatal.")))
  {
    var h := "fix: arreglar error";
    NoScopeParts(commitMsg);
    FixHeaderPieces(h);
    FixHeaderMatches("arreglar error");
    AssembleMatched(commitMsg, h, Some("Arreglar error fatal."), HeaderMatch("fix", None, "arreglar error"));
  }

  lemma InitialCommitShape(h: string)
    requires h == "commit inicial"
    ensures h == h + "" && AllSpace("")
    ensures '\n' !in h && h != [] && !IsSpace(h[0]) && !IsSpace(h[|h| - 1])
  {
  }

  lemma InitialCommitStartsWithNoKeyword(h: string)
    requires h == "commit inicial"
    ensures forall k :: k in Keywords ==> !(k <= h)
  {
    forall k | k in Keywords
      ensures !(k <= h)
    {
      KeywordCases(k);
      assert |k| >= 2 && h[0] == 'c' && h[1] == 'o';
    }
  }

  /** tests/test_changelog_generator.py:23: not a conventional header. */
  lemma ExampleNotConventional(commitMsg: string)
    requires commitMsg == "commit inicial"
    ensures ParseCommitMessage(commitMsg, "abc123")
         == Parsed("abc123", Msg("otro", None, "commit inicial", None))
  {
    InitialCommitShape(commitMsg);
    HeaderAlone(commitMsg, commitMsg, "");
    InitialCommitStartsWithNoKeyword(commitMsg);
    NoKeywordNeverMatches(commitMsg);
    AssembleUnmatched(commitMsg, commitMsg, None);
  }

  lemma TrailingNewlinesSplits(commitMsg: string)
    requires commitMsg == "feat(api): agregar caracteristica\n\n\n\n\n"
    ensures commitMsg == "feat(api): agregar caracteristica" + "\n\n\n\n\n" && AllSpace("\n\n\n\n\n")
  {
  }

  /** tests/test_changelog_generator.py:24-30: trailing newlines leave no body. */
  lemma ExampleTrailingNewlines(commitMsg: string)
    requires commitMsg == "feat(api): agregar caracteristica\n\n\n\n\n"
    ensures ParseCommitMessage(commitMsg, "abc123")
         == Parsed("abc123", Msg("feat", Some("api"), "agregar caracteristica", None))
  {
    var h := "feat(api): agregar caracteristica";
    TrailingNewlinesSplits(commitMsg);
    FeatApiHeaderLine(h);
    HeaderAlone(commitMsg, h, "\n\n\n\n\n");
    FeatApiHeaderPieces(h);
    FeatApiHeaderMatches("agregar caracteristica");
    AssembleMatched(commitMsg, h, None, HeaderMatch("feat", Some("api"), "agregar caracteristica"));
  }

  lemma BangHeaderLine(h: string)
    requires h == "feat!(break): agregar caracteristica"
    ensures '\n' !in h && h != [] && !IsSpace(h[0])
  {
  }

  lemma BangHeaderPieces(h: string)
    requires h == "feat!(break): agregar caracteristica"
    ensures h == "feat" + "!" + "(break): agregar caracteristica"
  {
  }

  lemma BreakingMarkerSplits(commitMsg: string)
    requires commitMsg == "feat!(break): agregar caracteristica\n\nAgregar caracteristica importante."
    ensures commitMsg == "feat!(break): agregar caracteristica" + "\n\n" + "Agregar caracteristica importante."
  {
  }

  lemma BreakingMarkerParts(commitMsg: string)
    requires commitMsg == "feat!(break): agregar caracteristica\n\nAgregar caracteristica importante."
    ensures Header(commitMsg) == "feat!(break): agregar caracteristica"
    ensures Body(commitMsg) == Some("Agregar caracteristica importante.")
  {
    var h := "feat!(break): agregar caracteristica";
    BreakingMarkerSplits(commitMsg);
    BangHeaderLine(h);
    TestBodiesTrimmed("Agregar caracteristica importante.");
    HeaderBlankLineBody(commitMsg, h, "Agregar caracteristica importante.");
  }

  /** tests/test_changelog_generator.py:31-37 expects type "BREAKING CHANGE"
      and scope "break"; the pattern has no `!`, so the code gives "otro",
      no scope, and the whole header as description. */
  lemma ExampleBreakingMarker(commitMsg: string)
    requires commitMsg == "feat!(break): agregar caracteristica\n\nAgregar caracteristica importante."
    ensures ParseCommitMessage(commitMsg, "abc123")
         == Parsed("abc123", Msg("otro", None, "feat!(break): agregar caracteristica", Some("Agregar caracteristica importante.")))
  {
    var h := "feat!(break): agregar caracteristica";
    BreakingMarkerParts(commitMsg);
    BangHeaderPieces(h);
    BangAfterTypeNeverMatches("feat", "(break): agregar caracteristica");
    AssembleUnmatched(commitMsg, h, Some("Agregar caracteristica importante."));
  }

  /** The first case, against the function as written: it raises instead of
      returning the expected record. */
  lemma ExampleAsWrittenRaises(commitMsg: string)
    requires commitMsg == "feat(api): agregar caracteristica\n\nAgregar caracteristica importante."
    ensures ParseCommitMessageAsWritten(commitMsg, "abc123") == RaisedIndexError
  {
    ExampleScopeAndBody(commitMsg);
  }

  // Headers close to the pattern's shape that it rejects; the parser gives
  // each of them the type "otro".

  /** "feat:x": no space after the colon. */
  lemma NearMissNoSpace(h: string)
    requires h == "feat:x"
    ensures MatchHeader(h).None?
  {
    assert h == "feat" + ":" + "x";
    MissingSpaceNeverMatches("feat", "x");
  }

  /** "feat(): x": an empty scope. */
  lemma NearMissEmptyScope(h: string)
    requires h == "feat(): x"
    ensures MatchHeader(h).None?
  {
    assert h == "feat" + "()" + ": x";
    EmptyScopeNeverMatches("feat", ": x");
  }

  /** "Feat: x": the keywords are matched case-sensitively. */
  lemma NearMissCapitalised(h: string)
    requires h == "Feat: x"
    ensures MatchHeader(h).None?
  {
    forall k | k in Keywords
      ensures !(k <= h)
    {
      KeywordCases(k);
      assert h[0] == 'F';
    }
    NoKeywordNeverMatches(h);
  }

  /** "feat: ": nothing after the colon and space. */
  lemma NearMissEmptyDescription(h: string)
    requires h == "feat: "
    ensures MatchHeader(h).None?
  {
    assert h == "feat" + ScopeText(None) + ": ";
    EmptyDescriptionNeverMatches("feat", None);
  }
}

/** `parse_commit_message`: one raw commit message and its hash become the
    record `{"commit": hash, "mensaje": {"tipo", "escopo", "descripcion", "cuerpo"}}`. */
module ChangelogGenerator {
  import opened Wrappers
  import opened PyStr
  import opened CommitRegex

  /** The `"mensaje"` dictionary; `None` fields are Python's `None`. */
  datatype Msg = Msg(tipo: string, escopo: Option<string>, descripcion: string, cuerpo: Option<string>)

  /** The returned dictionary. */
  datatype Parsed = Parsed(commit: string, mensaje: Msg)

  /** The type given to a header the pattern does not match. */
  const Otro: string := "otro"

  /** The header: the first line of the stripped message. It is a prefix of the
      stripped message that ends where the message or its first line ends, it
      holds no newline, and it starts with non-whitespace unless it is empty. */
  function Header(commitMsg: string): (h: string)
    ensures '\n' !in h
    ensures h <= Strip(commitMsg)
    ensures |h| == |Strip(commitMsg)| || Strip(commitMsg)[|h|] == '\n'
    ensures h == [] || !IsSpace(h[0])
  {
    var s := Strip(commitMsg);
    FirstPieceIsFirstLine(s);
    assert SplitOnNewline(s)[0] != [] ==> SplitOnNewline(s)[0][0] == s[0];
    SplitOnNewline(s)[0]
  }

  /** The body before `or None`: absent when the stripped message is a single
      line, otherwise the text after its first newline, stripped. */
  function Body(commitMsg: string): (b: Option<string>)
    ensures b.None? <==> '\n' !in Strip(commitMsg)
    ensures b.Some? ==>
      var s := Strip(commitMsg);
      b.value == Strip(s[IndexOf(s, '\n') + 1..])
  {
    var s := Strip(commitMsg);
    var lines := SplitOnNewline(s);
    if |lines| > 1 then
      RemainderAfterFirstLine(s);
      Some(Strip(JoinWithNewline(lines[1..])))
    else None
  }

  /** Python's `body or None`: both `None` and `""` become `None`. */
  function OrNone(body: Option<string>): (r: Option<string>)
    ensures r.Some? <==> body.Some? && body.value != ""
    ensures r.Some? ==> r == body
  {
    if body.Some? && body.value != "" then body else None
  }

  /** `parse_commit_message(commit_msg, commit_hash)`. The group-3 read of
      the description is taken to be the `.+` after ": ". */
  function ParseCommitMessage(commitMsg: string, commitHash: string): (p: Parsed)
    ensures p.commit == commitHash
    ensures p.mensaje.tipo in Keywords || p.mensaje.tipo == Otro
  {
    var header := Header(commitMsg);
    var cuerpo := OrNone(Body(commitMsg));
    var mensaje :=
      match MatchHeader(header)
      case Some(m) => Msg(m.tipo, m.escopo, m.descripcion, cuerpo)
      case None => Msg(Otro, None, header, cuerpo);
    Parsed(commitHash, mensaje)
  }

  /** The outcome of a Python call: a value, or the `IndexError` that
      `match.group(3)` raises on a pattern with two groups. */
  datatype Outcome = Returned(value: Parsed) | RaisedIndexError

  /** `parse_commit_message` exactly as written: on a matching header line 61
      asks for a third group that the pattern does not define. */
  function ParseCommitMessageAsWritten(commitMsg: string, commitHash: string): (o: Outcome)
    ensures o.Returned? ==> o.value.mensaje.tipo == Otro
  {
    if MatchHeader(Header(commitMsg)).Some? then RaisedIndexError
    else Returned(ParseCommitMessage(commitMsg, commitHash))
  }

  /** "otro" is not a keyword, so it marks exactly the unmatched headers. */
  lemma OtroIsNotAKeyword()
    ensures Otro !in Keywords
  {
    if Otro in Keywords {
      KeywordCases(Otro);
    }
  }

  /** The hash is copied verbatim and nothing else depends on it. */
  lemma CommitIsTheHash(commitMsg: string, hash1: string, hash2: string)
    ensures ParseCommitMessage(commitMsg, hash1).commit == hash1
    ensures ParseCommitMessage(commitMsg, hash1).mensaje == ParseCommitMessage(commitMsg, hash2).mensaje
  {
  }

  /** A matched header: the record's fields are the pattern's captures, and
      they are the only decomposition of the header into the pattern's shape. */
  lemma MatchedFieldsIff(commitMsg: string, commitHash: string, m: HeaderMatch)
    ensures var msg := ParseCommitMessage(commitMsg, commitHash).mensaje;
      (msg.tipo in Keywords && HeaderMatch(msg.tipo, msg.escopo, msg.descripcion) == m)
      <==> Conforms(Header(commitMsg), m)
  {
    var h := Header(commitMsg);
    MatchHeaderIff(h, m);
    OtroIsNotAKeyword();
  }

  /** A matched header is rebuilt exactly from the fields: the type, the scope
      in parentheses when present, ": " and the description. */
  lemma MatchedHeaderRebuilt(commitMsg: string, commitHash: string)
    requires ParseCommitMessage(commitMsg, commitHash).mensaje.tipo != Otro
    ensures var msg := ParseCommitMessage(commitMsg, commitHash).mensaje;
      Conforms(Header(commitMsg), HeaderMatch(msg.tipo, msg.escopo, msg.descripcion))
  {
    MatchSound(Header(commitMsg));
  }

  /** A header not of the pattern's shape falls back to "otro", no scope, and
      the whole header as description. */
  lemma UnmatchedHeaderFallsBack(commitMsg: string, commitHash: string)
    requires forall m :: !Conforms(Header(commitMsg), m)
    ensures var msg := ParseCommitMessage(commitMsg, commitHash).mensaje;
      msg.tipo == Otro && msg.escopo.None? && msg.descripcion == Header(commitMsg)
  {
    MatchSound(Header(commitMsg));
  }

  /** The description is empty exactly when the message is blank; otherwise
      it is the non-empty `.+` capture or the non-empty header. */
  lemma DescripcionEmptyIffBlank(commitMsg: string, commitHash: string)
    ensures ParseCommitMessage(commitMsg, commitHash).mensaje.descripcion == "" <==> AllSpace(commitMsg)
  {
    var h := Header(commitMsg);
    var s := Strip(commitMsg);
    MatchSound(h);
    assert IsSpace('\n');
  }

  /** A blank message (empty or all whitespace) gives header "", type "otro",
      description "" and no body. */
  lemma BlankMessage(commitMsg: string, commitHash: string)
    requires AllSpace(commitMsg)
    ensures ParseCommitMessage(commitMsg, commitHash).mensaje == Msg(Otro, None, "", None)
  {
    assert Header(commitMsg) == "";
    forall i | 0 <= i < |Keywords|
      ensures Attempt(Keywords[i], "").None?
    {
      KeywordCases(Keywords[i]);
    }
    NoKeywordApplies(Keywords, "");
  }

  /** The stripped message ends in non-whitespace, so whatever follows its
      first newline still holds non-whitespace: the body is never "". */
  lemma BodyNeverBlank(commitMsg: string)
    ensures Body(commitMsg) != Some("")
  {
    var s := Strip(commitMsg);
    if '\n' in s {
      var i := IndexOf(s, '\n');
      assert IsSpace('\n');
      var rest := s[i + 1..];
      assert rest[|rest| - 1] == s[|s| - 1];
      assert !AllSpace(rest);
    }
  }

  /** The body is absent exactly when the stripped message is one line;
      otherwise it is the text after the first newline, stripped, and it is
      non-empty with no whitespace at either end. */
  lemma CuerpoCases(commitMsg: string, commitHash: string)
    ensures var c := ParseCommitMessage(commitMsg, commitHash).mensaje.cuerpo;
      && (c.None? <==> '\n' !in Strip(commitMsg))
      && (c.Some? ==>
            var s := Strip(commitMsg);
            && c.value == Strip(s[IndexOf(s, '\n') + 1..])
            && c.value != ""
            && !IsSpace(c.value[0]) && !IsSpace(c.value[|c.value| - 1]))
  {
    CuerpoIsBody(commitMsg, commitHash);
    BodyOrNoneCases(commitMsg);
  }

  /** The proof of `CuerpoCases` with the record set aside: the same facts
      about `OrNone(Body(commitMsg))`. */
  lemma BodyOrNoneCases(commitMsg: string)
    ensures var c := OrNone(Body(commitMsg));
      && (c.None? <==> '\n' !in Strip(commitMsg))
      && (c.Some? ==>
            var s := Strip(commitMsg);
            && c.value == Strip(s[IndexOf(s, '\n') + 1..])
            && c.value != ""
            && !IsSpace(c.value[0]) && !IsSpace(c.value[|c.value| - 1]))
  {
    BodyNeverBlank(commitMsg);
    var b := Body(commitMsg);
    if b.Some? {
      assert OrNone(b) == b;
      var s := Strip(commitMsg);
      assert b.value == Strip(s[IndexOf(s, '\n') + 1..]);
    }
  }

  lemma CuerpoIsBody(commitMsg: string, commitHash: string)
    ensures ParseCommitMessage(commitMsg, commitHash).mensaje.cuerpo == OrNone(Body(commitMsg))
  {
  }

  /** A keyword followed by `!` is not recognised: the header is "otro" with no
      scope and itself as description, whatever follows the marker. */
  lemma BreakingMarkerIsOtro(commitMsg: string, commitHash: string, k: string, rest: string)
    requires k in Keywords && Header(commitMsg) == k + "!" + rest
    ensures var msg := ParseCommitMessage(commitMsg, commitHash).mensaje;
      msg.tipo == Otro && msg.escopo.None? && msg.descripcion == Header(commitMsg)
  {
    BangAfterTypeNeverMatches(k, rest);
  }

  /** As written, the function raises on exactly the headers it was meant to
      parse, and agrees with the intended parser on every other message. */
  lemma AsWrittenRaisesOnEveryMatch(commitMsg: string, commitHash: string)
    ensures ParseCommitMessageAsWritten(commitMsg, commitHash).RaisedIndexError?
      <==> ParseCommitMessage(commitMsg, commitHash).mensaje.tipo != Otro
    ensures ParseCommitMessageAsWritten(commitMsg, commitHash).Returned? ==>
      ParseCommitMessageAsWritten(commitMsg, commitHash).value == ParseCommitMessage(commitMsg, commitHash)
  {
    OtroIsNotAKeyword();
  }
}

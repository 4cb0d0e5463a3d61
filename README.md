# Conventional-commit parser of the changelog generator

This project is a Dafny model of the commit-message parser in
`scripts/changelog_generator.py`: the header pattern `COMMIT_REGEX` and
`parse_commit_message(commit_msg, commit_hash)`. The parser takes a raw
commit message and its hash and returns the record
`{"commit": hash, "mensaje": {"tipo", "escopo", "descripcion", "cuerpo"}}`.
It works in four steps:

1. It strips the message and splits it on `"\n"`.
2. The first line is the header. The remaining lines are re-joined, stripped, and kept as the body unless the result is empty.
3. The header is matched against
   `^(feat|fix|chore|docs|refactor|test|style|perf|ci|build|revert)(\([^)]+\))?: .+`.
4. On a match, the captures give the type, the scope and the description. Otherwise the type is `"otro"`, there is no scope, and the description is the whole header.

Files and modules:

- `wrappers.dfy` (`Wrappers`): `Option`, standing for Python's `None`.
- `pystr.dfy` (`PyStr`): models the pieces of Python's `str` the parser uses. These are `strip()` with Python's full `isspace` table, `split("\n")` and `"\n".join(...)`. `IndexOf` is the search for the first newline on which the split model relies. The module also proves that split and join are inverses.
- `commit_regex.dfy` (`CommitRegex`): a hand-written matcher for this one pattern. It tries the keywords in the alternation's order and tries the greedy optional scope group before skipping it, as Python's `re` does. It is proved sound and complete against a declarative description of the pattern's shape (`Conforms`).
- `changelog_generator.dfy` (`ChangelogGenerator`) contains the parser and its properties. It also has the function as written, which raises on `match.group(3)` (see Findings).
- `changelog_generator_tests.dfy` (`ChangelogGeneratorTests`) has two parts:
  - the five parametrised cases of `tests/test_changelog_generator.py`, each stated as the record the model produces;
  - near-miss headers that the pattern rejects.

Decisions where the code, its tests and the Conventional Commits 1.0.0 specification disagree:

- **Description.** The description is taken to be the `.+` after `": "`. The code reads it as a third capture group, but the pattern has only two (see Findings). The tests expect the `.+` text.
- **The `!` marker.** The pattern has no breaking-change `!`. The code therefore classifies `"feat!(break): ..."` as `"otro"`, with no scope and the whole header as description. The test at `tests/test_changelog_generator.py:31-37` expects type `"BREAKING CHANGE"` and scope `"break"`, and item 13 of Conventional Commits 1.0.0 lets a `!` before the colon mark a breaking change. The model follows the code (`BreakingMarkerIsOtro`, `ExampleBreakingMarker`).
- **Blank messages.** Item 5 of Conventional Commits 1.0.0 requires a description after the colon and space. The code gives `""` for an empty or all-whitespace message, and the model follows the code (`BlankMessage`, `DescripcionEmptyIffBlank`).
- **Stripping.** The code strips the whole message before splitting it (scripts/changelog_generator.py:52), so leading blank lines never give an empty header (`Header`).

## Model

| member | source | states |
|---|---|---|
| PyStr.Strip | scripts/changelog_generator.py:52 | `strip()` yields the empty string exactly when the input is all whitespace; otherwise its result starts and ends with non-whitespace |
| PyStr.StripUnique | scripts/changelog_generator.py:52 | any split of a string into leading whitespace, a trimmed middle and trailing whitespace has `strip()` equal to that middle |
| PyStr.StripTrimmed | scripts/changelog_generator.py:54 | a string with no whitespace at either end is unchanged by `strip()` |
| PyStr.StripIdempotent | scripts/changelog_generator.py:54 | stripping twice is the same as stripping once |
| PyStr.IndexOf | scripts/changelog_generator.py:52 | the position found holds the searched character and no earlier position does |
| PyStr.IndexOfUnique | scripts/changelog_generator.py:52 | the first occurrence of a character is unique |
| PyStr.SplitOnNewline | scripts/changelog_generator.py:52 | `split("\n")` gives at least one piece and no piece contains a newline |
| PyStr.JoinSplit | scripts/changelog_generator.py:52-54 | re-joining the pieces of a split with `"\n"` gives back the original string |
| PyStr.SplitJoin | scripts/changelog_generator.py:52-54 | splitting a join of newline-free pieces gives back the pieces |
| PyStr.JoinFirstPiece | scripts/changelog_generator.py:52-53 | splitting `p + "\n" + rest`, with `p` newline-free, yields `p` followed by the pieces of `rest` |
| PyStr.RemainderAfterFirstLine | scripts/changelog_generator.py:54 | `"\n".join(lines[1:])` is exactly the text after the first newline |
| PyStr.RestOfLine | scripts/changelog_generator.py:34 | `.+` takes the longest newline-free prefix, which ends at a newline or at the end of the text |
| PyStr.FirstPieceIsFirstLine | scripts/changelog_generator.py:53 | `lines[0]` is the text up to the first newline |
| CommitRegex.MatchColonDescription | scripts/changelog_generator.py:34 | `: .+` succeeds only after a literal ": ", with a non-empty newline-free description |
| CommitRegex.MatchScopeGroup | scripts/changelog_generator.py:34 | the scope group takes "(", a non-empty run without ")", then ")", and the text is rebuilt from these pieces |
| CommitRegex.MatchAfterType | scripts/changelog_generator.py:34 | a match after a keyword carries that keyword as its type |
| CommitRegex.Attempt | scripts/changelog_generator.py:34 | an alternative succeeds only when its keyword is at position 0 |
| CommitRegex.MatchAlternatives | scripts/changelog_generator.py:34 | the alternation's result comes from one of the tried keywords, and it is that keyword's own attempt |
| CommitRegex.MatchHeader | scripts/changelog_generator.py:56 | `re.match` on the header yields a type from the 11 keywords |
| CommitRegex.KeywordsPrefixFree | scripts/changelog_generator.py:34 | no keyword is a prefix of another |
| CommitRegex.OtherKeywordFails | scripts/changelog_generator.py:34 | when one keyword starts the header, every other alternative fails |
| CommitRegex.NoKeywordApplies | scripts/changelog_generator.py:34 | when every alternative fails, the alternation fails |
| CommitRegex.OnlyKeywordApplies | scripts/changelog_generator.py:34 | when a keyword starts the header, the alternation's result equals that keyword's attempt |
| CommitRegex.ColonDescriptionWhole | scripts/changelog_generator.py:34 | on a one-line text, `: .+` consumes all of it |
| CommitRegex.ColonDescriptionComplete | scripts/changelog_generator.py:34 | ": " followed by a non-empty one-line description matches with that description |
| CommitRegex.ScopeBranchSound | scripts/changelog_generator.py:34 | when the scope group takes part, the text is "(" scope ")" ": " description, with a newline-free description |
| CommitRegex.MatchAfterTypeSound | scripts/changelog_generator.py:34 | a match after the keyword has a valid scope and a non-empty one-line description, and the text is rebuilt from them |
| CommitRegex.MatchSound | scripts/changelog_generator.py:34 | every match of a one-line header conforms to the pattern's shape and rebuilds the header |
| CommitRegex.ScopeGroupComplete | scripts/changelog_generator.py:34 | a non-empty scope without ")" in parentheses is taken whole by the group |
| CommitRegex.ScopedAfterTypeComplete | scripts/changelog_generator.py:34 | "(" scope ")" ": " description matches with that scope and description |
| CommitRegex.UnscopedAfterTypeComplete | scripts/changelog_generator.py:34 | ": " description matches with no scope |
| CommitRegex.MatchAfterTypeComplete | scripts/changelog_generator.py:34 | every text of the shape after a keyword matches with exactly its scope and description |
| CommitRegex.MatchComplete | scripts/changelog_generator.py:34 | every header of the pattern's shape matches with exactly its keyword, scope and description |
| CommitRegex.MatchHeaderIff | scripts/changelog_generator.py:56 | on a one-line header, matching with given captures holds exactly when the header conforms with those captures (both directions) |
| CommitRegex.AfterKeywordDecides | scripts/changelog_generator.py:34 | after a keyword at position 0, the rest of the pattern alone decides the match |
| CommitRegex.NoKeywordNeverMatches | scripts/changelog_generator.py:34 | a header that no keyword starts does not match |
| CommitRegex.BangAfterTypeNeverMatches | scripts/changelog_generator.py:34 | a keyword followed by "!" never matches |
| CommitRegex.MissingSpaceNeverMatches | scripts/changelog_generator.py:34 | a keyword followed by ":" without a space never matches |
| CommitRegex.EmptyScopeNeverMatches | scripts/changelog_generator.py:34 | a keyword followed by "()" never matches |
| CommitRegex.EmptyDescriptionNeverMatches | scripts/changelog_generator.py:34 | a keyword, an optional valid scope and ": " with nothing after it never matches |
| CommitRegex.EmptyDescriptionAfterType | scripts/changelog_generator.py:34 | after the keyword, a scope and ": " with nothing further fails |
| ChangelogGenerator.Header | scripts/changelog_generator.py:52-53 | the header is the first line of the stripped message: a prefix of it that ends at its first newline or its end, newline-free, and without leading whitespace |
| ChangelogGenerator.Body | scripts/changelog_generator.py:54 | the body is absent exactly when the stripped message is one line; otherwise it is the stripped text after the first newline |
| ChangelogGenerator.ParseCommitMessage | scripts/changelog_generator.py:36-75 | the record carries the hash, and its type is one of the 11 keywords or "otro" |
| ChangelogGenerator.ParseCommitMessageAsWritten | scripts/changelog_generator.py:56-65 | the function as written returns only for unmatched headers, with type "otro" |
| ChangelogGenerator.OtroIsNotAKeyword | scripts/changelog_generator.py:63 | the fallback type "otro" is not among the keywords |
| ChangelogGenerator.CommitIsTheHash | scripts/changelog_generator.py:68 | `commit` is the hash argument, and the message fields do not depend on the hash |
| ChangelogGenerator.MatchedFieldsIff | scripts/changelog_generator.py:56-61 | the record has a keyword type with given captures exactly when the header conforms to the pattern with those captures |
| ChangelogGenerator.MatchedHeaderRebuilt | scripts/changelog_generator.py:59-61 | for a matched header, the header is type + "(" scope ")" if present + ": " + description |
| ChangelogGenerator.UnmatchedHeaderFallsBack | scripts/changelog_generator.py:62-65 | a header without the pattern's shape gives "otro", no scope, and the header verbatim as description |
| ChangelogGenerator.DescripcionEmptyIffBlank | scripts/changelog_generator.py:52-65 | the description is empty exactly when the message is all whitespace |
| ChangelogGenerator.BlankMessage | scripts/changelog_generator.py:52-65 | an empty or all-whitespace message gives type "otro", no scope, description "" and no body |
| ChangelogGenerator.BodyNeverBlank | scripts/changelog_generator.py:54 | the stripped remainder is never the empty string |
| ChangelogGenerator.CuerpoCases | scripts/changelog_generator.py:54 | `cuerpo` is absent exactly when the stripped message is one line; otherwise it is the stripped text after the first newline, non-empty and trimmed |
| ChangelogGenerator.BreakingMarkerIsOtro | scripts/changelog_generator.py:34 | a header of a keyword followed by "!" gives "otro", no scope, and the header as description |
| ChangelogGenerator.AsWrittenRaisesOnEveryMatch | scripts/changelog_generator.py:61 | as written, the function raises exactly on the headers the intended parser matches, and agrees with it everywhere else |
| ChangelogGeneratorTests.HeaderAndRest | scripts/changelog_generator.py:52-54 | a header line, a newline and text ending in non-whitespace give that header and the stripped text as body |
| ChangelogGeneratorTests.HeaderBlankLineBody | scripts/changelog_generator.py:52-54 | a header line, a blank line and a body with no whitespace at either end give that header and exactly that body |
| ChangelogGeneratorTests.HeaderAlone | scripts/changelog_generator.py:52-54 | a header line followed only by whitespace gives that header and no body |
| ChangelogGeneratorTests.ExampleScopeAndBody | tests/test_changelog_generator.py:10-15 | the first test message gives feat / api / "agregar caracteristica" / its body |
| ChangelogGeneratorTests.ExampleNoScope | tests/test_changelog_generator.py:16-22 | the second test message gives fix / no scope / "arreglar error" / its body |
| ChangelogGeneratorTests.ExampleNotConventional | tests/test_changelog_generator.py:23 | "commit inicial" gives otro / no scope / the header / no body |
| ChangelogGeneratorTests.ExampleTrailingNewlines | tests/test_changelog_generator.py:24-30 | a header followed only by newlines gives no body |
| ChangelogGeneratorTests.ExampleBreakingMarker | tests/test_changelog_generator.py:31-37 | the `!` test message gives otro / no scope / the whole header, not the expected "BREAKING CHANGE" |
| ChangelogGeneratorTests.ExampleAsWrittenRaises | scripts/changelog_generator.py:61 | the first test message makes the function as written raise |
| ChangelogGeneratorTests.NearMissNoSpace | scripts/changelog_generator.py:34 | "feat:x" does not match |
| ChangelogGeneratorTests.NearMissEmptyScope | scripts/changelog_generator.py:34 | "feat(): x" does not match |
| ChangelogGeneratorTests.NearMissCapitalised | scripts/changelog_generator.py:34 | "Feat: x" does not match |
| ChangelogGeneratorTests.NearMissEmptyDescription | scripts/changelog_generator.py:34 | "feat: " does not match |

## Left out

- `get_commits_since_last_tag` (scripts/changelog_generator.py:77-106) is left out. It is repository I/O through GitPython: it reads tags, sorts them by commit date and walks the commit history. Its only logic around the parser is the "no tags" error and the reordering to oldest-first.
- The `__main__` block (scripts/changelog_generator.py:108-131) is left out. It handles argument parsing, JSON serialisation and file writing.
- `calcular_siguiente_version`, `generar_changelog_md` and `crear_tag` are called by the tests, but they are not part of this model. Their definitions do not appear in `scripts/changelog_generator.py`.
- The git-backed tests and the fixtures in `tests/conftest.py` are left out. They create temporary repositories and tags.
- Python's general regular-expression engine is left out. Only the single pattern of line 34 is modelled, by a hand-written matcher with the same alternation order and greedy optional group.
- Strings are modelled as Dafny strings, whose characters are Unicode scalar values. A Python `str` may also hold lone surrogates (U+D800 to U+DFFF); messages containing them are not modelled. Encodings and byte-level behaviour are not modelled either.

## Findings

| source | as written | input that shows it | evidently intended | confidence | as-written member | corrected member |
|---|---|---|---|---|---|---|
| scripts/changelog_generator.py:61 | `match.group(3)` on a pattern with only two groups raises `IndexError` whenever the header matches | `parse_commit_message("feat(api): agregar caracteristica\n\nAgregar caracteristica importante.", "abc123")` | the description is the text `.+` matches after ": " (as the tests at tests/test_changelog_generator.py:13 and :20 expect) | high; not executed | ChangelogGenerator.ParseCommitMessageAsWritten (AsWrittenRaisesOnEveryMatch, ChangelogGeneratorTests.ExampleAsWrittenRaises) | ChangelogGenerator.ParseCommitMessage (MatchedFieldsIff, MatchedHeaderRebuilt) |

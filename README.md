# Normcore string rules in Dafny

Normcore normalises music metadata: artist names, track and album titles,
and record-label names. This project models two parts of it:

- the rule catalogue of the `Transforms` class;
- the skip-if-empty reduction step that `Normcore::transform` folds over a
  list of rule names.

Both are pure PHP, so the model is a set of datatypes, functions and lemmas.

The PCRE patterns have no `u` flag, and `strtolower`, `str_replace` and
`trim` work on bytes. So a string is a sequence of characters below 256
(`ByteStrings.Bytes`), and every regular expression is written out as a
recursive function over that sequence. Two byte sets are kept apart:

- PCRE's `\s`: tab, newline, vertical tab, form feed, carriage return, space;
- PHP `trim`'s default set: space, tab, newline, carriage return, NUL,
  vertical tab.

`empty()` on a string is true for `""` and for `"0"` (`ByteStrings.PhpEmpty`).
The `$` anchor also matches just before a final newline; this is modelled
(`ByteStrings.AnchorEnd`, `ByteStrings.IsDollarPosition`), not excluded by a
precondition.

Files:

- `bytes.dfy`, module `ByteStrings`: bytes, the two byte classes, ASCII
  case, caseless literal equality, the order-keeping filter `Retain`, and
  PHP `trim`.
- `transforms.dfy`, module `Transforms`:
  - one function per rule of `src/Transforms.php`;
  - `preg_split('/(\s)+/')` and `implode(' ')` for `filterRedundantWords`;
  - the leftmost-match search behind `preg_split` with `array_shift` for the
    two marker rules;
  - the anchored alternation behind `removeSuffix` and its four users;
  - the lemmas about all of these.
- `normcore.dfy`, module `Normcore`:
  - the rule names as a datatype;
  - `Apply`, which replaces the dynamic `Transforms::$function` call;
  - the closure as `Step`, and the `array_reduce` fold as `Reduce`;
  - the lemmas about the fold.
- `scenarios.dfy`, modules `Scenarios` and `ReductionScenarios`: inputs from
  `test/TransformsTest.php`, stated and proved as lemmas about the model.
  Where a test's expectation disagrees with the code, the lemma states what
  the code returns.

Behaviour of the code that some of the tests expect otherwise:

- `filterRedundantWords` compares words with `in_array`, which is
  case-sensitive. So a capitalised "The" is never dropped, and "The The"
  stays "The The" (`Transforms.IsDiscardedWord`). Piece 0 is never dropped, so
  "the and" gives "the" (test line 69 expects "and"), and "The Hand That
  Feeds" is unchanged (test line 71).
- `discardContributors` knows only `ft`, `feat` and `featuring`, each with
  an optional '.', with one `\s` byte directly in front and one after. An
  opening parenthesis or bracket before the keyword therefore prevents the
  cut (test lines 78-79).
- `discardIncorporation`'s table is LLC, LLCs, LTD, Limited, Unlimited, Inc.
  The match must reach `$`, so "Corp", "Corporation" and a trailing period
  ("Ltd.", "Inc.") leave the name unchanged (test lines 122, 125-127).
- `discardLicensingBlurb` keeps the part BEFORE the licensing phrase, as
  `array_shift` does, so "A&M Records Under License to Concord Music Group,
  Inc." gives "A&M Records" (test lines 83-84 expect the licensee).

## Model

| member | source | states |
|---|---|---|
| ByteStrings.ToLower | src/Transforms.php:21 | The lowered byte is never a capital. A capital moves up by 32 (to its small letter). Every other byte is unchanged. |
| ByteStrings.IsPcreSpace | src/Transforms.php:51 | PCRE's `\s` without UCP: bytes 9 to 13 and the space. |
| ByteStrings.IsDigit | src/Transforms.php:80 | `\d` without UCP (also inside the class of line 37): the bytes '0' to '9'. |
| ByteStrings.IsAsciiAlnum | src/Transforms.php:37 | `[a-z\d]` under the `i` flag: an ASCII letter of either case, or a digit. |
| ByteStrings.IsTrimByte | src/Normcore.php:44 | `trim`'s default set: space, tab, newline, carriage return, NUL and vertical tab (not form feed). |
| ByteStrings.IsDollarPosition | src/Transforms.php:14 | The positions where `$` (no multiline flag) matches: the end of the subject, and just before a final newline. |
| ByteStrings.EndsWithNewline | src/Transforms.php:14 | The subject ends with '\n', the case in which `$` also matches one byte before the end. |
| ByteStrings.AnchorEnd | src/Transforms.php:80 | The leftmost position where `$` matches: it is one of the positions `IsDollarPosition` allows, and no allowed position comes before it. |
| ByteStrings.CaselessEq | src/Transforms.php:14 | Literal equality under the `i` flag: same length, and the bytes are equal after ASCII lowering. |
| ByteStrings.LiteralEq | src/Transforms.php:14 | A pattern literal matched against bytes of the subject: exact equality without `i`, caseless equality with it. |
| ByteStrings.PhpEmpty | src/Normcore.php:45 | PHP `empty()` on a string: true for "" and "0" only. |
| ByteStrings.CaselessEqReflexive | src/Transforms.php:14 | Every string matches itself as a literal under the `i` flag. |
| ByteStrings.Retain | src/Transforms.php:37 | The byte filter behind the deleting `preg_replace` calls. The result is no longer than the input and holds only kept bytes; an input whose bytes are all kept comes back unchanged. |
| ByteStrings.RetainCounts | src/Transforms.php:37 | Every kept byte value occurs in the output as often as in the input, and no other value occurs at all. |
| ByteStrings.RetainAppend | src/Transforms.php:37 | Filtering distributes over concatenation, so the survivors keep their order. |
| ByteStrings.RetainIdempotent | src/Transforms.php:37 | Filtering twice is filtering once. |
| ByteStrings.RetainFixpoint | src/Transforms.php:37 | The filter leaves a string unchanged if and only if every byte of it is kept. |
| ByteStrings.LeadingTrimCount | src/Normcore.php:44 | The number of bytes `trim` strips at the front: all of them are in the trim set, and the next byte, if any, is not. |
| ByteStrings.TrimLeft | src/Normcore.php:44 | A suffix of the input whose dropped bytes are all in the trim set, and whose first byte is not. |
| ByteStrings.TrimRight | src/Normcore.php:44 | A prefix of the input whose dropped bytes are all in the trim set, and whose last byte is not. |
| ByteStrings.Trim | src/Normcore.php:44 | `trim`: the slice of the input between the stripped bytes at either end. Both ends of the result are outside the trim set, every byte cut off is inside it, and an already trimmed input comes back unchanged. |
| ByteStrings.TrimIdempotent | src/Normcore.php:44 | Trimming twice is trimming once. |
| Transforms.DownCase | src/Transforms.php:20-22 | The output has the input's length and no byte in 'A'..'Z'. Every non-capital is unchanged, and every capital becomes its small letter. |
| Transforms.DownCaseIdempotent | src/Transforms.php:20-22 | Lowering twice is lowering once. |
| Transforms.CaselessEqIffSameDownCase | src/Transforms.php:14 | Two strings match each other caselessly if and only if `strtolower` maps them to the same string. |
| Transforms.FlattenStylisticCharacters | src/Transforms.php:29-31 | The output has the input's length and no '$'. Each '$' becomes 'S' and every other byte is unchanged. |
| Transforms.FlattenStylisticCharactersIdempotent | src/Transforms.php:29-31 | Flattening twice is flattening once. |
| Transforms.KeptByRemovePunctuation | src/Transforms.php:37 | The bytes the class `[^a-z\d\s]` does not match under `i`: ASCII letters of either case, digits and `\s` bytes. |
| Transforms.RemovePunctuation | src/Transforms.php:36-38 | The output is no longer than the input and holds only ASCII letters, digits and `\s` bytes. |
| Transforms.RemovePunctuationCounts | src/Transforms.php:36-38 | Each ASCII letter, digit and `\s` byte occurs in the output as often as in the input. No byte above 127 survives. |
| Transforms.RemovePunctuationAppend | src/Transforms.php:36-38 | Removal distributes over concatenation, so the kept bytes stay in input order. |
| Transforms.RemovePunctuationIdempotent | src/Transforms.php:36-38 | Removing punctuation twice is removing it once. |
| Transforms.RemovePunctuationUnchangedIff | src/Transforms.php:36-38 | The input comes back unchanged if and only if it holds only letters, digits and `\s` bytes. |
| Transforms.RemoveWhitespace | src/Transforms.php:50-52 | The output is no longer than the input and has no `\s` byte. An input without whitespace is unchanged. |
| Transforms.RemoveWhitespaceCounts | src/Transforms.php:50-52 | Each byte outside `\s` occurs in the output as often as in the input. |
| Transforms.RemoveWhitespaceAppend | src/Transforms.php:50-52 | Removal distributes over concatenation, so the other bytes keep their order. |
| Transforms.RemoveWhitespaceIdempotent | src/Transforms.php:50-52 | Applying it again changes nothing. |
| Transforms.SkipSpaces | src/Transforms.php:44 | Drops exactly the leading run of `\s` bytes: what is dropped is whitespace, and what remains does not start with whitespace. |
| Transforms.SplitOnSpaceRuns | src/Transforms.php:44 | `preg_split` on runs of `\s` always returns at least one piece. |
| Transforms.SplitOnSpaceRunsShape | src/Transforms.php:44 | No piece holds whitespace. Only the first and the last piece can be empty. An input starting with a non-space byte starts its first piece with that byte. |
| Transforms.SplitOnSpaceRunsLosesOnlyWhitespace | src/Transforms.php:44 | The pieces put back together equal the input with its `\s` bytes deleted, so splitting loses nothing but whitespace. |
| Transforms.SplitOnSpaceRunsLength | src/Transforms.php:44 | The pieces' lengths plus one separator between each pair are at most the input's length. |
| Transforms.SplitAfterWord | src/Transforms.php:44 | A word without whitespace, followed by nothing or by whitespace, is the first piece whole. |
| Transforms.SkipRun | src/Transforms.php:44 | A run of `\s` bytes of any kind in front of text that does not start with whitespace is skipped exactly, leaving that text. |
| Transforms.SplitWordRunRest | src/Transforms.php:44 | A word, then a non-empty run of `\s` bytes of any kind and length, then text that does not start with whitespace, split into the word followed by the text's own pieces: the whole run is one separator. |
| Transforms.SplitWordSpaceRest | src/Transforms.php:44 | The one-space case of `SplitWordRunRest`: a word, one ' ' and text that does not start with whitespace split into the word followed by the text's own pieces. |
| Transforms.SplitJoinRoundTrip | src/Transforms.php:44 | Splitting undoes `implode(' ')` for every list of pieces without whitespace whose inner pieces are not empty. |
| Transforms.DropDiscardedWords | src/Transforms.php:44-47 | The filter callback over pieces 1 onwards never adds a piece. |
| Transforms.DropDiscardedWordsMembers | src/Transforms.php:40-47 | A word is among the survivors if and only if it is among the pieces and is neither PHP-empty nor exactly "the" or "and". |
| Transforms.DropDiscardedWordsAppend | src/Transforms.php:44-47 | The callback judges each piece on its own, so filtering distributes over concatenation and keeps the order. |
| Transforms.DropDiscardedWordsKeepsSurvivors | src/Transforms.php:44-47 | A list with no discarded word passes through unchanged. |
| Transforms.REDUNDANT_WORDS | src/Transforms.php:40 | The stop words "the" and "and", in that order. |
| Transforms.IsDiscardedWord | src/Transforms.php:40-46 | The callback rejects a later piece when it is PHP-empty or exactly "the" or "and" (`in_array` is case-sensitive). |
| Transforms.KeptWords | src/Transforms.php:44-47 | The first kept piece is the input's piece 0, verbatim. At least one piece is kept, and never more than the split produced. |
| Transforms.JoinWithSpace | src/Transforms.php:44 | `implode(' ', ...)`: the pieces with one space between each pair. |
| Transforms.FilterRedundantWords | src/Transforms.php:43-48 | The rule itself: the kept pieces joined with single spaces. Its properties are the lemma rows below. |
| Transforms.KeptWordsShape | src/Transforms.php:40-47 | No kept piece holds whitespace, and no kept piece after the first is PHP-empty, "the" or "and". |
| Transforms.FilterRedundantWordsPieces | src/Transforms.php:40-48 | Splitting the output again gives exactly the input's piece 0 followed by its surviving later pieces, in input order. |
| Transforms.FilterRedundantWordsKeepsFirstWord | src/Transforms.php:45-46 | The input's first piece, stop word or not, begins the output verbatim. |
| Transforms.FilterRedundantWordsIdempotent | src/Transforms.php:40-48 | Filtering twice is filtering once. |
| Transforms.FilterRedundantWordsNotLonger | src/Transforms.php:40-48 | The output is never longer than the input. |
| Transforms.CONTRIBUTOR_MARKERS | src/Transforms.php:62 | The contributor keywords ft, feat, featuring, in pattern order. |
| Transforms.LICENSING_MARKERS | src/Transforms.php:72 | The licensing phrases "under exclusive license" and "under license", in pattern order. |
| Transforms.KeywordThenSpaceAt | src/Transforms.php:62 | One keyword (caseless) at a position, then an optional '.', then one `\s` byte. |
| Transforms.AnyKeywordThenSpaceAt | src/Transforms.php:72 | Some alternative of the keyword group, followed by an optional '.' and one `\s` byte, matches at a position. |
| Transforms.MarkerAt | src/Transforms.php:62 | The contributor or licensing pattern (one `\s` byte, a listed keyword caseless, an optional '.', one `\s` byte) has a match that starts at a position. |
| Transforms.AnyKeywordThenSpaceAtIff | src/Transforms.php:62 | The alternation matches at a position if and only if one of its keywords, then an optional '.', then `\s`, is there (caseless). |
| Transforms.FirstMarker | src/Transforms.php:62 | The leftmost start of a marker match at or after a position: a match is there, and none comes before it. |
| Transforms.BeforeFirstMarker | src/Transforms.php:62-63 | The first piece of the split is a prefix of the input that ends where the leftmost marker starts. It holds no marker start, and it is the whole input if and only if there is no marker. |
| Transforms.MarkerAtPrefix | src/Transforms.php:62-63 | A marker inside a prefix of a string is a marker of the string. |
| Transforms.BeforeFirstMarkerIdempotent | src/Transforms.php:62-63 | Cutting at the first marker twice is cutting once. |
| Transforms.DiscardContributors | src/Transforms.php:61-64 | The result is the prefix before the leftmost whitespace + ft/feat/featuring + optional '.' + whitespace (caseless). There is no such match inside it. The input comes back whole if and only if there is no match. |
| Transforms.DiscardLicensingBlurb | src/Transforms.php:71-74 | The same, for whitespace + "under exclusive license"/"under license" + optional '.' + whitespace. |
| Transforms.AllDigits | src/Transforms.php:80 | `\d{4}` over a slice: every byte of it is a digit. |
| Transforms.EndsWithYear | src/Transforms.php:80 | Four digits end at the leftmost position where `$` matches. |
| Transforms.YearMatchIff | src/Transforms.php:80 | `\d{4}$` matches somewhere if and only if four digits end at the leftmost `$` position (`EndsWithYear`); after a final newline it cannot end, since a newline is not a digit. |
| Transforms.RemoveTrailingYear | src/Transforms.php:79-81 | The result is unchanged if and only if the input does not end, at `$`, in four digits. Otherwise exactly those four bytes go, even inside a longer digit run. A final newline stays. |
| Transforms.IgnoresCase | src/Transforms.php:14 | The flag `$matchCase ? '' : 'i'` adds: the pattern ignores case exactly when `matchCase` is false. |
| Transforms.FirstSuffixIndex | src/Transforms.php:14 | The alternatives are tried in pattern order: the first listed suffix that runs from a position to `$`, and none before it. |
| Transforms.SuffixAt | src/Transforms.php:14 | One alternative's literal occupies the subject from a position up to a place where `$` matches. |
| Transforms.SuffixMatchAt | src/Transforms.php:14 | The `removeSuffix` pattern has a match that starts at a position: one `\s` byte, then an alternative, the first in table order, that reaches a `$` position. |
| Transforms.SuffixMatchAtIff | src/Transforms.php:14 | Without a final newline, a match at a position is one `\s` byte followed by a listed suffix that runs to the end. |
| Transforms.FirstSuffixMatch | src/Transforms.php:14-15 | The leftmost start of a suffix match: a match is there, and none comes before it. |
| Transforms.RemoveSuffix | src/Transforms.php:13-16 | The result is never longer than the input. Without a final newline it is a prefix of the input. |
| Transforms.RemoveSuffixUnchangedIff | src/Transforms.php:13-16 | The subject comes back unchanged if and only if the pattern matches nowhere in it. |
| Transforms.RemoveSuffixRemovesOneSuffix | src/Transforms.php:13-16 | A changed result is shorter by one whitespace byte plus the length of one listed suffix. |
| Transforms.RemoveSuffixEndsAtFirstMatch | src/Transforms.php:13-16 | Without a final newline, a changed result ends where a match starts, and no match starts earlier. |
| Transforms.MatchRunsToEnd | src/Transforms.php:14 | Without a final newline, the alternative chosen at a match start ends at the very end of the subject, where `$` matches. |
| Transforms.RemoveSuffixCutsAtFirstMatch | src/Transforms.php:13-16 | Without a final newline, the result is exactly the subject cut at its leftmost match. |
| Transforms.RemoveSuffixChangesIff | src/Transforms.php:13-16 | Without a final newline, the subject changes if and only if it ends with one `\s` byte followed by a listed suffix (caseless when `matchCase` is false). |
| Transforms.RemoveSuffixRemovedLength | src/Transforms.php:13-16 | The number of bytes removed is zero or one more than the length of a listed suffix. |
| Transforms.COPYRIGHT_SUFFIXES | src/Transforms.php:85 | The single alternative "Copyright Control". |
| Transforms.CORP_SUFFIXES | src/Transforms.php:88 | LLC, LLCs, LTD, Limited, Unlimited, Inc, in pattern order. |
| Transforms.SOFT_GROUP_SUFFIXES | src/Transforms.php:93 | Co and Group, in pattern order. |
| Transforms.REDUNDANT_NAME_SUFFIXES | src/Transforms.php:98 | Records and Recordings, in pattern order. |
| Transforms.DiscardCopyright | src/Transforms.php:84-86 | Without a final newline the result is a prefix of the input. It is either the input or 18 bytes shorter (" Copyright Control"). |
| Transforms.DiscardIncorporation | src/Transforms.php:88-91 | Without a final newline the result is a prefix of the input. It is either the input or shorter by 4, 5, 8 or 10 bytes (whitespace + one of LLC, LLCs, LTD, Limited, Unlimited, Inc). |
| Transforms.DiscardOrganizationGroup | src/Transforms.php:93-96 | The same, shorter by 3 or 6 bytes (whitespace + Co or Group). |
| Transforms.DiscardLabelNameRedundancies | src/Transforms.php:98-101 | The same, shorter by 8 or 11 bytes (whitespace + Records or Recordings). |
| Normcore.Transform | src/Normcore.php:44 | The rule names that `Transforms::$function` can resolve: the thirteen public rules. |
| Normcore.Apply | src/Normcore.php:44 | The dispatch `Transforms::$function($acc)`. No rule except transliteration makes the string longer. |
| Normcore.Candidate | src/Normcore.php:44 | `trim(Transforms::$function($acc))`. |
| Normcore.Accepted | src/Normcore.php:45 | The closure keeps the candidate exactly when it is not PHP-empty. |
| Normcore.Step | src/Normcore.php:44-49 | An accepted candidate becomes the new value, and that value is trimmed and not PHP-empty. A rejected candidate leaves the previous value exactly as it was. A value that is not PHP-empty never becomes PHP-empty. |
| Normcore.Reduce | src/Normcore.php:43-50 | With no names the input comes back. An input that is not PHP-empty gives a result that is not PHP-empty. The result is the input, or is trimmed and not PHP-empty. |
| Normcore.ReduceAppend | src/Normcore.php:43-50 | Steps run left to right on the previous value: folding over two lists in a row is folding over their concatenation. |
| Normcore.ReduceSkipsRejectedStep | src/Normcore.php:44-49 | A rejected rule is as if its name were absent: the attempted edit is discarded, not merely its emptiness. |
| Normcore.ReduceSingle | src/Normcore.php:43-50 | Folding a one-name list is one step. |
| Normcore.ReduceAfterAcceptedStep | src/Normcore.php:43-50 | Once any step has been accepted, the final value has no trim byte at either end and is not PHP-empty. |
| Normcore.ReduceAllRejected | src/Normcore.php:43-50 | When every rule is rejected on the input, the input comes back unchanged. |
| Scenarios.DownCaseHello | test/TransformsTest.php:9 | "HELLO" becomes "hello". |
| Scenarios.FlattenAsapRocky | test/TransformsTest.php:30 | "A$AP Rocky" becomes "ASAP Rocky". |
| Scenarios.RemovePunctuationOfByte | src/Transforms.php:37 | A one-byte string keeps its byte if and only if the byte is a letter, digit or `\s` byte. |
| Scenarios.RemovePunctuationLetterDot | test/TransformsTest.php:43 | A capital followed by a dot loses the dot. |
| Scenarios.RemovePunctuationRem | test/TransformsTest.php:43 | "R.E.M." becomes "REM". |
| Scenarios.FilterTheThe | test/TransformsTest.php:68 | "the the" becomes "the": the first word is kept even though it is a stop word. |
| Scenarios.FilterTheStrokes | test/TransformsTest.php:67 | "the strokes" is unchanged, because a leading "the" is piece 0 (the test's "strokes" contradicts the code). |
| Scenarios.OpenMikeEagleSpaces | test/TransformsTest.php:75 | The only whitespace in "Open Mike Eagle" is its two spaces. |
| Scenarios.DiscardContributorsFeat | test/TransformsTest.php:75 | "Open Mike Eagle feat. Video Dave" becomes "Open Mike Eagle". |
| Scenarios.RemoveTrailingYearDomino | test/TransformsTest.php:89 | "Domino 2020" becomes "Domino " with the space kept (the test's "Domino" holds only after the reduction step's trim). |
| Scenarios.RemoveTrailingYearKeepsShortNumbers | test/TransformsTest.php:92-93 | "4AD" and "Matchbox 20" are unchanged. |
| Scenarios.RemoveTrailingYearNotIdempotent | src/Transforms.php:79-81 | "12345678" loses exactly its last four digits, and a second application removes four more. |
| Scenarios.CorpSuffixMatchInXLlcLlc | src/Transforms.php:88-91 | "X LLC LLC" has a corporate-suffix match at its second space. |
| Scenarios.NoCorpSuffixMatchBefore5 | src/Transforms.php:88-91 | No match of the corporate-suffix pattern in "X LLC LLC" starts before its second space. |
| Scenarios.DiscardIncorporationXLlc | src/Transforms.php:88-91 | "X LLC" becomes "X". |
| Scenarios.DiscardIncorporationNotIdempotent | src/Transforms.php:88-91 | One application takes "X LLC LLC" to "X LLC", and a second one to "X", which differs from "X LLC": one suffix per call, so the rule is not idempotent. |
| Scenarios.LabelSuffixMatchInXlRecordings | test/TransformsTest.php:150 | "XL Recordings" has a match at its space. "Records" does not reach `$` from the byte after it, so the first alternative that matches is the second, "Recordings". |
| Scenarios.DiscardLabelNameXlRecordings | test/TransformsTest.php:150 | "XL Recordings" becomes "XL". |
| ReductionScenarios.StepTrimsRemovedYear | src/Normcore.php:44-46 | The removeTrailingYear step takes "Domino 2020" to "Domino": the step trims what the rule leaves. |
| ReductionScenarios.StepKeepsValueRuleWouldBlank | src/Normcore.php:44-49 | The removeTrailingYear step keeps "2020" as it is, because the rule would leave it empty. |

## Left out

- `normalizeUnicode` (ICU `Transliterator`): not modelled. Its effect is the function parameter `transliterate` of `Normcore.Apply`, `Normcore.Step` and `Normcore.Reduce`, and nothing is proved about it.
- The rest of `Normcore::transform` is not modelled: the stage table, the call to the non-existent `array_has_key`, the discarded `array_merge` result, the second fold that reuses `setup`, and the missing return value. Only the step closure and one fold are modelled; no finish stage is invented.
- `Transforms::$function` with a name that is not a public static method of `Transforms` fails with an Error in PHP. The closed `Normcore.Transform` datatype admits no such name, so this error path is not modelled.
- `removeSuffix` is protected and so cannot be named in the list; it has no `Normcore.Transform` constructor and is reached only through its four users.
- The empty `normalizeArtistName`, `normalizeTrackTitle`, `normalizeAlbumTitle` and `normalizeRecordLabelName` methods have no behaviour to model.
- Transforms.RemoveSuffix: requires every listed suffix to be non-empty. Every table in the source is; with an empty alternative, a second match could start after the first, which the model does not describe.
- Transforms.RemoveSuffix: the suffixes are compared as literals. Regex metacharacters inside a table entry would not be interpreted, and no table in the source has any.
- Transforms.SuffixMatchAtIff, Transforms.RemoveSuffixChangesIff, Transforms.RemoveSuffixEndsAtFirstMatch and Transforms.RemoveSuffixCutsAtFirstMatch: stated only for subjects without a final newline. The function itself models the newline case; there the newline survives after the removed suffix.
- Transforms.DiscardCopyright, Transforms.DiscardIncorporation, Transforms.DiscardOrganizationGroup and Transforms.DiscardLabelNameRedundancies: their own contracts give only the prefix property and the removed lengths. Which suffix goes, and when, follows from the `RemoveSuffix` lemmas.
- Transforms.DownCase: ASCII only, as `strtolower` is in PHP 8.2 and later. A locale-dependent lowering of bytes above 127 in older PHP is not modelled.
- Test expectations that contradict the code (for example "the strokes" giving "strokes", or "Domino (1997)" giving "Domino") are not followed; the model states what the code returns.
- Tests of functions absent from `src/Transforms.php` (`trimPunctuation`, `removeControlCharacters`, `handleDistroKidLabels` and others) and of `cleanArtistName`/`keyAlbumTitle` are outside this model.
- The CSV batch harness, the timing script and the reference-data generator: file I/O and timing only.

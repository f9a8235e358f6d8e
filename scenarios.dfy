/**
 * Concrete inputs from the project's own test suite, stated and proved about the model.
 * Where a test expects something the code does not produce, the lemma states
 * what the code produces.
 */
module Scenarios {
  import opened ByteStrings
  import opened Transforms

  const OPEN_MIKE_EAGLE: Bytes := "Open Mike Eagle"
  const FEAT: Bytes := "feat"
  const FEATURING_CREDIT: Bytes := OPEN_MIKE_EAGLE + " " + FEAT + ". Video Dave"
  const DOMINO: Bytes := "Domino"
  const DIGITS_2020: Bytes := "2020"
  const DOMINO_2020: Bytes := DOMINO + " " + DIGITS_2020
  const DIGITS_1234: Bytes := "1234"
  const DIGITS_5678: Bytes := "5678"
  const X: Bytes := "X"
  const X_LLC: Bytes := X + " LLC"
  const DOUBLE_LLC: Bytes := X_LLC + " LLC"
  const XL: Bytes := "XL"
  const XL_RECORDINGS: Bytes := XL + " Recordings"
  // The dotted initials and "REM" are built from pieces rather than written
  // as single literals, so that their terms line up with the steps of the
  // proof of RemovePunctuationRem and the solver does not unfold whole strings.
  const DOT: Bytes := "."
  const R_DOT: Bytes := ['R'] + DOT
  const E_DOT: Bytes := ['E'] + DOT
  const M_DOT: Bytes := ['M'] + DOT
  const R_E_M_DOTTED: Bytes := R_DOT + E_DOT + M_DOT
  const REM: Bytes := ['R'] + ['E'] + ['M']

  lemma DownCaseHello()
    ensures DownCase("HELLO") == "hello"
  {
  }

  lemma FlattenAsapRocky()
    ensures FlattenStylisticCharacters("A$AP Rocky") == "ASAP Rocky"
  {
  }

  /** A one-byte string keeps its byte exactly when the byte is a letter, a digit or whitespace. */
  lemma RemovePunctuationOfByte(c: Byte)
    ensures RemovePunctuation([c]) == if KeptByRemovePunctuation(c) then [c] else []
  {
    assert [c][1..] == [];
  }

  /** "R." loses its dot, and so does every later letter-dot pair. */
  lemma RemovePunctuationLetterDot(c: Byte)
    requires IsUpper(c)
    ensures RemovePunctuation([c] + DOT) == [c]
  {
    RemovePunctuationOfByte(c);
    RemovePunctuationOfByte('.');
    RemovePunctuationAppend([c], DOT);
  }

  /** "R.E.M." becomes "REM". */
  lemma RemovePunctuationRem()
    ensures RemovePunctuation(R_E_M_DOTTED) == REM
  {
    RemovePunctuationLetterDot('R');
    RemovePunctuationLetterDot('E');
    RemovePunctuationLetterDot('M');
    RemovePunctuationAppend(R_DOT, E_DOT);
    RemovePunctuationAppend(R_DOT + E_DOT, M_DOT);
  }

  /** The first word survives even when it is a stop word: "the the" becomes "the". */
  lemma FilterTheThe()
    ensures FilterRedundantWords("the the") == "the"
  {
    var ws: seq<Bytes> := ["the", "the"];
    assert JoinWithSpace(ws) == "the the";
    SplitJoinRoundTrip(ws);
    assert DropDiscardedWords(["the"]) == [];
  }

  /** A leading "the" is the first word and is kept, so "the strokes" is left as it is. */
  lemma FilterTheStrokes()
    ensures FilterRedundantWords("the strokes") == "the strokes"
  {
    var ws: seq<Bytes> := ["the", "strokes"];
    assert JoinWithSpace(ws) == "the strokes";
    SplitJoinRoundTrip(ws);
    assert DropDiscardedWords(["strokes"]) == ["strokes"];
  }

  /** "Open Mike Eagle feat. Video Dave" becomes "Open Mike Eagle". */
  lemma DiscardContributorsFeat()
    ensures DiscardContributors(FEATURING_CREDIT) == OPEN_MIKE_EAGLE
  {
    var s := FEATURING_CREDIT;
    var n := |OPEN_MIKE_EAGLE|;
    assert n == 15;
    assert s[..n] == OPEN_MIKE_EAGLE;
    assert s[n] == ' ' && s[n + 5] == '.' && s[n + 6] == ' ';
    assert s[n + 1..n + 5] == FEAT;
    CaselessEqReflexive(FEAT);
    assert KeywordThenSpaceAt(s, n + 1, CONTRIBUTOR_MARKERS[1]);
    assert MarkerAt(s, n, CONTRIBUTOR_MARKERS);
    assert s[5] == 'M' && s[10] == 'E';
    assert !MarkerAt(s, 4, CONTRIBUTOR_MARKERS);
    assert !MarkerAt(s, 9, CONTRIBUTOR_MARKERS);
    OpenMikeEagleSpaces();
    forall j | 0 <= j < n ensures !MarkerAt(s, j, CONTRIBUTOR_MARKERS) {
      assert s[j] == OPEN_MIKE_EAGLE[j];
    }
  }

  /** The only whitespace in "Open Mike Eagle" is the two spaces. */
  lemma OpenMikeEagleSpaces()
    ensures forall j :: 0 <= j < |OPEN_MIKE_EAGLE| && IsPcreSpace(OPEN_MIKE_EAGLE[j]) ==> j == 4 || j == 9
  {
    var w := OPEN_MIKE_EAGLE;
    forall j | 0 <= j < |w| && j != 4 && j != 9 ensures !IsPcreSpace(w[j]) {
      assert w[j] in "OpenMikeEagle";
    }
  }

  /** The year goes but the space before it stays; trimming it is the reduction step's job. */
  lemma RemoveTrailingYearDomino()
    ensures RemoveTrailingYear(DOMINO_2020) == DOMINO + " "
  {
    var s := DOMINO_2020;
    assert s == (DOMINO + " ") + DIGITS_2020;
    assert s[|s| - 1] == '0';
    assert s[|s| - 4..] == DIGITS_2020;
    assert AllDigits(DIGITS_2020);
  }

  lemma RemoveTrailingYearKeepsShortNumbers()
    ensures RemoveTrailingYear("4AD") == "4AD"
    ensures RemoveTrailingYear("Matchbox 20") == "Matchbox 20"
  {
    var s: Bytes := "Matchbox 20";
    assert s[8] == ' ';
    assert s[7..11][1] == ' ';
  }

  /** Only the last four digits of a longer run go, so a second application removes four more: "12345678", then "1234", then "". */
  lemma RemoveTrailingYearNotIdempotent()
    ensures RemoveTrailingYear(DIGITS_1234 + DIGITS_5678) == DIGITS_1234
    ensures RemoveTrailingYear(DIGITS_1234) == []
  {
    assert AllDigits(DIGITS_1234) && AllDigits(DIGITS_5678);
    var s := DIGITS_1234 + DIGITS_5678;
    assert s[|s| - 1] == '8';
    assert s[4..8] == DIGITS_5678;
    assert s[..4] == DIGITS_1234;
    assert s[8..] == [];
    assert DIGITS_1234[3] == '4';
    assert DIGITS_1234[0..4] == DIGITS_1234;
    assert DIGITS_1234[..0] + DIGITS_1234[4..] == [];
  }

  /** "X LLC LLC" has a match of `\s(?:LLC|...)$` starting at its second space. */
  lemma CorpSuffixMatchInXLlcLlc()
    ensures SuffixMatchAt(DOUBLE_LLC, 5, CORP_SUFFIXES, true)
  {
    var s := DOUBLE_LLC;
    assert s[5] == ' ';
    var t: Bytes := s[6..9];
    assert t[0] == 'L' && t[1] == 'L' && t[2] == 'C';
    assert t == "LLC";
    assert SuffixAt(s, 6, CORP_SUFFIXES[0], true);
  }

  /** ... and none starting earlier: the first space is followed by seven bytes, and "LLC LLC" is not "Limited". */
  lemma NoCorpSuffixMatchBefore5()
    ensures forall j :: 0 <= j < 5 ==> !SuffixMatchAt(DOUBLE_LLC, j, CORP_SUFFIXES, true)
  {
    var s := DOUBLE_LLC;
    assert s[0] == 'X' && s[1] == ' ' && s[2] == 'L' && s[3] == 'L' && s[4] == 'C';
    assert !SuffixAt(s, 2, CORP_SUFFIXES[3], true) by {
      var a: Bytes := s[2..9];
      var b: Bytes := "Limited";
      assert a[1..][0] == 'L' && b[1..][0] == 'i';
      assert !CaselessEq(a[1..], b[1..]);
    }
    assert !SuffixMatchAt(s, 1, CORP_SUFFIXES, true);
    forall j | 0 <= j < 5 ensures !SuffixMatchAt(s, j, CORP_SUFFIXES, true) {
      if j != 1 { assert !IsPcreSpace(s[j]); }
    }
  }

  /** "X LLC" itself ends in whitespace + "LLC", so it loses that too. */
  lemma DiscardIncorporationXLlc()
    ensures DiscardIncorporation(X_LLC) == X
  {
    var s := X_LLC;
    assert s[0] == 'X' && s[1] == ' ';
    var t: Bytes := s[2..5];
    assert t[0] == 'L' && t[1] == 'L' && t[2] == 'C';
    assert t == "LLC";
    assert SuffixAt(s, 2, CORP_SUFFIXES[0], true);
    assert SuffixMatchAt(s, 1, CORP_SUFFIXES, true);
    assert !SuffixMatchAt(s, 0, CORP_SUFFIXES, true);
    RemoveSuffixCutsAtFirstMatch(s, CORP_SUFFIXES, false, |X|);
    assert s[..|X|] == X;
  }

  /**
   * One trailing suffix is removed per application, so the rule is not
   * idempotent: "X LLC LLC" becomes "X LLC", and applying it again gives "X".
   */
  lemma DiscardIncorporationNotIdempotent()
    ensures DiscardIncorporation(DOUBLE_LLC) == X_LLC
    ensures DiscardIncorporation(DiscardIncorporation(DOUBLE_LLC)) == X != DiscardIncorporation(DOUBLE_LLC)
  {
    var s := DOUBLE_LLC;
    CorpSuffixMatchInXLlcLlc();
    NoCorpSuffixMatchBefore5();
    RemoveSuffixCutsAtFirstMatch(s, CORP_SUFFIXES, false, |X_LLC|);
    assert s[..|X_LLC|] == X_LLC;
    DiscardIncorporationXLlc();
    assert |X| != |X_LLC|;
  }

  /** Alternatives are tried in order and must reach the end: "Records" fails there, "Recordings" matches. */
  lemma LabelSuffixMatchInXlRecordings()
    ensures SuffixMatchAt(XL_RECORDINGS, 2, REDUNDANT_NAME_SUFFIXES, true)
    ensures !SuffixAt(XL_RECORDINGS, 3, REDUNDANT_NAME_SUFFIXES[0], true)
    ensures FirstSuffixIndex(XL_RECORDINGS, 3, REDUNDANT_NAME_SUFFIXES, true) == 1
  {
    var s := XL_RECORDINGS;
    assert |s| == 13 && |REDUNDANT_NAME_SUFFIXES[0]| == 7;
    assert !IsDollarPosition(s, 10);
    var w: Bytes := "Recordings";
    assert s[2] == ' ';
    assert s[3..13] == w;
    CaselessEqReflexive(w);
    assert REDUNDANT_NAME_SUFFIXES[1] == w;
    assert SuffixAt(s, 3, w, true);
  }

  lemma DiscardLabelNameXlRecordings()
    ensures DiscardLabelNameRedundancies(XL_RECORDINGS) == XL
  {
    var s := XL_RECORDINGS;
    LabelSuffixMatchInXlRecordings();
    assert s[0] == 'X' && s[1] == 'L';
    forall j | 0 <= j < 2 ensures !SuffixMatchAt(s, j, REDUNDANT_NAME_SUFFIXES, true) {
      assert !IsPcreSpace(s[j]);
    }
    RemoveSuffixCutsAtFirstMatch(s, REDUNDANT_NAME_SUFFIXES, false, |XL|);
    assert s[..|XL|] == XL;
  }
}

/** The reduction step on concrete values. */
module ReductionScenarios {
  import opened ByteStrings
  import Transforms
  import Normcore
  import Scenarios

  /** The reduction step trims what the rule leaves: "Domino 2020" becomes "Domino". */
  lemma StepTrimsRemovedYear(transliterate: Bytes -> Bytes)
    ensures Normcore.Step(Scenarios.DOMINO_2020, Normcore.RemoveTrailingYear, transliterate) == Scenarios.DOMINO
  {
    Scenarios.RemoveTrailingYearDomino();
    var d := Scenarios.DOMINO;
    var t := d + " ";
    assert t[0] == 'D' && t[|t| - 1] == ' ' && t[|t| - 2] == 'o';
    assert t[..|t| - 1] == d;
    assert TrimRight(t) == TrimRight(d) == d;
    assert LeadingTrimCount(t) == 0;
    assert Trim(t) == d;
  }

  /** A rule that would blank the value is discarded: "2020" stays "2020". */
  lemma StepKeepsValueRuleWouldBlank(transliterate: Bytes -> Bytes)
    ensures Normcore.Step(Scenarios.DIGITS_2020, Normcore.RemoveTrailingYear, transliterate) == Scenarios.DIGITS_2020
  {
    assert Transforms.RemoveTrailingYear(Scenarios.DIGITS_2020) == [];
    assert Trim([]) == [];
    assert !Normcore.Accepted(Scenarios.DIGITS_2020, Normcore.RemoveTrailingYear, transliterate);
  }
}

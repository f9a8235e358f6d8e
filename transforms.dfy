/**
 * The rule catalogue of the `Transforms` class: each rule is a total
 * function from a byte string to a byte string, stated over sequences
 * instead of as a PCRE pattern or a PHP library call.
 */
module Transforms {
  import opened ByteStrings

  // ---------------------------------------------------------------------
  // Text cleaning
  // ---------------------------------------------------------------------

  /** `strtolower`: ASCII capitals become small letters, every other byte stays. */
  function DownCase(s: Bytes): (r: Bytes)
    ensures |r| == |s|
    ensures forall i :: 0 <= i < |r| ==> !IsUpper(r[i])
    ensures forall i :: 0 <= i < |s| && !IsUpper(s[i]) ==> r[i] == s[i]
    ensures forall i :: 0 <= i < |s| && IsUpper(s[i]) ==> r[i] as int == s[i] as int + 32
  {
    seq(|s|, i requires 0 <= i < |s| => ToLower(s[i]))
  }

  lemma DownCaseIdempotent(s: Bytes)
    ensures DownCase(DownCase(s)) == DownCase(s)
  {
  }

  /** Two strings match each other under the `i` flag exactly when they lowercase to the same string. */
  lemma {:induction false} CaselessEqIffSameDownCase(a: Bytes, b: Bytes)
    ensures CaselessEq(a, b) <==> DownCase(a) == DownCase(b)
  {
    if |a| == |b| && a != [] {
      assert DownCase(a)[1..] == DownCase(a[1..]);
      assert DownCase(b)[1..] == DownCase(b[1..]);
      CaselessEqIffSameDownCase(a[1..], b[1..]);
      if DownCase(a) == DownCase(b) {
        assert DownCase(a)[0] == DownCase(b)[0];
      }
    } else if |a| != |b| {
      assert |DownCase(a)| != |DownCase(b)|;
    }
  }

  /** `str_replace('$', 'S', $s)`. */
  function FlattenStylisticCharacters(s: Bytes): (r: Bytes)
    ensures |r| == |s|
    ensures forall i :: 0 <= i < |r| ==> r[i] != '$'
    ensures forall i :: 0 <= i < |s| && s[i] == '$' ==> r[i] == 'S'
    ensures forall i :: 0 <= i < |s| && s[i] != '$' ==> r[i] == s[i]
  {
    seq(|s|, i requires 0 <= i < |s| => if s[i] == '$' then 'S' else s[i])
  }

  lemma FlattenStylisticCharactersIdempotent(s: Bytes)
    ensures FlattenStylisticCharacters(FlattenStylisticCharacters(s)) == FlattenStylisticCharacters(s)
  {
  }

  /** The bytes `[^a-z\d\s]+/i` does not match. */
  predicate KeptByRemovePunctuation(c: Byte) { IsAsciiAlnum(c) || IsPcreSpace(c) }

  /**
   * `preg_replace('/[^a-z\d\s]+/i', '', $s)`: only ASCII letters, digits and
   * `\s` bytes survive, each as often as in the input; all other bytes,
   * every byte above 127 included, are deleted.
   */
  function RemovePunctuation(s: Bytes): (r: Bytes)
    ensures |r| <= |s|
    ensures forall i :: 0 <= i < |r| ==> IsAsciiAlnum(r[i]) || IsPcreSpace(r[i])
  {
    Retain(s, KeptByRemovePunctuation)
  }

  /**
   * Nothing that is kept is lost: each letter, digit and `\s` byte occurs
   * as often in the output as in the input, and no byte above 127 occurs.
   */
  lemma RemovePunctuationCounts(s: Bytes)
    ensures forall c :: KeptByRemovePunctuation(c) ==> multiset(RemovePunctuation(s))[c] == multiset(s)[c]
    ensures forall c :: c as int >= 128 ==> multiset(RemovePunctuation(s))[c] == 0
  {
    RetainCounts(s, KeptByRemovePunctuation);
  }

  /** Deletion works byte by byte, so it distributes over concatenation: the survivors keep their order. */
  lemma RemovePunctuationAppend(a: Bytes, b: Bytes)
    ensures RemovePunctuation(a + b) == RemovePunctuation(a) + RemovePunctuation(b)
  {
    RetainAppend(a, b, KeptByRemovePunctuation);
  }

  lemma RemovePunctuationIdempotent(s: Bytes)
    ensures RemovePunctuation(RemovePunctuation(s)) == RemovePunctuation(s)
  {
    RetainIdempotent(s, KeptByRemovePunctuation);
  }

  lemma RemovePunctuationUnchangedIff(s: Bytes)
    ensures RemovePunctuation(s) == s <==> forall i :: 0 <= i < |s| ==> KeptByRemovePunctuation(s[i])
  {
    RetainFixpoint(s, KeptByRemovePunctuation);
  }

  /** `preg_replace('/\s+/', '', $s)`: every `\s` byte deleted, every other byte kept in order. */
  function RemoveWhitespace(s: Bytes): (r: Bytes)
    ensures |r| <= |s|
    ensures NoSpace(r)
    ensures NoSpace(s) ==> r == s
  {
    Retain(s, IsNonSpace)
  }

  /** Each byte outside `\s` occurs in the output exactly as often as in the input. */
  lemma RemoveWhitespaceCounts(s: Bytes)
    ensures forall c :: !IsPcreSpace(c) ==> multiset(RemoveWhitespace(s))[c] == multiset(s)[c]
  {
    RetainCounts(s, IsNonSpace);
  }

  lemma RemoveWhitespaceAppend(a: Bytes, b: Bytes)
    ensures RemoveWhitespace(a + b) == RemoveWhitespace(a) + RemoveWhitespace(b)
  {
    RetainAppend(a, b, IsNonSpace);
  }

  lemma RemoveWhitespaceIdempotent(s: Bytes)
    ensures RemoveWhitespace(RemoveWhitespace(s)) == RemoveWhitespace(s)
  {
    RetainIdempotent(s, IsNonSpace);
  }

  // ---------------------------------------------------------------------
  // Splitting on runs of whitespace: `preg_split('/(\s)+/', $s)`
  // ---------------------------------------------------------------------

  /** Drops the run of `\s` bytes at the front of `s`. */
  function SkipSpaces(s: Bytes): (r: Bytes)
    ensures |r| <= |s| && r == s[|s| - |r|..]
    ensures forall i :: 0 <= i < |s| - |r| ==> IsPcreSpace(s[i])
    ensures r == [] || !IsPcreSpace(r[0])
    ensures s != [] && IsPcreSpace(s[0]) ==> |r| < |s|
  {
    if s != [] && IsPcreSpace(s[0]) then SkipSpaces(s[1..]) else s
  }

  predicate NoPieceHasSpace(ts: seq<Bytes>) { forall k :: 0 <= k < |ts| ==> NoSpace(ts[k]) }

  /** Only the first and the last piece may be empty. */
  predicate InnerPiecesNonEmpty(ts: seq<Bytes>) { forall k :: 0 < k < |ts| - 1 ==> ts[k] != [] }

  /** The pieces `preg_split` returns for a pattern matching maximal runs of `\s`, limit -1 and no flags. */
  function SplitOnSpaceRuns(s: Bytes): (r: seq<Bytes>)
    ensures |r| >= 1
    decreases |s|
  {
    if s == [] then [[]]
    else if IsPcreSpace(s[0]) then [[]] + SplitOnSpaceRuns(SkipSpaces(s))
    else
      var rest := SplitOnSpaceRuns(s[1..]);
      [[s[0]] + rest[0]] + rest[1..]
  }

  /**
   * No piece holds a `\s` byte, only the first and the last piece can be
   * empty (input that starts or ends with whitespace), and a first byte
   * that is not whitespace starts the first piece.
   */
  lemma {:induction false} SplitOnSpaceRunsShape(s: Bytes)
    ensures NoPieceHasSpace(SplitOnSpaceRuns(s))
    ensures InnerPiecesNonEmpty(SplitOnSpaceRuns(s))
    ensures s != [] && !IsPcreSpace(s[0]) ==> SplitOnSpaceRuns(s)[0] != [] && SplitOnSpaceRuns(s)[0][0] == s[0]
    decreases |s|
  {
    if s == [] {
    } else if IsPcreSpace(s[0]) {
      SplitOnSpaceRunsShape(SkipSpaces(s));
      SplitShapeAfterSpaces(s);
    } else {
      SplitOnSpaceRunsShape(s[1..]);
      SplitShapeAfterByte(s);
    }
  }

  /** A leading run of whitespace adds an empty first piece in front of the pieces of the rest. */
  lemma SplitShapeAfterSpaces(s: Bytes)
    requires s != [] && IsPcreSpace(s[0])
    requires NoPieceHasSpace(SplitOnSpaceRuns(SkipSpaces(s)))
    requires InnerPiecesNonEmpty(SplitOnSpaceRuns(SkipSpaces(s)))
    requires SkipSpaces(s) != [] ==> SplitOnSpaceRuns(SkipSpaces(s))[0] != []
    ensures NoPieceHasSpace(SplitOnSpaceRuns(s))
    ensures InnerPiecesNonEmpty(SplitOnSpaceRuns(s))
  {
    var tail := SplitOnSpaceRuns(SkipSpaces(s));
    assert SplitOnSpaceRuns(s) == [[]] + tail;
    if SkipSpaces(s) == [] {
      assert tail == [[]];
    }
    PrependEmptyPiece(tail);
  }

  lemma PrependEmptyPiece(ts: seq<Bytes>)
    requires NoPieceHasSpace(ts) && InnerPiecesNonEmpty(ts)
    requires |ts| > 1 ==> ts[0] != []
    ensures NoPieceHasSpace([[]] + ts) && InnerPiecesNonEmpty([[]] + ts)
  {
    var r := [[]] + ts;
    forall k | 0 < k < |r| ensures r[k] == ts[k - 1] {}
  }

  /** A leading non-space byte is glued to the front of the first piece of the rest. */
  lemma SplitShapeAfterByte(s: Bytes)
    requires s != [] && !IsPcreSpace(s[0])
    requires NoPieceHasSpace(SplitOnSpaceRuns(s[1..]))
    requires InnerPiecesNonEmpty(SplitOnSpaceRuns(s[1..]))
    ensures NoPieceHasSpace(SplitOnSpaceRuns(s))
    ensures InnerPiecesNonEmpty(SplitOnSpaceRuns(s))
    ensures SplitOnSpaceRuns(s)[0] != [] && SplitOnSpaceRuns(s)[0][0] == s[0]
  {
    var rest := SplitOnSpaceRuns(s[1..]);
    assert SplitOnSpaceRuns(s) == [[s[0]] + rest[0]] + rest[1..];
    GlueFirstPiece(s[0], rest);
  }

  lemma GlueFirstPiece(c: Byte, ts: seq<Bytes>)
    requires !IsPcreSpace(c) && |ts| >= 1
    requires NoPieceHasSpace(ts) && InnerPiecesNonEmpty(ts)
    ensures NoPieceHasSpace([[c] + ts[0]] + ts[1..]) && InnerPiecesNonEmpty([[c] + ts[0]] + ts[1..])
  {
    var r := [[c] + ts[0]] + ts[1..];
    forall k | 0 < k < |r| ensures r[k] == ts[k] {}
    assert NoSpace(r[0]) by {
      assert r[0] == [c] + ts[0];
      assert NoSpace(ts[0]);
    }
  }

  /** `implode(' ', $pieces)`. */
  function JoinWithSpace(ts: seq<Bytes>): Bytes
  {
    if |ts| == 0 then []
    else if |ts| == 1 then ts[0]
    else ts[0] + [' '] + JoinWithSpace(ts[1..])
  }

  /** All the pieces, end to end. */
  function Concat(ts: seq<Bytes>): Bytes
  {
    if ts == [] then [] else ts[0] + Concat(ts[1..])
  }

  /** Concatenation regrouped; proved apart so the callers' contexts stay small. */
  lemma AppendAssoc(a: Bytes, b: Bytes, c: Bytes)
    ensures (a + b) + c == a + (b + c)
  {
  }

  lemma ConcatCons(x: Bytes, ys: seq<Bytes>)
    ensures Concat([x] + ys) == x + Concat(ys)
  {
    assert ([x] + ys)[1..] == ys;
  }

  lemma {:induction false} RemoveWhitespaceOfSpaces(t: Bytes)
    requires forall i :: 0 <= i < |t| ==> IsPcreSpace(t[i])
    ensures RemoveWhitespace(t) == []
  {
    if t != [] {
      RemoveWhitespaceOfSpaces(t[1..]);
    }
  }

  /** Splitting loses exactly the whitespace: the pieces put back together are the input minus its `\s` bytes. */
  lemma {:induction false} SplitOnSpaceRunsLosesOnlyWhitespace(s: Bytes)
    ensures Concat(SplitOnSpaceRuns(s)) == RemoveWhitespace(s)
    decreases |s|
  {
    if s == [] {
    } else if IsPcreSpace(s[0]) {
      var t := SkipSpaces(s);
      SplitOnSpaceRunsLosesOnlyWhitespace(t);
      SplitLeadingSpaceStep(s);
    } else {
      SplitOnSpaceRunsLosesOnlyWhitespace(s[1..]);
      SplitLeadingWordStep(s);
    }
  }

  lemma {:induction false} SplitLeadingSpaceStep(s: Bytes)
    requires s != [] && IsPcreSpace(s[0])
    requires Concat(SplitOnSpaceRuns(SkipSpaces(s))) == RemoveWhitespace(SkipSpaces(s))
    ensures Concat(SplitOnSpaceRuns(s)) == RemoveWhitespace(s)
  {
    var rest := SplitOnSpaceRuns(SkipSpaces(s));
    assert SplitOnSpaceRuns(s) == [[]] + rest;
    ConcatCons([], rest);
    RemoveWhitespaceSkipsSpaces(s);
  }

  /** Leading whitespace contributes nothing to `removeWhitespace`. */
  lemma {:induction false} RemoveWhitespaceSkipsSpaces(s: Bytes)
    ensures RemoveWhitespace(s) == RemoveWhitespace(SkipSpaces(s))
  {
    var k := |s| - |SkipSpaces(s)|;
    var spaces := s[..k];
    assert forall i :: 0 <= i < |spaces| ==> IsPcreSpace(spaces[i]) by {
      assert forall i :: 0 <= i < k ==> spaces[i] == s[i];
    }
    RemoveWhitespaceOfSpaces(spaces);
    assert s == spaces + s[k..];
    RemoveWhitespaceAppend(spaces, s[k..]);
  }

  lemma SplitLeadingWordStep(s: Bytes)
    requires s != [] && !IsPcreSpace(s[0])
    requires Concat(SplitOnSpaceRuns(s[1..])) == RemoveWhitespace(s[1..])
    ensures Concat(SplitOnSpaceRuns(s)) == RemoveWhitespace(s)
  {
    var rest := SplitOnSpaceRuns(s[1..]);
    var head: Bytes := [s[0]];
    SplitLeadingWordShape(s);
    ConcatGrowFirst(head, rest);
    assert RemoveWhitespace(s) == head + RemoveWhitespace(s[1..]) by {
      assert s == head + s[1..];
      RemoveWhitespaceAppend(head, s[1..]);
      assert RemoveWhitespace(head) == head;
    }
  }

  lemma SplitLeadingWordShape(s: Bytes)
    requires s != [] && !IsPcreSpace(s[0])
    ensures SplitOnSpaceRuns(s)
         == [[s[0]] + SplitOnSpaceRuns(s[1..])[0]] + SplitOnSpaceRuns(s[1..])[1..]
  {
  }

  /** Growing the first piece grows the concatenation at the front. */
  lemma ConcatGrowFirst(head: Bytes, ts: seq<Bytes>)
    requires |ts| >= 1
    ensures Concat([head + ts[0]] + ts[1..]) == head + Concat(ts)
  {
    ConcatCons(head + ts[0], ts[1..]);
    assert ts == [ts[0]] + ts[1..];
    ConcatCons(ts[0], ts[1..]);
    AppendAssoc(head, ts[0], Concat(ts[1..]));
  }

  /** A piece without whitespace in front of text that is empty or starts with whitespace becomes the first piece whole. */
  lemma {:induction false} SplitAfterWord(t: Bytes, rest: Bytes)
    requires NoSpace(t)
    requires rest == [] || IsPcreSpace(rest[0])
    ensures SplitOnSpaceRuns(t + rest) == [t] + SplitOnSpaceRuns(rest)[1..]
    decreases |t|
  {
    var rr := SplitOnSpaceRuns(rest);
    assert rr[0] == [];
    if t == [] {
      assert t + rest == rest;
      assert rr == [rr[0]] + rr[1..];
    } else {
      assert (t + rest)[1..] == t[1..] + rest;
      SplitAfterWord(t[1..], rest);
      assert [t[0]] + t[1..] == t;
    }
  }

  /**
   * Splitting undoes joining with single spaces when no piece holds
   * whitespace and no piece strictly inside the list is empty.
   */
  lemma {:induction false} SplitJoinRoundTrip(ts: seq<Bytes>)
    requires |ts| >= 1
    requires NoPieceHasSpace(ts)
    requires InnerPiecesNonEmpty(ts)
    ensures SplitOnSpaceRuns(JoinWithSpace(ts)) == ts
  {
    if |ts| == 1 {
      assert ts[0] + [] == ts[0];
      SplitAfterWord(ts[0], []);
      assert ts == [ts[0]];
    } else {
      var tail := ts[1..];
      assert NoPieceHasSpace(tail) && InnerPiecesNonEmpty(tail) by {
        assert forall k :: 0 <= k < |tail| ==> tail[k] == ts[k + 1];
      }
      SplitJoinRoundTrip(tail);
      assert |tail| == 1 || tail[0] == ts[1] != [];
      JoinStartsWithPiece(tail);
      SplitWordSpaceRest(ts[0], JoinWithSpace(tail));
      assert ts == [ts[0]] + tail;
    }
  }

  /** A join of pieces without whitespace, the first one non-empty unless it is alone, does not start with whitespace. */
  lemma {:induction false} JoinStartsWithPiece(ts: seq<Bytes>)
    requires |ts| >= 1
    requires NoPieceHasSpace(ts)
    requires |ts| == 1 || ts[0] != []
    ensures JoinWithSpace(ts) == [] || !IsPcreSpace(JoinWithSpace(ts)[0])
  {
    if |ts| > 1 {
      assert JoinWithSpace(ts) == ts[0] + [' '] + JoinWithSpace(ts[1..]);
      assert JoinWithSpace(ts)[0] == ts[0][0];
    } else {
      assert JoinWithSpace(ts) == ts[0];
    }
  }

  /** A run of `\s` bytes in front of text that does not start with whitespace is skipped exactly. */
  lemma {:induction false} SkipRun(sp: Bytes, j: Bytes)
    requires forall i :: 0 <= i < |sp| ==> IsPcreSpace(sp[i])
    requires j == [] || !IsPcreSpace(j[0])
    ensures SkipSpaces(sp + j) == j
  {
    if sp == [] {
      assert sp + j == j;
    } else {
      assert (sp + j)[1..] == sp[1..] + j;
      SkipRun(sp[1..], j);
    }
  }

  /**
   * A word, a non-empty run of `\s` bytes of any kind and length, and text
   * that does not start with whitespace split into the word followed by
   * the pieces of the text.
   */
  lemma {:induction false} SplitWordRunRest(w: Bytes, sp: Bytes, j: Bytes)
    requires NoSpace(w)
    requires sp != [] && forall i :: 0 <= i < |sp| ==> IsPcreSpace(sp[i])
    requires j == [] || !IsPcreSpace(j[0])
    ensures SplitOnSpaceRuns(w + sp + j) == [w] + SplitOnSpaceRuns(j)
  {
    var rest := sp + j;
    SkipRun(sp, j);
    assert rest[0] == sp[0];
    assert SplitOnSpaceRuns(rest) == [[]] + SplitOnSpaceRuns(j);
    assert w + sp + j == w + rest;
    SplitAfterWord(w, rest);
  }

  /** The one-space case of `SplitWordRunRest`, which `implode(' ')` produces. */
  lemma SplitWordSpaceRest(w: Bytes, j: Bytes)
    requires NoSpace(w)
    requires j == [] || !IsPcreSpace(j[0])
    ensures SplitOnSpaceRuns(w + [' '] + j) == [w] + SplitOnSpaceRuns(j)
  {
    SplitWordRunRest(w, [' '], j);
  }

  // ---------------------------------------------------------------------
  // Stop words: `filterRedundantWords`
  // ---------------------------------------------------------------------

  const REDUNDANT_WORDS: seq<Bytes> := ["the", "and"]

  /**
   * The `array_filter` callback rejects a piece after the first one when
   * it is PHP-empty ("" or "0") or one of the redundant words; `in_array`
   * compares two non-numeric strings exactly, so "The" is not one of them.
   */
  predicate IsDiscardedWord(w: Bytes) { PhpEmpty(w) || w in REDUNDANT_WORDS }

  /** The callback applied to the pieces after the first, keeping the survivors in order. */
  function DropDiscardedWords(ts: seq<Bytes>): (r: seq<Bytes>)
    ensures |r| <= |ts|
  {
    if ts == [] then []
    else (if IsDiscardedWord(ts[0]) then [] else [ts[0]]) + DropDiscardedWords(ts[1..])
  }

  /** A word survives exactly when it is a piece of the input and the callback does not reject it. */
  lemma {:induction false} DropDiscardedWordsMembers(ts: seq<Bytes>)
    ensures forall w :: w in DropDiscardedWords(ts) <==> w in ts && !IsDiscardedWord(w)
  {
    if ts != [] {
      DropDiscardedWordsMembers(ts[1..]);
      assert ts == [ts[0]] + ts[1..];
    }
  }

  lemma {:induction false} DropDiscardedWordsAppend(a: seq<Bytes>, b: seq<Bytes>)
    ensures DropDiscardedWords(a + b) == DropDiscardedWords(a) + DropDiscardedWords(b)
  {
    if a == [] {
      assert a + b == b;
    } else {
      var head: seq<Bytes> := if IsDiscardedWord(a[0]) then [] else [a[0]];
      assert (a + b)[0] == a[0];
      assert (a + b)[1..] == a[1..] + b;
      DropDiscardedWordsAppend(a[1..], b);
      assert DropDiscardedWords(a + b) == head + (DropDiscardedWords(a[1..]) + DropDiscardedWords(b));
      assert DropDiscardedWords(a) == head + DropDiscardedWords(a[1..]);
    }
  }

  lemma {:induction false} DropDiscardedWordsKeepsSurvivors(ts: seq<Bytes>)
    requires forall w :: w in ts ==> !IsDiscardedWord(w)
    ensures DropDiscardedWords(ts) == ts
  {
    if ts != [] {
      assert ts[0] in ts;
      assert forall w :: w in ts[1..] ==> w in ts;
      DropDiscardedWordsKeepsSurvivors(ts[1..]);
    }
  }

  /** The pieces `filterRedundantWords` joins back together: piece 0, then the survivors among the rest. */
  function KeptWords(s: Bytes): (ws: seq<Bytes>)
    ensures 1 <= |ws| <= |SplitOnSpaceRuns(s)|
    ensures ws[0] == SplitOnSpaceRuns(s)[0]
  {
    var ts := SplitOnSpaceRuns(s);
    [ts[0]] + DropDiscardedWords(ts[1..])
  }

  /** The kept pieces hold no whitespace, and every piece after the first survives the callback. */
  lemma KeptWordsShape(s: Bytes)
    ensures NoPieceHasSpace(KeptWords(s))
    ensures forall k :: 0 < k < |KeptWords(s)| ==> !IsDiscardedWord(KeptWords(s)[k])
  {
    var ts := SplitOnSpaceRuns(s);
    SplitOnSpaceRunsShape(s);
    var d := DropDiscardedWords(ts[1..]);
    DropDiscardedWordsMembers(ts[1..]);
    var ws := KeptWords(s);
    assert ws == [ts[0]] + d;
    forall k | 0 <= k < |ws| ensures NoSpace(ws[k]) && (k > 0 ==> !IsDiscardedWord(ws[k])) {
      if k > 0 {
        assert ws[k] == d[k - 1];
        assert d[k - 1] in d;
        assert d[k - 1] in ts[1..];
      }
    }
  }

  /**
   * `implode(' ', array_filter(preg_split('/(\s)+/i', $s), ...))` where the
   * callback always keeps piece 0.
   */
  function FilterRedundantWords(s: Bytes): Bytes
  {
    JoinWithSpace(KeptWords(s))
  }

  /**
   * Splitting the output again gives back exactly the first piece of the
   * input followed by the later pieces that are not PHP-empty and not
   * "the" or "and", in their original order.
   */
  lemma FilterRedundantWordsPieces(s: Bytes)
    ensures SplitOnSpaceRuns(FilterRedundantWords(s))
         == [SplitOnSpaceRuns(s)[0]] + DropDiscardedWords(SplitOnSpaceRuns(s)[1..])
  {
    KeptWordsShape(s);
    SplitJoinRoundTrip(KeptWords(s));
  }

  /** The first word of the input begins the output verbatim, whatever it is. */
  lemma FilterRedundantWordsKeepsFirstWord(s: Bytes)
    ensures IsPrefix(SplitOnSpaceRuns(s)[0], FilterRedundantWords(s))
  {
    var ws := KeptWords(s);
    if |ws| > 1 {
      assert FilterRedundantWords(s) == ws[0] + ([' '] + JoinWithSpace(ws[1..]));
    }
  }

  /** Filtering twice is filtering once: no dropped word survives into the output. */
  lemma FilterRedundantWordsIdempotent(s: Bytes)
    ensures FilterRedundantWords(FilterRedundantWords(s)) == FilterRedundantWords(s)
  {
    var ws := KeptWords(s);
    var r := FilterRedundantWords(s);
    KeptWordsShape(s);
    SplitJoinRoundTrip(ws);
    assert SplitOnSpaceRuns(r) == ws;
    assert forall w :: w in ws[1..] ==> !IsDiscardedWord(w);
    DropDiscardedWordsKeepsSurvivors(ws[1..]);
    assert KeptWords(r) == [ws[0]] + ws[1..] == ws;
  }

  /** Sum of the lengths of the pieces. */
  function TotalLength(ts: seq<Bytes>): nat
  {
    if ts == [] then 0 else |ts[0]| + TotalLength(ts[1..])
  }

  lemma TotalLengthCons(x: Bytes, ys: seq<Bytes>)
    ensures TotalLength([x] + ys) == |x| + TotalLength(ys)
  {
    assert ([x] + ys)[1..] == ys;
  }

  lemma {:induction false} JoinWithSpaceLength(ts: seq<Bytes>)
    requires |ts| >= 1
    ensures |JoinWithSpace(ts)| == TotalLength(ts) + |ts| - 1
  {
    if |ts| > 1 {
      JoinWithSpaceLength(ts[1..]);
    }
  }

  /** Each run of whitespace holds at least one byte and separates two pieces. */
  lemma {:induction false} SplitOnSpaceRunsLength(s: Bytes)
    ensures TotalLength(SplitOnSpaceRuns(s)) + |SplitOnSpaceRuns(s)| <= |s| + 1
    decreases |s|
  {
    if s == [] {
    } else if IsPcreSpace(s[0]) {
      var t := SkipSpaces(s);
      SplitOnSpaceRunsLength(t);
      assert SplitOnSpaceRuns(s) == [[]] + SplitOnSpaceRuns(t);
      assert ([[]] + SplitOnSpaceRuns(t))[1..] == SplitOnSpaceRuns(t);
    } else {
      var rest := SplitOnSpaceRuns(s[1..]);
      SplitOnSpaceRunsLength(s[1..]);
      var r := SplitOnSpaceRuns(s);
      assert r == [[s[0]] + rest[0]] + rest[1..];
      assert r[1..] == rest[1..];
      assert TotalLength(rest) == |rest[0]| + TotalLength(rest[1..]);
    }
  }

  lemma {:induction false} DropDiscardedWordsLength(ts: seq<Bytes>)
    ensures TotalLength(DropDiscardedWords(ts)) <= TotalLength(ts)
  {
    if ts != [] {
      DropDiscardedWordsLength(ts[1..]);
      var d := DropDiscardedWords(ts[1..]);
      if IsDiscardedWord(ts[0]) {
        assert DropDiscardedWords(ts) == d;
      } else {
        assert DropDiscardedWords(ts) == [ts[0]] + d;
        TotalLengthCons(ts[0], d);
      }
    }
  }

  /** Dropping words and joining with single spaces never makes the string longer. */
  lemma FilterRedundantWordsNotLonger(s: Bytes)
    ensures |FilterRedundantWords(s)| <= |s|
  {
    var ts := SplitOnSpaceRuns(s);
    var d := DropDiscardedWords(ts[1..]);
    var ws := KeptWords(s);
    assert ws == [ts[0]] + d;
    assert ws[1..] == d;
    JoinWithSpaceLength(ws);
    DropDiscardedWordsLength(ts[1..]);
    SplitOnSpaceRunsLength(s);
    assert TotalLength(ts) == |ts[0]| + TotalLength(ts[1..]);
  }

  // ---------------------------------------------------------------------
  // Cutting at a marker: `preg_split` + `array_shift`
  // ---------------------------------------------------------------------

  const CONTRIBUTOR_MARKERS: seq<Bytes> := ["ft", "feat", "featuring"]
  const LICENSING_MARKERS: seq<Bytes> := ["under exclusive license", "under license"]

  /** `w` (caseless) at `i`, then an optional '.', then one `\s` byte: the tail of `(?:w)\.?\s`. */
  predicate KeywordThenSpaceAt(s: Bytes, i: nat, w: Bytes) {
    i + |w| <= |s| && CaselessEq(s[i..i + |w|], w) &&
    var j := i + |w|;
    (j < |s| && IsPcreSpace(s[j])) || (j + 1 < |s| && s[j] == '.' && IsPcreSpace(s[j + 1]))
  }

  /** One of the alternatives matches at `i`. */
  predicate AnyKeywordThenSpaceAt(s: Bytes, i: nat, words: seq<Bytes>)
    decreases |words|
  {
    |words| > 0 && (KeywordThenSpaceAt(s, i, words[0]) || AnyKeywordThenSpaceAt(s, i, words[1..]))
  }

  lemma {:induction false} AnyKeywordThenSpaceAtIff(s: Bytes, i: nat, words: seq<Bytes>)
    ensures AnyKeywordThenSpaceAt(s, i, words) <==> exists w :: w in words && KeywordThenSpaceAt(s, i, w)
    decreases |words|
  {
    if |words| > 0 {
      AnyKeywordThenSpaceAtIff(s, i, words[1..]);
      assert words == [words[0]] + words[1..];
    }
  }

  /** The pattern `\s(?:w1|w2|...)\.?\s` (flag `i`) has a match that starts at `i`. */
  predicate MarkerAt(s: Bytes, i: nat, words: seq<Bytes>) {
    i < |s| && IsPcreSpace(s[i]) && AnyKeywordThenSpaceAt(s, i + 1, words)
  }

  /** The leftmost start of a marker at or after `from`, or `|s|` when there is none. */
  function FirstMarker(s: Bytes, words: seq<Bytes>, from: nat): (i: nat)
    requires from <= |s|
    ensures from <= i <= |s|
    ensures i < |s| ==> MarkerAt(s, i, words)
    ensures forall j :: from <= j < i ==> !MarkerAt(s, j, words)
    decreases |s| - from
  {
    if from == |s| || MarkerAt(s, from, words) then from else FirstMarker(s, words, from + 1)
  }

  /** The first piece `preg_split` returns: all of `s` before the leftmost marker. */
  function BeforeFirstMarker(s: Bytes, words: seq<Bytes>): (r: Bytes)
    ensures IsPrefix(r, s)
    ensures |r| < |s| ==> MarkerAt(s, |r|, words)
    ensures forall j :: 0 <= j < |r| ==> !MarkerAt(s, j, words)
    ensures r == s <==> forall j :: 0 <= j < |s| ==> !MarkerAt(s, j, words)
  {
    s[..FirstMarker(s, words, 0)]
  }

  /** A marker inside a prefix of `s` is a marker of `s`. */
  lemma {:induction false} MarkerAtPrefix(p: Bytes, s: Bytes, j: nat, words: seq<Bytes>)
    requires IsPrefix(p, s)
    requires MarkerAt(p, j, words)
    ensures MarkerAt(s, j, words)
  {
    AnyKeywordThenSpaceAtIff(p, j + 1, words);
    var w :| w in words && KeywordThenSpaceAt(p, j + 1, w);
    var e := j + 1 + |w|;
    assert forall i :: 0 <= i < |p| ==> s[i] == p[i];
    assert s[j + 1..e] == p[j + 1..e];
    assert e < |p| ==> s[e] == p[e];
    assert e + 1 < |p| ==> s[e + 1] == p[e + 1];
    assert KeywordThenSpaceAt(s, j + 1, w);
    AnyKeywordThenSpaceAtIff(s, j + 1, words);
  }

  /** The prefix before the first marker holds no marker, so cutting twice is cutting once. */
  lemma BeforeFirstMarkerIdempotent(s: Bytes, words: seq<Bytes>)
    ensures BeforeFirstMarker(BeforeFirstMarker(s, words), words) == BeforeFirstMarker(s, words)
  {
    var r := BeforeFirstMarker(s, words);
    forall j | 0 <= j < |r| ensures !MarkerAt(r, j, words) {
      if MarkerAt(r, j, words) {
        MarkerAtPrefix(r, s, j, words);
      }
    }
  }

  /**
   * `discardContributors`: the input up to the leftmost
   * whitespace + "ft"/"feat"/"featuring" + optional '.' + whitespace.
   */
  function DiscardContributors(s: Bytes): (r: Bytes)
    ensures IsPrefix(r, s)
    ensures |r| < |s| ==> MarkerAt(s, |r|, CONTRIBUTOR_MARKERS)
    ensures forall j :: 0 <= j < |r| ==> !MarkerAt(s, j, CONTRIBUTOR_MARKERS)
    ensures r == s <==> forall j :: 0 <= j < |s| ==> !MarkerAt(s, j, CONTRIBUTOR_MARKERS)
  {
    BeforeFirstMarker(s, CONTRIBUTOR_MARKERS)
  }

  /**
   * `discardLicensingBlurb`: the input up to the leftmost whitespace +
   * "under exclusive license"/"under license" + optional '.' + whitespace.
   */
  function DiscardLicensingBlurb(s: Bytes): (r: Bytes)
    ensures IsPrefix(r, s)
    ensures |r| < |s| ==> MarkerAt(s, |r|, LICENSING_MARKERS)
    ensures forall j :: 0 <= j < |r| ==> !MarkerAt(s, j, LICENSING_MARKERS)
    ensures r == s <==> forall j :: 0 <= j < |s| ==> !MarkerAt(s, j, LICENSING_MARKERS)
  {
    BeforeFirstMarker(s, LICENSING_MARKERS)
  }

  // ---------------------------------------------------------------------
  // Trailing year: `preg_replace('/\d{4}$/', '', $s)`
  // ---------------------------------------------------------------------

  predicate AllDigits(t: Bytes) { forall i :: 0 <= i < |t| ==> IsDigit(t[i]) }

  /** Four digits end where `$` can match. */
  predicate EndsWithYear(s: Bytes) {
    var e := AnchorEnd(s);
    e >= 4 && AllDigits(s[e - 4..e])
  }

  /**
   * `\d{4}$` matches somewhere exactly when four digits end at the leftmost
   * position where `$` matches: after a final newline the pattern cannot
   * end, because a newline is not a digit.
   */
  lemma {:induction false} YearMatchIff(s: Bytes)
    ensures (exists e: nat :: IsDollarPosition(s, e) && 4 <= e && AllDigits(s[e - 4..e])) <==> EndsWithYear(s)
  {
    var a := AnchorEnd(s);
    if EndsWithYear(s) {
      assert IsDollarPosition(s, a) && 4 <= a && AllDigits(s[a - 4..a]);
    }
    forall e: nat | IsDollarPosition(s, e) && 4 <= e && AllDigits(s[e - 4..e]) ensures EndsWithYear(s) {
      assert e == a;
    }
  }

  /**
   * The only possible match is the four bytes before the end (or before a
   * final newline); it is deleted when they are all digits, so a longer
   * digit run loses exactly its last four.
   */
  function RemoveTrailingYear(s: Bytes): (r: Bytes)
    ensures r == s <==> !EndsWithYear(s)
    ensures EndsWithYear(s) ==> |r| == |s| - 4
    ensures !EndsWithNewline(s) && r != s ==> IsPrefix(r, s) && AllDigits(s[|r|..])
    ensures EndsWithNewline(s) && r != s ==> r == s[..|s| - 5] + ['\n'] && AllDigits(s[|s| - 5..|s| - 1])
  {
    var e := AnchorEnd(s);
    if EndsWithYear(s) then s[..e - 4] + s[e..] else s
  }

  // ---------------------------------------------------------------------
  // Anchored suffixes: `removeSuffix` and its users
  // ---------------------------------------------------------------------

  /** Literal `w` occupies `s[i..]` up to a position where `$` matches. */
  predicate SuffixAt(s: Bytes, i: nat, w: Bytes, caseless: bool) {
    i + |w| <= |s| && IsDollarPosition(s, i + |w|) && LiteralEq(s[i..i + |w|], w, caseless)
  }

  /** Index of the first alternative, in pattern order, that matches at `i`; `|suffixes|` when none does. */
  function FirstSuffixIndex(s: Bytes, i: nat, suffixes: seq<Bytes>, caseless: bool): (k: nat)
    ensures k <= |suffixes|
    ensures k < |suffixes| ==> SuffixAt(s, i, suffixes[k], caseless)
    ensures forall j :: 0 <= j < k ==> !SuffixAt(s, i, suffixes[j], caseless)
    decreases |suffixes|
  {
    if suffixes == [] then 0
    else if SuffixAt(s, i, suffixes[0], caseless) then 0
    else 1 + FirstSuffixIndex(s, i, suffixes[1..], caseless)
  }

  /** `\s(?:w1|w2|...)$` has a match starting at `i`. */
  predicate SuffixMatchAt(s: Bytes, i: nat, suffixes: seq<Bytes>, caseless: bool) {
    i < |s| && IsPcreSpace(s[i]) && FirstSuffixIndex(s, i + 1, suffixes, caseless) < |suffixes|
  }

  /** Read without the final-newline case, a match at `i` is whitespace followed by a listed suffix that runs to the end. */
  lemma SuffixMatchAtIff(s: Bytes, i: nat, suffixes: seq<Bytes>, caseless: bool)
    requires !EndsWithNewline(s)
    ensures SuffixMatchAt(s, i, suffixes, caseless) <==>
      i < |s| && IsPcreSpace(s[i]) &&
      exists k :: 0 <= k < |suffixes| && i + 1 + |suffixes[k]| == |s| && LiteralEq(s[i + 1..], suffixes[k], caseless)
  {
    if i < |s| && IsPcreSpace(s[i]) {
      var k := FirstSuffixIndex(s, i + 1, suffixes, caseless);
      if k < |suffixes| {
        assert s[i + 1..i + 1 + |suffixes[k]|] == s[i + 1..];
      }
      forall k' | 0 <= k' < |suffixes| && i + 1 + |suffixes[k']| == |s| && LiteralEq(s[i + 1..], suffixes[k'], caseless)
        ensures k < |suffixes|
      {
        assert s[i + 1..i + 1 + |suffixes[k']|] == s[i + 1..];
        assert SuffixAt(s, i + 1, suffixes[k'], caseless);
      }
    }
  }

  /** The leftmost start of a match at or after `from`, or `|s|` when there is none. */
  function FirstSuffixMatch(s: Bytes, suffixes: seq<Bytes>, caseless: bool, from: nat): (i: nat)
    requires from <= |s|
    ensures from <= i <= |s|
    ensures i < |s| ==> SuffixMatchAt(s, i, suffixes, caseless)
    ensures forall j :: from <= j < i ==> !SuffixMatchAt(s, j, suffixes, caseless)
    decreases |s| - from
  {
    if from == |s| || SuffixMatchAt(s, from, suffixes, caseless) then from
    else FirstSuffixMatch(s, suffixes, caseless, from + 1)
  }

  predicate NonEmptyWords(ws: seq<Bytes>) { forall k :: 0 <= k < |ws| ==> |ws[k]| > 0 }

  /** `removeSuffix` adds the `i` flag exactly when `matchCase` is false. */
  function IgnoresCase(matchCase: bool): bool { !matchCase }

  /**
   * `removeSuffix($s, $suffixes, $matchCase)`: `preg_replace` with
   * `\s(?:w1|w2|...)$`, caseless unless `matchCase`. A match ends where
   * `$` matches and is at least two bytes long, so after the leftmost
   * match nothing is left to match: at most one whitespace byte and one
   * listed suffix are removed.
   */
  function RemoveSuffix(s: Bytes, suffixes: seq<Bytes>, matchCase: bool): (r: Bytes)
    requires NonEmptyWords(suffixes)
    ensures |r| <= |s|
    ensures !EndsWithNewline(s) ==> IsPrefix(r, s)
  {
    var caseless := IgnoresCase(matchCase);
    var i := FirstSuffixMatch(s, suffixes, caseless, 0);
    if i == |s| then s
    else
      var k := FirstSuffixIndex(s, i + 1, suffixes, caseless);
      assert |suffixes[k]| > 0;
      s[..i] + s[i + 1 + |suffixes[k]|..]
  }

  /** The subject is unchanged exactly when the pattern matches nowhere. */
  lemma RemoveSuffixUnchangedIff(s: Bytes, suffixes: seq<Bytes>, matchCase: bool)
    requires NonEmptyWords(suffixes)
    ensures RemoveSuffix(s, suffixes, matchCase) == s <==>
      forall i :: 0 <= i < |s| ==> !SuffixMatchAt(s, i, suffixes, IgnoresCase(matchCase))
  {
    var caseless := IgnoresCase(matchCase);
    var i := FirstSuffixMatch(s, suffixes, caseless, 0);
    if i < |s| {
      var k := FirstSuffixIndex(s, i + 1, suffixes, caseless);
      assert |suffixes[k]| > 0;
      assert |RemoveSuffix(s, suffixes, matchCase)| < |s|;
    }
  }

  /** A change removes one whitespace byte and one listed suffix. */
  lemma RemoveSuffixRemovesOneSuffix(s: Bytes, suffixes: seq<Bytes>, matchCase: bool)
    requires NonEmptyWords(suffixes)
    ensures var r := RemoveSuffix(s, suffixes, matchCase);
      r != s ==> exists k :: 0 <= k < |suffixes| && |s| == |r| + 1 + |suffixes[k]|
  {
    var caseless := IgnoresCase(matchCase);
    var i := FirstSuffixMatch(s, suffixes, caseless, 0);
    if i < |s| {
      var k := FirstSuffixIndex(s, i + 1, suffixes, caseless);
      var w := suffixes[k];
      assert i + 1 + |w| <= |s|;
      var r := RemoveSuffix(s, suffixes, matchCase);
      assert r == s[..i] + s[i + 1 + |w|..];
      assert |r| == i + (|s| - (i + 1 + |w|));
    }
  }

  /** Without a final newline, a changed result ends where the leftmost match starts. */
  lemma RemoveSuffixEndsAtFirstMatch(s: Bytes, suffixes: seq<Bytes>, matchCase: bool)
    requires NonEmptyWords(suffixes)
    requires !EndsWithNewline(s)
    ensures var r := RemoveSuffix(s, suffixes, matchCase);
      r != s ==>
        SuffixMatchAt(s, |r|, suffixes, IgnoresCase(matchCase)) &&
        forall j :: 0 <= j < |r| ==> !SuffixMatchAt(s, j, suffixes, IgnoresCase(matchCase))
  {
    var caseless := IgnoresCase(matchCase);
    var i := FirstSuffixMatch(s, suffixes, caseless, 0);
    if i < |s| {
      var k := FirstSuffixIndex(s, i + 1, suffixes, caseless);
      var w := suffixes[k];
      MatchRunsToEnd(s, i, suffixes, caseless);
      var r := RemoveSuffix(s, suffixes, matchCase);
      assert r == s[..i] + s[i + 1 + |w|..];
      assert r == s[..i];
    }
  }

  /** Without a final newline, the alternative chosen at a match start runs to the very end of the subject. */
  lemma MatchRunsToEnd(s: Bytes, i: nat, suffixes: seq<Bytes>, caseless: bool)
    requires !EndsWithNewline(s)
    requires SuffixMatchAt(s, i, suffixes, caseless)
    ensures i + 1 + |suffixes[FirstSuffixIndex(s, i + 1, suffixes, caseless)]| == |s|
  {
    var k := FirstSuffixIndex(s, i + 1, suffixes, caseless);
    assert SuffixAt(s, i + 1, suffixes[k], caseless);
  }

  /** Without a final newline, the result is exactly the subject cut at its leftmost match. */
  lemma RemoveSuffixCutsAtFirstMatch(s: Bytes, suffixes: seq<Bytes>, matchCase: bool, i: nat)
    requires NonEmptyWords(suffixes)
    requires !EndsWithNewline(s)
    requires SuffixMatchAt(s, i, suffixes, IgnoresCase(matchCase))
    requires forall j :: 0 <= j < i ==> !SuffixMatchAt(s, j, suffixes, IgnoresCase(matchCase))
    ensures RemoveSuffix(s, suffixes, matchCase) == s[..i]
  {
    var r := RemoveSuffix(s, suffixes, matchCase);
    RemoveSuffixUnchangedIff(s, suffixes, matchCase);
    RemoveSuffixEndsAtFirstMatch(s, suffixes, matchCase);
    assert r != s;
    assert |r| == i;
  }

  /**
   * Without a final newline, `removeSuffix` changes the subject exactly when
   * the subject ends with one whitespace byte followed by a listed suffix.
   */
  lemma RemoveSuffixChangesIff(s: Bytes, suffixes: seq<Bytes>, matchCase: bool)
    requires NonEmptyWords(suffixes)
    requires !EndsWithNewline(s)
    ensures RemoveSuffix(s, suffixes, matchCase) != s <==>
      exists i, k :: 0 <= i < |s| && IsPcreSpace(s[i]) && 0 <= k < |suffixes| &&
        i + 1 + |suffixes[k]| == |s| && LiteralEq(s[i + 1..], suffixes[k], IgnoresCase(matchCase))
  {
    var caseless := IgnoresCase(matchCase);
    RemoveSuffixUnchangedIff(s, suffixes, matchCase);
    if RemoveSuffix(s, suffixes, matchCase) != s {
      var i :| 0 <= i < |s| && SuffixMatchAt(s, i, suffixes, caseless);
      SuffixMatchAtIff(s, i, suffixes, caseless);
    }
    forall i, k | 0 <= i < |s| && IsPcreSpace(s[i]) && 0 <= k < |suffixes| &&
        i + 1 + |suffixes[k]| == |s| && LiteralEq(s[i + 1..], suffixes[k], caseless)
      ensures RemoveSuffix(s, suffixes, matchCase) != s
    {
      SuffixMatchAtIff(s, i, suffixes, caseless);
    }
  }

  /** The number of bytes removed is one more than the length of some listed suffix. */
  lemma RemoveSuffixRemovedLength(s: Bytes, suffixes: seq<Bytes>, matchCase: bool, lens: set<int>)
    requires NonEmptyWords(suffixes)
    requires forall k :: 0 <= k < |suffixes| ==> |suffixes[k]| + 1 in lens
    ensures RemoveSuffix(s, suffixes, matchCase) == s || |s| - |RemoveSuffix(s, suffixes, matchCase)| in lens
  {
    RemoveSuffixRemovesOneSuffix(s, suffixes, matchCase);
  }

  const CORP_SUFFIXES: seq<Bytes> := ["LLC", "LLCs", "LTD", "Limited", "Unlimited", "Inc"]
  const SOFT_GROUP_SUFFIXES: seq<Bytes> := ["Co", "Group"]
  const REDUNDANT_NAME_SUFFIXES: seq<Bytes> := ["Records", "Recordings"]
  const COPYRIGHT_SUFFIXES: seq<Bytes> := ["Copyright Control"]

  /** `\s(?:Copyright Control)$/i`, which is `removeSuffix` with a one-entry table. */
  function DiscardCopyright(s: Bytes): (r: Bytes)
    ensures !EndsWithNewline(s) ==> IsPrefix(r, s)
    ensures r == s || |s| - |r| == 18
  {
    RemoveSuffixRemovedLength(s, COPYRIGHT_SUFFIXES, false, {18});
    RemoveSuffix(s, COPYRIGHT_SUFFIXES, false)
  }

  function DiscardIncorporation(s: Bytes): (r: Bytes)
    ensures !EndsWithNewline(s) ==> IsPrefix(r, s)
    ensures r == s || |s| - |r| in {4, 5, 8, 10}
  {
    RemoveSuffixRemovedLength(s, CORP_SUFFIXES, false, {4, 5, 8, 10});
    RemoveSuffix(s, CORP_SUFFIXES, false)
  }

  function DiscardOrganizationGroup(s: Bytes): (r: Bytes)
    ensures !EndsWithNewline(s) ==> IsPrefix(r, s)
    ensures r == s || |s| - |r| in {3, 6}
  {
    RemoveSuffixRemovedLength(s, SOFT_GROUP_SUFFIXES, false, {3, 6});
    RemoveSuffix(s, SOFT_GROUP_SUFFIXES, false)
  }

  function DiscardLabelNameRedundancies(s: Bytes): (r: Bytes)
    ensures !EndsWithNewline(s) ==> IsPrefix(r, s)
    ensures r == s || |s| - |r| in {8, 11}
  {
    RemoveSuffixRemovedLength(s, REDUNDANT_NAME_SUFFIXES, false, {8, 11});
    RemoveSuffix(s, REDUNDANT_NAME_SUFFIXES, false)
  }
}

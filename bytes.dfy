/**
 * Byte strings as PHP sees them: every rule of the catalogue works on bytes
 * (PCRE patterns without the `u` flag, `strtolower`, `str_replace`, `trim`),
 * so a string is a sequence of characters below 256.
 */
module ByteStrings {

  type Byte = c: char | c as int < 256
  type Bytes = seq<Byte>

  predicate IsUpper(c: Byte) { 'A' <= c <= 'Z' }
  predicate IsLower(c: Byte) { 'a' <= c <= 'z' }
  predicate IsDigit(c: Byte) { '0' <= c <= '9' }

  /** The bytes that `[a-z\d]` matches under the `i` flag. */
  predicate IsAsciiAlnum(c: Byte) { IsUpper(c) || IsLower(c) || IsDigit(c) }

  /** PCRE's `\s` without UCP: tab, newline, vertical tab, form feed, carriage return, space. */
  predicate IsPcreSpace(c: Byte) { c == ' ' || 9 <= c as int <= 13 }

  predicate IsNonSpace(c: Byte) { !IsPcreSpace(c) }

  /** PHP `trim`'s default set: space, tab, newline, carriage return, NUL, vertical tab (no form feed). */
  predicate IsTrimByte(c: Byte) {
    c == ' ' || c == '\t' || c == '\n' || c == '\r' || c as int == 0 || c as int == 11
  }

  predicate NoSpace(s: Bytes) { forall i :: 0 <= i < |s| ==> !IsPcreSpace(s[i]) }

  predicate IsPrefix(r: Bytes, s: Bytes) { |r| <= |s| && r == s[..|r|] }

  /** ASCII lowering of one byte, as `strtolower` and PCRE's caseless tables do it. */
  function ToLower(c: Byte): (d: Byte)
    ensures !IsUpper(d)
    ensures IsUpper(c) ==> d as int == c as int + 32
    ensures !IsUpper(c) ==> d == c
  {
    if IsUpper(c) then (c as int + 32) as char else c
  }

  /** Byte-wise equality ignoring ASCII case, as a literal matches under the `i` flag. */
  predicate CaselessEq(a: Bytes, b: Bytes) {
    |a| == |b| && (a == [] || (ToLower(a[0]) == ToLower(b[0]) && CaselessEq(a[1..], b[1..])))
  }

  lemma {:induction false} CaselessEqReflexive(a: Bytes)
    ensures CaselessEq(a, a)
  {
    if a != [] {
      CaselessEqReflexive(a[1..]);
    }
  }

  /** Equality of a subject slice with a pattern literal, with or without the `i` flag. */
  predicate LiteralEq(a: Bytes, b: Bytes, caseless: bool) {
    if caseless then CaselessEq(a, b) else a == b
  }

  /** PHP `empty()` on a string: true for "" and for "0". */
  predicate PhpEmpty(s: Bytes) { s == [] || s == "0" }

  /**
   * PCRE's `$` (no multiline, no dollar-end-only) matches at the end of the
   * subject and just before a newline that is the subject's last byte.
   */
  predicate IsDollarPosition(s: Bytes, e: nat) {
    e == |s| || (e + 1 == |s| && s[e] == '\n')
  }

  predicate EndsWithNewline(s: Bytes) { |s| > 0 && s[|s| - 1] == '\n' }

  /** The leftmost position where `$` matches. */
  function AnchorEnd(s: Bytes): (e: nat)
    ensures e <= |s|
    ensures IsDollarPosition(s, e)
    ensures forall d: nat :: IsDollarPosition(s, d) ==> e <= d
    ensures !EndsWithNewline(s) ==> e == |s|
    ensures EndsWithNewline(s) ==> e == |s| - 1
  {
    if EndsWithNewline(s) then |s| - 1 else |s|
  }

  /** Keeps the bytes that satisfy `keep`, in order: a filter over a byte string. */
  function Retain(s: Bytes, keep: Byte -> bool): (r: Bytes)
    ensures |r| <= |s|
    ensures forall i :: 0 <= i < |r| ==> keep(r[i])
    ensures (forall i :: 0 <= i < |s| ==> keep(s[i])) ==> r == s
  {
    if s == [] then [] else (if keep(s[0]) then [s[0]] else []) + Retain(s[1..], keep)
  }

  /** Every kept byte value occurs in the result as often as in the input; no other value occurs. */
  lemma {:induction false} RetainCounts(s: Bytes, keep: Byte -> bool)
    ensures forall c :: keep(c) ==> multiset(Retain(s, keep))[c] == multiset(s)[c]
    ensures forall c :: !keep(c) ==> multiset(Retain(s, keep))[c] == 0
  {
    if s != [] {
      RetainCounts(s[1..], keep);
      assert s == [s[0]] + s[1..];
      assert multiset(s) == multiset([s[0]]) + multiset(s[1..]);
    }
  }

  lemma {:induction false} RetainAppend(a: Bytes, b: Bytes, keep: Byte -> bool)
    ensures Retain(a + b, keep) == Retain(a, keep) + Retain(b, keep)
  {
    if a == [] {
      assert a + b == b;
    } else {
      assert (a + b)[1..] == a[1..] + b;
      RetainAppend(a[1..], b, keep);
    }
  }

  lemma RetainIdempotent(s: Bytes, keep: Byte -> bool)
    ensures Retain(Retain(s, keep), keep) == Retain(s, keep)
  {
  }

  /** `r` is unchanged by the filter exactly when every byte of it is kept. */
  lemma {:induction false} RetainFixpoint(s: Bytes, keep: Byte -> bool)
    ensures Retain(s, keep) == s <==> forall i :: 0 <= i < |s| ==> keep(s[i])
  {
    if Retain(s, keep) == s {
      forall i | 0 <= i < |s| ensures keep(s[i]) {
        assert s[i] == Retain(s, keep)[i];
      }
    }
  }

  // PHP `trim` with its default byte set.

  /** Number of bytes `trim` strips from the front of `s`. */
  function LeadingTrimCount(s: Bytes): (k: nat)
    ensures k <= |s|
    ensures forall i :: 0 <= i < k ==> IsTrimByte(s[i])
    ensures k < |s| ==> !IsTrimByte(s[k])
  {
    if s != [] && IsTrimByte(s[0]) then
      var k := LeadingTrimCount(s[1..]);
      assert forall i :: 1 <= i < k + 1 ==> s[i] == s[1..][i - 1];
      1 + k
    else 0
  }

  function TrimLeft(s: Bytes): (r: Bytes)
    ensures |r| <= |s| && r == s[|s| - |r|..]
    ensures forall i :: 0 <= i < |s| - |r| ==> IsTrimByte(s[i])
    ensures r == [] || !IsTrimByte(r[0])
  {
    s[LeadingTrimCount(s)..]
  }

  function TrimRight(s: Bytes): (r: Bytes)
    ensures IsPrefix(r, s)
    ensures forall i :: |r| <= i < |s| ==> IsTrimByte(s[i])
    ensures r == [] || !IsTrimByte(r[|r| - 1])
  {
    if s != [] && IsTrimByte(s[|s| - 1]) then TrimRight(s[..|s| - 1]) else s
  }

  /** Neither end of `s` is a byte that `trim` strips. */
  predicate IsTrimmed(s: Bytes) {
    s == [] || (!IsTrimByte(s[0]) && !IsTrimByte(s[|s| - 1]))
  }

  /**
   * `trim($s)`: `r` is the slice of `s` that starts at the first byte not
   * in the trim set and ends at the last one; every byte outside it is in
   * the set, and both ends of `r` are outside it.
   */
  function Trim(s: Bytes): (r: Bytes)
    ensures IsTrimmed(r)
    ensures LeadingTrimCount(s) + |r| <= |s|
    ensures r == s[LeadingTrimCount(s)..LeadingTrimCount(s) + |r|]
    ensures forall i :: LeadingTrimCount(s) + |r| <= i < |s| ==> IsTrimByte(s[i])
    ensures IsTrimmed(s) ==> r == s
  {
    var t := TrimLeft(s);
    var r := TrimRight(t);
    assert t == s[LeadingTrimCount(s)..];
    r
  }

  lemma TrimIdempotent(s: Bytes)
    ensures Trim(Trim(s)) == Trim(s)
  {
  }
}

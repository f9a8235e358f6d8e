/**
 * The reduction inside `Normcore::transform`: a list of rule names is
 * folded over the input left to right with `array_reduce`, and each step
 * keeps the trimmed output of the rule only when PHP's `empty()` says it
 * is not empty.
 */
module Normcore {
  import opened ByteStrings
  import Transforms

  /** The rule names the closure can call as `Transforms::$function`. */
  datatype Transform =
    | DownCase
    | NormalizeUnicode
    | FlattenStylisticCharacters
    | RemovePunctuation
    | FilterRedundantWords
    | RemoveWhitespace
    | DiscardContributors
    | DiscardLicensingBlurb
    | RemoveTrailingYear
    | DiscardCopyright
    | DiscardIncorporation
    | DiscardOrganizationGroup
    | DiscardLabelNameRedundancies

  /**
   * `Transforms::$function($s)`. The ICU transliterator behind
   * `normalizeUnicode` is not modelled; its effect is the parameter
   * `transliterate`. Every other rule only deletes or rewrites bytes, so
   * none of them makes the string longer.
   */
  function Apply(t: Transform, s: Bytes, transliterate: Bytes -> Bytes): (r: Bytes)
    ensures t != NormalizeUnicode ==> |r| <= |s|
  {
    match t
    case DownCase => Transforms.DownCase(s)
    case NormalizeUnicode => transliterate(s)
    case FlattenStylisticCharacters => Transforms.FlattenStylisticCharacters(s)
    case RemovePunctuation => Transforms.RemovePunctuation(s)
    case FilterRedundantWords =>
      Transforms.FilterRedundantWordsNotLonger(s);
      Transforms.FilterRedundantWords(s)
    case RemoveWhitespace => Transforms.RemoveWhitespace(s)
    case DiscardContributors => Transforms.DiscardContributors(s)
    case DiscardLicensingBlurb => Transforms.DiscardLicensingBlurb(s)
    case RemoveTrailingYear => Transforms.RemoveTrailingYear(s)
    case DiscardCopyright => Transforms.DiscardCopyright(s)
    case DiscardIncorporation => Transforms.DiscardIncorporation(s)
    case DiscardOrganizationGroup => Transforms.DiscardOrganizationGroup(s)
    case DiscardLabelNameRedundancies => Transforms.DiscardLabelNameRedundancies(s)
  }

  /** The value the closure computes, `trim(Transforms::$function($acc))`. */
  function Candidate(acc: Bytes, t: Transform, transliterate: Bytes -> Bytes): Bytes
  {
    Trim(Apply(t, acc, transliterate))
  }

  /** The closure keeps the candidate: it is not "" and not "0". */
  predicate Accepted(acc: Bytes, t: Transform, transliterate: Bytes -> Bytes) {
    !PhpEmpty(Candidate(acc, t, transliterate))
  }

  /**
   * One application of the closure. An accepted candidate becomes the new
   * value, and it has no trim byte at either end; a rejected one leaves the
   * previous value exactly as it was; and a value that is not PHP-empty
   * never becomes so.
   */
  function Step(acc: Bytes, t: Transform, transliterate: Bytes -> Bytes): (r: Bytes)
    ensures r == acc || r == Candidate(acc, t, transliterate)
    ensures !Accepted(acc, t, transliterate) ==> r == acc
    ensures Accepted(acc, t, transliterate) ==> r == Candidate(acc, t, transliterate)
    ensures Accepted(acc, t, transliterate) ==> IsTrimmed(r) && !PhpEmpty(r)
    ensures !PhpEmpty(acc) ==> !PhpEmpty(r)
  {
    if Accepted(acc, t, transliterate) then Candidate(acc, t, transliterate) else acc
  }

  /**
   * `array_reduce($transforms, $closure, $s)`: the steps run from the
   * first name to the last, each on the previous step's value. With no
   * names the input comes back unchanged; an input that is not PHP-empty
   * gives a result that is not PHP-empty; and unless no step was accepted
   * (result equal to the input) the result is trimmed.
   */
  function Reduce(s: Bytes, ts: seq<Transform>, transliterate: Bytes -> Bytes): (r: Bytes)
    ensures ts == [] ==> r == s
    ensures !PhpEmpty(s) ==> !PhpEmpty(r)
    ensures r == s || (IsTrimmed(r) && !PhpEmpty(r))
    decreases |ts|
  {
    if ts == [] then s else Reduce(Step(s, ts[0], transliterate), ts[1..], transliterate)
  }

  /** Reducing over two lists in a row is reducing over their concatenation. */
  lemma {:induction false} ReduceAppend(s: Bytes, a: seq<Transform>, b: seq<Transform>, transliterate: Bytes -> Bytes)
    ensures Reduce(s, a + b, transliterate) == Reduce(Reduce(s, a, transliterate), b, transliterate)
    decreases |a|
  {
    if a == [] {
      assert a + b == b;
    } else {
      assert (a + b)[1..] == a[1..] + b;
      ReduceAppend(Step(s, a[0], transliterate), a[1..], b, transliterate);
    }
  }

  /** A rejected step is as if its name were not in the list: the attempted edit is discarded. */
  lemma ReduceSkipsRejectedStep(s: Bytes, t: Transform, ts: seq<Transform>, transliterate: Bytes -> Bytes)
    requires !Accepted(s, t, transliterate)
    ensures Reduce(s, [t] + ts, transliterate) == Reduce(s, ts, transliterate)
  {
    assert ([t] + ts)[1..] == ts;
  }

  /** Two slicing facts, proved apart so that `ReduceAfterAcceptedStep` stays small. */
  lemma TakeOneMore(ts: seq<Transform>, k: nat)
    requires k < |ts|
    ensures ts[..k + 1] == ts[..k] + [ts[k]]
  {
  }

  lemma TakeDrop(ts: seq<Transform>, k: nat)
    requires k <= |ts|
    ensures ts == ts[..k] + ts[k..]
  {
  }

  lemma ReduceSingle(s: Bytes, t: Transform, transliterate: Bytes -> Bytes)
    ensures Reduce(s, [t], transliterate) == Step(s, t, transliterate)
  {
    assert [t][1..] == [];
  }

  /** Once one step has been accepted, the final value is trimmed and not PHP-empty. */
  lemma ReduceAfterAcceptedStep(s: Bytes, ts: seq<Transform>, k: nat, transliterate: Bytes -> Bytes)
    requires k < |ts|
    requires Accepted(Reduce(s, ts[..k], transliterate), ts[k], transliterate)
    ensures IsTrimmed(Reduce(s, ts, transliterate)) && !PhpEmpty(Reduce(s, ts, transliterate))
  {
    var before := Reduce(s, ts[..k], transliterate);
    var accepted := Step(before, ts[k], transliterate);
    assert IsTrimmed(accepted) && !PhpEmpty(accepted);
    assert Reduce(s, ts[..k + 1], transliterate) == accepted by {
      TakeOneMore(ts, k);
      ReduceAppend(s, ts[..k], [ts[k]], transliterate);
      ReduceSingle(before, ts[k], transliterate);
    }
    TakeDrop(ts, k + 1);
    ReduceAppend(s, ts[..k + 1], ts[k + 1..], transliterate);
  }

  /** When every step is rejected, the input comes back unchanged. */
  lemma {:induction false} ReduceAllRejected(s: Bytes, ts: seq<Transform>, transliterate: Bytes -> Bytes)
    requires forall k :: 0 <= k < |ts| ==> !Accepted(s, ts[k], transliterate)
    ensures Reduce(s, ts, transliterate) == s
    decreases |ts|
  {
    if ts != [] {
      assert Step(s, ts[0], transliterate) == s;
      ReduceAllRejected(s, ts[1..], transliterate);
    }
  }
}

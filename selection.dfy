/**
 * How a seq child commits to one of its candidates (lib/main.ts:556-573). Each candidate
 * is one attempt of the child under one next head. The reduce at lib/main.ts:556-565
 * keeps a success when `x.newIndex < (res?.newIndex || Infinity)`; `AsWritten` is that
 * reduce exactly, `Intended` the choice it evidently means: the first success with the
 * smallest new index. The two differ only when a success has new index 0.
 */
module Selection {
  import opened Wrappers
  import opened Primitives

  /** Which reduce a seq child commits through. */
  datatype Choice = AsWritten | Intended

  /** Candidate k is a success with the smallest index, and the first such. */
  predicate IsFirstMin(cands: seq<Outcome>, k: nat, upto: nat)
    requires upto <= |cands|
  {
    && k < upto
    && cands[k].Ok?
    && (forall j :: 0 <= j < upto && cands[j].Ok? ==> cands[k].index <= cands[j].index)
    && (forall j :: 0 <= j < k && cands[j].Ok? ==> cands[k].index < cands[j].index)
  }

  predicate NoneOk(cands: seq<Outcome>, upto: nat)
    requires upto <= |cands|
  {
    forall j :: 0 <= j < upto ==> !cands[j].Ok?
  }

  /** The intended scan from candidate `j` on, `acc` being the choice among those before. */
  function PickMinFrom(cands: seq<Outcome>, j: nat, acc: Option<nat>): (r: Option<nat>)
    requires j <= |cands|
    requires acc.Some? ==> IsFirstMin(cands, acc.value, j)
    requires acc.None? ==> NoneOk(cands, j)
    ensures r.Some? ==> IsFirstMin(cands, r.value, |cands|)
    ensures r.None? ==> NoneOk(cands, |cands|)
    decreases |cands| - j
  {
    if j == |cands| then acc
    else if cands[j].Ok? && (acc.None? || cands[j].index < cands[acc.value].index) then
      PickMinFrom(cands, j + 1, Some(j))
    else PickMinFrom(cands, j + 1, acc)
  }

  /** The evidently intended choice: the success with the smallest new index, the first
      one on ties; None when every candidate failed. */
  function PickMin(cands: seq<Outcome>): (r: Option<nat>)
    ensures r.Some? ==> IsFirstMin(cands, r.value, |cands|)
    ensures r.None? <==> NoneOk(cands, |cands|)
  {
    PickMinFrom(cands, 0, None)
  }

  /** The written scan from candidate `j` on: once something is chosen it stays chosen
      until a later success replaces it. */
  function PickAsWrittenFrom(cands: seq<Outcome>, j: nat, acc: Option<nat>): (r: Option<nat>)
    requires j <= |cands|
    requires acc.Some? ==> acc.value < |cands| && cands[acc.value].Ok?
    requires acc.None? ==> NoneOk(cands, j)
    ensures r.Some? ==> r.value < |cands| && cands[r.value].Ok?
    ensures r.None? <==> NoneOk(cands, |cands|)
    decreases |cands| - j
  {
    if j == |cands| then acc
    else
      // `x.newIndex < (res?.newIndex || Infinity)`: a chosen index of 0 counts as Infinity
      if cands[j].Ok? && (acc.None? || cands[acc.value].index == 0 || cands[j].index < cands[acc.value].index) then PickAsWrittenFrom(cands, j + 1, Some(j))
      else PickAsWrittenFrom(cands, j + 1, acc)
  }

  /** The reduce of lib/main.ts:556-565 exactly as written: some success, None exactly when
      every candidate failed. */
  function PickAsWritten(cands: seq<Outcome>): (r: Option<nat>)
    ensures r.Some? ==> r.value < |cands| && cands[r.value].Ok?
    ensures r.None? <==> NoneOk(cands, |cands|)
  {
    PickAsWrittenFrom(cands, 0, None)
  }

  function Pick(ch: Choice, cands: seq<Outcome>): (r: Option<nat>)
    ensures r.Some? ==> r.value < |cands| && cands[r.value].Ok?
    ensures r.None? <==> NoneOk(cands, |cands|)
    ensures ch == Intended && r.Some? ==> IsFirstMin(cands, r.value, |cands|)
  {
    match ch
    case AsWritten => PickAsWritten(cands)
    case Intended => PickMin(cands)
  }

  /** What a seq child commits to: running out of fuel in any candidate aborts; otherwise
      the chosen success; otherwise the first candidate's error is rethrown. Under the
      intended choice the success is the first one with the smallest new index. */
  function Commit(ch: Choice, cands: seq<Outcome>): (r: Outcome)
    requires |cands| > 0
    ensures Fail(OutOfFuel) in cands ==> r == Fail(OutOfFuel)
    ensures Fail(OutOfFuel) !in cands ==> (r.Ok? <==> !NoneOk(cands, |cands|))
    ensures Fail(OutOfFuel) !in cands && r.Fail? ==> r == cands[0]
    ensures r.Ok? ==> exists k: nat :: k < |cands| && r == cands[k]
    ensures ch == Intended && r.Ok? ==> exists k: nat :: k < |cands| && IsFirstMin(cands, k, |cands|) && r == cands[k]
  {
    if Fail(OutOfFuel) in cands then Fail(OutOfFuel)
    else
      match Pick(ch, cands)
      case Some(k) => cands[k]
      case None => cands[0]
  }

  /** Away from a zero new index the written scan is the intended one, step by step. */
  lemma {:induction false} AsWrittenAgreesFrom(cands: seq<Outcome>, j: nat, acc: Option<nat>)
    requires j <= |cands|
    requires forall i :: 0 <= i < |cands| && cands[i].Ok? ==> cands[i].index > 0
    requires acc.Some? ==> IsFirstMin(cands, acc.value, j)
    requires acc.None? ==> NoneOk(cands, j)
    ensures PickAsWrittenFrom(cands, j, acc) == PickMinFrom(cands, j, acc)
    decreases |cands| - j
  {
    if j < |cands| {
      if cands[j].Ok? && (acc.None? || cands[j].index < cands[acc.value].index) {
        AsWrittenAgreesFrom(cands, j + 1, Some(j));
      } else {
        AsWrittenAgreesFrom(cands, j + 1, acc);
      }
    }
  }

  /** Whenever no candidate succeeds with new index 0 (in particular whenever the seq child
      starts past the beginning of the input) both choices agree. */
  lemma AsWrittenAgreesAwayFromZero(cands: seq<Outcome>)
    requires forall i :: 0 <= i < |cands| && cands[i].Ok? ==> cands[i].index > 0
    ensures PickAsWritten(cands) == PickMin(cands)
  {
    AsWrittenAgreesFrom(cands, 0, None);
  }

  /** ... and so both commit to the same outcome. */
  lemma CommitAwayFromZero(cands: seq<Outcome>)
    requires |cands| > 0
    requires forall i :: 0 <= i < |cands| && cands[i].Ok? ==> cands[i].index > 0
    ensures Commit(AsWritten, cands) == Commit(Intended, cands)
  {
    AsWrittenAgreesAwayFromZero(cands);
  }

  /** A single candidate is committed to as it is, under either choice. */
  lemma CommitSingle(ch: Choice, c: Outcome)
    ensures Commit(ch, [c]) == c
  {
    if c.Ok? {
      assert [c][0].Ok?;
      assert !NoneOk([c], 1);
    }
  }
}

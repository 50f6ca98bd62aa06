/**
 * The candidate choice of lib/main.ts:556-565 as written against the intended one. As
 * written the comparison is `x.newIndex < (res?.newIndex || Infinity)`, so a chosen
 * candidate whose new index is 0 counts as "no choice yet" and the next success replaces
 * it, although it is not shorter. The lemmas below show where this matters (a seq child
 * that may succeed empty at the start of the input) and where it does not.
 */
module Findings {
  import opened Wrappers
  import opened Values
  import opened Grammar
  import opened Primitives
  import opened Selection
  import opened Engine
  import opened Scenarios

  /** Once some candidate before `j` is chosen, the written reduce ends on that choice or on
      a candidate at or after `j`. */
  lemma {:induction false} AsWrittenStaysOrMovesOn(cands: seq<Outcome>, j: nat, acc: Option<nat>)
    requires j <= |cands|
    requires acc.Some? ==> acc.value < |cands| && cands[acc.value].Ok?
    requires acc.None? ==> NoneOk(cands, j)
    ensures var r := PickAsWrittenFrom(cands, j, acc);
      r == acc || (r.Some? && r.value >= j)
    decreases |cands| - j
  {
    if j < |cands| {
      if cands[j].Ok? && (acc.None? || cands[acc.value].index == 0 || cands[j].index < cands[acc.value].index) {
        AsWrittenStaysOrMovesOn(cands, j + 1, Some(j));
      } else {
        AsWrittenStaysOrMovesOn(cands, j + 1, acc);
      }
    }
  }

  /** The discrepancy: when the first candidate succeeds without consuming anything at the
      start of the input and a later candidate also succeeds, the written reduce drops the
      first one, while the intended choice keeps it (it has the smallest new index). */
  lemma {:induction false} AsWrittenDisplacesZero(cands: seq<Outcome>, m: nat)
    requires 0 < m < |cands| && cands[m].Ok?
    requires cands[0].Ok? && cands[0].index == 0
    ensures PickMin(cands) == Some(0)
    ensures PickAsWritten(cands).Some? && PickAsWritten(cands) != Some(0)
  {
    var p := PickMin(cands).value;
    assert cands[p].index <= cands[0].index;
    assert p == 0;
    DisplacedFrom(cands, 1, m);
  }

  /** Helper of AsWrittenDisplacesZero: scanning from `j` with candidate 0 still chosen, a
      success at `m >= j` displaces it. */
  lemma {:induction false} DisplacedFrom(cands: seq<Outcome>, j: nat, m: nat)
    requires 0 < j <= m < |cands| && cands[m].Ok?
    requires cands[0].Ok? && cands[0].index == 0
    ensures PickAsWrittenFrom(cands, j, Some(0)).Some?
    ensures PickAsWrittenFrom(cands, j, Some(0)) != Some(0)
    decreases m - j
  {
    if cands[j].Ok? {
      AsWrittenStaysOrMovesOn(cands, j + 1, Some(j));
    } else {
      DisplacedFrom(cands, j + 1, m);
    }
  }

  /** As written, on "?" + ": " + s the first `any` commits to "?" (new index 1) rather
      than to "" (new index 0). */
  lemma AsWrittenEmptyWordFirst(env: Env, s: string, fuel: nat)
    ensures var str := "?: " + s;
      SeqFrom(AsWritten, env, str, Seq(ExistsChildren()), 0, 0, [], ToEnd, fuel)
        == SeqFrom(AsWritten, env, str, Seq(ExistsChildren()), 1, 1, [Str("?")], ToEnd, fuel)
  {
    assert "" + "?: " + s == "?: " + s;
    WithMarkCandidates(AsWritten, env, "", s, fuel);
    ExistsNexts(env, fuel);
    var cands := [Ok(Str(""), 0), Ok(Str("" + "?"), 1)];
    assert PickAsWrittenFrom(cands, 2, Some(1)) == Some(1);
    assert PickAsWrittenFrom(cands, 1, Some(0)) == Some(1);
    assert Commit(AsWritten, cands) == Ok(Str("?"), 1);
    assert ApplyValue([], Any(None), Str("?")) == [Str("?")];
  }

  /** As written, "?: " + s gives ["?", false, s]: the "?" is read as the word, and the
      optional `exists("?")` then finds ':' and yields false. */
  lemma AsWrittenEmptyWord(env: Env, s: string, fuel: nat)
    ensures Translate(AsWritten, env, "?: " + s, Seq(ExistsChildren()), fuel)
      == Ok(Arr([Str("?"), Bool(false), Str(s)]), |s| + 3)
  {
    var str := "?: " + s;
    assert "?" + ": " + s == str;
    AsWrittenEmptyWordFirst(env, s, fuel);
    WithoutMarkOr(AsWritten, env, "?", s, fuel);
    WithoutMarkTail(AsWritten, env, "?", s, fuel);
    TranslateOfSeq(AsWritten, env, str, Seq(ExistsChildren()), fuel, Ok(Arr([Str("?"), Bool(false), Str(s)]), |str|));
  }

  /** The input of the finding: the grammar of tests/exists-expr.test.ts on "?: x", where
      the word before "?" is empty. The first `any` has the candidates "" (new index 0) and
      "?" (new index 1). The written reduce commits to "?", which leaves `exists("?")`
      nothing to match, and yields ["?", false, "x"]; the intended choice commits to "" and
      yields ["", true, "x"], as "hoge?: x" yields ["hoge", true, "x"]. */
  lemma QuestionMarkExample(env: Env, fuel: nat)
    ensures var cands := Candidates(AsWritten, env, "?: x", Any(None), 0, [Text("?"), Text(": ")], fuel);
      && cands == [Ok(Str(""), 0), Ok(Str("?"), 1)]
      && PickMin(cands) == Some(0)
      && PickAsWritten(cands) == Some(1)
    ensures Translate(AsWritten, env, "?: x", Seq(ExistsChildren()), fuel)
      == Ok(Arr([Str("?"), Bool(false), Str("x")]), 4)
    ensures Translate(Intended, env, "?: x", Seq(ExistsChildren()), fuel)
      == Ok(Arr([Str(""), Bool(true), Str("x")]), 4)
  {
    assert "" + "?: " + "x" == "?: x";
    assert "?: " + "x" == "?: x";
    WithMarkCandidates(AsWritten, env, "", "x", fuel);
    AsWrittenEmptyWord(env, "x", fuel);
    WithMark(Intended, env, "", "x", fuel);
    var cands := [Ok(Str(""), 0), Ok(Str("?"), 1)];
    AsWrittenDisplacesZero(cands, 1);
    assert PickAsWrittenFrom(cands, 2, Some(1)) == Some(1);
  }

  /** A seq child tried past the start of the input never succeeds with new index 0, so
      there the written reduce commits to the same candidate as the intended one. */
  lemma AsWrittenAgreesPastStart(ch: Choice, env: Env, str: string, child: Expr, index: nat, nexts: seq<Head>, fuel: nat)
    requires 0 < index <= |str|
    ensures var cands := Candidates(ch, env, str, child, index, nexts, fuel);
      PickAsWritten(cands) == PickMin(cands)
  {
    AsWrittenAgreesAwayFromZero(Candidates(ch, env, str, child, index, nexts, fuel));
  }
}

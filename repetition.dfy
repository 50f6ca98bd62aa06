/**
 * What `repeat` (lib/main.ts:234-243) and `split` (lib/main.ts:245-253) yield: a repeat
 * whose unit commits, occurrence after occurrence, to some values and then cannot match
 * any more collects those values in order, spliced as `flat` splices them.
 */
module Repetition {
  import opened Wrappers
  import opened Values
  import opened Grammar
  import opened Primitives
  import opened Selection
  import opened Engine
  import opened Properties

  /** What a `flat` seq child adds to the seq's array: an array's elements, or the value. */
  function Splice(v: Value): seq<Value> {
    if v.Arr? then v.items else [v]
  }

  /** The values of occurrences j .. |vs| - 1, each spliced, in order. */
  function SplicedFrom(vs: seq<Value>, j: nat): (r: seq<Value>)
    ensures j >= |vs| ==> r == []
    decreases |vs| - j
  {
    if j >= |vs| then [] else Splice(vs[j]) + SplicedFrom(vs, j + 1)
  }

  /** The flatMap of getNexts leaves heads other than `emptyHead` as they are. */
  lemma {:induction false} ExpandKeeps(env: Env, xs: seq<Expr>, j: nat, hs: seq<Head>, tail: seq<Head>, next: Head, fuel: nat)
    requires j < |xs| && EmptyHead !in hs
    ensures var t := ExpandEmpty(env, xs, j, tail, next, fuel);
      ExpandEmpty(env, xs, j, hs + tail, next, fuel) == if t.None? then None else Some(hs + t.value)
    decreases |hs|
  {
    if hs != [] {
      assert (hs + tail)[0] == hs[0];
      assert (hs + tail)[1..] == hs[1..] + tail;
      assert hs[0] in hs;
      ExpandKeeps(env, xs, j, hs[1..], tail, next, fuel);
      var t := ExpandEmpty(env, xs, j, tail, next, fuel);
      if t.Some? {
        assert [hs[0]] + (hs[1..] + t.value) == hs + t.value;
      }
    } else {
      assert hs + tail == tail;
      var t := ExpandEmpty(env, xs, j, tail, next, fuel);
      if t.Some? {
        assert hs + t.value == t.value;
      }
    }
  }

  /** The next heads of the two children of repeat(x): x's own heads then the repeat's
      context head for the unit, the context head for the rest. */
  lemma RepeatNexts(env: Env, x: Expr, k: nat, hs: seq<Head>, next: Head, fuel: nat)
    requires env.rules(k) == Repeat(x, k)
    requires fuel >= 1 && Heads(env, x, fuel - 1) == Some(hs) && EmptyHead !in hs
    ensures var xs := [Flat(x), Flat(Or(Lazy(k), Empty(Arr([]))))];
      && Nexts(env, xs, 2, next, fuel) == Some([next])
      && Nexts(env, xs, 1, next, fuel) == Some(hs + [next])
  {
    var xs := [Flat(x), Flat(Or(Lazy(k), Empty(Arr([]))))];
    var body := Seq(xs);
    assert Heads(env, Flat(x), fuel - 1) == Some(hs);
    assert Heads(env, body, fuel - 1) == Some(hs);
    assert Heads(env, Repeat(x, k), fuel - 1) == Some(hs);
    assert Heads(env, Lazy(k), fuel) == Some(hs);
    assert Heads(env, Or(Lazy(k), Empty(Arr([]))), fuel) == Some(hs + [EmptyHead]);
    assert Heads(env, xs[1], fuel) == Some(hs + [EmptyHead]);
    assert ExpandEmpty(env, xs, 1, [], next, fuel) == Some([]);
    assert [EmptyHead][1..] == [];
    assert Nexts(env, xs, 2, next, fuel) == Some([next]);
    assert [next] + [] == [next];
    assert ExpandEmpty(env, xs, 1, [EmptyHead], next, fuel) == Some([next]);
    ExpandKeeps(env, xs, 1, hs, [EmptyHead], next, fuel);
  }

  /** A seq child `flat(x)` is tried exactly as x is. */
  lemma FlatCandidates(ch: Choice, env: Env, str: string, x: Expr, index: nat, nexts: seq<Head>, fuel: nat)
    requires index <= |str|
    ensures Candidates(ch, env, str, Flat(x), index, nexts, fuel) == Candidates(ch, env, str, x, index, nexts, fuel)
  {
  }

  /** Where no candidate of the unit matches, repeat(x) throws (and so its `or` falls back
      to `empty([])`). */
  lemma RepeatStops(ch: Choice, env: Env, str: string, x: Expr, k: nat, hs: seq<Head>, index: nat, next: Head, fuel: nat)
    requires env.rules(k) == Repeat(x, k) && index <= |str|
    requires fuel >= 1 && Heads(env, x, fuel - 1) == Some(hs) && EmptyHead !in hs
    requires UnitThrows(ch, env, str, x, hs, next, index, fuel)
    ensures Throws(TranslateExpr(ch, env, str, Repeat(x, k), index, next, fuel))
  {
    var body := Seq([Flat(x), Flat(Or(Lazy(k), Empty(Arr([]))))]);
    RepeatNexts(env, x, k, hs, next, fuel);
    var nexts := hs + [next];
    var cands := Candidates(ch, env, str, Flat(x), index, nexts, fuel);
    FlatCandidates(ch, env, str, x, index, nexts, fuel);
    assert forall m :: 0 <= m < |cands| ==> Throws(cands[m]) by {
      forall m | 0 <= m < |cands| ensures Throws(cands[m]) {
        assert nexts[m] in hs + [next];
      }
    }
    assert Fail(OutOfFuel) !in cands;
    assert NoneOk(cands, |cands|);
    assert TranslateExpr(ch, env, str, Repeat(x, k), index, next, fuel) == SeqFrom(ch, env, str, body, 0, index, [], next, fuel);
  }

  /** A seq whose first child is `flat(x)`: x commits to v, ending at `mid`, and its value
      is spliced into the seq's array. */
  lemma FlatFirstStep(ch: Choice, env: Env, str: string, e: Expr, x: Expr, index: nat, next: Head, fuel: nat,
                      nexts: seq<Head>, v: Value, mid: nat)
    requires e.Seq? && |e.exprs| > 0 && e.exprs[0] == Flat(x) && index <= |str| && mid <= |str|
    requires Nexts(env, e.exprs, 1, next, fuel) == Some(nexts)
    requires Commit(ch, Candidates(ch, env, str, x, index, nexts, fuel)) == Ok(v, mid)
    ensures SeqFrom(ch, env, str, e, 0, index, [], next, fuel) == SeqFrom(ch, env, str, e, 1, mid, Splice(v), next, fuel)
  {
    FlatCandidates(ch, env, str, x, index, nexts, fuel);
    SeqStep(ch, env, str, e, 0, index, [], next, fuel, nexts, v, mid);
    assert ApplyValue([], Flat(x), v) == Splice(v);
  }

  /** The first child of repeat(x): the unit commits to v, ending at `mid`, and its value is
      spliced into the repeat's array. */
  lemma RepeatUnit(ch: Choice, env: Env, str: string, x: Expr, k: nat, hs: seq<Head>,
                   index: nat, mid: nat, v: Value, next: Head, fuel: nat)
    requires env.rules(k) == Repeat(x, k) && index <= |str|
    requires fuel >= 1 && Heads(env, x, fuel - 1) == Some(hs) && EmptyHead !in hs
    requires Commit(ch, Candidates(ch, env, str, x, index, hs + [next], fuel)) == Ok(v, mid) && mid <= |str|
    ensures TranslateExpr(ch, env, str, Repeat(x, k), index, next, fuel)
      == SeqFrom(ch, env, str, Seq([Flat(x), Flat(Or(Lazy(k), Empty(Arr([]))))]), 1, mid, Splice(v), next, fuel)
  {
    var body := Seq([Flat(x), Flat(Or(Lazy(k), Empty(Arr([]))))]);
    RepeatOpens(ch, env, str, x, k, index, next, fuel);
    RepeatNexts(env, x, k, hs, next, fuel);
    FlatFirstStep(ch, env, str, body, x, index, next, fuel, hs + [next], v, mid);
  }

  /** repeat(x) is tried as the seq of its two children. */
  lemma RepeatOpens(ch: Choice, env: Env, str: string, x: Expr, k: nat, index: nat, next: Head, fuel: nat)
    requires index <= |str|
    ensures TranslateExpr(ch, env, str, Repeat(x, k), index, next, fuel)
      == SeqFrom(ch, env, str, Seq([Flat(x), Flat(Or(Lazy(k), Empty(Arr([]))))]), 0, index, [], next, fuel)
  {
  }

  /** The second child of repeat(x): the `or` on the lazy repeat splices what the repeat
      from `mid` on yields, or nothing when that repeat throws. */
  lemma RepeatRest(ch: Choice, env: Env, str: string, x: Expr, k: nat, mid: nat, res: seq<Value>, next: Head, fuel: nat)
    requires env.rules(k) == Repeat(x, k) && mid <= |str| && fuel >= 1
    ensures var rest := TranslateExpr(ch, env, str, Repeat(x, k), mid, next, fuel - 1);
      var s := SeqFrom(ch, env, str, Seq([Flat(x), Flat(Or(Lazy(k), Empty(Arr([]))))]), 1, mid, res, next, fuel);
      && (Throws(rest) ==> s == Ok(Arr(res), mid))
      && (rest.Ok? && rest.value.Arr? ==> s == Ok(Arr(res + rest.value.items), rest.index))
  {
    var o := Or(Lazy(k), Empty(Arr([])));
    var xs := [Flat(x), Flat(o)];
    var rest := TranslateExpr(ch, env, str, Repeat(x, k), mid, next, fuel - 1);
    assert Nexts(env, xs, 2, next, fuel) == Some([next]);
    assert TranslateExpr(ch, env, str, Lazy(k), mid, next, fuel) == rest;
    assert TranslateExpr(ch, env, str, Empty(Arr([])), mid, next, fuel) == Ok(Arr([]), mid);
    var c := TranslateExpr(ch, env, str, Flat(o), mid, next, fuel);
    assert c == TranslateExpr(ch, env, str, o, mid, next, fuel);
    assert c == if Throws(rest) then Ok(Arr([]), mid) else rest;
    assert Candidates(ch, env, str, Flat(o), mid, [next], fuel) == [c];
    CommitSingle(ch, c);
    assert res + [] == res;
  }

  /** What the unit of repeat(x) commits to at `index`, tried under x's heads and then the
      repeat's context head. */
  function Occurrence(ch: Choice, env: Env, str: string, x: Expr, hs: seq<Head>, next: Head, index: nat, fuel: nat): (r: Outcome)
    requires index <= |str|
    ensures r.Ok? ==> index <= r.index <= |str|
  {
    Commit(ch, Candidates(ch, env, str, x, index, hs + [next], fuel))
  }

  /** No candidate of the unit matches at `index`. */
  predicate UnitThrows(ch: Choice, env: Env, str: string, x: Expr, hs: seq<Head>, next: Head, index: nat, fuel: nat)
    requires index <= |str|
  {
    forall h :: h in hs + [next] ==> Throws(TranslateExpr(ch, env, str, x, index, h, fuel))
  }

  /** One occurrence of the unit followed by what the repeat from there on yields. */
  lemma RepeatStep(ch: Choice, env: Env, str: string, x: Expr, k: nat, hs: seq<Head>,
                   index: nat, mid: nat, v: Value, next: Head, fuel: nat, rest: Outcome)
    requires env.rules(k) == Repeat(x, k) && index <= |str| && mid <= |str|
    requires fuel >= 1 && Heads(env, x, fuel - 1) == Some(hs) && EmptyHead !in hs
    requires Occurrence(ch, env, str, x, hs, next, index, fuel) == Ok(v, mid)
    requires TranslateExpr(ch, env, str, Repeat(x, k), mid, next, fuel - 1) == rest
    ensures Throws(rest) ==> TranslateExpr(ch, env, str, Repeat(x, k), index, next, fuel) == Ok(Arr(Splice(v)), mid)
    ensures rest.Ok? && rest.value.Arr? ==>
      TranslateExpr(ch, env, str, Repeat(x, k), index, next, fuel) == Ok(Arr(Splice(v) + rest.value.items), rest.index)
  {
    RepeatUnit(ch, env, str, x, k, hs, index, mid, v, next, fuel);
    RepeatRest(ch, env, str, x, k, mid, Splice(v), next, fuel);
  }

  /** Occurrence i of a repetition, where R(i, f) is what the repetition yields from
      occurrence i on with fuel f: the occurrence contributes vs[i], ending at idx[i + 1],
      and is followed by what the repetition yields from there (nothing if that throws). */
  predicate StepsAt(R: (nat, nat) -> Outcome, idx: seq<nat>, vs: seq<Value>, i: nat, f: nat)
    requires i < |vs| && |idx| == |vs| + 1 && f >= 1
  {
    var rest := R(i + 1, f - 1);
    && (Throws(rest) ==> R(i, f) == Ok(Arr(Splice(vs[i])), idx[i + 1]))
    && (rest.Ok? && rest.value.Arr? ==> R(i, f) == Ok(Arr(Splice(vs[i]) + rest.value.items), rest.index))
  }

  /** Chaining the occurrences: when every occurrence steps as above and the repetition
      throws after the last one, it yields the spliced values of occurrences j on, in order.
      Both hold from fuel g on; each occurrence spends one unit, so the chain needs one unit
      per occurrence on top of g. */
  lemma {:induction false} ChainCollects(R: (nat, nat) -> Outcome, idx: seq<nat>, vs: seq<Value>, j: nat, g: nat, fuel: nat)
    requires |idx| == |vs| + 1 && g >= 1
    requires forall i, f :: 0 <= i < |vs| && f >= g ==> StepsAt(R, idx, vs, i, f)
    requires forall f :: f >= g ==> Throws(R(|vs|, f))
    requires j < |vs| && fuel >= |vs| - j + g
    ensures R(j, fuel) == Ok(Arr(SplicedFrom(vs, j)), idx[|vs|])
    decreases |vs| - j
  {
    assert StepsAt(R, idx, vs, j, fuel);
    var rest := R(j + 1, fuel - 1);
    if j + 1 < |vs| {
      ChainCollects(R, idx, vs, j + 1, g, fuel - 1);
      assert rest == Ok(Arr(SplicedFrom(vs, j + 1)), idx[|vs|]);
      assert SplicedFrom(vs, j) == Splice(vs[j]) + SplicedFrom(vs, j + 1);
    } else {
      assert Throws(rest);
      assert SplicedFrom(vs, j) == Splice(vs[j]) + [];
      assert Splice(vs[j]) + [] == Splice(vs[j]);
    }
  }

  /** What repeat(x) yields from occurrence i on, with fuel f. */
  ghost predicate IsRepeatFrom(R: (nat, nat) -> Outcome, ch: Choice, env: Env, str: string, x: Expr, k: nat, idx: seq<nat>, next: Head)
  {
    forall i, f :: 0 <= i < |idx| && idx[i] <= |str| ==> R(i, f) == TranslateExpr(ch, env, str, Repeat(x, k), idx[i], next, f)
  }

  /** RepeatStep, for each occurrence of a repeat. */
  lemma RepeatStepsAt(ch: Choice, env: Env, str: string, x: Expr, k: nat, hs: seq<Head>, idx: seq<nat>, vs: seq<Value>,
                      next: Head, R: (nat, nat) -> Outcome, fl: nat, i: nat, f: nat)
    requires env.rules(k) == Repeat(x, k)
    requires EmptyHead !in hs && forall f :: f >= fl ==> Heads(env, x, f) == Some(hs)
    requires |idx| == |vs| + 1 && forall i :: 0 <= i < |idx| ==> idx[i] <= |str|
    requires forall i, f :: 0 <= i < |vs| && f > fl ==> Occurrence(ch, env, str, x, hs, next, idx[i], f) == Ok(vs[i], idx[i + 1])
    requires IsRepeatFrom(R, ch, env, str, x, k, idx, next)
    requires i < |vs| && f > fl
    ensures StepsAt(R, idx, vs, i, f)
  {
    assert Heads(env, x, f - 1) == Some(hs);
    assert Occurrence(ch, env, str, x, hs, next, idx[i], f) == Ok(vs[i], idx[i + 1]);
    assert R(i, f) == TranslateExpr(ch, env, str, Repeat(x, k), idx[i], next, f);
    assert R(i + 1, f - 1) == TranslateExpr(ch, env, str, Repeat(x, k), idx[i + 1], next, f - 1);
    RepeatStep(ch, env, str, x, k, hs, idx[i], idx[i + 1], vs[i], next, f, R(i + 1, f - 1));
  }

  /** RepeatStops, after the last occurrence of a repeat. */
  lemma RepeatStopsAt(ch: Choice, env: Env, str: string, x: Expr, k: nat, hs: seq<Head>, idx: seq<nat>, n: nat,
                      next: Head, R: (nat, nat) -> Outcome, fl: nat, f: nat)
    requires env.rules(k) == Repeat(x, k)
    requires EmptyHead !in hs && forall f :: f >= fl ==> Heads(env, x, f) == Some(hs)
    requires |idx| == n + 1 && forall i :: 0 <= i < |idx| ==> idx[i] <= |str|
    requires forall f :: f > fl ==> UnitThrows(ch, env, str, x, hs, next, idx[n], f)
    requires IsRepeatFrom(R, ch, env, str, x, k, idx, next)
    requires f > fl
    ensures Throws(R(n, f))
  {
    assert Heads(env, x, f - 1) == Some(hs);
    assert UnitThrows(ch, env, str, x, hs, next, idx[n], f);
    assert R(n, f) == TranslateExpr(ch, env, str, Repeat(x, k), idx[n], next, f);
    RepeatStops(ch, env, str, x, k, hs, idx[n], next, f);
  }

  /** repeat(x) from occurrence j on: when occurrence i of the unit commits to vs[i] and
      ends at idx[i + 1], and at idx[|vs|] no candidate of the unit matches, the repeat
      yields the values of occurrences j .. |vs| - 1 in order, spliced, and ends at
      idx[|vs|]. The unit's facts need only hold from some fuel fl on (its heads) and fl + 1
      on (its occurrences and its final failure), so a unit that resolves `lazy` itself is
      covered; each occurrence of the repeat resolves one more `lazy`, hence the fuel bound. */
  lemma RepeatCollects(ch: Choice, env: Env, str: string, x: Expr, k: nat, hs: seq<Head>,
                       idx: seq<nat>, vs: seq<Value>, j: nat, next: Head, fl: nat, fuel: nat)
    requires env.rules(k) == Repeat(x, k)
    requires EmptyHead !in hs && forall f :: f >= fl ==> Heads(env, x, f) == Some(hs)
    requires |idx| == |vs| + 1 && forall i :: 0 <= i < |idx| ==> idx[i] <= |str|
    requires forall i, f :: 0 <= i < |vs| && f > fl ==> Occurrence(ch, env, str, x, hs, next, idx[i], f) == Ok(vs[i], idx[i + 1])
    requires forall f :: f > fl ==> UnitThrows(ch, env, str, x, hs, next, idx[|vs|], f)
    requires j < |vs| && fuel >= |vs| - j + fl + 1
    ensures TranslateExpr(ch, env, str, Repeat(x, k), idx[j], next, fuel) == Ok(Arr(SplicedFrom(vs, j)), idx[|vs|])
  {
    var R := (i: nat, f: nat) =>
      if i < |idx| && idx[i] <= |str| then TranslateExpr(ch, env, str, Repeat(x, k), idx[i], next, f) else Fail(NoResults);
    assert IsRepeatFrom(R, ch, env, str, x, k, idx, next);
    forall i, f | 0 <= i < |vs| && f >= fl + 1 ensures StepsAt(R, idx, vs, i, f) {
      RepeatStepsAt(ch, env, str, x, k, hs, idx, vs, next, R, fl, i, f);
    }
    forall f | f >= fl + 1 ensures Throws(R(|vs|, f)) {
      RepeatStopsAt(ch, env, str, x, k, hs, idx, |vs|, next, R, fl, f);
    }
    ChainCollects(R, idx, vs, j, fl + 1, fuel);
  }

  // ---------------------------------------------------------------------------
  // repeat of a string
  // ---------------------------------------------------------------------------

  /** s written n times. */
  function Copies(s: string, n: nat): (r: string)
    ensures |r| == n * |s|
  {
    if n == 0 then "" else Copies(s, n - 1) + s
  }

  /** Copy i of s in Copies(s, n) starts at i * |s|. */
  lemma {:induction false} CopiesHold(s: string, n: nat, i: nat)
    requires i < n
    ensures PrefixAt(Copies(s, n), i * |s|, s)
  {
    var prev := Copies(s, n - 1);
    assert Copies(s, n) == prev + s;
    if i == n - 1 {
      assert (prev + s)[|prev|..|prev| + |s|] == s;
    } else {
      CopiesHold(s, n - 1, i);
      assert (i + 1) * |s| <= (n - 1) * |s| by {
        MulLe(i + 1, n - 1, |s|);
      }
      assert (prev + s)[i * |s|..i * |s| + |s|] == prev[i * |s|..i * |s| + |s|];
    }
  }

  lemma MulLe(a: nat, b: nat, c: nat)
    requires a <= b
    ensures a * c <= b * c
  {
  }

  /** The same outcome under two heads is committed to as it is. */
  lemma CommitTwin(ch: Choice, c: Outcome)
    ensures Commit(ch, [c, c]) == c
  {
    if c.Ok? {
      assert [c, c][0].Ok?;
      assert !NoneOk([c, c], 2);
    }
  }

  /** Where s occurs, the unit `s` of a repeat, tried under s and under the context head,
      reads it. */
  lemma LiteralOccurrence(ch: Choice, env: Env, str: string, s: string, index: nat, next: Head, f: nat)
    requires index <= |str| && PrefixAt(str, index, s)
    ensures Occurrence(ch, env, str, Lit(s), [Text(s)], next, index, f) == Ok(Undef, index + |s|)
  {
    var c := LiteralStep(str, index, s);
    assert Candidates(ch, env, str, Lit(s), index, [Text(s), next], f) == [c, c];
    CommitTwin(ch, c);
  }

  /** Where s cannot occur, the unit `s` of a repeat throws under every head. */
  lemma LiteralAbsent(ch: Choice, env: Env, str: string, s: string, index: nat, next: Head, f: nat)
    requires index <= |str| && !PrefixAt(str, index, s)
    ensures UnitThrows(ch, env, str, Lit(s), [Text(s)], next, index, f)
  {
  }

  /** What a repeat of a non-empty string s needs on Copies(s, n): copy i ends at (i + 1) * |s|
      under either head, and at the end the string cannot match. */
  lemma LiteralRuns(ch: Choice, env: Env, s: string, n: nat, next: Head)
    requires s != ""
    ensures var str := Copies(s, n);
      var idx := seq(n + 1, i => i * |s|);
      var vs := seq(n, i => Undef);
      && (forall f :: Heads(env, Lit(s), f) == Some([Text(s)]))
      && (forall i :: 0 <= i < |idx| ==> idx[i] <= |str|)
      && (forall i, f :: 0 <= i < |vs| ==> Occurrence(ch, env, str, Lit(s), [Text(s)], next, idx[i], f) == Ok(vs[i], idx[i + 1]))
      && (forall f :: UnitThrows(ch, env, str, Lit(s), [Text(s)], next, idx[|vs|], f))
  {
    var str := Copies(s, n);
    var idx := seq(n + 1, i => i * |s|);
    var vs := seq(n, i => Undef);
    forall i | 0 <= i < |idx| ensures idx[i] <= |str| {
      MulLe(i, n, |s|);
    }
    forall i, f | 0 <= i < |vs|
      ensures Occurrence(ch, env, str, Lit(s), [Text(s)], next, idx[i], f) == Ok(vs[i], idx[i + 1])
    {
      CopiesHold(s, n, i);
      MulLe(i, n, |s|);
      assert idx[i + 1] == i * |s| + |s|;
      LiteralOccurrence(ch, env, str, s, i * |s|, next, f);
    }
    forall f ensures UnitThrows(ch, env, str, Lit(s), [Text(s)], next, idx[|vs|], f) {
      LiteralAbsent(ch, env, str, s, |str|, next, f);
    }
  }

  /** A string grammar s whose rule k is repeat(s), read on s written n >= 1 times, yields one
      undefined per copy (each `flat(s)` pushes the literal's undefined) and ends after the
      last copy; as an `or` with empty([]) it yields the same. */
  lemma RepeatOfLiteral(ch: Choice, env: Env, s: string, k: nat, n: nat, next: Head, fuel: nat)
    requires env.rules(k) == Repeat(Lit(s), k) && s != ""
    requires n >= 1 && fuel >= n + 1
    ensures TranslateExpr(ch, env, Copies(s, n), Repeat(Lit(s), k), 0, next, fuel) == Ok(Arr(seq(n, i => Undef)), n * |s|)
    ensures TranslateExpr(ch, env, Copies(s, n), Or(Repeat(Lit(s), k), Empty(Arr([]))), 0, next, fuel)
      == Ok(Arr(seq(n, i => Undef)), n * |s|)
  {
    var idx := seq(n + 1, i => i * |s|);
    var vs := seq(n, i => Undef);
    LiteralRuns(ch, env, s, n, next);
    RepeatCollects(ch, env, Copies(s, n), Lit(s), k, [Text(s)], idx, vs, 0, next, 0, fuel);
    SplicedScalars(vs, 0);
    assert vs[0..] == vs;
  }

  /** Values that are not arrays are spliced as themselves. */
  lemma {:induction false} SplicedScalars(vs: seq<Value>, j: nat)
    requires forall i :: 0 <= i < |vs| ==> !vs[i].Arr?
    requires j <= |vs|
    ensures SplicedFrom(vs, j) == vs[j..]
    decreases |vs| - j
  {
    if j < |vs| {
      SplicedScalars(vs, j + 1);
      assert vs[j..] == [vs[j]] + vs[j + 1..];
    }
  }

  // ---------------------------------------------------------------------------
  // tests/split-expr.test.ts
  // ---------------------------------------------------------------------------

  /** A seq of two children: the first commits to v0 ending at m0, the second to v1
      ending at m1. */
  lemma TwoChildren(ch: Choice, env: Env, str: string, e: Expr, index: nat, next: Head, fuel: nat,
                    n0: seq<Head>, v0: Value, m0: nat, n1: seq<Head>, v1: Value, m1: nat)
    requires e.Seq? && |e.exprs| == 2 && index <= |str| && m0 <= |str| && m1 <= |str|
    requires Nexts(env, e.exprs, 1, next, fuel) == Some(n0)
    requires Commit(ch, Candidates(ch, env, str, e.exprs[0], index, n0, fuel)) == Ok(v0, m0)
    requires Nexts(env, e.exprs, 2, next, fuel) == Some(n1)
    requires Commit(ch, Candidates(ch, env, str, e.exprs[1], m0, n1, fuel)) == Ok(v1, m1)
    ensures TranslateExpr(ch, env, str, e, index, next, fuel)
      == Ok(Arr(ApplyValue(ApplyValue([], e.exprs[0], v0), e.exprs[1], v1)), m1)
  {
    var res1 := ApplyValue([], e.exprs[0], v0);
    SeqStep(ch, env, str, e, 0, index, [], next, fuel, n0, v0, m0);
    SeqStep(ch, env, str, e, 1, m0, res1, next, fuel, n1, v1, m1);
    assert SeqFrom(ch, env, str, e, 2, m1, ApplyValue(res1, e.exprs[1], v1), next, fuel) == Ok(Arr(ApplyValue(res1, e.exprs[1], v1)), m1);
  }

  /** The next heads inside the unit of split(" "): a literal has itself as head, so the
      delimiter is followed by the `any` tried up to the end, and the `any` by the unit's
      context head. */
  lemma SplitUnitNexts(env: Env, h: Head, fuel: nat)
    ensures Nexts(env, [Lit(" "), Any(None)], 1, h, fuel) == Some([ToEnd])
    ensures Nexts(env, [Lit(" "), Any(None)], 2, h, fuel) == Some([h])
  {
    assert [ToEnd] + [] == [ToEnd];
  }

  /** A child tried under one head commits to its one outcome. */
  lemma CommitOne(ch: Choice, env: Env, str: string, x: Expr, index: nat, h: Head, fuel: nat)
    requires index <= |str|
    ensures Commit(ch, Candidates(ch, env, str, x, index, [h], fuel)) == TranslateExpr(ch, env, str, x, index, h, fuel)
  {
    var c := TranslateExpr(ch, env, str, x, index, h, fuel);
    assert Candidates(ch, env, str, x, index, [h], fuel) == [c];
    CommitSingle(ch, c);
  }

  /** Inside the unit of split(" ") at a blank: the delimiter matches it, and the `any`
      reads up to the context head. */
  lemma SplitUnitCommits(ch: Choice, env: Env, str: string, q: nat, h: Head, fuel: nat)
    requires q < |str| && str[q] == ' '
    ensures Commit(ch, Candidates(ch, env, str, Lit(" "), q, [ToEnd], fuel)) == Ok(Undef, q + 1)
    ensures var stop := AnyStop(str, q + 1, h);
      Commit(ch, Candidates(ch, env, str, Any(None), q + 1, [h], fuel)) == Ok(Str(str[q + 1..stop]), stop)
  {
    assert str[q..q + 1] == " ";
    CommitOne(ch, env, str, Lit(" "), q, ToEnd, fuel);
    CommitOne(ch, env, str, Any(None), q + 1, h, fuel);
  }

  /** The repeated unit of split(" "): the delimiter, then an `any` up to the context head. */
  lemma SplitUnitMatches(ch: Choice, env: Env, str: string, q: nat, h: Head, fuel: nat)
    requires q < |str| && str[q] == ' '
    ensures var stop := AnyStop(str, q + 1, h);
      TranslateExpr(ch, env, str, Seq([Lit(" "), Any(None)]), q, h, fuel) == Ok(Arr([Str(str[q + 1..stop])]), stop)
  {
    var stop := AnyStop(str, q + 1, h);
    var w := Str(str[q + 1..stop]);
    SplitUnitNexts(env, h, fuel);
    SplitUnitCommits(ch, env, str, q, h, fuel);
    TwoChildren(ch, env, str, Seq([Lit(" "), Any(None)]), q, h, fuel, [ToEnd], Undef, q + 1, [h], w, stop);
    assert ApplyValue(ApplyValue([], Lit(" "), Undef), Any(None), w) == [w];
  }

  /** At the end of the input the unit throws: there is no delimiter to match. */
  lemma SplitUnitEnds(ch: Choice, env: Env, str: string, h: Head, fuel: nat)
    ensures Throws(TranslateExpr(ch, env, str, Seq([Lit(" "), Any(None)]), |str|, h, fuel))
  {
    var xs := [Lit(" "), Any(None)];
    assert [ToEnd] + [] == [ToEnd];
    assert Nexts(env, xs, 1, h, fuel) == Some([ToEnd]);
    var c0 := LiteralStep(str, |str|, " ");
    assert Candidates(ch, env, str, Lit(" "), |str|, [ToEnd], fuel) == [c0];
    CommitSingle(ch, c0);
  }

  /** A child tried under three heads. */
  lemma ThreeCandidates(ch: Choice, env: Env, str: string, x: Expr, index: nat, h0: Head, h1: Head, h2: Head, fuel: nat)
    requires index <= |str|
    ensures Candidates(ch, env, str, x, index, [h0, h1, h2], fuel) == [
      TranslateExpr(ch, env, str, x, index, h0, fuel),
      TranslateExpr(ch, env, str, x, index, h1, fuel),
      TranslateExpr(ch, env, str, x, index, h2, fuel)]
  {
  }

  /** Of a success and one that ends no sooner, tried twice, both choices commit to the
      first when it ends past the start of the input. */
  lemma CommitShorter(ch: Choice, a: Outcome, b: Outcome)
    requires a.Ok? && b.Ok? && 0 < a.index <= b.index
    ensures Commit(ch, [a, b, b]) == a
  {
    var cands := [a, b, b];
    var m := PickMin(cands).value;
    assert cands[m].index <= cands[0].index;
    assert Commit(Intended, cands) == a;
    if ch == AsWritten {
      CommitAwayFromZero(cands);
    }
  }

  /** On "a b c d" the letter after the blank at q ends at the next blank, or at the end
      for the last letter. */
  lemma SplitStops(q: nat)
    requires q == 1 || q == 3 || q == 5
    ensures var str := "a b c d";
      && str[q] == ' '
      && AnyStop(str, q + 1, Text(" ")) == q + 2
      && AnyStop(str, q + 1, ToEnd) == 7
  {
    var str := "a b c d";
    assert str[q] == ' ' && str[q + 1] != ' ';
    assert !PrefixAt(str, q + 1, " ") by {
      assert str[q + 1..q + 2][0] == str[q + 1];
    }
    if q < 5 {
      assert str[q + 2..q + 3] == " ";
      assert IndexOf(str, " ", q + 1) == Some(q + 2);
    } else {
      assert IndexOf(str, " ", q + 2) == None;
      assert IndexOf(str, " ", q + 1) == None;
    }
  }

  /** A child tried under heads [h, h'] + [h'] commits to what it reads under h when that
      ends past the start of the input and no later than what it reads under h'. */
  lemma CommitShorterHead(ch: Choice, env: Env, str: string, x: Expr, index: nat, h: Head, h': Head, fuel: nat)
    requires index <= |str|
    requires var a := TranslateExpr(ch, env, str, x, index, h, fuel);
      var b := TranslateExpr(ch, env, str, x, index, h', fuel);
      a.Ok? && b.Ok? && 0 < a.index <= b.index
    ensures Commit(ch, Candidates(ch, env, str, x, index, [h, h'] + [h'], fuel)) == TranslateExpr(ch, env, str, x, index, h, fuel)
  {
    assert [h, h'] + [h'] == [h, h', h'];
    ThreeCandidates(ch, env, str, x, index, h, h', h', fuel);
    CommitShorter(ch, TranslateExpr(ch, env, str, x, index, h, fuel), TranslateExpr(ch, env, str, x, index, h', fuel));
  }

  /** On "a b c d" the unit tried at the blank before letter q + 1 commits to that letter
      alone: stopping at the next blank (or at the end, for the last letter) is shorter
      than reading to the end. */
  lemma SplitOccurrence(ch: Choice, env: Env, q: nat, fuel: nat)
    requires q == 1 || q == 3 || q == 5
    ensures var str := "a b c d";
      Commit(ch, Candidates(ch, env, str, Seq([Lit(" "), Any(None)]), q, [Text(" "), ToEnd] + [ToEnd], fuel))
        == Ok(Arr([Str(str[q + 1..q + 2])]), q + 2)
  {
    var str := "a b c d";
    var u := Seq([Lit(" "), Any(None)]);
    SplitStops(q);
    SplitUnitMatches(ch, env, str, q, Text(" "), fuel);
    SplitUnitMatches(ch, env, str, q, ToEnd, fuel);
    CommitShorterHead(ch, env, str, u, q, Text(" "), ToEnd, fuel);
  }

  /** The next heads of the first `any` of split(" "): the unit's heads, a blank or the
      end, then the seq's own context head. */
  lemma SplitNexts(env: Env, k: nat, next: Head, fuel: nat)
    ensures var tail := Flat(Or(Repeat(Seq([Lit(" "), Any(None)]), k), Empty(Arr([]))));
      Nexts(env, [Any(None), tail], 1, next, fuel) == Some([Text(" "), ToEnd, next])
  {
    var u := Seq([Lit(" "), Any(None)]);
    var hs := [Text(" "), ToEnd];
    var tail := Flat(Or(Repeat(u, k), Empty(Arr([]))));
    var xs := [Any(None), tail];
    assert [Text(" ")] + [ToEnd] == hs;
    var body := Seq([Flat(u), Flat(Or(Lazy(k), Empty(Arr([]))))]);
    assert Heads(env, u, fuel) == Some(hs);
    assert Heads(env, Flat(u), fuel) == Some(hs);
    assert Heads(env, body, fuel) == Some(hs);
    assert Heads(env, Repeat(u, k), fuel) == Some(hs);
    assert Heads(env, Or(Repeat(u, k), Empty(Arr([]))), fuel) == Some(hs + [EmptyHead]);
    assert Heads(env, tail, fuel) == Some(hs + [EmptyHead]);
    assert Nexts(env, xs, 2, next, fuel) == Some([next]);
    assert [next] + [] == [next];
    assert ExpandEmpty(env, xs, 1, [EmptyHead], next, fuel) == Some([next]);
    ExpandKeeps(env, xs, 1, hs, [EmptyHead], next, fuel);
    assert hs + [next] == [Text(" "), ToEnd, next];
  }

  /** On "a b c d" the first `any` of split(" ") may stop at the first blank or read to the
      end; it commits to "a". */
  lemma SplitFirstWord(ch: Choice, env: Env, fuel: nat)
    ensures Commit(ch, Candidates(ch, env, "a b c d", Any(None), 0, [Text(" "), ToEnd, ToEnd], fuel)) == Ok(Str("a"), 1)
  {
    var str := "a b c d";
    assert str[0..1] == "a" && str[1..2] == " ";
    assert !PrefixAt(str, 0, " ") && PrefixAt(str, 1, " ");
    assert IndexOf(str, " ", 0) == Some(1);
    assert str[0..7] == str;
    ThreeCandidates(ch, env, str, Any(None), 0, Text(" "), ToEnd, ToEnd, fuel);
    CommitShorter(ch, Ok(Str("a"), 1), Ok(Str(str), 7));
  }

  /** The facts RepeatCollects needs about the unit of split(" ") on "a b c d": it reads
      " b", " c" and " d" and then cannot match at the end. */
  lemma SplitUnitRuns(ch: Choice, env: Env)
    ensures var u := Seq([Lit(" "), Any(None)]);
      var idx: seq<nat> := [1, 3, 5, 7];
      var vs := [Arr([Str("b")]), Arr([Str("c")]), Arr([Str("d")])];
      && (forall f :: Heads(env, u, f) == Some([Text(" "), ToEnd]))
      && (forall i, f :: 0 <= i < |vs| ==> Occurrence(ch, env, "a b c d", u, [Text(" "), ToEnd], ToEnd, idx[i], f) == Ok(vs[i], idx[i + 1]))
      && (forall f :: UnitThrows(ch, env, "a b c d", u, [Text(" "), ToEnd], ToEnd, idx[|vs|], f))
  {
    var str := "a b c d";
    var u := Seq([Lit(" "), Any(None)]);
    var hs := [Text(" "), ToEnd];
    forall f | true ensures Heads(env, u, f) == Some(hs) {
      assert [Text(" ")] + [ToEnd] == hs;
    }
    var idx: seq<nat> := [1, 3, 5, 7];
    var vs := [Arr([Str("b")]), Arr([Str("c")]), Arr([Str("d")])];
    assert str[2..3] == "b" && str[4..5] == "c" && str[6..7] == "d";
    forall i, f | 0 <= i < |vs|
      ensures Occurrence(ch, env, str, u, hs, ToEnd, idx[i], f) == Ok(vs[i], idx[i + 1])
    {
      SplitOccurrence(ch, env, idx[i], f);
    }
    forall f ensures UnitThrows(ch, env, str, u, hs, ToEnd, idx[|vs|], f) {
      forall h | h in hs + [ToEnd] ensures Throws(TranslateExpr(ch, env, str, u, idx[|vs|], h, f)) {
        SplitUnitEnds(ch, env, str, h, f);
      }
    }
  }

  /** An `or` whose first branch succeeds is that branch; `flat` around it changes nothing. */
  lemma FlatOrFirst(ch: Choice, env: Env, str: string, a: Expr, b: Expr, index: nat, next: Head, fuel: nat)
    requires index <= |str| && TranslateExpr(ch, env, str, a, index, next, fuel).Ok?
    ensures TranslateExpr(ch, env, str, Flat(Or(a, b)), index, next, fuel) == TranslateExpr(ch, env, str, a, index, next, fuel)
  {
  }

  /** On "a b c d" from index 1 the optional repeat of split(" ") reads " b", " c" and " d",
      and yields ["b", "c", "d"]. */
  lemma SplitRestWords(ch: Choice, env: Env, k: nat, fuel: nat)
    requires env.rules(k) == Repeat(Seq([Lit(" "), Any(None)]), k)
    requires fuel >= 4
    ensures var tail := Flat(Or(Repeat(Seq([Lit(" "), Any(None)]), k), Empty(Arr([]))));
      TranslateExpr(ch, env, "a b c d", tail, 1, ToEnd, fuel) == Ok(Arr([Str("b"), Str("c"), Str("d")]), 7)
  {
    var u := Seq([Lit(" "), Any(None)]);
    var idx: seq<nat> := [1, 3, 5, 7];
    var vs := [Arr([Str("b")]), Arr([Str("c")]), Arr([Str("d")])];
    SplitUnitRuns(ch, env);
    RepeatCollects(ch, env, "a b c d", u, k, [Text(" "), ToEnd], idx, vs, 0, ToEnd, 0, fuel);
    assert SplicedFrom(vs, 3) == [];
    assert SplicedFrom(vs, 0) == [Str("b"), Str("c"), Str("d")];
    FlatOrFirst(ch, env, "a b c d", Repeat(u, k), Empty(Arr([])), 1, ToEnd, fuel);
  }

  /** A seq of two children read from the start of the input: the first commits to v0
      ending at `mid`, the second, tried with no next head, reaches the end. */
  lemma TwoChildSeq(ch: Choice, env: Env, str: string, e: Expr, nexts: seq<Head>, v0: Value, mid: nat, c: Outcome, fuel: nat)
    requires e.Seq? && |e.exprs| == 2 && mid <= |str|
    requires Nexts(env, e.exprs, 1, ToEnd, fuel) == Some(nexts)
    requires Commit(ch, Candidates(ch, env, str, e.exprs[0], 0, nexts, fuel)) == Ok(v0, mid)
    requires TranslateExpr(ch, env, str, e.exprs[1], mid, ToEnd, fuel) == c && c.Ok? && c.index == |str|
    ensures Translate(ch, env, str, e, fuel) == Ok(Arr(ApplyValue(ApplyValue([], e.exprs[0], v0), e.exprs[1], c.value)), |str|)
  {
    assert Nexts(env, e.exprs, 2, ToEnd, fuel) == Some([ToEnd]);
    CommitOne(ch, env, str, e.exprs[1], mid, ToEnd, fuel);
    TwoChildren(ch, env, str, e, 0, ToEnd, fuel, nexts, v0, mid, [ToEnd], c.value, c.index);
  }

  /** `flat(any(c))` over the whole input is c read over the whole input. */
  lemma WholeFlatAny(ch: Choice, env: Env, str: string, c: Expr, v: Value, fuel: nat)
    requires c != Lit("")
    requires Translate(ch, env, str, c, fuel) == Ok(v, |str|)
    ensures Translate(ch, env, str, Flat(Any(Some(c))), fuel) == Ok(v, |str|)
  {
    assert str[0..|str|] == str;
    AnyRunsChild(ch, env, str, c, 0, ToEnd, fuel);
  }

  /** The seq inside split(" ") reads all of "a b c d" into ["a", "b", "c", "d"]. */
  lemma SplitWords(ch: Choice, env: Env, k: nat, fuel: nat)
    requires env.rules(k) == Repeat(Seq([Lit(" "), Any(None)]), k)
    requires fuel >= 4
    ensures var tail := Flat(Or(Repeat(Seq([Lit(" "), Any(None)]), k), Empty(Arr([]))));
      Translate(ch, env, "a b c d", Seq([Any(None), tail]), fuel)
        == Ok(Arr([Str("a"), Str("b"), Str("c"), Str("d")]), 7)
  {
    var str := "a b c d";
    var tail := Flat(Or(Repeat(Seq([Lit(" "), Any(None)]), k), Empty(Arr([]))));
    var inner := Seq([Any(None), tail]);
    SplitNexts(env, k, ToEnd, fuel);
    SplitFirstWord(ch, env, fuel);
    SplitRestWords(ch, env, k, fuel);
    var c := Ok(Arr([Str("b"), Str("c"), Str("d")]), 7);
    TwoChildSeq(ch, env, str, inner, [Text(" "), ToEnd, ToEnd], Str("a"), 1, c, fuel);
    assert ApplyValue([], Any(None), Str("a")) == [Str("a")];
    assert ApplyValue([Str("a")], tail, c.value) == [Str("a"), Str("b"), Str("c"), Str("d")];
  }

  /** tests/split-expr.test.ts:4-8: split(" ") on "a b c d" gives ["a", "b", "c", "d"]; `k`
      is the rule the inner repeat's `lazy` resolves to. */
  lemma SplitExample(ch: Choice, env: Env, k: nat, fuel: nat)
    requires env.rules(k) == Repeat(Seq([Lit(" "), Any(None)]), k)
    requires fuel >= 4
    ensures Translate(ch, env, "a b c d", Split(" ", None, k), fuel)
      == Ok(Arr([Str("a"), Str("b"), Str("c"), Str("d")]), 7)
  {
    var tail := Flat(Or(Repeat(Seq([Lit(" "), Any(None)]), k), Empty(Arr([]))));
    var inner := Seq([Any(None), tail]);
    SplitWords(ch, env, k, fuel);
    WholeFlatAny(ch, env, "a b c d", inner, Arr([Str("a"), Str("b"), Str("c"), Str("d")]), fuel);
  }
}

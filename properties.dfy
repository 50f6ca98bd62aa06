/**
 * Properties of the engine that relate several of its parts: what heads promise, what
 * `isOptionalExpr` promises, which errors cannot happen, ordered choice, and the
 * behaviour of a few small grammars.
 */
module Properties {
  import opened Wrappers
  import opened Values
  import opened Grammar
  import opened Primitives
  import opened Selection
  import opened Engine

  /** One step of a seq: child i, tried under its next heads, commits to a success, and
      the seq carries on from the next child at the new index with the value entered. */
  lemma SeqStep(ch: Choice, env: Env, str: string, e: Expr, i: nat, index: nat, res: seq<Value>,
                next: Head, fuel: nat, nexts: seq<Head>, v: Value, mid: nat)
    requires e.Seq? && i < |e.exprs| && index <= |str| && mid <= |str|
    requires Nexts(env, e.exprs, i + 1, next, fuel) == Some(nexts)
    requires Commit(ch, Candidates(ch, env, str, e.exprs[i], index, nexts, fuel)) == Ok(v, mid)
    ensures SeqFrom(ch, env, str, e, i, index, res, next, fuel)
      == SeqFrom(ch, env, str, e, i + 1, mid, ApplyValue(res, e.exprs[i], v), next, fuel)
  {
  }

  /** A successful seq has a successful first child, under one of its candidate heads. */
  lemma SeqFirstChildSucceeds(ch: Choice, env: Env, str: string, e: Expr, index: nat, res: seq<Value>, next: Head, fuel: nat)
    requires e.Seq? && |e.exprs| > 0 && index <= |str|
    requires SeqFrom(ch, env, str, e, 0, index, res, next, fuel).Ok?
    ensures exists h :: TranslateExpr(ch, env, str, e.exprs[0], index, h, fuel).Ok?
  {
    var nexts := Nexts(env, e.exprs, 1, next, fuel).value;
    var cands := Candidates(ch, env, str, e.exprs[0], index, nexts, fuel);
    var chosen := Commit(ch, cands);
    var k: nat :| k < |cands| && chosen == cands[k];
    assert TranslateExpr(ch, env, str, e.exprs[0], index, nexts[k], fuel).Ok?;
  }

  /** `any()` without a child yields exactly the slice it reads, from `index` up to where
      AnyStop says it stops. */
  lemma AnyReadsSlice(ch: Choice, env: Env, str: string, index: nat, next: Head, fuel: nat)
    requires index <= |str|
    ensures var r := TranslateExpr(ch, env, str, Any(None), index, next, fuel);
      && r.Ok?
      && r.index == AnyStop(str, index, next)
      && r.value == Str(str[index..r.index])
  {
  }

  /** `any(child)` (lib/main.ts:359-364) reads the same slice, then runs a translate of its
      own on it: the child must match the whole slice from its start, with no next head;
      the child's value is the result and `any` ends where the slice ends. A child that
      stops short of the slice's end makes `any` throw the length mismatch. */
  lemma AnyRunsChild(ch: Choice, env: Env, str: string, c: Expr, index: nat, next: Head, fuel: nat)
    requires index <= |str| && c != Lit("")
    ensures var stop := AnyStop(str, index, next);
      var slice := str[index..stop];
      var w := TranslateExpr(ch, env, slice, c, 0, ToEnd, fuel);
      var r := TranslateExpr(ch, env, str, Any(Some(c)), index, next, fuel);
      && (r.Ok? <==> w.Ok? && w.index == stop - index)
      && (r.Ok? ==> r == Ok(w.value, stop))
      && (w.Ok? && w.index != |slice| ==> r == Fail(LengthMismatch(|slice|, w.index)))
  {
  }

  /** A seq of one child is that child tried with the seq's own next head; its value is
      the child's value entered into an empty array. */
  lemma SingleChildSeq(ch: Choice, env: Env, str: string, x: Expr, index: nat, next: Head, fuel: nat)
    requires index <= |str|
    ensures var c := TranslateExpr(ch, env, str, x, index, next, fuel);
      TranslateExpr(ch, env, str, Seq([x]), index, next, fuel)
        == if c.Ok? then Ok(Arr(ApplyValue([], x, c.value)), c.index) else c
  {
    var e := Seq([x]);
    var c := TranslateExpr(ch, env, str, x, index, next, fuel);
    assert Nexts(env, e.exprs, 1, next, fuel) == Some([next]);
    assert Candidates(ch, env, str, x, index, [next], fuel) == [c];
    CommitSingle(ch, c);
    if c.Ok? {
      var res := ApplyValue([], x, c.value);
      assert SeqFrom(ch, env, str, e, 1, c.index, res, next, fuel) == Ok(Arr(res), c.index);
      assert SeqFrom(ch, env, str, e, 0, index, [], next, fuel) == SeqFrom(ch, env, str, e, 1, c.index, res, next, fuel);
    } else {
      assert SeqFrom(ch, env, str, e, 0, index, [], next, fuel) == c;
    }
  }

  /** Some head a node reports fits any successful match of the node: either it is a string
      the match starts with, or it is not a string at all. */
  lemma {:induction false} SomeHeadFits(ch: Choice, env: Env, str: string, e: Expr, index: nat, next: Head, hfuel: nat, fuel: nat)
    requires index <= |str|
    requires Heads(env, e, hfuel).Some?
    requires TranslateExpr(ch, env, str, e, index, next, fuel).Ok?
    ensures exists h :: h in Heads(env, e, hfuel).value && (h.Text? ==> PrefixAt(str, index, h.s))
    decreases fuel, e
  {
    var hs := Heads(env, e, hfuel).value;
    match e
    case Lit(s) =>
      assert hs[0] in hs;
    case Exists(t) =>
      assert hs[0] in hs;
    case Seq(xs) =>
      if |xs| == 0 {
        assert hs[0] in hs;
        return;
      }
      SeqFirstChildSucceeds(ch, env, str, e, index, [], next, fuel);
      var h :| TranslateExpr(ch, env, str, xs[0], index, h, fuel).Ok?;
      if xs[0].Lit? {
        assert hs[0] in hs;
      } else {
        SomeHeadFits(ch, env, str, xs[0], index, h, hfuel, fuel);
      }
    case Or(a, b) =>
      var ha, hb := Heads(env, a, hfuel).value, Heads(env, b, hfuel).value;
      assert hs == ha + hb;
      if TranslateExpr(ch, env, str, a, index, next, fuel).Ok? {
        SomeHeadFits(ch, env, str, a, index, next, hfuel, fuel);
        var h :| h in ha && (h.Text? ==> PrefixAt(str, index, h.s));
        assert h in hs;
      } else {
        SomeHeadFits(ch, env, str, b, index, next, hfuel, fuel);
        var h :| h in hb && (h.Text? ==> PrefixAt(str, index, h.s));
        assert h in hs;
      }
    case Lazy(k) =>
      SomeHeadFits(ch, env, str, env.rules(k), index, next, hfuel - 1, fuel - 1);
    case Flat(x) =>
      SomeHeadFits(ch, env, str, x, index, next, hfuel, fuel);
    case Reduce(x) =>
      SomeHeadFits(ch, env, str, x, index, next, hfuel, fuel);
    case Object(_, x) =>
      SomeHeadFits(ch, env, str, x, index, next, hfuel, fuel);
    case _ =>
      assert hs[0] in hs;
  }

  /** When every head a node reports is a string, a successful match of the node starts
      with one of them: this is what lets `any` stop at a following node's heads. */
  lemma HeadsSound(ch: Choice, env: Env, str: string, e: Expr, index: nat, next: Head, hfuel: nat, fuel: nat)
    requires index <= |str|
    requires Heads(env, e, hfuel).Some?
    requires forall h :: h in Heads(env, e, hfuel).value ==> h.Text?
    requires TranslateExpr(ch, env, str, e, index, next, fuel).Ok?
    ensures exists t :: Text(t) in Heads(env, e, hfuel).value && PrefixAt(str, index, t)
  {
    SomeHeadFits(ch, env, str, e, index, next, hfuel, fuel);
    var h :| h in Heads(env, e, hfuel).value && (h.Text? ==> PrefixAt(str, index, h.s));
    assert Text(h.s) in Heads(env, e, hfuel).value;
  }

  /** A node `isOptionalExpr` calls optional never throws, wherever it is tried. */
  lemma {:induction false} OptionalNeverThrows(ch: Choice, env: Env, str: string, e: Expr, index: nat, next: Head, ofuel: nat, fuel: nat)
    requires index <= |str|
    requires IsOptional(env, e, ofuel) == Some(true)
    ensures !Throws(TranslateExpr(ch, env, str, e, index, next, fuel))
    decreases fuel, e
  {
    match e
    case Seq(xs) =>
      OptionalNeverThrows(ch, env, str, xs[0], index, next, ofuel, fuel);
      assert Nexts(env, xs, 1, next, fuel) == Some([next]);
      var first := TranslateExpr(ch, env, str, xs[0], index, next, fuel);
      assert Candidates(ch, env, str, xs[0], index, [next], fuel) == [first];
      CommitSingle(ch, first);
      if first.Ok? {
        var res := ApplyValue([], xs[0], first.value);
        assert SeqFrom(ch, env, str, e, 1, first.index, res, next, fuel).Ok?;
        assert SeqFrom(ch, env, str, e, 0, index, [], next, fuel).Ok?;
      }
    case Flat(x) =>
      OptionalNeverThrows(ch, env, str, x, index, next, ofuel, fuel);
    case Reduce(x) =>
      OptionalNeverThrows(ch, env, str, x, index, next, ofuel, fuel);
    case Lazy(k) =>
      if fuel > 0 {
        OptionalNeverThrows(ch, env, str, env.rules(k), index, next, ofuel - 1, fuel - 1);
      }
    case Or(a, b) =>
      if !b.Empty? {
        if IsOptional(env, a, ofuel) == Some(true) {
          OptionalNeverThrows(ch, env, str, a, index, next, ofuel, fuel);
        } else {
          OptionalNeverThrows(ch, env, str, b, index, next, ofuel, fuel);
        }
      }
    case _ =>
  }

  /** The "no results error" of lib/main.ts:553-554 is never thrown: getNexts is never empty. */
  lemma {:induction false} NeverNoResults(ch: Choice, env: Env, str: string, e: Expr, index: nat, next: Head, fuel: nat)
    requires index <= |str|
    ensures TranslateExpr(ch, env, str, e, index, next, fuel) != Fail(NoResults)
    decreases fuel, e, 1
  {
    match e
    case Any(child) =>
      if child.Some? {
        var stop := AnyStop(str, index, next);
        NeverNoResults(ch, env, str[index..stop], child.value, 0, ToEnd, fuel);
      }
    case Seq(_) =>
      SeqNeverNoResults(ch, env, str, e, 0, index, [], next, fuel);
    case Or(a, b) =>
      NeverNoResults(ch, env, str, a, index, next, fuel);
      NeverNoResults(ch, env, str, b, index, next, fuel);
    case Lazy(k) =>
      if fuel > 0 {
        NeverNoResults(ch, env, str, env.rules(k), index, next, fuel - 1);
      }
    case Flat(x) =>
      NeverNoResults(ch, env, str, x, index, next, fuel);
    case Reduce(x) =>
      NeverNoResults(ch, env, str, x, index, next, fuel);
    case Object(_, x) =>
      NeverNoResults(ch, env, str, x, index, next, fuel);
    case _ =>
  }

  lemma {:induction false} SeqNeverNoResults(ch: Choice, env: Env, str: string, e: Expr, i: nat, index: nat, res: seq<Value>, next: Head, fuel: nat)
    requires e.Seq? && i <= |e.exprs| && index <= |str|
    ensures SeqFrom(ch, env, str, e, i, index, res, next, fuel) != Fail(NoResults)
    decreases fuel, e, 0, |e.exprs| - i
  {
    if i < |e.exprs| {
      var child := e.exprs[i];
      var nexts := Nexts(env, e.exprs, i + 1, next, fuel);
      if nexts.Some? {
        var cands := Candidates(ch, env, str, child, index, nexts.value, fuel);
        NeverNoResults(ch, env, str, child, index, nexts.value[0], fuel);
        var chosen := Commit(ch, cands);
        if chosen.Ok? {
          SeqNeverNoResults(ch, env, str, e, i + 1, chosen.index, ApplyValue(res, child, chosen.value), next, fuel);
        }
      }
    }
  }

  /** Ordered choice (lib/main.ts:584-589): `or(a, b)` is `a`'s outcome unless `a` throws,
      and only then `b`'s, tried at the same index with the same next head. */
  lemma OrderedChoice(ch: Choice, env: Env, str: string, a: Expr, b: Expr, index: nat, next: Head, fuel: nat)
    requires index <= |str|
    ensures var r := TranslateExpr(ch, env, str, Or(a, b), index, next, fuel);
      && (!Throws(TranslateExpr(ch, env, str, a, index, next, fuel)) ==> r == TranslateExpr(ch, env, str, a, index, next, fuel))
      && (Throws(TranslateExpr(ch, env, str, a, index, next, fuel)) ==> r == TranslateExpr(ch, env, str, b, index, next, fuel))
      && (Throws(r) ==> Throws(TranslateExpr(ch, env, str, a, index, next, fuel)))
  {
  }

  /** A string grammar matches exactly itself, yielding `undefined`. */
  lemma LiteralTranslatesItself(ch: Choice, env: Env, s: string, fuel: nat)
    ensures Translate(ch, env, s, Lit(s), fuel) == Ok(Undef, |s|)
  {
    assert s[0..|s|] == s;
  }

  /** The parts of the template seq`${a}${b}`. */
  lemma TwoLiteralsParts(a: string, b: string)
    ensures Interleave(["", "", ""], [Lit(a), Lit(b)]) == [Lit(""), Lit(a), Lit(""), Lit(b), Lit("")]
  {
    var strings, exprs := ["", "", ""], [Lit(a), Lit(b)];
    assert strings[0] == "" && strings[1] == "" && strings[2] == "";
    assert exprs[0] == Lit(a) && exprs[1] == Lit(b);
  }

  /** Two reduce steps on the strings a and b, from an empty list: a + b, dropped when empty. */
  lemma FuseTwoStrings(a: string, b: string)
    ensures Fuse(Fuse([], Lit(a)), Lit(b)) == if a + b == "" then [] else [Lit(a + b)]
  {
    if a == "" {
      assert a + b == b;
    } else if b == "" {
      assert a + b == a;
    } else {
      assert [Lit(a)][..0] + [Lit(a + b)] == [Lit(a + b)];
    }
  }

  /** seq`${a}${b}` of two strings: the reduce drops the template's empty strings and joins
      a and b, so the node holds the one literal a + b, or no child at all when both are
      empty. */
  lemma TwoLiteralsFuse(a: string, b: string)
    ensures SeqOf(["", "", ""], [Lit(a), Lit(b)]) == if a + b == "" then Seq([]) else Seq([Lit(a + b)])
  {
    TwoLiteralsParts(a, b);
    var p := [Lit(""), Lit(a), Lit(""), Lit(b), Lit("")];
    NormaliseAppend([], Lit(""));
    assert p[..1] == [] + [Lit("")];
    NormaliseSnoc(p[..1], Lit(a));
    assert p[..2] == p[..1] + [Lit(a)];
    NormaliseAppend(p[..2], Lit(""));
    assert p[..3] == p[..2] + [Lit("")];
    NormaliseSnoc(p[..3], Lit(b));
    assert p[..4] == p[..3] + [Lit(b)];
    NormaliseAppend(p[..4], Lit(""));
    assert p == p[..4] + [Lit("")];
    FuseTwoStrings(a, b);
  }

  /** seq`${a}${b}` matches where a + b is found, at any index and under any next head, and
      yields an empty array after it. */
  lemma TwoLiteralsSteps(ch: Choice, env: Env, str: string, a: string, b: string, index: nat, next: Head, fuel: nat)
    requires index <= |str|
    ensures var w := TranslateExpr(ch, env, str, SeqOf(["", "", ""], [Lit(a), Lit(b)]), index, next, fuel);
      && (w.Ok? <==> PrefixAt(str, index, a + b))
      && (w.Ok? ==> w == Ok(Arr([]), index + |a + b|))
  {
    TwoLiteralsFuse(a, b);
    if a + b == "" {
      assert str[index..index] == "";
    } else {
      SingleChildSeq(ch, env, str, Lit(a + b), index, next, fuel);
    }
  }

  /** translate(str, seq`${a}${b}`) succeeds exactly on a + b, yielding an empty array. */
  lemma TwoLiterals(ch: Choice, env: Env, str: string, a: string, b: string, fuel: nat)
    ensures var r := Translate(ch, env, str, SeqOf(["", "", ""], [Lit(a), Lit(b)]), fuel);
      && (r.Ok? <==> str == a + b)
      && (r.Ok? ==> r.value == Arr([]))
  {
    TwoLiteralsSteps(ch, env, str, a, b, 0, ToEnd, fuel);
    if str == a + b {
      assert str[0..|a + b|] == a + b;
    }
    if PrefixAt(str, 0, a + b) && |a + b| == |str| {
      assert str == str[0..|a + b|];
    }
  }

  /** Zero occurrences: `or(repeat(s), empty([]))` where `s` is not at the index yields
      `[]` without consuming anything. */
  lemma RepeatOfAbsentLiteral(ch: Choice, env: Env, s: string, k: nat, str: string, index: nat, next: Head, fuel: nat)
    requires env.rules(k) == Repeat(Lit(s), k)
    requires fuel >= 1 && index <= |str| && !PrefixAt(str, index, s)
    ensures TranslateExpr(ch, env, str, Or(Repeat(Lit(s), k), Empty(Arr([]))), index, next, fuel) == Ok(Arr([]), index)
  {
    var tail := Flat(Or(Lazy(k), Empty(Arr([]))));
    var body := Seq([Flat(Lit(s)), tail]);
    var xs := body.exprs;
    assert Heads(env, Flat(Lit(s)), fuel - 1) == Some([Text(s)]);
    assert Heads(env, body, fuel - 1) == Some([Text(s)]);
    assert Heads(env, Repeat(Lit(s), k), fuel - 1) == Some([Text(s)]);
    assert Heads(env, Lazy(k), fuel) == Some([Text(s)]);
    assert [Text(s)] + [EmptyHead] == [Text(s), EmptyHead];
    assert Heads(env, Or(Lazy(k), Empty(Arr([]))), fuel) == Some([Text(s), EmptyHead]);
    assert Heads(env, tail, fuel) == Some([Text(s), EmptyHead]);
    assert Nexts(env, xs, 2, next, fuel) == Some([next]);
    assert ExpandEmpty(env, xs, 1, [], next, fuel) == Some([]);
    assert [EmptyHead][1..] == [];
    assert [next] + [] == [next];
    assert ExpandEmpty(env, xs, 1, [EmptyHead], next, fuel) == Some([next]);
    assert [Text(s), EmptyHead][1..] == [EmptyHead];
    assert [Text(s)] + [next] == [Text(s), next];
    assert ExpandEmpty(env, xs, 1, [Text(s), EmptyHead], next, fuel) == Some([Text(s), next]);
    var nexts := [Text(s), next];
    assert Nexts(env, xs, 1, next, fuel) == Some(nexts);
    var cands := Candidates(ch, env, str, Flat(Lit(s)), index, nexts, fuel);
    assert cands[0] == TranslateExpr(ch, env, str, Lit(s), index, Text(s), fuel) == LiteralStep(str, index, s);
    assert cands[1] == TranslateExpr(ch, env, str, Lit(s), index, next, fuel) == LiteralStep(str, index, s);
    assert Throws(cands[0]) && Throws(cands[1]);
    assert Fail(OutOfFuel) !in cands;
    assert NoneOk(cands, |cands|);
    assert Throws(TranslateExpr(ch, env, str, body, index, next, fuel));
  }
}

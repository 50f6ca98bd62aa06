/**
 * The grammar of tests/exists-expr.test.ts, seq`${any()}${or(exists("?"), empty(false))}: ${any()}`,
 * run on every input of the two shapes that test uses: a word, an optional "?", ": ", and
 * a rest; and the nested object grammar of tests/object-reduce.test.ts on every input.
 */
module Scenarios {
  import opened Wrappers
  import opened Values
  import opened Grammar
  import opened Primitives
  import opened Selection
  import opened Engine
  import opened Properties

  /** The children of the grammar once the template is normalised (see ExistsGrammarShape). */
  function ExistsChildren(): seq<Expr> {
    [Any(None), Or(Exists("?"), Empty(Bool(false))), Lit(": "), Any(None)]
  }

  /** The template's parts in order, empty strings included. */
  lemma ExistsTemplateParts()
    ensures Interleave(["", "", ": ", ""], [Any(None), Or(Exists("?"), Empty(Bool(false))), Any(None)])
      == [Lit(""), Any(None), Lit(""), Or(Exists("?"), Empty(Bool(false))), Lit(": "), Any(None), Lit("")]
  {
    var strings, exprs := ["", "", ": ", ""], [Any(None), Or(Exists("?"), Empty(Bool(false))), Any(None)];
    assert strings[0] == "" && strings[1] == "" && strings[2] == ": " && strings[3] == "";
    assert exprs[0] == Any(None) && exprs[1] == Or(Exists("?"), Empty(Bool(false))) && exprs[2] == Any(None);
  }

  /** Normalising the first three parts keeps the first `any`. */
  lemma ExistsNormaliseFront()
    ensures Normalise([Lit(""), Any(None), Lit("")]) == [Any(None)]
  {
    NormaliseAppend([], Lit(""));
    assert [Lit("")] == [] + [Lit("")];
    NormaliseAppend([Lit("")], Any(None));
    assert [Lit(""), Any(None)] == [Lit("")] + [Any(None)];
    NormaliseAppend([Lit(""), Any(None)], Lit(""));
    assert [Lit(""), Any(None), Lit("")] == [Lit(""), Any(None)] + [Lit("")];
  }

  /** Normalising the first five parts keeps the `any`, the `or` and ": ". */
  lemma ExistsNormaliseMiddle()
    ensures var o := Or(Exists("?"), Empty(Bool(false)));
      Normalise([Lit(""), Any(None), Lit(""), o, Lit(": ")]) == [Any(None), o, Lit(": ")]
  {
    var o := Or(Exists("?"), Empty(Bool(false)));
    ExistsNormaliseFront();
    var p3 := [Lit(""), Any(None), Lit("")];
    NormaliseAppend(p3, o);
    assert p3 + [o] == [Lit(""), Any(None), Lit(""), o];
    NormaliseAppend(p3 + [o], Lit(": "));
    assert p3 + [o] + [Lit(": ")] == [Lit(""), Any(None), Lit(""), o, Lit(": ")];
  }

  /** The template drops its empty strings, leaving the two `any`s, the `or`, and the
      literal ": " between them. */
  lemma ExistsGrammarShape()
    ensures SeqOf(["", "", ": ", ""], [Any(None), Or(Exists("?"), Empty(Bool(false))), Any(None)])
      == Seq(ExistsChildren())
  {
    var o := Or(Exists("?"), Empty(Bool(false)));
    ExistsTemplateParts();
    ExistsNormaliseMiddle();
    var p5 := [Lit(""), Any(None), Lit(""), o, Lit(": ")];
    NormaliseAppend(p5, Any(None));
    assert p5 + [Any(None)] == [Lit(""), Any(None), Lit(""), o, Lit(": "), Any(None)];
    NormaliseAppend(p5 + [Any(None)], Lit(""));
    assert p5 + [Any(None)] + [Lit("")] == [Lit(""), Any(None), Lit(""), o, Lit(": "), Any(None), Lit("")];
  }

  /** The next heads of each child: the first `any` may stop at "?" (the optional `or`
      starts with it) or at ": " (the `or` may match nothing); the `or` is followed by
      ": "; the literal and the last `any` by the end of the input. */
  lemma ExistsNexts(env: Env, fuel: nat)
    ensures Nexts(env, ExistsChildren(), 1, ToEnd, fuel) == Some([Text("?"), Text(": ")])
    ensures Nexts(env, ExistsChildren(), 2, ToEnd, fuel) == Some([Text(": ")])
    ensures Nexts(env, ExistsChildren(), 3, ToEnd, fuel) == Some([ToEnd])
    ensures Nexts(env, ExistsChildren(), 4, ToEnd, fuel) == Some([ToEnd])
  {
    var xs := ExistsChildren();
    assert xs[1] == Or(Exists("?"), Empty(Bool(false))) && xs[2] == Lit(": ") && xs[3] == Any(None);
    assert Heads(env, xs[3], fuel) == Some([ToEnd]);
    assert ExpandEmpty(env, xs, 3, [], ToEnd, fuel) == Some([]);
    assert [ToEnd][1..] == [];
    assert [ToEnd] + [] == [ToEnd];
    assert ExpandEmpty(env, xs, 3, [ToEnd], ToEnd, fuel) == Some([ToEnd]);
    assert Heads(env, xs[2], fuel) == Some([Text(": ")]);
    assert ExpandEmpty(env, xs, 2, [], ToEnd, fuel) == Some([]);
    assert [Text(": ")][1..] == [];
    assert [Text(": ")] + [] == [Text(": ")];
    assert ExpandEmpty(env, xs, 2, [Text(": ")], ToEnd, fuel) == Some([Text(": ")]);
    assert Heads(env, Exists("?"), fuel) == Some([Text("?")]);
    assert Heads(env, Empty(Bool(false)), fuel) == Some([EmptyHead]);
    assert [Text("?")] + [EmptyHead] == [Text("?"), EmptyHead];
    assert Heads(env, xs[1], fuel) == Some([Text("?"), EmptyHead]);
    assert ExpandEmpty(env, xs, 1, [], ToEnd, fuel) == Some([]);
    assert [EmptyHead][1..] == [];
    assert ExpandEmpty(env, xs, 1, [EmptyHead], ToEnd, fuel) == Some([Text(": ")]);
    assert [Text("?"), EmptyHead][1..] == [EmptyHead];
    assert [Text("?")] + [Text(": ")] == [Text("?"), Text(": ")];
    assert ExpandEmpty(env, xs, 1, [Text("?"), EmptyHead], ToEnd, fuel) == Some([Text("?"), Text(": ")]);
  }

  /** A word for the test: neither "?" nor ":" occurs in it. */
  predicate PlainWord(w: string) {
    forall q :: 0 <= q < |w| ==> w[q] != '?' && w[q] != ':'
  }

  /** A seq that reads its whole input from index 0 is what translate returns. */
  lemma TranslateOfSeq(ch: Choice, env: Env, str: string, e: Expr, fuel: nat, r: Outcome)
    requires e.Seq? && SeqFrom(ch, env, str, e, 0, 0, [], ToEnd, fuel) == r
    requires r.Ok? && r.index == |str|
    ensures Translate(ch, env, str, e, fuel) == r
  {
    assert TranslateExpr(ch, env, str, e, 0, ToEnd, fuel) == r;
  }

  /** Where ": " and the rest lie in a + ": " + s. */
  lemma Layout(a: string, s: string)
    ensures var str := a + ": " + s;
      && |str| == |a| + 2 + |s|
      && str[|a|..|a| + 2] == ": "
      && str[|a| + 2..] == s
  {
  }

  /** Where ": " and the rest lie in w + "?: " + s. */
  lemma MarkLayout(w: string, s: string)
    ensures var str := w + "?: " + s;
      && |str| == |w| + 3 + |s|
      && str[|w| + 1..|w| + 3] == ": "
      && str[|w| + 3..] == s
  {
  }

  /** The literal ": " where the input holds it. */
  lemma ColonStep(ch: Choice, env: Env, str: string, q: nat, res: seq<Value>, fuel: nat)
    requires q + 2 <= |str| && str[q..q + 2] == ": "
    ensures SeqFrom(ch, env, str, Seq(ExistsChildren()), 2, q, res, ToEnd, fuel)
      == SeqFrom(ch, env, str, Seq(ExistsChildren()), 3, q + 2, res, ToEnd, fuel)
  {
    ExistsNexts(env, fuel);
    var c := LiteralStep(str, q, ": ");
    assert c == Ok(Undef, q + 2);
    assert Candidates(ch, env, str, Lit(": "), q, [ToEnd], fuel) == [c];
    CommitSingle(ch, c);
  }

  /** The last `any` reads the rest of the input and appends it, there being no object
      to merge it into. */
  lemma LastStep(ch: Choice, env: Env, str: string, q: nat, res: seq<Value>, fuel: nat)
    requires q <= |str|
    requires forall i :: 0 <= i < |res| ==> !IsObjectLike(res[i])
    ensures SeqFrom(ch, env, str, Seq(ExistsChildren()), 3, q, res, ToEnd, fuel)
      == Ok(Arr(res + [Str(str[q..])]), |str|)
  {
    var e := Seq(ExistsChildren());
    ExistsNexts(env, fuel);
    var c := Ok(Str(str[q..]), |str|);
    assert str[q..|str|] == str[q..];
    assert TranslateExpr(ch, env, str, Any(None), q, ToEnd, fuel) == c;
    assert Candidates(ch, env, str, Any(None), q, [ToEnd], fuel) == [c];
    CommitSingle(ch, c);
    var r := res + [Str(str[q..])];
    assert ApplyValue(res, Any(None), Str(str[q..])) == r;
    assert SeqFrom(ch, env, str, e, 4, |str|, r, ToEnd, fuel) == Ok(Arr(r), |str|);
  }

  /** The first `any` on w + "?: " + s: stopping at "?" reads w, stopping at ": " reads
      w + "?". */
  lemma WithMarkCandidates(ch: Choice, env: Env, w: string, s: string, fuel: nat)
    requires PlainWord(w)
    ensures Candidates(ch, env, w + "?: " + s, Any(None), 0, [Text("?"), Text(": ")], fuel)
      == [Ok(Str(w), |w|), Ok(Str(w + "?"), |w| + 1)]
  {
    var str := w + "?: " + s;
    var p := |w|;
    assert str[p] == '?' && str[p + 1] == ':' && str[p + 2] == ' ';
    assert forall q :: 0 <= q < p ==> str[q] == w[q];
    assert PrefixAt(str, p, "?");
    assert forall q :: 0 <= q < p ==> !PrefixAt(str, q, "?") by {
      forall q | 0 <= q < p ensures !PrefixAt(str, q, "?") {
        assert str[q..q + 1][0] == str[q];
      }
    }
    assert PrefixAt(str, p + 1, ": ");
    assert forall q :: 0 <= q <= p ==> !PrefixAt(str, q, ": ") by {
      forall q | 0 <= q <= p ensures !PrefixAt(str, q, ": ") {
        assert str[q..q + 2][0] == str[q];
      }
    }
    assert IndexOf(str, "?", 0) == Some(p);
    assert IndexOf(str, ": ", 0) == Some(p + 1);
    assert str[0..p] == w && str[0..p + 1] == w + "?";
  }

  /** Of those two candidates the shorter, w, is committed to. */
  lemma WithMarkFirst(ch: Choice, env: Env, w: string, s: string, fuel: nat)
    requires PlainWord(w) && (ch == Intended || w != "")
    ensures var str := w + "?: " + s;
      SeqFrom(ch, env, str, Seq(ExistsChildren()), 0, 0, [], ToEnd, fuel)
        == SeqFrom(ch, env, str, Seq(ExistsChildren()), 1, |w|, [Str(w)], ToEnd, fuel)
  {
    var p := |w|;
    WithMarkCandidates(ch, env, w, s, fuel);
    ExistsNexts(env, fuel);
    var cands := [Ok(Str(w), p), Ok(Str(w + "?"), p + 1)];
    var k := PickMin(cands).value;
    assert cands[k].index <= cands[0].index;
    assert Commit(Intended, cands) == Ok(Str(w), p);
    if ch == AsWritten {
      CommitAwayFromZero(cands);
    }
    assert ApplyValue([], Any(None), Str(w)) == [Str(w)];
  }

  /** The `or` on w + "?: " + s: `exists("?")` matches the "?". */
  lemma WithMarkOr(ch: Choice, env: Env, w: string, s: string, fuel: nat)
    ensures var str := w + "?: " + s;
      SeqFrom(ch, env, str, Seq(ExistsChildren()), 1, |w|, [Str(w)], ToEnd, fuel)
        == SeqFrom(ch, env, str, Seq(ExistsChildren()), 2, |w| + 1, [Str(w), Bool(true)], ToEnd, fuel)
  {
    var str := w + "?: " + s;
    var p := |w|;
    var o := Or(Exists("?"), Empty(Bool(false)));
    ExistsNexts(env, fuel);
    assert str[p..p + 1] == "?";
    assert TranslateExpr(ch, env, str, Exists("?"), p, Text(": "), fuel) == Ok(Bool(true), p + 1);
    var c1 := TranslateExpr(ch, env, str, o, p, Text(": "), fuel);
    assert c1 == Ok(Bool(true), p + 1);
    assert Candidates(ch, env, str, o, p, [Text(": ")], fuel) == [c1];
    CommitSingle(ch, c1);
    assert ApplyValue([Str(w)], o, Bool(true)) == [Str(w), Bool(true)];
  }

  /** After the "?": the literal ": ", then the last `any` reads s. */
  lemma WithMarkTail(ch: Choice, env: Env, w: string, s: string, fuel: nat)
    ensures var str := w + "?: " + s;
      SeqFrom(ch, env, str, Seq(ExistsChildren()), 2, |w| + 1, [Str(w), Bool(true)], ToEnd, fuel)
        == Ok(Arr([Str(w), Bool(true), Str(s)]), |str|)
  {
    var str := w + "?: " + s;
    MarkLayout(w, s);
    assert [Str(w), Bool(true)] + [Str(s)] == [Str(w), Bool(true), Str(s)];
    ColonStep(ch, env, str, |w| + 1, [Str(w), Bool(true)], fuel);
    LastStep(ch, env, str, |w| + 3, [Str(w), Bool(true)], fuel);
  }

  /** tests/exists-expr.test.ts:7-11 generalised: "hoge?: string" gives
      ["hoge", true, "string"], and so does every non-empty plain word. Under the intended
      choice the empty word does too; as written it does not (Findings.AsWrittenEmptyWord). */
  lemma WithMark(ch: Choice, env: Env, w: string, s: string, fuel: nat)
    requires PlainWord(w) && (ch == Intended || w != "")
    ensures Translate(ch, env, w + "?: " + s, Seq(ExistsChildren()), fuel)
      == Ok(Arr([Str(w), Bool(true), Str(s)]), |w + "?: " + s|)
  {
    var str := w + "?: " + s;
    var e := Seq(ExistsChildren());
    WithMarkFirst(ch, env, w, s, fuel);
    WithMarkOr(ch, env, w, s, fuel);
    WithMarkTail(ch, env, w, s, fuel);
    TranslateOfSeq(ch, env, str, e, fuel, Ok(Arr([Str(w), Bool(true), Str(s)]), |str|));
  }

  /** The first `any` on w + ": " + s: stopping at ": " reads w; stopping at "?" (found
      in s, or not at all) reads more. */
  lemma WithoutMarkCandidates(ch: Choice, env: Env, w: string, s: string, fuel: nat)
    requires PlainWord(w)
    ensures var str := w + ": " + s;
      var stop := AnyStop(str, 0, Text("?"));
      && stop > |w|
      && Candidates(ch, env, str, Any(None), 0, [Text("?"), Text(": ")], fuel)
         == [Ok(Str(str[0..stop]), stop), Ok(Str(w), |w|)]
  {
    var str := w + ": " + s;
    var p := |w|;
    assert str[p] == ':' && str[p + 1] == ' ';
    assert forall q :: 0 <= q < p ==> str[q] == w[q];
    assert PrefixAt(str, p, ": ");
    assert forall q :: 0 <= q < p ==> !PrefixAt(str, q, ": ") by {
      forall q | 0 <= q < p ensures !PrefixAt(str, q, ": ") {
        assert str[q..q + 2][0] == str[q];
      }
    }
    assert IndexOf(str, ": ", 0) == Some(p);
    assert forall q :: 0 <= q <= p + 1 ==> !PrefixAt(str, q, "?") by {
      forall q | 0 <= q <= p + 1 ensures !PrefixAt(str, q, "?") {
        assert str[q..q + 1][0] == str[q];
      }
    }
    var stop := AnyStop(str, 0, Text("?"));
    assert stop == |str| || PrefixAt(str, stop, "?");
    assert stop > p + 1;
    assert str[0..p] == w;
  }

  /** Of those two candidates the shorter, w, is committed to. */
  lemma WithoutMarkFirst(ch: Choice, env: Env, w: string, s: string, fuel: nat)
    requires PlainWord(w)
    ensures var str := w + ": " + s;
      SeqFrom(ch, env, str, Seq(ExistsChildren()), 0, 0, [], ToEnd, fuel)
        == SeqFrom(ch, env, str, Seq(ExistsChildren()), 1, |w|, [Str(w)], ToEnd, fuel)
  {
    var str := w + ": " + s;
    var p := |w|;
    WithoutMarkCandidates(ch, env, w, s, fuel);
    ExistsNexts(env, fuel);
    var stop := AnyStop(str, 0, Text("?"));
    var cands := [Ok(Str(str[0..stop]), stop), Ok(Str(w), p)];
    var k := PickMin(cands).value;
    assert cands[k].index <= cands[1].index;
    assert Commit(Intended, cands) == Ok(Str(w), p);
    assert PickAsWrittenFrom(cands, 2, Some(1)) == Some(1);
    assert PickAsWrittenFrom(cands, 1, Some(0)) == Some(1);
    assert PickAsWritten(cands) == Some(1);
    assert ApplyValue([], Any(None), Str(w)) == [Str(w)];
  }

  /** The `or` on w + ": " + s: `exists("?")` throws at the ':', so `empty(false)` yields
      false without consuming anything. */
  lemma WithoutMarkOr(ch: Choice, env: Env, w: string, s: string, fuel: nat)
    ensures var str := w + ": " + s;
      SeqFrom(ch, env, str, Seq(ExistsChildren()), 1, |w|, [Str(w)], ToEnd, fuel)
        == SeqFrom(ch, env, str, Seq(ExistsChildren()), 2, |w|, [Str(w), Bool(false)], ToEnd, fuel)
  {
    var str := w + ": " + s;
    var p := |w|;
    var o := Or(Exists("?"), Empty(Bool(false)));
    ExistsNexts(env, fuel);
    assert str[p] == ':';
    assert !PrefixAt(str, p, "?") by {
      assert str[p..p + 1][0] == str[p];
    }
    assert Throws(TranslateExpr(ch, env, str, Exists("?"), p, Text(": "), fuel));
    assert TranslateExpr(ch, env, str, Empty(Bool(false)), p, Text(": "), fuel) == Ok(Bool(false), p);
    var c1 := TranslateExpr(ch, env, str, o, p, Text(": "), fuel);
    assert c1 == Ok(Bool(false), p);
    assert Candidates(ch, env, str, o, p, [Text(": ")], fuel) == [c1];
    CommitSingle(ch, c1);
    assert ApplyValue([Str(w)], o, Bool(false)) == [Str(w), Bool(false)];
  }

  /** After the word: the literal ": ", then the last `any` reads s. */
  lemma WithoutMarkTail(ch: Choice, env: Env, w: string, s: string, fuel: nat)
    ensures var str := w + ": " + s;
      SeqFrom(ch, env, str, Seq(ExistsChildren()), 2, |w|, [Str(w), Bool(false)], ToEnd, fuel)
        == Ok(Arr([Str(w), Bool(false), Str(s)]), |str|)
  {
    var str := w + ": " + s;
    Layout(w, s);
    assert [Str(w), Bool(false)] + [Str(s)] == [Str(w), Bool(false), Str(s)];
    ColonStep(ch, env, str, |w|, [Str(w), Bool(false)], fuel);
    LastStep(ch, env, str, |w| + 2, [Str(w), Bool(false)], fuel);
  }

  /** tests/exists-expr.test.ts:13-17 generalised: "hoge: string" gives
      ["hoge", false, "string"], for every plain word and every rest. */
  lemma WithoutMark(ch: Choice, env: Env, w: string, s: string, fuel: nat)
    requires PlainWord(w)
    ensures Translate(ch, env, w + ": " + s, Seq(ExistsChildren()), fuel)
      == Ok(Arr([Str(w), Bool(false), Str(s)]), |w + ": " + s|)
  {
    var str := w + ": " + s;
    var e := Seq(ExistsChildren());
    WithoutMarkFirst(ch, env, w, s, fuel);
    WithoutMarkOr(ch, env, w, s, fuel);
    WithoutMarkTail(ch, env, w, s, fuel);
    TranslateOfSeq(ch, env, str, e, fuel, Ok(Arr([Str(w), Bool(false), Str(s)]), |str|));
  }

  // ---------------------------------------------------------------------------
  // tests/object-reduce.test.ts
  // ---------------------------------------------------------------------------

  /** seq`${{ test: any() }}` */
  function ObjectChild(): Expr {
    Seq([Object("test", Any(None))])
  }

  /** The inner seq reads its whole input into one object. */
  lemma ObjectChildValue(ch: Choice, env: Env, str: string, fuel: nat)
    ensures TranslateExpr(ch, env, str, ObjectChild(), 0, ToEnd, fuel)
      == Ok(Arr([Obj(map["test" := Str(str)])]), |str|)
  {
    assert str[0..|str|] == str;
    assert TranslateExpr(ch, env, str, Any(None), 0, ToEnd, fuel) == Ok(Str(str), |str|);
    var o := Obj(map["test" := Str(str)]);
    SingleChildSeq(ch, env, str, Object("test", Any(None)), 0, ToEnd, fuel);
    assert ApplyValue([], Object("test", Any(None)), o) == [o];
  }

  /** tests/object-reduce.test.ts:4-10 generalised: seq`${{ child: reduce(child) }}` on any
      input yields [{child: {test: input}}], reduce having unwrapped the inner array. */
  lemma ObjectReduce(ch: Choice, env: Env, str: string, fuel: nat)
    ensures Translate(ch, env, str, Seq([Object("child", Reduce(ObjectChild()))]), fuel)
      == Ok(Arr([Obj(map["child" := Obj(map["test" := Str(str)])])]), |str|)
  {
    var inner := Obj(map["test" := Str(str)]);
    ObjectChildValue(ch, env, str, fuel);
    ReduceObjects([inner]);
    assert UnionAll([inner]) == inner.fields by {
      assert [inner][..0] == [];
    }
    var o := Obj(map["child" := inner]);
    assert TranslateExpr(ch, env, str, Object("child", Reduce(ObjectChild())), 0, ToEnd, fuel) == Ok(o, |str|);
    SingleChildSeq(ch, env, str, Object("child", Reduce(ObjectChild())), 0, ToEnd, fuel);
    assert ApplyValue([], Object("child", Reduce(ObjectChild())), o) == [o];
  }
}

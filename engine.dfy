/**
 * translate/translateExpr of lib/main.ts:424-660: the recursive matcher, the per-child
 * candidate search of a seq (470-575) and the value assembly (481-544, 595-621).
 * Exceptions become `Fail` outcomes; fuel bounds the resolution of `lazy` nodes. Every
 * member takes the `Choice` a seq child commits through: `AsWritten` is lib/main.ts as it
 * stands, `Intended` the corrected choice of Selection.PickMin.
 */
module Engine {
  import opened Wrappers
  import opened Values
  import opened Grammar
  import opened Primitives
  import opened Selection

  /** A RegExp step (lib/main.ts:450-462): the match must start at offset 0 of the rest of
      the input; it yields the matched text and consumes it. A match reported longer than
      the rest of the input is treated as no match. */
  function RegexStep(env: Env, id: nat, str: string, index: nat): (r: Outcome)
    requires index <= |str|
    ensures r.Ok? ==> index <= r.index <= |str| && r.value == Str(str[index..r.index])
    ensures r.Ok? <==> (
      var m := env.exec(id, str[index..]);
      m.Some? && m.value.at == 0 && m.value.length <= |str| - index)
    ensures r.Fail? ==> r.error == RegexMismatch(index)
  {
    match env.exec(id, str[index..])
    case Some(m) =>
      if m.at == 0 && m.length <= |str| - index then Ok(Str(str[index..index + m.length]), index + m.length)
      else Fail(RegexMismatch(index))
    case None => Fail(RegexMismatch(index))
  }

  // ---------------------------------------------------------------------------
  // Value assembly (lib/main.ts:481-544)
  // ---------------------------------------------------------------------------

  /** How a seq child's value enters the seq's array, decided by the child's kind: a string
      adds nothing; `flat` splices an array or pushes anything else; a RegExp pushes its
      match; every other child is merged into the first object-like slot or pushed. */
  function ApplyValue(res: seq<Value>, child: Expr, v: Value): (r: seq<Value>)
    ensures child.Lit? ==> r == res
    ensures child.Flat? && v.Arr? ==> r == res + v.items
    ensures (child.Flat? && !v.Arr?) || child.Pattern? ==> r == res + [v]
    ensures !child.Lit? && !child.Flat? && !child.Pattern? ==> r == MergeInto(res, v)
    ensures |r| >= |res|
  {
    if child.Lit? then res
    else if child.Flat? then (if v.Arr? then res + v.items else res + [v])
    else if child.Pattern? then res + [v]
    else MergeInto(res, v)
  }

  // ---------------------------------------------------------------------------
  // Translation
  // ---------------------------------------------------------------------------

  /** translateExpr(e, index, {next}): every success ends between `index` and the end of
      the input. */
  function TranslateExpr(ch: Choice, env: Env, str: string, e: Expr, index: nat, next: Head, fuel: nat): (r: Outcome)
    requires index <= |str|
    ensures r.Ok? ==> index <= r.index <= |str|
    decreases fuel, e, 1
  {
    match e
    case Lit(s) => LiteralStep(str, index, s)
    case Pattern(id) => RegexStep(env, id, str, index)
    case Func(id) =>
      (match env.call(id, str[index..])
       case Some(v) => Ok(v, |str|)
       case None => Fail(CallbackThrew))
    case Empty(v) => Ok(v, index)
    case End(v) => if |str| == index then Ok(v, index) else Fail(NotAtEnd(index))
    case Any(child) =>
      var stop := AnyStop(str, index, next);
      var slice := str[index..stop];
      // `childExpr ? … : value`: a missing child and the falsy child "" both keep the slice
      if child.None? || child == Some(Lit("")) then Ok(Str(slice), stop)
      else
        var inner := Translate(ch, env, slice, child.value, fuel);
        if inner.Ok? then Ok(inner.value, stop) else inner
    case Exists(t) => ExistsStep(str, index, t)
    case Integer => IntegerStep(str, index)
    case Seq(_) => SeqFrom(ch, env, str, e, 0, index, [], next, fuel)
    case Or(a, b) =>
      var first := TranslateExpr(ch, env, str, a, index, next, fuel);
      if Throws(first) then TranslateExpr(ch, env, str, b, index, next, fuel) else first
    case Lazy(k) =>
      if fuel == 0 then Fail(OutOfFuel) else TranslateExpr(ch, env, str, env.rules(k), index, next, fuel - 1)
    case Flat(x) => TranslateExpr(ch, env, str, x, index, next, fuel)
    case Reduce(x) =>
      var inner := TranslateExpr(ch, env, str, x, index, next, fuel);
      if inner.Ok? then Ok(ReduceValue(inner.value), inner.index) else inner
    case Object(key, x) =>
      var inner := TranslateExpr(ch, env, str, x, index, next, fuel);
      if inner.Ok? then Ok(Obj(map[key := inner.value]), inner.index) else inner
  }

  /** One attempt of a seq child per candidate next head (lib/main.ts:481-551). */
  function Candidates(ch: Choice, env: Env, str: string, child: Expr, index: nat, nexts: seq<Head>, fuel: nat): (cands: seq<Outcome>)
    requires index <= |str|
    ensures |cands| == |nexts|
    ensures forall j :: 0 <= j < |nexts| ==> cands[j] == TranslateExpr(ch, env, str, child, index, nexts[j], fuel)
    ensures forall j :: 0 <= j < |nexts| && cands[j].Ok? ==> index <= cands[j].index <= |str|
    decreases fuel, child, 2
  {
    seq(|nexts|, j requires 0 <= j < |nexts| => TranslateExpr(ch, env, str, child, index, nexts[j], fuel))
  }

  /** The reduce over a seq's children from child `i` on, with the shared `index` and the
      accumulated array `res`: a seq always yields an array, and ends between `index` and
      the end of the input. */
  function SeqFrom(ch: Choice, env: Env, str: string, e: Expr, i: nat, index: nat, res: seq<Value>, next: Head, fuel: nat): (r: Outcome)
    requires e.Seq? && i <= |e.exprs| && index <= |str|
    ensures r.Ok? ==> index <= r.index <= |str| && r.value.Arr?
    decreases fuel, e, 0, |e.exprs| - i
  {
    if i == |e.exprs| then Ok(Arr(res), index)
    else
      var child := e.exprs[i];
      match Nexts(env, e.exprs, i + 1, next, fuel)
      case None => Fail(OutOfFuel)
      case Some(nexts) =>
        var cands := Candidates(ch, env, str, child, index, nexts, fuel);
        if |cands| == 0 then Fail(NoResults)
        else
          var chosen := Commit(ch, cands);
          if chosen.Ok? then SeqFrom(ch, env, str, e, i + 1, chosen.index, ApplyValue(res, child, chosen.value), next, fuel)
          else chosen
  }

  /** translate(str, e): translateExpr from index 0 with no next head, and a success only
      when it consumed the whole input. */
  function Translate(ch: Choice, env: Env, str: string, e: Expr, fuel: nat): (r: Outcome)
    ensures r.Ok? ==> r.index == |str|
    ensures r.Ok? <==> (
      var whole := TranslateExpr(ch, env, str, e, 0, ToEnd, fuel);
      whole.Ok? && whole.index == |str|)
    ensures r.Ok? ==> r == TranslateExpr(ch, env, str, e, 0, ToEnd, fuel)
    decreases fuel, e, 2
  {
    var whole := TranslateExpr(ch, env, str, e, 0, ToEnd, fuel);
    if whole.Ok? && whole.index != |str| then Fail(LengthMismatch(|str|, whole.index)) else whole
  }

  /** The seq case of translateExpr as the loop it is in the source (lib/main.ts:468-583):
      one shared `index` reassigned after each child, and an accumulator `res` that
      applyValue pushes onto, concatenates onto, or overwrites one slot of in place. */
  method TranslateSeq(ch: Choice, env: Env, str: string, e: Expr, start: nat, next: Head, fuel: nat) returns (r: Outcome)
    requires e.Seq? && start <= |str|
    ensures r == TranslateExpr(ch, env, str, e, start, next, fuel)
    ensures r.Ok? ==> start <= r.index <= |str| && r.value.Arr?
  {
    var index := start;
    var res: seq<Value> := [];
    for i := 0 to |e.exprs|
      invariant start <= index <= |str|
      invariant SeqFrom(ch, env, str, e, i, index, res, next, fuel) == SeqFrom(ch, env, str, e, 0, start, [], next, fuel)
    {
      var child := e.exprs[i];
      var nexts := Nexts(env, e.exprs, i + 1, next, fuel);
      if nexts.None? {
        return Fail(OutOfFuel);
      }
      var results := Candidates(ch, env, str, child, index, nexts.value, fuel);
      var chosen := Commit(ch, results);
      if chosen.Fail? {
        return chosen;
      }
      index := chosen.index;
      var value := chosen.value;
      if child.Lit? {
        // a string child contributes no value
      } else if child.Flat? {
        if value.Arr? {
          res := res + value.items;
        } else {
          res := res + [value];
        }
      } else if child.Pattern? {
        res := res + [value];
      } else {
        var found := FirstObjectSlot(res);
        if found.Some? {
          var k := found.value;
          res := res[k := Obj(Spread(res[k]) + Spread(value))];
        } else {
          res := res + [value];
        }
      }
    }
    return Ok(Arr(res), index);
  }
}

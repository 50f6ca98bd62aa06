/**
 * The expression algebra of lib/main.ts: the closed set of grammar nodes, the `seq`
 * tagged template's normalisation, the derived `repeat` and `split`, and the
 * per-node lookahead (`resolveHeads`/`getHeads`, `getNexts`) and `isOptionalExpr`.
 */
module Grammar {
  import opened Wrappers
  import opened Values

  /** A grammar node. A `RegExp` and a callback are referred to by an id that the
      environment interprets; `lazy` refers to a rule of the environment's rule table. */
  datatype Expr =
    | Lit(text: string)              // a string literal
    | Pattern(id: nat)               // a RegExp
    | Func(id: nat)                  // a callback `(str) => unknown`
    | Empty(value: Value)            // empty(value)
    | End(value: Value)              // end(value)
    | Any(child: Option<Expr>)       // any(childExpr?)
    | Exists(target: string)         // exists(target)
    | Integer                        // integer()
    | Seq(exprs: seq<Expr>)          // the node seq`...` returns
    | Or(e1: Expr, e2: Expr)         // or(e1, e2)
    | Lazy(rule: nat)                // lazy(() => rule)
    | Flat(expr: Expr)               // flat(expr)
    | Reduce(expr: Expr)             // reduce(expr)
    | Object(key: string, expr: Expr) // { key: expr, ... }: only the first key is used

  /** What `RegExp.prototype.exec` reports: the offset of the first match and its length. */
  datatype RegexMatch = RegexMatch(at: nat, length: nat)

  /** Everything a grammar refers to but does not contain: the node each `lazy` resolves to
      (re-resolved on every visit), the RegExp engine, and the user callbacks (None: it threw). */
  datatype Env = Env(
    rules: nat -> Expr,
    exec: (nat, string) -> Option<RegexMatch>,
    call: (nat, string) -> Option<Value>)

  /** A lookahead head: a string, `undefined` (read to the end) or the `emptyHead` symbol. */
  datatype Head = Text(s: string) | ToEnd | EmptyHead

  // ---------------------------------------------------------------------------
  // The seq tagged template
  // ---------------------------------------------------------------------------

  /** `[strings[0], exprs[0], strings[1], ..., strings[n]]`, the template's parts in order. */
  function Interleave(strings: seq<string>, exprs: seq<Expr>): (r: seq<Expr>)
    requires |strings| == |exprs| + 1
    ensures |r| == 2 * |exprs| + 1
    ensures forall i :: 0 <= i < |strings| ==> r[2 * i] == Lit(strings[i])
    ensures forall i :: 0 <= i < |exprs| ==> r[2 * i + 1] == exprs[i]
    decreases |exprs|
  {
    if exprs == [] then [Lit(strings[0])]
    else
      var n := |exprs| - 1;
      Interleave(strings[..n + 1], exprs[..n]) + [exprs[n], Lit(strings[n + 1])]
  }

  predicate NoEmptyLiteral(xs: seq<Expr>) {
    forall i :: 0 <= i < |xs| ==> xs[i] != Lit("")
  }

  predicate NoAdjacentLiterals(xs: seq<Expr>) {
    forall i :: 0 < i < |xs| ==> !(xs[i - 1].Lit? && xs[i].Lit?)
  }

  predicate Normalised(xs: seq<Expr>) {
    NoEmptyLiteral(xs) && NoAdjacentLiterals(xs)
  }

  /** The template parts seen as one stream: every literal character, and every other node. */
  datatype Atom = Ch(c: char) | Node(e: Expr)

  function CharAtoms(s: string): seq<Atom>
    decreases |s|
  {
    if s == "" then [] else [Ch(s[0])] + CharAtoms(s[1..])
  }

  function AtomsOf(x: Expr): seq<Atom> {
    if x.Lit? then CharAtoms(x.text) else [Node(x)]
  }

  function Atoms(xs: seq<Expr>): seq<Atom>
    decreases |xs|
  {
    if xs == [] then [] else Atoms(xs[..|xs| - 1]) + AtomsOf(xs[|xs| - 1])
  }

  lemma AtomsSnoc(xs: seq<Expr>, x: Expr)
    ensures Atoms(xs + [x]) == Atoms(xs) + AtomsOf(x)
  {
    assert (xs + [x])[..|xs|] == xs;
  }

  /** Fusing two strings concatenates their characters. */
  lemma {:induction false} CharAtomsConcat(a: string, b: string)
    ensures CharAtoms(a + b) == CharAtoms(a) + CharAtoms(b)
    decreases |a|
  {
    if a != "" {
      assert (a + b)[0] == a[0];
      assert (a + b)[1..] == a[1..] + b;
      CharAtomsConcat(a[1..], b);
    } else {
      assert a + b == b;
    }
  }

  lemma FusedLastAtoms(front: seq<Expr>, a: string, b: string)
    ensures Atoms(front + [Lit(a + b)]) == Atoms(front + [Lit(a)]) + AtomsOf(Lit(b))
  {
    AtomsSnoc(front, Lit(a + b));
    AtomsSnoc(front, Lit(a));
    CharAtomsConcat(a, b);
    AppendAssoc(Atoms(front), CharAtoms(a), CharAtoms(b));
  }

  lemma AppendAssoc(f: seq<Atom>, x: seq<Atom>, y: seq<Atom>)
    ensures f + (x + y) == (f + x) + y
  {
  }

  /** One step of the normalising reduce (lib/main.ts:106-117): drop `""`, fuse a string
      onto a trailing string, otherwise push; a normalised list stays normalised. */
  function Fuse(res: seq<Expr>, item: Expr): (r: seq<Expr>)
    ensures Normalised(res) ==> Normalised(r)
  {
    if item == Lit("") then res
    else if |res| > 0 && res[|res| - 1].Lit? && item.Lit? then
      var n := |res| - 1;
      var r := res[..n] + [Lit(res[n].text + item.text)];
      assert forall i :: 0 <= i < n ==> r[i] == res[i];
      r
    else res + [item]
  }

  lemma FuseAtoms(res: seq<Expr>, item: Expr)
    ensures Atoms(Fuse(res, item)) == Atoms(res) + AtomsOf(item)
  {
    if item == Lit("") {
    } else if |res| > 0 && res[|res| - 1].Lit? && item.Lit? {
      var n := |res| - 1;
      var front, a := res[..n], res[n].text;
      assert res == front + [Lit(a)];
      assert Fuse(res, item) == front + [Lit(a + item.text)];
      FusedLastAtoms(front, a, item.text);
    } else {
      AtomsSnoc(res, item);
    }
  }

  /** The normalised part list of lib/main.ts:100-119: no `""` entries and no two adjacent
      strings (NormaliseKeepsAtoms: the same characters and nodes in the same order). */
  function Normalise(items: seq<Expr>): (r: seq<Expr>)
    ensures Normalised(r)
    decreases |items|
  {
    if items == [] then []
    else
      var n := |items| - 1;
      Fuse(Normalise(items[..n]), items[n])
  }

  /** Normalising keeps every literal character and every node, in order. */
  lemma {:induction false} NormaliseKeepsAtoms(items: seq<Expr>)
    ensures Atoms(Normalise(items)) == Atoms(items)
    decreases |items|
  {
    if items != [] {
      var n := |items| - 1;
      var front := items[..n];
      var prev := Normalise(front);
      assert Normalise(items) == Fuse(prev, items[n]);
      assert Atoms(items) == Atoms(front) + AtomsOf(items[n]);
      NormaliseKeepsAtoms(front);
      FuseAtoms(prev, items[n]);
    }
  }

  lemma {:induction false} NormaliseFixesNormalised(xs: seq<Expr>)
    requires Normalised(xs)
    ensures Normalise(xs) == xs
    decreases |xs|
  {
    if xs != [] {
      var n := |xs| - 1;
      assert Normalised(xs[..n]);
      NormaliseFixesNormalised(xs[..n]);
      assert xs[..n] + [xs[n]] == xs;
    }
  }

  /** Normalising twice is normalising once. */
  lemma NormaliseIdempotent(items: seq<Expr>)
    ensures Normalise(Normalise(items)) == Normalise(items)
  {
    NormaliseFixesNormalised(Normalise(items));
  }

  /** The reduce of lib/main.ts:105-119 as the loop it is: push onto `res`, or overwrite
      its last slot in place when two strings meet. */
  method NormaliseParts(items: seq<Expr>) returns (res: seq<Expr>)
    ensures res == Normalise(items)
    ensures Normalised(res) && Atoms(res) == Atoms(items)
  {
    res := [];
    for i := 0 to |items|
      invariant res == Normalise(items[..i])
    {
      var item := items[i];
      assert items[..i + 1] == items[..i] + [item];
      NormaliseSnoc(items[..i], item);
      if item == Lit("") {
        continue;
      }
      if |res| > 0 {
        var last := res[|res| - 1];
        if last.Lit? && item.Lit? {
          ghost var fused := res[..|res| - 1] + [Lit(last.text + item.text)];
          res := res[|res| - 1 := Lit(last.text + item.text)];
          assert res == fused;
          continue;
        }
      }
      res := res + [item];
    }
    assert items[..|items|] == items;
    NormaliseKeepsAtoms(items);
  }

  /** The node `seq` returns for a tagged template with these strings and interpolations. */
  function SeqOf(strings: seq<string>, exprs: seq<Expr>): (r: Expr)
    requires |strings| == |exprs| + 1
    ensures r.Seq? && Normalised(r.exprs)
    ensures Atoms(r.exprs) == Atoms(Interleave(strings, exprs))
  {
    NormaliseKeepsAtoms(Interleave(strings, exprs));
    Seq(Normalise(Interleave(strings, exprs)))
  }

  /** A template whose strings are all empty and whose interpolations are no strings keeps
      its interpolations exactly. */
  lemma {:induction false} SeqOfBareInterpolations(strings: seq<string>, exprs: seq<Expr>)
    requires |strings| == |exprs| + 1
    requires forall i :: 0 <= i < |strings| ==> strings[i] == ""
    requires forall i :: 0 <= i < |exprs| ==> !exprs[i].Lit?
    ensures SeqOf(strings, exprs) == Seq(exprs)
    decreases |exprs|
  {
    if exprs == [] {
      assert Interleave(strings, exprs) == [Lit("")];
      assert Normalise([Lit("")]) == Fuse(Normalise([]), Lit(""));
    } else {
      var n := |exprs| - 1;
      SeqOfBareInterpolations(strings[..n + 1], exprs[..n]);
      var front := Interleave(strings[..n + 1], exprs[..n]);
      var mid := front + [exprs[n]];
      assert Interleave(strings, exprs) == mid + [Lit("")];
      NormaliseAppend(mid, Lit(""));
      NormaliseAppend(front, exprs[n]);
      assert exprs[..n] + [exprs[n]] == exprs;
    }
  }

  /** repeat(expr) of lib/main.ts:234-243; `k` is the rule the inner `lazy` resolves to,
      which is meant to hold `Repeat(expr, k)` itself. */
  function Repeat(expr: Expr, k: nat): (r: Expr)
    ensures r == Flat(Seq([Flat(expr), Flat(Or(Lazy(k), Empty(Arr([]))))]))
  {
    SeqOfBareInterpolations(["", "", ""], [Flat(expr), Flat(Or(Lazy(k), Empty(Arr([]))))]);
    Flat(SeqOf(["", "", ""], [Flat(expr), Flat(Or(Lazy(k), Empty(Arr([]))))]))
  }

  /** split(delimiter, expr?) of lib/main.ts:245-253; `k` is the rule of its inner `repeat`. */
  function Split(delimiter: string, expr: Option<Expr>, k: nat): (r: Expr)
    ensures var unit := if delimiter == "" then Seq([Any(expr)]) else Seq([Lit(delimiter), Any(expr)]);
      r == Flat(Any(Some(Seq([Any(expr), Flat(Or(Repeat(unit, k), Empty(Arr([]))))]))))
  {
    var unit := SeqOf(["", "", ""], [Lit(delimiter), Any(expr)]);
    SplitUnitShape(delimiter, expr);
    SeqOfBareInterpolations(["", "", ""], [Any(expr), Flat(Or(Repeat(unit, k), Empty(Arr([]))))]);
    Flat(Any(Some(SeqOf(["", "", ""], [Any(expr), Flat(Or(Repeat(unit, k), Empty(Arr([]))))]))))
  }

  /** The repeated unit of `split`: the delimiter then a wildcard, where an empty delimiter
      is dropped by the template's normalisation. */
  lemma SplitUnitShape(delimiter: string, expr: Option<Expr>)
    ensures delimiter != "" ==> SeqOf(["", "", ""], [Lit(delimiter), Any(expr)]) == Seq([Lit(delimiter), Any(expr)])
    ensures delimiter == "" ==> SeqOf(["", "", ""], [Lit(delimiter), Any(expr)]) == Seq([Any(expr)])
  {
    var strings, exprs := ["", "", ""], [Lit(delimiter), Any(expr)];
    var parts := Interleave(strings, exprs);
    assert strings[0] == "" && strings[1] == "" && strings[2] == "";
    assert exprs[0] == Lit(delimiter) && exprs[1] == Any(expr);
    var p1 := [Lit("")];
    var p2 := p1 + [Lit(delimiter)];
    var p3 := p2 + [Lit("")];
    var p4 := p3 + [Any(expr)];
    assert parts == p4 + [Lit("")];
    NormaliseSnoc([], Lit(""));
    NormaliseSnoc(p1, Lit(delimiter));
    NormaliseSnoc(p2, Lit(""));
    NormaliseSnoc(p3, Any(expr));
    NormaliseSnoc(p4, Lit(""));
    var n2 := Normalise(p2);
    assert n2 == if delimiter == "" then [] else [Lit(delimiter)];
    assert Normalise(p4) == n2 + [Any(expr)];
  }

  lemma NormaliseSnoc(xs: seq<Expr>, x: Expr)
    ensures Normalise(xs + [x]) == Fuse(Normalise(xs), x)
  {
    assert (xs + [x])[..|xs|] == xs;
  }

  /** Appending `""` changes nothing; appending a node, or a non-empty string after a node,
      appends it. */
  lemma NormaliseAppend(xs: seq<Expr>, x: Expr)
    ensures x == Lit("") ==> Normalise(xs + [x]) == Normalise(xs)
    ensures !x.Lit? ==> Normalise(xs + [x]) == Normalise(xs) + [x]
    ensures x.Lit? && x != Lit("") && (Normalise(xs) == [] || !Normalise(xs)[|Normalise(xs)| - 1].Lit?) ==>
      Normalise(xs + [x]) == Normalise(xs) + [x]
  {
    NormaliseSnoc(xs, x);
  }

  // ---------------------------------------------------------------------------
  // Lookahead
  // ---------------------------------------------------------------------------

  /** resolveHeads(e) of lib/main.ts:60-69 with each node's getHeads: a non-empty list of
      candidate heads; None when resolving `lazy` nodes ran out of fuel. */
  function Heads(env: Env, e: Expr, fuel: nat): (r: Option<seq<Head>>)
    ensures r.Some? ==> |r.value| > 0
    decreases fuel, e
  {
    match e
    case Lit(s) => Some([Text(s)])
    case Pattern(_) => Some([ToEnd])
    case Func(_) => Some([ToEnd])
    case Empty(_) => Some([EmptyHead])
    case End(_) => Some([ToEnd])
    case Any(_) => Some([ToEnd])
    case Exists(t) => Some([Text(t)])
    case Integer => Some([ToEnd])
    case Seq(xs) =>
      if |xs| == 0 then Some([ToEnd])
      else if xs[0].Lit? then
        var second := if |xs| >= 2 then Heads(env, xs[1], fuel) else Some([ToEnd]);
        if second.None? then None else Some([Text(xs[0].text)] + second.value)
      else Heads(env, xs[0], fuel)
    case Or(a, b) =>
      var ha := Heads(env, a, fuel);
      var hb := Heads(env, b, fuel);
      if ha.None? || hb.None? then None else Some(ha.value + hb.value)
    case Lazy(k) => if fuel == 0 then None else Heads(env, env.rules(k), fuel - 1)
    case Flat(x) => Heads(env, x, fuel)
    case Reduce(x) => Heads(env, x, fuel)
    case Object(_, x) => Heads(env, x, fuel)
  }

  /** getNexts(j) of lib/main.ts:470-479 for the children `xs` of a seq whose own context
      head is `next`: past the last child it is `[next]`; otherwise child j's heads with each
      `emptyHead` replaced by getNexts(j + 1). Never empty, and free of `emptyHead` whenever
      `next` is. */
  function Nexts(env: Env, xs: seq<Expr>, j: nat, next: Head, fuel: nat): (r: Option<seq<Head>>)
    ensures r.Some? ==> |r.value| > 0
    ensures r.Some? && next != EmptyHead ==> EmptyHead !in r.value
    decreases |xs| - j, 1
  {
    if j >= |xs| then Some([next])
    else
      match Heads(env, xs[j], fuel)
      case None => None
      case Some(hs) => ExpandEmpty(env, xs, j, hs, next, fuel)
  }

  /** The flatMap of lib/main.ts:475-477. */
  function ExpandEmpty(env: Env, xs: seq<Expr>, j: nat, hs: seq<Head>, next: Head, fuel: nat): (r: Option<seq<Head>>)
    requires j < |xs|
    ensures r.Some? ==> |r.value| >= |hs|
    ensures r.Some? && next != EmptyHead ==> EmptyHead !in r.value
    decreases |xs| - j, 0, |hs|
  {
    if hs == [] then Some([])
    else
      var first := if hs[0] == EmptyHead then Nexts(env, xs, j + 1, next, fuel) else Some([hs[0]]);
      var rest := ExpandEmpty(env, xs, j, hs[1..], next, fuel);
      if first.None? || rest.None? then None else Some(first.value + rest.value)
  }

  /** isOptionalExpr of lib/main.ts:130-136, 157-158, 179-180, 201-204, 222-225: only seq,
      flat, reduce, lazy and or can say yes; `or` does when its second branch is `empty`. */
  function IsOptional(env: Env, e: Expr, fuel: nat): (r: Option<bool>)
    ensures r == Some(true) ==> e.Seq? || e.Flat? || e.Reduce? || e.Lazy? || e.Or?
    ensures e.Or? && e.e2.Empty? ==> r == Some(true)
    ensures r.None? ==> fuel == 0 || !(e.Lit? || e.Pattern? || e.Func? || e.Empty? || e.End? || e.Any? || e.Exists? || e.Integer? || e.Object?)
    ensures !(e.Seq? || e.Flat? || e.Reduce? || e.Lazy? || e.Or?) ==> r == Some(false)
    ensures e.Seq? && |e.exprs| != 1 ==> r == Some(false)
    decreases fuel, e
  {
    match e
    case Seq(xs) => if |xs| == 1 then IsOptional(env, xs[0], fuel) else Some(false)
    case Flat(x) => IsOptional(env, x, fuel)
    case Reduce(x) => IsOptional(env, x, fuel)
    case Lazy(k) => if fuel == 0 then None else IsOptional(env, env.rules(k), fuel - 1)
    case Or(a, b) =>
      if b.Empty? then Some(true)
      else
        var oa := IsOptional(env, a, fuel);
        if oa == Some(false) then IsOptional(env, b, fuel) else oa
    case _ => Some(false)
  }

  /** More fuel never changes an answer `isOptionalExpr` has given: fuel only decides
      whether a `lazy` gets resolved at all. */
  lemma {:induction false} IsOptionalMoreFuel(env: Env, e: Expr, fuel: nat, more: nat)
    requires fuel <= more && IsOptional(env, e, fuel).Some?
    ensures IsOptional(env, e, more) == IsOptional(env, e, fuel)
    decreases fuel, e
  {
    match e
    case Seq(xs) =>
      if |xs| == 1 {
        IsOptionalMoreFuel(env, xs[0], fuel, more);
      }
    case Flat(x) => IsOptionalMoreFuel(env, x, fuel, more);
    case Reduce(x) => IsOptionalMoreFuel(env, x, fuel, more);
    case Lazy(k) => IsOptionalMoreFuel(env, env.rules(k), fuel - 1, more - 1);
    case Or(a, b) =>
      if !b.Empty? {
        IsOptionalMoreFuel(env, a, fuel, more);
        if IsOptional(env, a, fuel) == Some(false) {
          IsOptionalMoreFuel(env, b, fuel, more);
        }
      }
    case _ =>
  }
}

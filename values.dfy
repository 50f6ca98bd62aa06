/**
 * Runtime values produced by a translation, and the "first object slot" merge that
 * both a sequence's value assembly and `reduce` use (lib/main.ts:530-541, 603-618).
 */
module Values {
  import opened Wrappers

  /** The JavaScript values a grammar can yield: `undefined`, `null`, booleans, numbers,
      strings, arrays and plain objects (an object is a map from keys to values). */
  datatype Value =
    | Undef
    | Null
    | Bool(b: bool)
    | Num(n: int)
    | Str(s: string)
    | Arr(items: seq<Value>)
    | Obj(fields: map<string, Value>)

  /** `typeof x === "object" && x !== null`: true for arrays and plain objects. */
  predicate IsObjectLike(v: Value) {
    v.Arr? || v.Obj?
  }

  function DigitChar(d: nat): (c: char)
    requires d < 10
    ensures '0' <= c <= '9'
  {
    ('0' as int + d) as char
  }

  /** The decimal spelling of an array index, as JavaScript uses for property keys. */
  function NatToString(n: nat): (s: string)
    ensures |s| >= 1
    ensures n < 10 <==> |s| == 1
    decreases n
  {
    if n < 10 then [DigitChar(n)] else NatToString(n / 10) + [DigitChar(n % 10)]
  }

  lemma {:induction false} NatToStringInjective(a: nat, b: nat)
    ensures NatToString(a) == NatToString(b) ==> a == b
    decreases a
  {
    if NatToString(a) == NatToString(b) && a >= 10 && b >= 10 {
      var sa, sb := NatToString(a), NatToString(b);
      assert sa[..|sa| - 1] == NatToString(a / 10);
      assert sb[..|sb| - 1] == NatToString(b / 10);
      NatToStringInjective(a / 10, b / 10);
      assert sa[|sa| - 1] == sb[|sb| - 1];
    }
  }

  /** The keys of an index-keyed object with n entries: the decimal spellings of 0 .. n - 1. */
  ghost function IndexNames(n: nat): set<string> {
    set i | 0 <= i < n :: NatToString(i)
  }

  /** Adding entry n to an index-keyed object of n entries gives one of n + 1 entries. */
  lemma IndexKeysStep(xs: seq<Value>, prev: map<string, Value>)
    requires |xs| > 0
    requires forall i :: 0 <= i < |xs| - 1 ==> NatToString(i) in prev && prev[NatToString(i)] == xs[i]
    requires prev.Keys == IndexNames(|xs| - 1)
    ensures var m := prev[NatToString(|xs| - 1) := xs[|xs| - 1]];
      && (forall i :: 0 <= i < |xs| ==> NatToString(i) in m && m[NatToString(i)] == xs[i])
      && m.Keys == IndexNames(|xs|)
  {
    var n := |xs| - 1;
    var m := prev[NatToString(n) := xs[n]];
    forall i | 0 <= i < n
      ensures NatToString(i) in m && m[NatToString(i)] == xs[i]
    {
      NatToStringInjective(i, n);
    }
    IndexNamesGrow(prev, n, xs[n]);
  }

  lemma IndexNamesGrow(prev: map<string, Value>, n: nat, v: Value)
    requires prev.Keys == IndexNames(n)
    ensures prev[NatToString(n) := v].Keys == IndexNames(n + 1)
  {
    IndexNamesStep(n);
    assert prev[NatToString(n) := v].Keys == prev.Keys + {NatToString(n)};
  }

  lemma IndexNamesStep(n: nat)
    ensures IndexNames(n + 1) == IndexNames(n) + {NatToString(n)}
  {
  }

  /** The index-keyed object `{...xs}` builds from an array. */
  function IndexKeys(xs: seq<Value>): (m: map<string, Value>)
    ensures forall i :: 0 <= i < |xs| ==> NatToString(i) in m && m[NatToString(i)] == xs[i]
    ensures m.Keys == IndexNames(|xs|)
    decreases |xs|
  {
    if xs == [] then map[]
    else
      var prev := IndexKeys(xs[..|xs| - 1]);
      IndexKeysStep(xs, prev);
      prev[NatToString(|xs| - 1) := xs[|xs| - 1]]
  }

  /** The characters of a string as one-character strings, which is what spreading a string yields. */
  function Chars(s: string): (r: seq<Value>)
    ensures |r| == |s| && forall i :: 0 <= i < |s| ==> r[i] == Str([s[i]])
  {
    seq(|s|, i requires 0 <= i < |s| => Str([s[i]]))
  }

  /** The own enumerable properties `{...v}` copies: an object's fields, an array's or a
      string's elements under their decimal indices, and nothing for any other value. */
  function Spread(v: Value): (m: map<string, Value>)
    ensures v.Obj? ==> m == v.fields
    ensures v.Arr? ==> forall i :: 0 <= i < |v.items| ==> NatToString(i) in m && m[NatToString(i)] == v.items[i]
    ensures v.Arr? ==> m.Keys == IndexNames(|v.items|)
    ensures v.Str? ==> forall i :: 0 <= i < |v.s| ==> NatToString(i) in m && m[NatToString(i)] == Str([v.s[i]])
    ensures v.Str? ==> m.Keys == IndexNames(|v.s|)
    ensures !v.Obj? && !v.Arr? && !v.Str? ==> m == map[]
  {
    match v
    case Obj(fields) => fields
    case Arr(items) => IndexKeys(items)
    case Str(s) => IndexKeys(Chars(s))
    case _ => map[]
  }

  /** `res.findIndex(x => typeof x === "object" && x !== null)`, with -1 as None. */
  function FirstObjectSlot(res: seq<Value>): (k: Option<nat>)
    ensures k.Some? ==> k.value < |res| && IsObjectLike(res[k.value])
    ensures k.Some? ==> forall j :: 0 <= j < k.value ==> !IsObjectLike(res[j])
    ensures k.None? <==> forall j :: 0 <= j < |res| ==> !IsObjectLike(res[j])
    decreases |res|
  {
    if res == [] then None
    else if IsObjectLike(res[0]) then Some(0)
    else match FirstObjectSlot(res[1..])
      case None => None
      case Some(k) => Some(k + 1)
  }

  /** One step of the first-object merge: the value is merged, right-biased, into the first
      object-like slot (which becomes a plain object), or appended when there is none. */
  function MergeInto(res: seq<Value>, v: Value): (r: seq<Value>)
    ensures FirstObjectSlot(res).None? ==> r == res + [v]
    ensures FirstObjectSlot(res).Some? ==>
      var k := FirstObjectSlot(res).value;
      && |r| == |res|
      && r[k] == Obj(Spread(res[k]) + Spread(v))
      && forall j :: 0 <= j < |res| && j != k ==> r[j] == res[j]
  {
    match FirstObjectSlot(res)
    case Some(k) => res[k := Obj(Spread(res[k]) + Spread(v))]
    case None => res + [v]
  }

  /** At most one slot is object-like, and when there is one it is the last. */
  predicate ObjectSlotLast(res: seq<Value>) {
    forall j :: 0 <= j < |res| && IsObjectLike(res[j]) ==> j == |res| - 1
  }

  /** The fold `items.reduce(mergeInto, [])` of lib/main.ts:603-618. */
  function MergeAll(items: seq<Value>): (r: seq<Value>)
    ensures |r| <= |items|
    ensures ObjectSlotLast(r)
    decreases |items|
  {
    if items == [] then []
    else MergeInto(MergeAll(items[..|items| - 1]), items[|items| - 1])
  }

  /** Right-biased union of the fields of a list of objects. */
  function UnionAll(objs: seq<Value>): map<string, Value>
    requires forall i :: 0 <= i < |objs| ==> objs[i].Obj?
    decreases |objs|
  {
    if objs == [] then map[] else UnionAll(objs[..|objs| - 1]) + objs[|objs| - 1].fields
  }

  lemma {:induction false} MergeAllObjects(objs: seq<Value>)
    requires |objs| > 0 && forall i :: 0 <= i < |objs| ==> objs[i].Obj?
    ensures MergeAll(objs) == [Obj(UnionAll(objs))]
    decreases |objs|
  {
    var n := |objs| - 1;
    if n == 0 {
      assert MergeAll(objs) == MergeInto([], objs[0]) == [objs[0]];
      assert UnionAll(objs) == objs[0].fields;
    } else {
      MergeAllObjects(objs[..n]);
      var u := UnionAll(objs[..n]);
      assert MergeAll(objs) == MergeInto([Obj(u)], objs[n]);
      assert Spread(Obj(u)) == u;
    }
  }

  lemma {:induction false} MergeAllScalars(items: seq<Value>)
    requires forall i :: 0 <= i < |items| ==> !IsObjectLike(items[i])
    ensures MergeAll(items) == items
    decreases |items|
  {
    if items != [] {
      var n := |items| - 1;
      MergeAllScalars(items[..n]);
      assert items[..n] + [items[n]] == items;
    }
  }

  /** The value `reduce` yields from its child's value: element 0 of the merge fold for an
      array (`undefined` for an empty one), the value itself otherwise. */
  function ReduceValue(v: Value): (r: Value)
    ensures !v.Arr? ==> r == v
    ensures v == Arr([]) ==> r == Undef
  {
    if v.Arr? then
      var folded := MergeAll(v.items);
      if |folded| > 0 then folded[0] else Undef
    else v
  }

  /** The fold never loses its first slot, and a leading value that is not object-like
      stays where it is. */
  lemma {:induction false} MergeAllKeepsLeadingScalar(items: seq<Value>)
    requires |items| > 0
    ensures |MergeAll(items)| > 0
    ensures !IsObjectLike(items[0]) ==> MergeAll(items)[0] == items[0]
    decreases |items|
  {
    var n := |items| - 1;
    if n > 0 {
      MergeAllKeepsLeadingScalar(items[..n]);
      assert items[..n][0] == items[0];
    }
  }

  /** reduce of a list whose first element is not an object yields that element unchanged,
      whatever objects follow it. */
  lemma ReduceLeadingScalar(items: seq<Value>)
    requires |items| > 0 && !IsObjectLike(items[0])
    ensures ReduceValue(Arr(items)) == items[0]
  {
    MergeAllKeepsLeadingScalar(items);
  }

  /** reduce of a non-empty list of objects yields their right-biased union. */
  lemma ReduceObjects(items: seq<Value>)
    requires |items| > 0 && forall i :: 0 <= i < |items| ==> items[i].Obj?
    ensures ReduceValue(Arr(items)) == Obj(UnionAll(items))
  {
    MergeAllObjects(items);
  }

  /** The fold of lib/main.ts:603-618 as the loop it is: push into a growing list, or
      overwrite the first object-like slot in place. */
  method MergeFold(items: seq<Value>) returns (res: seq<Value>)
    ensures res == MergeAll(items)
    ensures ObjectSlotLast(res)
  {
    res := [];
    var i := 0;
    while i < |items|
      invariant 0 <= i <= |items|
      invariant res == MergeAll(items[..i])
    {
      assert items[..i + 1][..i] == items[..i];
      var item := items[i];
      var found := FirstObjectSlot(res);
      if found.Some? {
        var k := found.value;
        res := res[k := Obj(Spread(res[k]) + Spread(item))];
      } else {
        res := res + [item];
      }
      i := i + 1;
    }
    assert items[..i] == items;
  }
}

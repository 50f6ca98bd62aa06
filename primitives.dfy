/**
 * The outcome of a translation step and the terminal nodes of lib/main.ts: string
 * literals (435-449), `exists` (369-390), `integer` (392-417) and the reading of `any`
 * (326-367). Each loop of the source is a method proved against the function that
 * specifies it.
 */
module Primitives {
  import opened Wrappers
  import opened Values
  import opened Grammar

  /** Why a step threw. OutOfFuel is not an error of the source: it marks a run whose
      `lazy` resolutions exceeded the fuel and is never caught by `or` or by a seq. */
  datatype Error =
    | StringMismatch(at: nat)
    | RegexMismatch(at: nat)
    | CallbackThrew
    | NotAtEnd(at: nat)
    | NotExists(at: nat)
    | LengthMismatch(expected: nat, actual: nat)
    | NoResults
    | OutOfFuel

  /** `{value, index}` on success, or the error that was thrown. */
  datatype Outcome = Ok(value: Value, index: nat) | Fail(error: Error)

  /** A failure that a `try`/`catch` of the source would catch. */
  predicate Throws(r: Outcome) {
    r.Fail? && r.error != OutOfFuel
  }

  /** `str` holds `lit` at `index`. */
  predicate PrefixAt(str: string, index: nat, lit: string) {
    index + |lit| <= |str| && str[index..index + |lit|] == lit
  }

  /** `str[index + j] === lit[j]` in JavaScript, where reading past the end gives `undefined`. */
  predicate CharMatches(str: string, index: nat, lit: string, j: nat)
    requires j < |lit|
  {
    index + j < |str| && str[index + j] == lit[j]
  }

  lemma PrefixAtByChars(str: string, index: nat, lit: string)
    requires index <= |str|
    ensures PrefixAt(str, index, lit) <==> forall j :: 0 <= j < |lit| ==> CharMatches(str, index, lit, j)
  {
    if forall j :: 0 <= j < |lit| ==> CharMatches(str, index, lit, j) {
      if |lit| > 0 {
        assert CharMatches(str, index, lit, |lit| - 1);
      }
      assert forall j :: 0 <= j < |lit| ==> str[index..index + |lit|][j] == lit[j] by {
        forall j | 0 <= j < |lit| ensures str[index..index + |lit|][j] == lit[j] {
          assert CharMatches(str, index, lit, j);
        }
      }
      assert str[index..index + |lit|] == lit;
    }
  }

  /** The offset of the first character of `lit` that does not match `str` at `index`. */
  function FirstMismatch(str: string, index: nat, lit: string, from: nat): (k: nat)
    requires from <= |lit|
    ensures from <= k <= |lit|
    ensures forall j :: from <= j < k ==> CharMatches(str, index, lit, j)
    ensures k < |lit| ==> !CharMatches(str, index, lit, k)
    decreases |lit| - from
  {
    if from == |lit| || !CharMatches(str, index, lit, from) then from
    else FirstMismatch(str, index, lit, from + 1)
  }

  /** A string literal: succeeds iff `str` holds it at `index`, consuming it and yielding
      `undefined`; otherwise throws at the first position that differs (running past the
      end of `str` counts as differing). */
  function LiteralStep(str: string, index: nat, lit: string): (r: Outcome)
    requires index <= |str|
    ensures r.Ok? <==> PrefixAt(str, index, lit)
    ensures r.Ok? ==> r == Ok(Undef, index + |lit|)
    ensures r.Fail? ==> (
      && r.error.StringMismatch?
      && index <= r.error.at < index + |lit|
      && !CharMatches(str, index, lit, r.error.at - index)
      && forall j :: 0 <= j < r.error.at - index ==> CharMatches(str, index, lit, j))
  {
    PrefixAtByChars(str, index, lit);
    var k := FirstMismatch(str, index, lit, 0);
    if k == |lit| then Ok(Undef, index + |lit|) else Fail(StringMismatch(index + k))
  }

  /** The loop of lib/main.ts:436-444. */
  method MatchLiteral(str: string, index: nat, lit: string) returns (r: Outcome)
    requires index <= |str|
    ensures r == LiteralStep(str, index, lit)
  {
    var at := index;
    for i := 0 to |lit|
      invariant at == index + i
      invariant forall j :: 0 <= j < i ==> CharMatches(str, index, lit, j)
    {
      if at >= |str| || str[at] != lit[i] {
        assert !CharMatches(str, index, lit, i);
        return Fail(StringMismatch(at));
      }
      at := at + 1;
    }
    PrefixAtByChars(str, index, lit);
    return Ok(Undef, at);
  }

  /** exists(target): succeeds iff `str` holds `target` at `index`, consuming it and yielding
      `true`; otherwise throws, reporting the start index. */
  function ExistsStep(str: string, index: nat, target: string): (r: Outcome)
    requires index <= |str|
    ensures r.Ok? <==> PrefixAt(str, index, target)
    ensures r.Ok? ==> r == Ok(Bool(true), index + |target|)
    ensures r.Fail? ==> r.error == NotExists(index)
  {
    PrefixAtByChars(str, index, target);
    if FirstMismatch(str, index, target, 0) == |target| then Ok(Bool(true), index + |target|)
    else Fail(NotExists(index))
  }

  /** The loop of lib/main.ts:377-382. */
  method MatchExists(str: string, index: nat, target: string) returns (r: Outcome)
    requires index <= |str|
    ensures r == ExistsStep(str, index, target)
  {
    for i := 0 to |target|
      invariant forall j :: 0 <= j < i ==> CharMatches(str, index, target, j)
    {
      if index + i >= |str| || str[index + i] != target[i] {
        assert !CharMatches(str, index, target, i);
        PrefixAtByChars(str, index, target);
        return Fail(NotExists(index));
      }
    }
    PrefixAtByChars(str, index, target);
    return Ok(Bool(true), index + |target|);
  }

  /** Character codes 48 to 57. */
  predicate IsDigit(c: char) {
    '0' <= c <= '9'
  }

  /** The length of the run of digits starting at `index`. */
  function DigitRun(str: string, index: nat): (n: nat)
    requires index <= |str|
    ensures index + n <= |str|
    ensures forall j :: index <= j < index + n ==> IsDigit(str[j])
    ensures index + n == |str| || !IsDigit(str[index + n])
    decreases |str| - index
  {
    if index < |str| && IsDigit(str[index]) then 1 + DigitRun(str, index + 1) else 0
  }

  /** integer(): never throws; consumes the longest run of digits at `index` (possibly
      none) and yields it as a string. */
  function IntegerStep(str: string, index: nat): (r: Outcome)
    requires index <= |str|
    ensures r.Ok? && index <= r.index <= |str|
    ensures r.value == Str(str[index..r.index])
    ensures forall j :: index <= j < r.index ==> IsDigit(str[j])
    ensures r.index == |str| || !IsDigit(str[r.index])
  {
    var n := DigitRun(str, index);
    Ok(Str(str[index..index + n]), index + n)
  }

  /** The loop of lib/main.ts:400-409. */
  method ReadInteger(str: string, index: nat) returns (r: Outcome)
    requires index <= |str|
    ensures r == IntegerStep(str, index)
  {
    var value := "";
    var at := index;
    while at < |str| && IsDigit(str[at])
      invariant index <= at <= |str|
      invariant DigitRun(str, index) == (at - index) + DigitRun(str, at)
      invariant value == str[index..at]
      decreases |str| - at
    {
      value := value + [str[at]];
      at := at + 1;
    }
    return Ok(Str(value), at);
  }

  /** `str.indexOf(t, from)`, with -1 as None: the first position at or after `from`
      that holds `t`. */
  function IndexOf(str: string, t: string, from: nat): (r: Option<nat>)
    requires from <= |str|
    ensures r.Some? ==> from <= r.value <= |str| && PrefixAt(str, r.value, t)
    ensures r.Some? ==> forall q :: from <= q < r.value ==> !PrefixAt(str, q, t)
    ensures r.None? ==> forall q :: from <= q <= |str| ==> !PrefixAt(str, q, t)
    decreases |str| - from
  {
    if PrefixAt(str, from, t) then Some(from)
    else if from == |str| then None
    else IndexOf(str, t, from + 1)
  }

  /** Where `any` stops reading (lib/main.ts:334-357): at the first occurrence of the
      context head at or after `index` when that head is a non-empty string that occurs;
      at the end of `str` otherwise (head `undefined`, `emptyHead`, `""`, or not found). */
  function AnyStop(str: string, index: nat, next: Head): (stop: nat)
    requires index <= |str|
    ensures index <= stop <= |str|
    ensures next.Text? && next.s != "" && PrefixAt(str, stop, next.s) && stop < |str| ==>
      forall q :: index <= q < stop ==> !PrefixAt(str, q, next.s)
    ensures next.Text? && next.s != "" && stop < |str| ==> PrefixAt(str, stop, next.s)
    ensures (next.Text? && next.s != "" && stop == |str|) ==>
      forall q :: index <= q < |str| ==> !PrefixAt(str, q, next.s)
    ensures !(next.Text? && next.s != "") ==> stop == |str|
  {
    if next.Text? && next.s != "" then
      match IndexOf(str, next.s, index)
      case None => |str|
      case Some(found) => found
    else |str|
  }
}

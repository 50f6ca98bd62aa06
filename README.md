# parser-template in Dafny

A model of the parsing engine in `lib/main.ts` of parser-template, a parser-combinator
library for TypeScript. A grammar is a tree of expressions:

- string literals, RegExps and callbacks;
- the primitives `empty`, `end`, `any`, `exists` and `integer`;
- the combinators `seq` (a tagged template), `or`, `lazy`, `flat` and `reduce`;
- plain objects `{key: expr}`.

`translate(str, expr)` matches a grammar against a whole string. It yields a value, or it
throws. A `seq` looks ahead: for each child it works out the heads the following children
can start with (`getNexts`), tries the child once per head, and commits to one of the
successes through a reduce (lib/main.ts:556-565). That reduce means to keep the success
with the smallest new index, but as written it reads a chosen new index of 0 as
`Infinity`, so a later success displaces it (see "Findings").

The engine therefore takes a `Choice`: `AsWritten` is lib/main.ts as it stands, and every
statement made for an arbitrary `ch` holds for it; `Intended` is the corrected reduce. The
two differ only when a seq child succeeds without consuming anything at index 0.

The project has ten modules, one file each:

| file | module | what it holds |
|---|---|---|
| `wrappers.dfy` | `Wrappers` | `Option` |
| `values.dfy` | `Values` | the JavaScript values a grammar yields: `undefined`, `null`, booleans, numbers, strings, arrays, objects; object spread and the first-object merge fold that `seq` and `reduce` share |
| `grammar.dfy` | `Grammar` | the expression datatype, `seq`'s template normalisation, `repeat` and `split`, heads (`resolveHeads`/`getHeads`), `getNexts`, `isOptionalExpr` |
| `primitives.dfy` | `Primitives` | outcomes and errors; the literal, `exists`, `integer` and `any` reading steps, each with its loop as a method |
| `selection.dfy` | `Selection` | a seq child's choice among its candidates, as written and as intended |
| `engine.dfy` | `Engine` | `translateExpr` and `translate`; value assembly; the seq loop as a method |
| `properties.dfy` | `Properties` | lemmas about the engine |
| `repetition.dfy` | `Repetition` | what `repeat` and `split` yield, and `split(" ")` on "a b c d" (tests/split-expr.test.ts) |
| `findings.dfy` | `Findings` | the candidate-choice discrepancy below |
| `scenarios.dfy` | `Scenarios` | the grammars of `tests/exists-expr.test.ts` and `tests/object-reduce.test.ts` on every input of the shape those tests use |

Modelling choices:

- **Failures.** A throw becomes `Fail(error)`, and `try`/`catch` becomes a test of `Throws`.
- **Fuel.** `lazy` is a reference into a rule table (`env.rules`). Fuel is spent only when a
  `lazy` is resolved, so on a grammar without `lazy` it plays no part. Running out of
  fuel is `Fail(OutOfFuel)`. Nothing catches it, so it never turns into a result the
  source would not produce.
- **RegExps and callbacks** are the oracles `env.exec` and `env.call` (see "Left out").
- **Strings** are sequences of Unicode code points (see "Left out").
- **`reduce`** yields element 0 of the first-object merge fold (lib/main.ts:601-619).

## Model

| member | source | states |
|---|---|---|
| Values.Spread | lib/main.ts:535-538 | `{...v}` copies an object's own fields; an array gives each element under its decimal index and no other key; a string gives each character under its index and no other key; any other value gives nothing |
| Values.IndexKeys | lib/main.ts:535-538 | the object spread builds from an array: element i under the key spelling i, and exactly the keys "0" to "n-1" |
| Values.NatToStringInjective | lib/main.ts:609-612 | distinct array indices spell distinct keys, so spreading an array keeps every element |
| Values.FirstObjectSlot | lib/main.ts:530-532 | `findIndex` of the first slot with `typeof === "object"` and not `null`: that slot is object-like, no earlier one is, and None exactly when no slot is |
| Values.MergeInto | lib/main.ts:530-541 | merges a value right-biased into the first object-like slot and leaves every other slot alone; appends it when there is no such slot |
| Values.MergeAll | lib/main.ts:603-618 | the merge fold is never longer than its input, and leaves at most one object-like slot, which is the last one |
| Values.MergeAllObjects | lib/main.ts:603-618 | folding a non-empty list of objects gives one object: the right-biased union of their fields |
| Values.MergeAllScalars | lib/main.ts:603-618 | folding a list with no object-like element returns the list unchanged |
| Values.MergeAllKeepsLeadingScalar | lib/main.ts:603-618 | the fold of a non-empty list is non-empty; a leading element that is not object-like stays in slot 0 |
| Values.MergeFold | lib/main.ts:603-618 | the fold as a loop that pushes or overwrites a slot, equal to MergeAll, so its object slot is last |
| Values.ReduceValue | lib/main.ts:601-619 | `reduce` passes a non-array value through unchanged, and turns `[]` into `undefined` |
| Values.ReduceLeadingScalar | lib/main.ts:601-619 | `reduce` of an array whose first element is not an object yields that first element |
| Values.ReduceObjects | lib/main.ts:601-619 | `reduce` of a non-empty array of objects yields their right-biased union |
| Grammar.Interleave | lib/main.ts:100-104 | the template's parts are `strings[0], exprs[0], strings[1], …`: strings at even positions, interpolations at odd ones, 2n+1 parts |
| Grammar.Fuse | lib/main.ts:106-117 | one reduce step (drop `""`, join onto a trailing string, or push) keeps a normalised list normalised |
| Grammar.FuseAtoms | lib/main.ts:106-117 | one reduce step keeps the characters and nodes of the list plus the item, in order |
| Grammar.Normalise | lib/main.ts:105-119 | the normalised part list has no `""` and no two adjacent strings |
| Grammar.NormaliseKeepsAtoms | lib/main.ts:105-119 | normalising keeps every literal character and every interpolated node, in order |
| Grammar.NormaliseFixesNormalised | lib/main.ts:105-119 | a list that is already normalised is left unchanged |
| Grammar.NormaliseSnoc | lib/main.ts:105-119 | normalising a list with one more part is one more reduce step on the normalised prefix |
| Grammar.NormaliseIdempotent | lib/main.ts:105-119 | normalising twice is normalising once |
| Grammar.NormaliseParts | lib/main.ts:105-119 | the reduce as a loop that pushes or overwrites the last slot in place computes Normalise: normalised, with the same characters and nodes |
| Grammar.NormaliseAppend | lib/main.ts:106-117 | appending `""` changes nothing; appending a node, or a non-empty string after a node, appends it |
| Grammar.SeqOf | lib/main.ts:96-139 | the node a tagged template builds is a seq whose children are normalised and hold exactly the template's characters and interpolations, in order |
| Grammar.SeqOfBareInterpolations | lib/main.ts:96-119 | a template with only empty strings and no string interpolation keeps its interpolations exactly |
| Grammar.Repeat | lib/main.ts:234-243 | `repeat(e)` is `flat(seq[flat(e), flat(or(lazy(repeat(e)), empty([])))])`, with `lazy` as rule k |
| Grammar.Split | lib/main.ts:245-253 | `split(d, e)` is `flat(any(seq[any(e), flat(or(repeat(unit), empty([])))]))`, the unit being `[d, any(e)]`, or `[any(e)]` when d is `""` |
| Grammar.SplitUnitShape | lib/main.ts:245-253 | `split`'s repeated unit is `[delimiter, any(expr)]`; an empty delimiter is dropped |
| Grammar.IsOptional | lib/main.ts:130-225 | `isOptionalExpr` (seq at 130-136, flat 157-158, reduce 179-180, lazy 201-204, or 222-225): only seq, flat, reduce, lazy and or can report optional; an `or` whose second branch is `empty` always does; a literal, RegExp, callback, primitive or object node, and a seq of other than one child, answers `false` whatever the fuel |
| Grammar.IsOptionalMoreFuel | lib/main.ts:130-225 | an answer `isOptionalExpr` gives is the same with more fuel: fuel only decides whether a `lazy` is resolved |
| Grammar.Heads | lib/main.ts:60-69 | a node's head list, when `lazy` does not run out of fuel resolving it, is never empty |
| Grammar.Nexts | lib/main.ts:470-479 | getNexts is never empty, and never holds `emptyHead` when the seq's own next head is not `emptyHead` |
| Grammar.ExpandEmpty | lib/main.ts:475-477 | the flatMap that replaces `emptyHead` by the following child's heads yields at least as many heads as it is given, and no `emptyHead` when the seq's own next head is not `emptyHead` |
| Primitives.PrefixAtByChars | lib/main.ts:436-444 | the input holds the literal at the index iff every character comparison of the loop succeeds, a read past the end being `undefined` |
| Primitives.FirstMismatch | lib/main.ts:436-444 | the first literal offset whose comparison fails; all before it succeed |
| Primitives.LiteralStep | lib/main.ts:435-449 | a literal succeeds iff the input holds it at the index, yielding `undefined` and index+\|literal\|; otherwise it throws at the first mismatching position, which running past the end counts as |
| Primitives.MatchLiteral | lib/main.ts:436-449 | the literal loop computes LiteralStep |
| Primitives.ExistsStep | lib/main.ts:376-388 | `exists(t)` succeeds iff the input holds `t` at the index, yielding `true` and index+\|t\|; otherwise it throws |
| Primitives.MatchExists | lib/main.ts:377-388 | the `exists` loop computes ExistsStep |
| Primitives.DigitRun | lib/main.ts:401-409 | the longest run of characters with code 48 to 57 starting at the index |
| Primitives.IntegerStep | lib/main.ts:399-415 | `integer` never throws; it consumes the longest digit run, possibly empty, and yields exactly those characters |
| Primitives.ReadInteger | lib/main.ts:400-415 | the `while` loop computes IntegerStep |
| Primitives.IndexOf | lib/main.ts:338 | `str.indexOf(t, from)`: the first position at or after `from` that holds `t`, or None when there is none |
| Primitives.AnyStop | lib/main.ts:334-357 | `any` stops at the first occurrence of a non-empty string head at or after the index; it reads to the end when the head is `undefined`, `emptyHead` or `""`, or is not found |
| Selection.PickAsWrittenFrom | lib/main.ts:556-565 | the reduce as written, `\|\| Infinity` included, scanning from a candidate on: it picks a success, and None exactly when no candidate succeeds |
| Selection.PickAsWritten | lib/main.ts:556-565 | the choice as written always picks a success, and picks none exactly when every candidate failed |
| Selection.PickMinFrom | lib/main.ts:556-565 | the intended scan (not the reduce as written, see Findings): it keeps the first success with the smallest new index |
| Selection.PickMin | lib/main.ts:556-565 | the intended choice: the first success with the smallest new index, None iff no candidate succeeds |
| Selection.Pick | lib/main.ts:556-565 | either choice picks a success, none exactly when every candidate failed; the intended one picks the first smallest |
| Selection.Commit | lib/main.ts:556-573 | a seq child commits to the chosen success; if none succeeds it rethrows the first candidate's error; running out of fuel anywhere aborts; under `Intended` the success is the first with the least new index |
| Selection.AsWrittenAgreesFrom | lib/main.ts:556-565 | when no candidate succeeds at new index 0, the written scan and the intended scan agree at every step |
| Selection.AsWrittenAgreesAwayFromZero | lib/main.ts:556-565 | when no candidate succeeds at new index 0, the written choice is the intended one |
| Selection.CommitAwayFromZero | lib/main.ts:556-573 | when no candidate succeeds at new index 0, both choices commit to the same outcome |
| Selection.CommitSingle | lib/main.ts:556-573 | a single candidate is committed to as it is, success or failure, under either choice |
| Engine.RegexStep | lib/main.ts:450-462 | a RegExp succeeds only on a match at offset 0 of the rest that fits in it; it yields the matched text and moves past it, and otherwise throws |
| Engine.ApplyValue | lib/main.ts:481-544 | a literal child adds nothing; a `flat` child splices an array or pushes anything else; a RegExp child pushes its match; any other child is merged into the first object-like slot or pushed; the array never shrinks |
| Engine.Candidates | lib/main.ts:481-551 | one attempt of the child per next head, at the same index, in order, each ending within the input |
| Engine.TranslateExpr | lib/main.ts:425-647 | under either choice, every success ends between the start index and the end of the input |
| Engine.SeqFrom | lib/main.ts:468-583 | under either choice, a seq always yields an array, ending between its start index and the end of the input |
| Engine.Translate | lib/main.ts:649-659 | translate succeeds iff translateExpr from 0 succeeds and consumes the whole input; its result is then that of translateExpr |
| Engine.TranslateSeq | lib/main.ts:468-583 | under either choice, the seq loop, with its shared index and accumulator updated child by child, computes the seq case of TranslateExpr and yields an array |
| Properties.SeqStep | lib/main.ts:481-583 | once a seq child commits to a value ending at some index, the seq goes on from that index with the value applied |
| Properties.SeqFirstChildSucceeds | lib/main.ts:481-573 | a successful seq has a first child that succeeds under one of its next heads |
| Properties.AnyReadsSlice | lib/main.ts:334-364 | `any()` always succeeds and yields exactly `str.slice(index, newIndex)`, where newIndex is where AnyStop stops |
| Properties.AnyRunsChild | lib/main.ts:359-364 | `any(child)`, for a child other than the falsy `""`, runs `translate` on its slice: it succeeds iff that translation reaches the end of the slice, yielding its value and ending where AnyStop stops, and throws the length mismatch when the translation stops short |
| Properties.SingleChildSeq | lib/main.ts:468-583 | a seq of one child is that child tried with the seq's own next head, its value entered into an empty array |
| Properties.SomeHeadFits | lib/main.ts:60-69 | whenever a node succeeds, one of its reported heads is a read-to-end head or a string the input holds at the index |
| Properties.HeadsSound | lib/main.ts:125-129 | when every head of a node is a string, a successful match starts with one of them |
| Properties.OptionalNeverThrows | lib/main.ts:130-136 | a node `isOptionalExpr` reports optional never throws, at any index and under any next head |
| Properties.NeverNoResults | lib/main.ts:553-554 | the "no results error" is never thrown |
| Properties.SeqNeverNoResults | lib/main.ts:553-554 | no suffix of a seq's reduce throws the "no results error" |
| Properties.OrderedChoice | lib/main.ts:584-589 | `or(a, b)` is `a`'s outcome unless `a` throws, and then `b`'s at the same index and next head; it throws only if `a` throws |
| Properties.LiteralTranslatesItself | lib/main.ts:435-449 | a string grammar translates exactly itself, yielding `undefined` |
| Properties.TwoLiteralsParts | lib/main.ts:100-104 | the parts of seq`${a}${b}` are `"", a, "", b, ""` |
| Properties.FuseTwoStrings | lib/main.ts:106-117 | two reduce steps on the strings a and b from an empty list give the one string a + b, or nothing when it is empty |
| Properties.TwoLiteralsFuse | lib/main.ts:96-119 | seq`${a}${b}` of two strings is a seq of the one literal a + b, or a seq without children when both are empty |
| Properties.TwoLiteralsSteps | lib/main.ts:468-583 | seq`${a}${b}` of two strings succeeds at an index, under any next head, iff the input holds a + b there, and then yields `[]` after it |
| Properties.TwoLiterals | lib/main.ts:649-659 | translate(str, seq`${a}${b}`) of two strings succeeds exactly when str is a + b, yielding `[]` |
| Properties.RepeatOfAbsentLiteral | lib/main.ts:234-243 | `or(repeat(s), empty([]))` where `s` is absent yields `[]` without consuming anything |
| Repetition.RepeatNexts | lib/main.ts:470-479 | inside `repeat(x)` the unit is tried under x's own heads and then the repeat's context head, the rest under the context head |
| Repetition.RepeatOpens | lib/main.ts:234-243 | `repeat(x)` runs the seq `[flat(x), flat(or(lazy(repeat(x)), empty([])))]` from its first child with an empty array |
| Repetition.FlatFirstStep | lib/main.ts:493-508 | a leading `flat` child that commits to a value starts the seq's array with that value spliced in |
| Repetition.RepeatStops | lib/main.ts:234-243 | where no attempt of the unit matches, `repeat(x)` throws, so the `or` around it falls back to `empty([])` |
| Repetition.RepeatUnit | lib/main.ts:234-243 | the unit commits to a value, which is spliced into the repeat's array, and the repeat goes on after it |
| Repetition.RepeatRest | lib/main.ts:236-241 | after the unit, the lazy repeat from there on is spliced in, or nothing when it throws |
| Repetition.RepeatStep | lib/main.ts:234-243 | one occurrence of the unit followed by what the repeat yields from there (nothing if that throws) |
| Repetition.ChainCollects | lib/main.ts:234-243 | chaining the occurrences: the spliced values of every occurrence, in order, ending after the last one |
| Repetition.CommitTwin | lib/main.ts:556-573 | two identical candidates are committed to as one, under either choice |
| Repetition.LiteralOccurrence | lib/main.ts:435-449 | where s occurs, the unit `s` of a repeat, tried under s and under the context head, commits to `undefined` after s |
| Repetition.LiteralAbsent | lib/main.ts:435-449 | where s does not occur, the unit `s` of a repeat throws under every head |
| Repetition.RepeatCollects | lib/main.ts:234-243 | when, from some fuel on, occurrence i of the unit commits to vs[i] ending at idx[i + 1] and at idx[n] the unit cannot match, `repeat(x)` with one more unit of fuel per occurrence yields the n values in order, spliced, and ends at idx[n]; the unit may itself resolve `lazy` |
| Repetition.RepeatOfLiteral | lib/main.ts:234-243 | `repeat(s)` and `or(repeat(s), empty([]))` on s written n >= 1 times yield n `undefined`s and end after the last copy |
| Repetition.SplitUnitMatches | lib/main.ts:249 | the unit of `split(" ")` at a blank reads the blank and then up to its context head, yielding that text |
| Repetition.SplitUnitEnds | lib/main.ts:249 | at the end of the input the unit of `split(" ")` throws |
| Repetition.CommitShorter | lib/main.ts:556-565 | of three successes where the first ends no later than the other two, and past index 0, the first is committed to under either choice |
| Repetition.SplitOccurrence | tests/split-expr.test.ts:5 | on "a b c d" the unit at each blank commits to the one letter after it |
| Repetition.SplitFirstWord | tests/split-expr.test.ts:5 | on "a b c d" the first `any` of `split(" ")` commits to "a", under either choice |
| Repetition.SplitRestWords | tests/split-expr.test.ts:5 | from index 1 the optional repeat of `split(" ")` yields ["b", "c", "d"] and reaches the end |
| Repetition.SplitWords | tests/split-expr.test.ts:5 | the seq inside `split(" ")` reads "a b c d" into ["a", "b", "c", "d"] |
| Repetition.SplitExample | tests/split-expr.test.ts:4-8 | translate("a b c d", split(" ")) yields ["a", "b", "c", "d"], under either choice |
| Findings.AsWrittenStaysOrMovesOn | lib/main.ts:556-565 | once the written reduce has chosen, it ends on that choice or on a later success |
| Findings.AsWrittenDisplacesZero | lib/main.ts:559 | when the first candidate succeeds at new index 0 and a later one succeeds, the intended choice is candidate 0 and the written one is not |
| Findings.DisplacedFrom | lib/main.ts:559 | scanning past a chosen new index 0, a later success takes its place |
| Findings.AsWrittenEmptyWordFirst | lib/main.ts:559 | as written, on "?: " + s the first `any` of the exists test grammar commits to "?" rather than "" |
| Findings.AsWrittenEmptyWord | lib/main.ts:559 | as written, translate("?: " + s) with the exists test grammar yields `["?", false, s]` |
| Findings.QuestionMarkExample | tests/exists-expr.test.ts:5 | on "?: x" the first `any` has the candidates "" at 0 and "?" at 1; the written reduce picks the second and translate yields `["?", false, "x"]`; the intended one picks the first and yields `["", true, "x"]` |
| Findings.AsWrittenAgreesPastStart | lib/main.ts:481-565 | for a seq child tried past index 0, the written choice is the intended one |
| Scenarios.ExistsTemplateParts | tests/exists-expr.test.ts:5 | the template parts of the test grammar, empty strings included |
| Scenarios.ExistsNormaliseFront | tests/exists-expr.test.ts:5 | normalising the first parts keeps only the first `any` |
| Scenarios.ExistsNormaliseMiddle | tests/exists-expr.test.ts:5 | normalising the first five parts keeps the `any`, the `or` and ": " |
| Scenarios.ExistsGrammarShape | tests/exists-expr.test.ts:5 | the test grammar is the seq `[any(), or(exists("?"), empty(false)), ": ", any()]` |
| Scenarios.ExistsNexts | tests/exists-expr.test.ts:5 | the first `any` may stop at "?" or at ": "; the `or` at ": "; the rest read to the end |
| Scenarios.WithMarkCandidates | tests/exists-expr.test.ts:7-11 | on w + "?: " + s, the first `any` has the candidates w and w + "?" |
| Scenarios.WithMarkFirst | tests/exists-expr.test.ts:7-11 | of these, w is committed to: as written for every non-empty word, as intended for the empty one too |
| Scenarios.WithMarkOr | tests/exists-expr.test.ts:7-11 | `exists("?")` then matches, yielding `true` |
| Scenarios.WithMarkTail | tests/exists-expr.test.ts:7-11 | ": " then matches, and the last `any` reads s |
| Scenarios.WithMark | tests/exists-expr.test.ts:7-11 | translate(w + "?: " + s) yields `[w, true, s]` for every non-empty word w without "?" or ":" (as intended, for the empty word too) |
| Scenarios.WithoutMarkCandidates | tests/exists-expr.test.ts:13-17 | on w + ": " + s, the first `any` has the candidates w and a longer one |
| Scenarios.WithoutMarkFirst | tests/exists-expr.test.ts:13-17 | of these, w is committed to, under either choice |
| Scenarios.WithoutMarkOr | tests/exists-expr.test.ts:13-17 | `exists("?")` throws at ':', so `empty(false)` yields `false` |
| Scenarios.WithoutMarkTail | tests/exists-expr.test.ts:13-17 | ": " then matches, and the last `any` reads s |
| Scenarios.WithoutMark | tests/exists-expr.test.ts:13-17 | translate(w + ": " + s) yields `[w, false, s]` for every word w without "?" or ":", under either choice |
| Scenarios.ObjectChildValue | tests/object-reduce.test.ts:4 | seq`${{ test: any() }}` reads the whole input into `[{test: input}]` |
| Scenarios.ObjectReduce | tests/object-reduce.test.ts:4-10 | seq`${{ child: reduce(child) }}` yields `[{child: {test: input}}]` on every input |

## Left out

- Debug hooks (`withDebug` and the `console.log` calls, lib/main.ts:1-10 and 430-433) are logging only.
- Strings: a Dafny `string` is a sequence of Unicode code points (Dafny's `char` is a Unicode scalar value), while every index in lib/main.ts (`str.length`, `str[i]`, `charCodeAt`, `indexOf`, `slice`) counts UTF-16 code units. The two agree only on text without surrogate code units; characters beyond the Basic Multilingual Plane, where lib/main.ts counts two positions and the model one, and lone surrogates are left out.
- The RegExp engine is a foreign library. `env.exec(id, rest)` is an oracle that reports a match offset and length. A reported match that would run past the rest counts as a mismatch. The `g` and `y` flags and their `lastIndex` state are not modelled; neither lib/main.ts nor its tests use them.
- Callbacks are arbitrary code. This covers function expressions (lib/main.ts:463-467) and the conversions they stand for. `env.call(id, rest)` is an oracle, and None stands for a callback that threw.
- Exceptions are values: a throw is `Fail(error)` and `try`/`catch` is a test of `Throws`. Error messages are reduced to the error kind and the position.
- Engine.TranslateExpr: a JavaScript stack overflow on a grammar that recurses without end would be catchable by `or`. `Fail(OutOfFuel)` is not, and it aborts the whole translation instead.
- `lazy` resolves through a fixed rule table rather than a closure. `repeat` and `split` take the number of the rule that holds the repeat itself.
- Grammar.Expr: a plain-object expression is modelled with its first key only, the only key lib/main.ts reads (lib/main.ts:632-646). An object without keys is not modelled.
- Numbers are modelled as integers (`Num(n: int)`), not as JavaScript floating-point values, and only as values that callbacks may return. `integer` yields the digit string, as lib/main.ts does.
- Scenarios.WithMark: under `AsWritten` it is stated for non-empty words only, because for the empty word lib/main.ts yields `["?", false, s]` instead (Findings.AsWrittenEmptyWord); under `Intended` it covers the empty word too.
- Scenarios.WithMarkFirst: likewise, under `AsWritten` for non-empty words only, because for the empty word the written reduce commits to "?" (Findings.AsWrittenEmptyWordFirst).
- lib/main2.ts is a stub whose `translate` returns nothing, so there is no behaviour to model. build-test.cjs and vite.config.examples.js are tooling.
- Several tests are not used as properties:
  - examples/index.ts, tests/pathQL.test.ts, tests/ip-address.ts, tests/ipAddressV4.test.ts, tests/md-ul.test.ts and tests/any-split.test.ts use functions lib/main.ts does not export.
  - tests/or-expr.test.ts and tests/object-flat.test.ts expect results that lib/main.ts does not produce: `or("test", …)` yields `undefined`, and a `flat` under an object key yields an array.
  - tests/split-expr.test.ts:10-14, `split(",")` inside seq`(…)` on "(1,2,3)", is not derived; the first test of that file is (Repetition.SplitExample), and the look-ahead the second adds is the general `any`/`getNexts` behaviour stated by Primitives.AnyStop and Grammar.Nexts.

## Findings

| source | as written | input that shows it | evidently intended | confidence | as-written member | corrected member |
|---|---|---|---|---|---|---|
| lib/main.ts:559 | `x.newIndex < (res?.newIndex \|\| Infinity)` reads a chosen new index of 0 as Infinity, so any later success replaces a candidate that matched nothing at index 0 | `translate("?: x", seq\`${any()}${or(exists("?"), empty(false))}: ${any()}\`)`: the first `any` has the candidates "" (new index 0) and "?" (new index 1), and the written reduce commits to "?", giving `["?", false, "x"]` | commit to the first success with the smallest new index, "" here, giving `["", true, "x"]` as for "hoge?: string" in tests/exists-expr.test.ts:7-11 | not executed | Findings.QuestionMarkExample | Selection.Commit |

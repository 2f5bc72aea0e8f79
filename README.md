# schema.io, modelled in Dafny

schema.io is a small runtime schema validator for JavaScript values. A user writes a
specification with JavaScript's own vocabulary: `String`, `Number`, `Boolean`, `Date`,
`Array`, `Object`, `null`, `[X]`, `[A, B, ...]` (alternatives), plain field maps, and
`{type: T, ...options}` records. `new Schema(spec)` compiles the specification once, with
`parse`, into a tree of flag-carrying nodes. `validate(v)` then walks that tree:

- it substitutes defaults and enforces `required`;
- it applies each node's transformer;
- it runs the `typeof`, literal, bound, `match`, `invalid`, `enums`, Date, array,
  alternative and pure-object checks, in that order;
- it rewrites object keys and array slots in place with their children's results.

A failure escapes with a route from the root `v` to the failing node and the innermost
reason. `example()` builds a sample value by a fixed priority order; it throws when it
meets an `enums` option that is null or undefined. The fluent builder
`Type` (`$(T).optional().min(1)...`) assembles the `{type, ...options}` records that
`parse` understands.

The model has these modules:

| module | what it holds |
|---|---|
| `JsValues` | JavaScript values: objects as insertion-ordered field lists, numbers with NaN and the infinities. Also `typeof`, `isPureObject`, truthiness, IEEE `>=`/`<=` and `includes`. |
| `Records` | Property read, `in`, assignment, `delete` and object spread, with their laws. |
| `Json` | The `JSON.parse(JSON.stringify(v))` copy as a normalisation, with its fixed points and idempotence. |
| `Compiler`, `CompilerFacts` | `parse` as a recursive function, and how each form of specification compiles. |
| `Validation`, `ValidationFacts` | `_validate` and `validate` as functions, and what they accept, return and report. |
| `Schemas` | The `Schema` class. Its methods are imperative, with loops over children, elements and alternatives, and each is proved to compute the function it models. |
| `ExampleGen`, `ExampleFacts` | `_example`, its priority order, and the proof that `validate(example())` succeeds for every plain specification. |
| `TypeBuilder`, `TypeBuilderFacts` | The `Type` class, whose setters reassign its `schema` record and return the instance. Also what those records do once compiled. |
| `Findings` | The alternatives check as written, and the input on which it goes wrong. |

Runtime behaviour the model does not interpret is a `Host` parameter: Buffer decoding,
Date parsing and ISO formatting, `RegExp#test`, `ToNumber` of a string or an object,
`includes` on a non-array, and `String(v)`. The clock read by `new Date()` is a parameter
`now` of the example generator.

The model follows the code as written, except alternatives (see Left out and Findings). In particular:

- Number and Boolean nodes have no coercing transformer.
- NaN passes a Number node that has no bounds.
- Array nodes do not JSON-decode strings.
- Object nodes keep undeclared keys.
- The builder's `error` and `disallowEmpty` are inert.
- A Number node's type failure is "not match [Number]", not "is not a number".

## Model

| member | source | states |
|---|---|---|
| JsValues.IsPureObject | src/index.ts:3-6 | a value is a pure object exactly when it is a plain object, a Buffer or a RegExp: not null, not a primitive, not an array, not a Date |
| JsValues.Ge | src/index.ts:162-169 | `>=` on doubles is false when either side is NaN and agrees with real `>=` on finite numbers |
| JsValues.FindValue | src/index.ts:173-178 | `includes` finds an index holding a SameValueZero-equal item, and finds nothing only when no item is equal |
| Records.IndexOf | src/index.ts:93-94 | the first position of a key, or -1 exactly when no field carries it |
| Records.PutGet | src/index.ts:199-201 | after `record[k] = v`, k reads v and every other key reads as before |
| Records.PutUnique | src/index.ts:199-201 | assignment keeps keys unique |
| Records.PutPut | src/type.ts:34-42 | of two assignments to one key the last wins, and repeating one changes nothing |
| Records.RemoveGet | src/index.ts:95-96 | `delete record[k]` makes k absent and keeps every other key |
| Records.RemoveAbsent | src/index.ts:95-96 | deleting an absent key changes nothing |
| Records.GetCons | src/index.ts:199-201 | reading a record whose first field is f gives f's value for f's key, and the rest's value otherwise |
| Records.GetAt | src/index.ts:102-107 | in a record with unique keys, each entry is what its key reads |
| Records.GetAbsent | src/index.ts:140 | a key is absent exactly when no field carries it |
| Records.GetIndexOf | src/index.ts:140 | reading a key gives the field that the first-position search finds |
| Records.MergeGet | src/type.ts:79-85 | after object spread, each key of the source takes the source's value and every other key keeps its own |
| Records.MergeUnique | src/type.ts:79-85 | object spread keeps keys unique |
| Json.JsonOf | src/index.ts:124-131 | the JSON copy is absent exactly for undefined and functions; it is always JSON; the copy of a pure object is an object; a valid Date becomes its ISO text and an invalid one null; a finite number is kept and NaN and the infinities become null |
| Json.JsonItems | src/index.ts:127 | array items keep their count and become JSON; JsonItemsAt gives each slot |
| Json.JsonItemsAt | src/index.ts:127 | slot i of a copied array is the copy of item i, or null where item i is undefined or a function |
| Json.JsonFields | src/index.ts:127 | object fields never grow in number and become JSON |
| Json.JsonFixesJson | src/index.ts:127 | a JSON value survives the round trip unchanged |
| Json.JsonItemsFix | src/index.ts:127 | JSON array items survive the round trip unchanged |
| Json.JsonFieldsFix | src/index.ts:127 | JSON object fields survive the round trip unchanged |
| Json.JsonIdempotent | src/index.ts:124-131 | copying a copy gives the copy back |
| Json.JsonFieldsGet | src/index.ts:124-131 | after the round trip a key whose value is undefined or a function is gone, and any other key holds its value's copy |
| Json.JsonFieldsUnique | src/index.ts:127 | the round trip keeps keys unique |
| Compiler.JoinNames | src/index.ts:86 | the name of two or more variants contains '\|' |
| Compiler.Parse | src/index.ts:34-115 | every compiled node is well formed: children only on object nodes with the JSON transformer, an element only on untransformed array nodes, at least one variant on an alternative, children on every node named "Object" |
| CompilerFacts.ParseExtraTop | src/index.ts:112-114 | options passed to `parse` land on the top node only, for every specification other than undefined and the escape hatch |
| CompilerFacts.ParseExtraObj | src/index.ts:98-114 | the same for a plain field map |
| CompilerFacts.ParseExtraArr | src/index.ts:75-87 | the same for an array specification |
| CompilerFacts.ParseExtraFn | src/index.ts:49-92 | the same for a constructor |
| CompilerFacts.ArraySpec | src/index.ts:73-80 | `[]` and `[X]` give an array node; it has an element, compiled from X, exactly when X is truthy |
| CompilerFacts.AlternativeSpec | src/index.ts:81-87 | two or more entries give an alternative with one variant per entry, compiled without options, named by the variants' names joined with '\|' |
| CompilerFacts.EscapeHatch | src/index.ts:93-97 | `{type: T, ...rest}` with T an object or function without an own `type` compiles T with `rest` as its options; outer options are dropped |
| CompilerFacts.TypeOnly | src/index.ts:93-97 | `{type: T}` compiles exactly as T |
| CompilerFacts.ObjectSpec | src/index.ts:98-108 | a plain object without `type`, or whose `type` is itself an object with a `type` key, gives an object node with one child per own key, in key order, each compiled on its own; unique keys give distinct children |
| Validation.Catch | src/index.ts:208-242 | a failure caught by a frame gets that frame's key at the head of its route; a nested failure keeps its route behind it and its original message |
| Validation.Transform | src/index.ts:153-155 | without a transformer the value is kept; the Buffer transformer turns a Buffer into its decoded text and keeps anything else; the Date transformer keeps a Date, and turns anything else into the Date of its parsed time exactly when that time is valid, throwing otherwise; the JSON transformer is the JSON round trip, which throws for undefined and functions and yields JSON |
| Validation.Includes | src/index.ts:173-178 | on an array, `includes` is true exactly when some item is SameValueZero-equal to the value; on null or undefined it throws |
| Validation.PatternCheck | src/index.ts:170-172 | `match` passes exactly when it is a RegExp that accepts the value; a RegExp that rejects it reports "not match /pattern/"; anything else throws |
| Validation.KindCheck | src/index.ts:156-161 | passes exactly when the value's `typeof` is the node's type and, on the null node, the value is null; a failure is generic, reported as "not match [name]" |
| Validation.BoundsCheck | src/index.ts:162-169 | only a number on a Number node can fail, with an assertion message; it passes exactly when the number is `>=` each `min` and `<=` each `max` present, compared as doubles |
| Validation.ListChecks | src/index.ts:170-178 | passes exactly when the value passes `match`, is not found in `invalid` and is found in `enums`, for each of those options present |
| Validation.ShapeCheck | src/index.ts:179-184 | passes exactly when a Date node has a Date and an array node an array; a failure is generic |
| Validation.LeadingChecks | src/index.ts:156-184 | a wrong `typeof`, a non-null value on the null node, a non-Date on a Date node and a non-array on an array node each fail; passing means all four hold |
| ValidationFacts.LeadingChecksExactly | src/index.ts:156-184 | the leading checks pass exactly when the type, bound, list and shape checks all pass |
| Validation.Checks | src/index.ts:156-197 | a failing leading check is the outcome; passing means some variant accepts the value on an alternative, an array node has an array and an object node a pure object |
| ValidationFacts.ChecksExactly | src/index.ts:156-197 | all checks pass exactly when the leading checks pass, some variant accepts on an alternative, and an object node has a pure object |
| ValidationFacts.ChecksRejectRun | src/index.ts:156-197 | a failing check on the transformed value is what `_validate` reports, under its own key |
| ValidationFacts.ListChecksRejectRun | src/index.ts:170-178 | once type and bounds pass, failing `match`, being found in `invalid` or missing from `enums` makes `_validate` fail with that check's outcome |
| Validation.RunElements | src/index.ts:203-206 | the element loop keeps the array's length |
| Validation.Run | src/index.ts:137-244 | a failure's route starts with the frame's key; the caller's value changes only when it is an array, and then keeps its length |
| Validation.ValidateTop | src/index.ts:124-131 | `validate` fails exactly when `_validate` from "v" fails, with the same failure; a result that is not a pure object comes back as it is, and a pure-object result comes back as its JSON copy |
| ValidationFacts.AbsentInput | src/index.ts:139-147 | undefined takes a defined default; without one it fails with "is required" under its own key, unless `required` is exactly false, when undefined comes back |
| ValidationFacts.AbsentSpecAcceptsAll | src/index.ts:44-46 | `_validate` under the node of `new Schema()` accepts every value and returns it unchanged |
| ValidationFacts.AbsentSpecValidate | src/index.ts:124-131 | `new Schema().validate(v)` never fails; it returns v itself unless v is a pure object, which comes back as its JSON copy |
| ValidationFacts.NumberNoCoercion | src/index.ts:59-60 | a Number node fails every defined non-number with "not match [Number]", whatever its options |
| ValidationFacts.NumberBounds | src/index.ts:162-169 | a number fails "should ≥ min" below `min`, else "should ≤ max" above `max`, else passes unchanged |
| ValidationFacts.NumberWithoutBounds | src/index.ts:156-169 | without bounds every number passes, NaN and the infinities included |
| ValidationFacts.ElementsKeepPrefix | src/index.ts:203-206 | the element loop from slot i leaves earlier slots untouched |
| ValidationFacts.ElementsAllOk | src/index.ts:203-206 | the element loop succeeds exactly when every slot validates |
| ValidationFacts.ElementsResults | src/index.ts:203-206 | after a successful element loop each slot holds its element's result |
| ValidationFacts.ElementsFirstFailure | src/index.ts:203-206 | a failing element loop stops at the first rejected slot, which keeps what that call left in it |
| ValidationFacts.ElementsStopAt | src/index.ts:203-206 | when slot j is the first rejected slot, the loop fails with j's failure; the slots before j hold their results, slot j what its call left, and the slots after j are untouched |
| ValidationFacts.ArrayElements | src/index.ts:182-184 | an array node keeps the length; it succeeds exactly when every slot validates; the result is the rewritten caller array with each slot's result; a failure is the first rejected slot's, routed under its index |
| ValidationFacts.LaterChildrenUnaffected | src/index.ts:198-202 | writing one child's result leaves every later child's input unchanged |
| ValidationFacts.ChildWalk | src/index.ts:198-202 | the children loop succeeds exactly when every child accepts its key of the record as given; otherwise the first rejecting child's failure escapes |
| ValidationFacts.ChildWalkResult | src/index.ts:198-202 | after a successful children loop each declared key holds its child's result and every undeclared key keeps its value |
| ValidationFacts.ChildWalkUnique | src/index.ts:198-202 | the children loop keeps keys unique |
| ValidationFacts.ObjectChildren | src/index.ts:195-202 | an object node validates each declared key of the JSON copy; it succeeds exactly when every child does; undeclared keys survive; the first rejecting child's failure is reported under this key; the caller's value is untouched |
| ValidationFacts.ObjectNeedsPureObject | src/index.ts:195-196 | without list options, an object node's checks pass exactly on pure objects, and anything else fails with "not match [Object]" |
| ValidationFacts.ValidateObject | src/index.ts:124-131 | for an object root, `validate` returns each declared key as the JSON copy of its child's result, so an undefined result drops the key; each undeclared key holds the JSON copy of its input value |
| ValidationFacts.JsonFieldIsJson | src/index.ts:127 | a field of a JSON object holds JSON |
| ValidationFacts.AnyVariantExists | src/index.ts:185-194 | `schemas.some(...)` from variant i holds exactly when some later variant accepts the value |
| ValidationFacts.Alternatives | src/index.ts:185-194 | an alternative accepts a value exactly when one variant does; it returns the value it was given; otherwise it fails with "not match" naming the variants joined by '\|' |
| ValidationFacts.FailureRoute | src/index.ts:208-242 | a failure's route is the frame's key, then the child keys and element indices down to the failing node, and its reason belongs to that node |
| ValidationFacts.CheckFailureExplained | src/index.ts:156-197 | a failing check is never nested, and an assertion message quotes the node's own option |
| ValidationFacts.LeadingFailureExplained | src/index.ts:156-184 | the same for the leading checks |
| ValidationFacts.ChildrenFailureRoute | src/index.ts:198-202 | a failure escaping the children loop has a route that leads through a child key to the node it belongs to |
| ValidationFacts.ElementsFailureRoute | src/index.ts:203-206 | a failure escaping the element loop has a route that leads through the element node to the node it belongs to |
| ValidationFacts.ValidateFailureRoute | src/index.ts:124-125 | `validate` failures are routed from the root key "v" to the node they belong to |
| ValidationFacts.RunIgnoresOtherOptions | src/index.ts:137-206 | `_validate` reads only `default`, `required` (as exactly false), `min`, `max`, `match`, `invalid` and `enums`; nodes that agree on those give the same outcome |
| ValidationFacts.SameStep | src/index.ts:137-207 | two nodes that differ only in options, and agree on the default, on `required` and on every later step, give the same outcome |
| ValidationFacts.SameStepEarly | src/index.ts:139-155 | the same, when the value is absent or the transformer throws |
| ValidationFacts.SameStepRejected | src/index.ts:156-197 | the same, when a check fails on the transformed value |
| ValidationFacts.SameStepChildren | src/index.ts:195-202 | the same, for an object node with children whose checks pass |
| ValidationFacts.SameStepElements | src/index.ts:203-206 | the same, for an array node with an element whose checks pass |
| ValidationFacts.WellFormedAnyExtra | src/index.ts:112 | a node's options play no part in its shape |
| ValidationFacts.SameOptions | src/index.ts:162-178 | records that agree on the validator's options give the same options |
| ValidationFacts.SameLeadingChecks | src/index.ts:156-184 | the leading checks depend on a node's options only through those options |
| ValidationFacts.SameChecks | src/index.ts:156-197 | the same for all checks |
| ValidationFacts.SameVariants | src/index.ts:185-194 | nodes with the same variants agree on `schemas.some(...)` |
| ValidationFacts.SameChildren | src/index.ts:198-202 | nodes with the same children agree on the children loop |
| ValidationFacts.SameElements | src/index.ts:203-206 | nodes with the same element agree on the element loop |
| Schemas.Schema.constructor | src/index.ts:120-122 | the schema holds the compiled specification |
| Schemas.Schema.Validate | src/index.ts:124-131 | `validate` computes `_validate` from "v" and JSON-copies a pure-object result |
| Schemas.Schema.Example | src/index.ts:132-134 | `example()` can throw only past the null and `default` rules of the root |
| Schemas.Schema.ValidateNode | src/index.ts:137-244 | the imperative `_validate` computes exactly the result and the caller's rewritten value of the validation function |
| Schemas.Schema.SomeVariant | src/index.ts:185-194 | the loop over variants finds one exactly when some variant accepts the value |
| Schemas.Schema.ValidateChildren | src/index.ts:198-202 | the children loop computes the children function |
| Schemas.Schema.ValidateElements | src/index.ts:203-206 | the in-place element loop computes the element function |
| ExampleGen.FirstOf | src/index.ts:253-255 | reading `enums.length` throws exactly on null and undefined; an array gives its first entry exactly when it has one |
| ExampleGen.ExampleOf | src/index.ts:246-295 | the null node's sample is null; a sample can throw only past the null and `default` rules, and does throw there when `enums` is null or undefined |
| ExampleGen.ExampleFields | src/index.ts:287-293 | the reduce throws exactly when some remaining child's sample throws |
| ExampleFacts.NullExample | src/index.ts:247-249 | the null node's sample is null, whatever its options |
| ExampleFacts.NotNullNode | src/index.ts:47-48 | only the specification `null` compiles to the null node |
| ExampleFacts.DefaultFirst | src/index.ts:250-252 | apart from the null node, a `default` is the sample |
| ExampleFacts.EnumsNext | src/index.ts:253-255 | without a default, the first entry of a non-empty `enums` is the sample |
| ExampleFacts.EnumsAbsentThrows | src/index.ts:253-255 | without a default, an `enums` that is null or undefined makes `_example` throw |
| ExampleFacts.NumberExample | src/index.ts:262-270 | a number's sample is `min`, else `max`, else 1206 |
| ExampleFacts.ArrayExample | src/index.ts:277-283 | an array's sample holds one sample of its element, or is empty without an element; it throws exactly when the element's sample throws |
| ExampleFacts.AlternativeExample | src/index.ts:284-286 | an alternative's sample is its first variant's sample |
| ExampleFacts.ExampleFieldsGet | src/index.ts:287-293 | when the reduce does not throw, it puts each child's sample under its key and keeps other keys of the memo |
| ExampleFacts.ObjectNodeExample | src/index.ts:287-293 | an object node's sample throws exactly when some child's sample throws; otherwise it holds each child's sample under its key and no other key |
| ExampleFacts.ObjectExample | src/index.ts:287-293 | a field map's sample throws exactly when some field's sample throws; otherwise it maps each key to that field's sample and has no other key |
| ExampleFacts.LeafSamplePasses | src/index.ts:246-276 | the samples of undefined, null and the six constructors pass their own node |
| ExampleFacts.ScalarPasses | src/index.ts:153-207 | a node without options, children, elements or variants accepts a JSON value that its transformer keeps and its checks pass |
| ExampleFacts.DateSamplePasses | src/index.ts:274-276 | the Date sample and its ISO-text copy both pass the Date node |
| ExampleFacts.ArraySamplePasses | src/index.ts:277-283 | an array's sample passes when its element's sample does |
| ExampleFacts.JsonOfSingleton | src/index.ts:127 | the copy of a one-element array holds the copy of its element |
| ExampleFacts.OneElementPasses | src/index.ts:203-206 | an array node accepts `[y]` when its element accepts y |
| ExampleFacts.AltSamplePasses | src/index.ts:284-286 | an alternative's sample passes when its first variant's does |
| ExampleFacts.FirstVariantPasses | src/index.ts:185-194 | an alternative accepts what its first variant accepts |
| ExampleFacts.ObjectSamplePasses | src/index.ts:287-293 | a field map's sample and its copy pass when each field's sample does |
| ExampleFacts.ChildSamplePasses | src/index.ts:198-202 | a field of the sample, read from its JSON copy, passes its own node |
| ExampleFacts.ObjectNodePasses | src/index.ts:195-202 | an object node accepts a value whose copy its children accept |
| ExampleFacts.ExampleValidates | src/index.ts:246-295 | every plain specification's sample, and its JSON copy, pass `_validate` under any key |
| ExampleFacts.ExamplePassesValidate | src/index.ts:124-135 | for every plain specification `example()` does not throw, and `validate(example())` succeeds |
| TypeBuilder.InitialRecord | src/type.ts:20-25 | the record starts as exactly `{$type: T, type: T, required: true}` |
| TypeBuilder.Type.constructor | src/type.ts:17-27 | `new Type(T)` holds the initial record for a non-Type T, and a copy of t's record for a Type t |
| TypeBuilder.Type.Set | src/type.ts:29-90 | one assignment: the key reads the value, every other key is unchanged, keys stay unique |
| TypeBuilder.Type.Default | src/type.ts:29-32 | sets `default` to the argument, changes no other key and returns the instance itself |
| TypeBuilder.Type.Required | src/type.ts:34-37 | sets `required` to true, changes no other key and returns the instance itself |
| TypeBuilder.Type.Optional | src/type.ts:39-42 | sets `required` to false, changes no other key and returns the instance itself |
| TypeBuilder.Type.Min | src/type.ts:44-47 | sets `min`, changes no other key and returns the instance itself |
| TypeBuilder.Type.Max | src/type.ts:49-52 | sets `max`, changes no other key and returns the instance itself |
| TypeBuilder.Type.Match | src/type.ts:54-57 | sets `match`, changes no other key and returns the instance itself |
| TypeBuilder.Type.Invalid | src/type.ts:59-62 | sets `invalid`, changes no other key and returns the instance itself |
| TypeBuilder.Type.Enums | src/type.ts:64-67 | sets `enums`, changes no other key and returns the instance itself |
| TypeBuilder.Type.Explain | src/type.ts:69-72 | sets `explain`, changes no other key and returns the instance itself |
| TypeBuilder.Type.Error | src/type.ts:74-77 | sets `error`, changes no other key and returns the instance itself |
| TypeBuilder.Type.Mix | src/type.ts:79-85 | the record becomes the spread of itself and o (or o's record); each key of o takes o's value, every other key keeps its own; returns the instance itself |
| TypeBuilder.Type.DisallowEmpty | src/type.ts:87-90 | sets `disallowEmpty` to true, changes no other key and returns the instance itself |
| TypeBuilder.Type.AsValue | src/type.ts:1-15 | to `parse`, an instance is a pure object whose one own key is `schema` |
| TypeBuilder.Dollar | src/type.ts:93-95 | `$(T)` gives a fresh instance with the same record as `new Type(T)` |
| TypeBuilder.CopyIsIndependent | src/type.ts:18-19 | a copy made by `new Type(t)` is a separate record: setters on the copy and on the original each change only their own |
| TypeBuilderFacts.InstanceCompilesToSchemaChild | src/index.ts:93-108 | a Type instance compiles to an object node with the single child `schema` |
| TypeBuilderFacts.EscapeRecord | src/index.ts:93-97 | a builder record whose `type` is an object or function T compiles T with the rest of the record as its options |
| TypeBuilderFacts.BuilderOptionsGet | src/type.ts:20-25 | of the options the validator reads, the builder's record sets only `required` |
| TypeBuilderFacts.BuilderConstraints | src/type.ts:20-25 | with `required` true, the builder's options constrain nothing |
| TypeBuilderFacts.InitialOptions | src/type.ts:20-25 | the initial record without `type` is `{$type, required: true}`; after `optional()` it is `{$type, required: false}` and `type` is still T |
| TypeBuilderFacts.RecordValidatesLikeT | src/type.ts:17-27 | the compiled record of `$(T)` validates every value exactly as T does |
| TypeBuilderFacts.OptionalAcceptsAbsent | src/type.ts:39-42 | after `optional()` an absent value passes as undefined, whatever T is |
| TypeBuilderFacts.PutOtherGet | src/type.ts:69-77 | assigning one key and removing `type` leaves any third key as it was |
| TypeBuilderFacts.PutOtherKeepsConstraints | src/type.ts:69-77 | assigning a key the validator does not read leaves every option it reads unchanged |
| TypeBuilderFacts.OtherOptionsInert | src/type.ts:87-90 | `$type`, `explain`, `error`, `disallowEmpty` and any other unread key change nothing in what a record validates |
| Findings.AltAsWritten | src/index.ts:185-194 | as written, a variant is found only among the variants; the value handed from variant to variant is the given one unless it is an array, which keeps its length |
| Findings.AsWrittenAgreesOffArrays | src/index.ts:185-194 | on anything but an array, the code as written and the corrected check agree |
| Findings.AsWrittenAgreesWithoutRewrites | src/index.ts:185-194 | on a value that no variant rewrites, the code as written and the corrected check agree |
| Findings.DateSlot | src/index.ts:66-71 | a Date slot converts a parseable string and rejects an unparseable one, which stays as it was |
| Findings.StringSlot | src/index.ts:49-58 | a String slot accepts a string and rejects a Date |
| Findings.DateVariantLeaks | src/index.ts:203-206 | `[Date]` fails on a list of a date string and garbage after converting slot 0 in place |
| Findings.StringVariant | src/index.ts:203-206 | `[String]` accepts two strings and rejects a list whose first slot is a Date |
| Findings.LeakRejectsStrings | src/index.ts:185-194 | against `[[Date], [String]]`, `["2020-01-01", "garbage"]` passes `[String]` alone and the corrected check, but the code as written rejects it |

## Left out

- The Node.js `assert` plumbing (src/index.ts:218-219) is not modelled. The error name and the text `false == true` depend on the Node version. A failure is an explicit `Raised` value: an assertion with a message, a generic failure, or a nested `ValidationError`.
- The human-readable `message` (src/index.ts:230-236) is not modelled, because it is formatting. `routes` and `originalMessage` are modelled.
- Regular-expression evaluation, Buffer decoding, Date parsing and ISO formatting, `ToNumber` of strings and objects, and `includes` on a non-array are `Host` functions, not interpreted. The clock read by `new Date()` is the parameter `now`.
- A RegExp is modelled by its source text only. Its flags are dropped, so `/a/i` and `/a/` are the same value and show as `/a/`. The `lastIndex` state of a global or sticky pattern is dropped too, so `test` gives the same answer every time a value is validated, where the code can answer differently on a second call.
- Floating point is not modelled beyond the comparisons: numbers are reals with NaN and the two infinities.
- `includes` does not model object identity. Two objects are never equal, which is what SameValueZero gives for distinct objects. The same object listed in `enums` is not found.
- Integer-like keys are not reordered: JavaScript enumerates them first, and the model keeps insertion order for every key.
- The lines src/index.ts:148-152 are unreachable because `value` is already defined there, so they are not modelled.
- A `default` that is an array is rewritten in place by the element loop, and is therefore shared across calls. The model takes the default afresh each time.
- Objects rewritten through the children loop are JSON copies, so only array slots are threaded back to the caller (`Step.after`).
- JsValues.FindValue: does not model finding the very same object in a list, because object identity is not modelled.
- ValidationFacts.ElementsFirstFailure: states the first rejected slot and its contents, not the other slots. ElementsStopAt states those, given that slot.
- Compiler.Compilable: `parse` throws a TypeError on `{type: T}` when T is a primitive, null or undefined, since it evaluates `'type' in T` (src/index.ts:94). Such specifications are excluded by this precondition rather than modelled as an error.
- TypeBuilder.Type.Mix: the key-by-key reading holds only when o's own entries have unique keys, as every JavaScript object's do. The record equation holds always.
- Schemas.Schema.Example: its own contract states only where it can throw. It returns ExampleGen.ExampleOf of the root, and the lemmas of ExampleFacts state what that is.
- ExampleGen.FirstOf: a function other than the six built-in constructors is taken to have `length` 0, since its arity is not modelled. The six constructors have `length` 1 or 7 and no entry "0", so their first entry is undefined.
- Properties inherited from `Object.prototype` are not modelled. A child key that names one (`toString`, `constructor`, `hasOwnProperty`, `__proto__`) is read and written as an own field only. The code reads the inherited function when the key is absent, and `memo["__proto__"] = ...` in `_example` sets the prototype instead of a field.
- Validation.AnyVariant: each variant sees the value the alternative was given, and the alternative returns that value. This is the corrected behaviour of the finding below. The code as written threads in-place slot rewrites from one variant to the next and into the alternative's result; Findings.AltAsWritten models that.
- Test-file console output and the mocha wiring are not modelled.

## Findings

| source | as written | input that shows it | evidently intended | confidence | as-written member | corrected member |
|---|---|---|---|---|---|---|
| src/index.ts:185-194 | every variant of an alternative runs on the same array object. A failing variant's in-place slot rewrites (src/index.ts:203-206) stay for the variants after it | spec `[[Date], [String]]` with value `["2020-01-01", "garbage"]`. The `[Date]` variant turns slot 0 into a Date, then fails on "garbage". The `[String]` variant then sees a Date in slot 0 and fails. The value is rejected, although `[String]` alone accepts it | an alternative accepts a value exactly when some variant accepts that value as given | not executed | Findings.LeakRejectsStrings | ValidationFacts.Alternatives |

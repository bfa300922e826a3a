# patchAndUpdateDocumentHandler in Dafny

A model of `patchAndUpdateDocumentHandler`, the TypeScript function that
applies a flat update to a nested JSON document in place. The update maps
every path key to a value, for example `{"a.b[5dc0…].title": "x", "value": null}`.

- Each key is split on `.`.
- Each part is either a field name or `name[id]`. The second form addresses
  the element of the array `name` whose `_id` is `id`.
- A cursor walks from the document root, one part at a time. On the way it
  creates missing objects, and it appends `{ _id: id }` stubs for elements
  it does not find.
- On the last part the cursor deletes (when the value is `null`), replaces
  or appends.
- A part that names something other than an array before the last part
  logs `<name> is not an array.` and abandons that key. The other keys
  still run.

The project has seven modules, one per file:

| file | module | contents |
|---|---|---|
| `json.dfy` | `Json` | The `Node` value tree and JavaScript falsiness. Also `item?._id === id` (`HasId`) and the object spread `{ _id: id, ...value }` (`SpreadProps`, `TagWithId`). |
| `path_tokenizer.dfy` | `PathTokenizer` | `key.split('.')` (`Split`, with its inverse `Join`). The regular expression `/^(.+?)\[(.*)\]$/` (`ParseSegment`, with its inverse `Render`). `Tokenize`. |
| `array_locator.dfy` | `ArrayLocator` | `findIndex` by `_id` (`FindById`). |
| `cursor.dfy` | `Cursor` | Where `currentPart` stands: a path of steps from the root (`ObjAt`) and writing an object back at that path (`PutAt`). |
| `mutation_executor.dfy` | `MutationExecutor` | See the list below. |
| `patch_properties.dfy` | `PatchProperties` | What the handler promises, proved over `Walk`, `ApplyKey` and `Run`. |
| `scenarios.dfy` | `Scenarios` | The behaviours fixed by the test suite, on concrete keys. |

`MutationExecutor` holds four things:

- The reference definitions (named with their role):
  - `Descend`: one step of the cursor.
  - `ApplyLast`: the last segment.
  - `Walk`: one key, by recursion over its segments.
  - `Run`: the whole update, as a left fold over the pairs.
- The segment loop, as imperative methods:
  - `WalkSegments` moves a cursor and writes every change at once into the document.
  - `WalkKey` tokenizes the key, then runs `WalkSegments`.
  - Both are proved equal to the reference definitions.
- The class `Document`. Its method `Patch` is the `forEach` over the update and updates the field `root` in place. It is proved to compute `Run`.
- The handler `PatchAndUpdateDocumentHandler`. It returns the very document object it was given.

The outcome of one key is one of:

- `Applied(doc)`.
- `Abandoned(doc, message)`: the early `return` after `console.error`. Whatever the walk wrote before it stays in `doc`.
- `Stuck`: a step past a field that holds a truthy value other than an object, which the model leaves undefined (see "Left out"). Some of these steps throw a `TypeError`. In the others the JavaScript goes on. The cursor may move onto a string's truthy `length` or one of its characters. Over an array, the cursor may move onto a truthy element or the non-zero `length` at that index name, so `"a.0.x": 2` over `{ a: [{ x: 1 }] }` sets `x` in the JavaScript. A last indexed part may run the lookup and the delete, replace or push on an element that is itself an array. A write may add a named property or a hole to an array, which the `Arr` value cannot hold. When a key is `Stuck`, the whole result is `Failed(key)`.

The model follows the code, also where its comments suggest otherwise or
where the outcome is easy to miss:

- An empty id is compared with `===` like any other. So `x[]` matches, and
  replaces, an element whose `_id` is `""`. It does not always append.
- "Missing" means falsy: absent, `null`, `false`, `0` or `""`. That is the
  meaning both for the stub `{}` before the last part and for the empty
  array on the last part.
- A truthy value before the last part that is not an object (a non-empty
  string, a non-zero number, `true` or an array) is not replaced by `{}`;
  the cursor moves onto it. The next part then addresses a property of that
  value:
  - an indexed part that is not the last finds no array there and abandons
    the key with `<name> is not an array.`, so the later keys still run (an
    array is the exception when the index names one of its elements that is
    itself an array);
  - deleting (`null`) a property the value does not have changes nothing.
    Numbers and booleans have none. A string or an array has `length` and
    its index keys `"0"`, `"1"`, …;
  - every other step is `Stuck`.
- Object spread copies index-named properties: `{ _id: id, ..."ab" }` is
  `{ _id: id, 0: "a", 1: "b" }`, and an array payload spreads its elements
  the same way.
- A missing array before the last part is not created: the key is
  abandoned with a diagnostic.
- A bracket part is recognised by the regular expression. So its name is
  any text of at least one character up to the first `[` past position 0,
  and it may not contain a line terminator. It need not be an identifier.
- An indexed delete (`null`):
  - on a falsy field, leaves `[]` behind;
  - on a truthy non-array field, replaces it with `[{ _id: id }]`, because
    `{ ...null }` is `{}`.

## Model

| member | source | states |
|---|---|---|
| Json.ParseIndexKey | src/patch_and_update_document_handler.ts:63 | The decimal name of an index reads back as that index, so different indices name different properties. |
| Json.Falsy | src/patch_and_update_document_handler.ts:56 | Reference definition of `!x` on a value: `null`, `false`, `0` and `""`. No contract; used by `FalsyField` and stated through `AutoVivify`, `IndexedOnFalsyLast` and `IndexedPastScalar`. |
| Json.FalsyField | src/patch_and_update_document_handler.ts:107 | Reference definition of `!currentPart[name]`: absent or falsy. No contract; stated through `AutoVivify`, `VivifyFromRoot`, `IndexedOnFalsyLast`, `AbandonKeepsVivified` and `AppendToMissing`. |
| Json.HasId | src/patch_and_update_document_handler.ts:72 | Reference definition of `item?._id === id`: an object whose `_id` is that very string. No contract; stated through `FindById` and `EmptyIdMatchesEmptyString`. |
| Json.IdStub | src/patch_and_update_document_handler.ts:91 | The stub `{ _id: id }` has the one key `_id`, holding id. |
| Json.IndexKeyInjective | src/patch_and_update_document_handler.ts:63 | Different indices have different property names. |
| Json.IndexProps | src/patch_and_update_document_handler.ts:63 | The index-named properties of a sequence: `"j"` holds element j, and there is no other key. |
| Json.SpreadProps | src/patch_and_update_document_handler.ts:63 | What `{ ...v }` copies. An object gives its fields. `null`, booleans and numbers give nothing. A string gives one property per character and an array one per element, named `"0"`, `"1"`, … by the index, and no other property. |
| Json.TagWithId | src/patch_and_update_document_handler.ts:81 | In `{ _id: id, ...v }`, the keys are `_id` plus the payload's keys. Every payload value is kept. A payload `_id` wins over the address, and otherwise `_id` is `id`. |
| Json.HasOwnProperty | src/patch_and_update_document_handler.ts:101 | Reference definition of the own properties a `delete` can remove from a string or an array: `length` and the index name of each character or element. A number or boolean has none. No contract; stated through `DeletePastValue`, whose if-and-only-if says exactly which deletes change nothing. |
| PathTokenizer.Split | src/patch_and_update_document_handler.ts:40 | `key.split('.')` gives at least one part, and no part contains a dot. |
| PathTokenizer.SplitCount | src/patch_and_update_document_handler.ts:40 | The number of parts is the number of dots plus one. |
| PathTokenizer.JoinSplit | src/patch_and_update_document_handler.ts:40 | Joining the parts with `.` gives the key back. |
| PathTokenizer.SplitJoin | src/patch_and_update_document_handler.ts:40 | Splitting a join of dot-free parts gives the parts back. |
| PathTokenizer.TokenizeTwo | src/patch_and_update_document_handler.ts:40 | A key `a.b` with dot-free `a` and `b` is the two segments parsed from `a` and from `b`. |
| PathTokenizer.TokenizeThree | src/patch_and_update_document_handler.ts:40 | Likewise for `a.b.c`. |
| PathTokenizer.OpenBracketFrom | src/patch_and_update_document_handler.ts:48 | The lazy `(.+?)` stops at the first `[` at or after the start position. |
| PathTokenizer.IsLineTerminator | src/patch_and_update_document_handler.ts:48 | Reference definition of the characters `.` in a regular expression does not match: `\n`, `\r`, U+2028 and U+2029. No contract; stated through `ParseSegment` and `ParseRender`. |
| PathTokenizer.IsBracketForm | src/patch_and_update_document_handler.ts:48-51 | Reference definition of a successful `match`: no line terminator, a final `]`, and a `[` at position 1 or later. No contract; it is the condition of `ParseSegment`'s if-and-only-if and of `Tokenize`'s `Indexed?` clause, and `TokenizeSingleField` and `LeadingBracketIsField` use it. |
| PathTokenizer.ParseSegment | src/patch_and_update_document_handler.ts:48-53 | A part is `Indexed` if and only if it has no line terminator, ends in `]` and has a `[` at position 1 or later. An indexed part is exactly `name + "[" + id + "]"`, where `name` is non-empty and has no `[` past its first character. Any other part is a `Field` named by the whole part. |
| PathTokenizer.ParseRender | src/patch_and_update_document_handler.ts:48-53 | Parsing the written form of a segment gives the segment back, for every segment the pattern can produce. |
| PathTokenizer.Tokenize | src/patch_and_update_document_handler.ts:40-53 | There is one segment per dot-separated part, and each segment is that part matched against the pattern: indexed exactly when the part is in bracket form. Each segment, written out, is its part. |
| PathTokenizer.TokenizeRoundTrip | src/patch_and_update_document_handler.ts:40-53 | Writing the segments of a key back out gives the key. |
| PathTokenizer.TokenizeRenderPath | src/patch_and_update_document_handler.ts:40-53 | Segments that are dot-free and parse back are recovered from their written path. |
| ArrayLocator.FindById | src/patch_and_update_document_handler.ts:72 | The result is -1 exactly when no element has that `_id` (scalars never do). Otherwise it is the first index whose element is an object with `_id === id`. |
| ArrayLocator.FindByIdAppend | src/patch_and_update_document_handler.ts:84 | A pushed element that does not match leaves the lookup unchanged. A matching one is found at the end when nothing before it matched. |
| Cursor.ObjAt | src/patch_and_update_document_handler.ts:43-110 | Reference definition of where `currentPart` stands (set at lines 43, 94 and 110): the object reached from the root by the path of steps, if every step lands on an object. No contract; stated through `PutAt`, `PutAtSelf`, `ObjAtExtend`, the contract of `Descend`, and the loop invariant `ObjAt(root, cursor) == Some(current)` of `WalkSegments`. |
| Cursor.PutAt | src/patch_and_update_document_handler.ts:94-110 | After a write at the cursor's path, the object at that path is the one written. |
| Cursor.PutAtLocal | src/patch_and_update_document_handler.ts:94-110 | A write at the cursor changes only the root property the path starts with. Through an array it keeps that array's length and its other elements. |
| Cursor.PutAtSelf | src/patch_and_update_document_handler.ts:66-67 | Writing back the object already at the cursor changes nothing. |
| Cursor.ObjAtExtend | src/patch_and_update_document_handler.ts:94-110 | After the cursor moves one step, it stands on the object that step reaches in the updated parent. |
| Cursor.PutAtExtend | src/patch_and_update_document_handler.ts:94-110 | Writing the parent and then the child one step further equals writing the parent with the child already updated. |
| MutationExecutor.Tagged | src/patch_and_update_document_handler.ts:81 | Reference definition of the stored value: `{ _id: id, ...value }` for an object or array, the value itself otherwise. No contract; stated through `IndexedWriteObject`, `IndexedWriteScalar` and `IndexedOnFalsyLast`. |
| MutationExecutor.IsObjectType | src/patch_and_update_document_handler.ts:81 | Reference definition of `typeof update[key] === 'object'` for a value other than `null`: an object or an array. No contract; stated through `IndexedWriteObject`, which tags an object payload, and `IndexedWriteScalar`, which stores a string, number or boolean untagged. |
| MutationExecutor.NotAnArrayMessage | src/patch_and_update_document_handler.ts:66 | Reference definition of the logged text `<name> is not an array.`. No contract; stated through `AbandonAtRootChangesNothing`, `AbandonKeepsVivified`, `IndexedPastScalar` and `AbandonKeepsCreatedObject`. |
| MutationExecutor.ApplyLast | src/patch_and_update_document_handler.ts:55-104 | Reference definition of the last segment (the `isLast` branches of lines 55-88 and 98-104). It always completes. No contract; stated through `FieldSetReplaces`, `FieldDeleteRemoves`, `IndexedDelete`, `IndexedWriteObject`, `IndexedWriteScalar`, `IndexedOnFalsyLast`, `IndexedOnNonArrayLast` and `NestedKey`. |
| MutationExecutor.BeyondValue | src/patch_and_update_document_handler.ts:56-110 | Reference definition of the segment after a field holding a truthy value other than an object. No contract; stated through `IndexedPastScalar`, `DeletePastValue`, `StuckOnlyPastValue` and `WalkPastValue`. |
| MutationExecutor.Walk | src/patch_and_update_document_handler.ts:46-113 | Reference definition of the segment loop, by recursion over the segments. No contract; `WalkSegments` computes it, and the PatchProperties lemmas state its behaviour. |
| MutationExecutor.Graft | src/patch_and_update_document_handler.ts:94-110 | Reference definition: the outcome of a sub-walk from the cursor, written back at the cursor path. No contract; stated through `WalkIntoObject`, `WalkEnter` and `GraftExtend`. |
| MutationExecutor.GraftExtend | src/patch_and_update_document_handler.ts:94-110 | Grafting one step further equals grafting the parent with the child already grafted. |
| MutationExecutor.ApplyKey | src/patch_and_update_document_handler.ts:40-113 | Reference definition of one key: tokenize, then walk. No contract; `WalkKey` computes it, with `TokenizeSingleField`, `NestedKey` and the scenarios stating it on concrete keys. |
| MutationExecutor.ApplyPair | src/patch_and_update_document_handler.ts:39 | Reference definition of one more pair: applied, or abandoned with its diagnostic appended, or the whole update failed at that key. No contract; stated through `ApplyPairPrefix` and `RunSnoc`. |
| MutationExecutor.Run | src/patch_and_update_document_handler.ts:39-114 | Reference definition of the `forEach`, as a left fold over the pairs. No contract; `Document.Patch` computes it, and `RunAppend`, `RunFailedPrefix` and `AbandonedKeyIsLocal` state how it composes. |
| MutationExecutor.Descend | src/patch_and_update_document_handler.ts:89-111 | A step that enters something enters an object, reachable in the updated parent by the step taken. The cursor lands on a value other than an object exactly when a field segment finds a truthy value that is not an object. |
| MutationExecutor.WalkSegments | src/patch_and_update_document_handler.ts:43-113 | The segment loop with its in-place writes computes `Walk`. |
| MutationExecutor.WalkKey | src/patch_and_update_document_handler.ts:40-113 | Tokenizing and then walking computes `ApplyKey`. |
| MutationExecutor.WalkEnter | src/patch_and_update_document_handler.ts:94-110 | Moving `currentPart` one segment keeps the loop invariant: the root-level result of the rest of the walk is unchanged. |
| MutationExecutor.WalkPastValue | src/patch_and_update_document_handler.ts:61-67 | A key that reaches a value other than an object stops at the next part, with the document as the walk had written it: unchanged for a delete of a missing property, abandoned for an indexed part, otherwise undefined. |
| MutationExecutor.WalkNotAnArray | src/patch_and_update_document_handler.ts:61-67 | When a key is abandoned, the document is left exactly as the walk had written it. |
| MutationExecutor.RunNext | src/patch_and_update_document_handler.ts:39 | The update up to one more pair is that pair applied to what the earlier pairs left. |
| MutationExecutor.RunFailedPrefix | src/patch_and_update_document_handler.ts:39 | Once a prefix of the update is stuck, so is the whole update. |
| MutationExecutor.Document.Patch | src/patch_and_update_document_handler.ts:39-114 | The `forEach`, updating `root` in place, computes `Run` on the old root, and the diagnostics are returned in order. A failed update stops at the first stuck key, with `root` holding what the keys before it made. |
| MutationExecutor.PatchAndUpdateDocumentHandler | src/patch_and_update_document_handler.ts:37-118 | It returns the same document object, patched as `Run` says. |
| PatchProperties.TokenizeSingleField | src/patch_and_update_document_handler.ts:40-53 | A dot-free key not in bracket form is the single field named by the key. |
| PatchProperties.FieldSetReplaces | src/patch_and_update_document_handler.ts:103 | Setting a root field stores exactly the value, replacing the whole subtree. The other fields are unchanged. |
| PatchProperties.FieldDeleteRemoves | src/patch_and_update_document_handler.ts:101 | `null` removes the field and keeps the other fields. Nothing changes if the field is absent. |
| PatchProperties.WalkFieldsIdempotent | src/patch_and_update_document_handler.ts:98-111 | A walk over field segments only is never abandoned. Repeating its result changes nothing. |
| PatchProperties.FieldSetIdempotent | src/patch_and_update_document_handler.ts:98-111 | The same fields-only key applied twice equals applying it once. |
| PatchProperties.AutoVivify | src/patch_and_update_document_handler.ts:107-110 | A falsy or absent field before the last segment becomes `{}` and is entered. An existing object is entered unchanged. |
| PatchProperties.WalkFieldsOnFreshObject | src/patch_and_update_document_handler.ts:105-111 | Fields-only segments walked from `{}` build the nested chain with the value at its end. |
| PatchProperties.VivifyFromRoot | src/patch_and_update_document_handler.ts:105-111 | A falsy first field receives the whole nested chain. The other root fields stay. |
| PatchProperties.IndexedDelete | src/patch_and_update_document_handler.ts:77-78 | A delete by `_id` removes exactly the first match. The length drops by one and the others stay in order. With no match nothing changes. |
| PatchProperties.IndexedWriteObject | src/patch_and_update_document_handler.ts:81-87 | An object payload is stored as `{ _id: id, ...payload }`, so a payload `_id` wins. It replaces the first match or is appended. Other elements are untouched. |
| PatchProperties.IndexedWriteScalar | src/patch_and_update_document_handler.ts:81-87 | A string, number or boolean payload is stored as it is, in place of the first match or at the end. |
| PatchProperties.IndexedOnFalsyLast | src/patch_and_update_document_handler.ts:56-58 | On the last segment a falsy field first becomes `[]`. A delete leaves `[]`, and a write gives a one-element array. |
| PatchProperties.IndexedOnNonArrayLast | src/patch_and_update_document_handler.ts:61-64 | On the last segment a truthy non-array becomes `[{ _id: id, ...value }]`, whatever the value, `null`, strings and arrays included. |
| PatchProperties.IndexedOnNonArrayMidPath | src/patch_and_update_document_handler.ts:61-67 | Before the last segment, a non-array or absent field abandons the key. The diagnostic is `<name> is not an array.` and the cursor's object is unchanged. |
| PatchProperties.AbandonAtRootChangesNothing | src/patch_and_update_document_handler.ts:61-67 | A key abandoned at its first segment leaves the whole document unchanged. |
| PatchProperties.AbandonKeepsVivified | src/patch_and_update_document_handler.ts:61-67 | A key abandoned one level down keeps the `{}` it created on the way. |
| PatchProperties.IndexedPastScalar | src/patch_and_update_document_handler.ts:61-67 | After a field holding a non-empty string, a non-zero number or `true`, an indexed part before the last abandons the key with `<name> is not an array.` and the object under the cursor is unchanged. |
| PatchProperties.DeletePastValue | src/patch_and_update_document_handler.ts:100-101 | `a.b` over a truthy non-object `a` completes exactly when it deletes a property `a` does not have, and then changes nothing. For a number or boolean every delete completes. It is never abandoned. |
| PatchProperties.Reaches | src/patch_and_update_document_handler.ts:94-110 | Reference definition: the walk from segment i enters objects up to segment j and stands on c there. No contract; used by `StuckOnlyPastValue`. |
| PatchProperties.UndefinedPastValue | src/patch_and_update_document_handler.ts:56-110 | Reference definition: in the reached object, segment j is a field holding a truthy value other than an object, and the next step is undefined. No contract; used by `StuckOnlyPastValue`. |
| PatchProperties.StuckOnlyPastValue | src/patch_and_update_document_handler.ts:46-113 | A walk is undefined exactly when it reaches an object (`Reaches`) with a field holding a truthy value other than an object, and the next step past it is undefined. |
| PatchProperties.StuckPastValue | src/patch_and_update_document_handler.ts:46-113 | The converse half: a walk that reaches such a field is undefined. |
| PatchProperties.IndexedMidPath | src/patch_and_update_document_handler.ts:89-95 | Before the last segment, a missing id appends exactly one stub `{ _id: id }`, which the walk enters. A found id is entered with the array unchanged. |
| PatchProperties.IndexedThenFieldKeepsSiblings | src/patch_and_update_document_handler.ts:89-104 | `name[id].field` on a found element sets that field only. The element's other fields, the other elements and the other properties stay. |
| PatchProperties.IndexedThenFieldOnMissing | src/patch_and_update_document_handler.ts:89-104 | `name[id].field` with no match appends `{ _id: id, field: value }`. |
| PatchProperties.WalkIntoObject | src/patch_and_update_document_handler.ts:105-111 | A field segment over an object runs the rest of the walk inside it and writes the result back in its place. |
| PatchProperties.NestedKey | src/patch_and_update_document_handler.ts:46-113 | For `a.b` over an existing object `a`, the last segment acts inside `a` and the rest of the document is unchanged. |
| PatchProperties.RunSnoc | src/patch_and_update_document_handler.ts:39 | One more pair runs on the document the earlier pairs left. |
| PatchProperties.RunOne | src/patch_and_update_document_handler.ts:39 | A one-pair update is that pair applied to the document. |
| PatchProperties.ApplyPairPrefix | src/patch_and_update_document_handler.ts:39 | Earlier diagnostics stay in front of a pair's own diagnostic. |
| PatchProperties.RunAppend | src/patch_and_update_document_handler.ts:39-46 | Keys apply in update order, each walk restarting at the root. A later part of the update sees the earlier part's document, and the diagnostics concatenate. |
| PatchProperties.AbandonedKeyIsLocal | src/patch_and_update_document_handler.ts:62-67 | An abandoned key contributes its partial writes and one diagnostic. The next keys run normally. |
| Scenarios.LeadingBracketIsField | src/patch_and_update_document_handler.ts:48 | `[x]` is a plain field, since `(.+?)` needs one character before the bracket. |
| Scenarios.TokenizeAB1 | tests/patch_and_update_document_handler.test.ts:134-161 | `a.b[1]` is the field `a`, then the element of `b` with `_id` "1". |
| Scenarios.DeleteMiddleItem | tests/patch_and_update_document_handler.test.ts:134-161 | Deleting `b[1]` from `[x, y, z]`, where y is the first element with `_id` "1", leaves `[x, z]`. The ids are shortened from the test's. |
| Scenarios.DeleteItemOne | tests/patch_and_update_document_handler.test.ts:134-161 | `"a.b[1]": null` on `{ a: { b: [x, y, z] }, value: v }` removes the middle element under `a`. Nothing else changes. |
| Scenarios.DeleteValue | tests/patch_and_update_document_handler.test.ts:221-242 | `"value": null` removes the root field. |
| Scenarios.SetAC | tests/patch_and_update_document_handler.test.ts:163-190 | `"a.c": w` adds or replaces `c` inside `a`. |
| Scenarios.EndToEnd | src/patch_and_update_document_handler.ts:39-114 | The keys of three tests in one update (delete an element, delete a root field, set a nested field) give the combined document, with no diagnostic. |
| Scenarios.SetSomething | tests/patch_and_update_document_handler.test.ts:264-293 | `"something": u` sets that root field. |
| Scenarios.MultipleOperations | tests/patch_and_update_document_handler.test.ts:264-293 | `{ value: null, something: u, "a.c": w }` removes `value`, sets `something`, sets `c` inside `a` and keeps the rest of `a` (its array included), with no diagnostic. |
| Scenarios.ParseEmptyId | tests/patch_and_update_document_handler.test.ts:295-323 | `x[]` is the element of `x` with the empty id. |
| Scenarios.AppendToMissing | tests/patch_and_update_document_handler.test.ts:295-323 | `"x[]": s` on a document without `x` creates `x = [s]`. |
| Scenarios.AppendToScalars | src/patch_and_update_document_handler.ts:81-84 | `"x[]": s` on an array without objects appends s. |
| Scenarios.AppendIsNotIdempotent | src/patch_and_update_document_handler.ts:83-84 | The same `"x[]": s` applied twice gives `[s, s]`. |
| Scenarios.AbandonKeepsCreatedObject | src/patch_and_update_document_handler.ts:61-67 | `"v.x[1].y"` without `v` leaves `v = {}` and logs `x is not an array.`. |
| Scenarios.EmptyIdMatchesEmptyString | src/patch_and_update_document_handler.ts:72 | `name[]` replaces an element whose `_id` is `""`. |
| Scenarios.TokenizeBId | tests/patch_and_update_document_handler.test.ts:35-53 | `b[id]`, for an id without a dot or a line terminator, is the element of `b` with that id. |
| Scenarios.NewArrayOnRoot | tests/patch_and_update_document_handler.test.ts:35-53 | `b[id]` with an object on a document without `b` creates `b = [{ _id: id, ...payload }]`. The other fields stay. |
| Scenarios.CoerceScalarToArray | tests/patch_and_update_document_handler.test.ts:71-80 | `"a.b[123]"` over a string `a.b` makes `a.b` the array holding the tagged payload. |
| Scenarios.CoerceLast | src/patch_and_update_document_handler.ts:61-64 | On the last segment, a non-empty string field becomes `[{ _id: id, ...payload }]`. |
| Scenarios.ScalarThenIndexedAbandons | src/patch_and_update_document_handler.ts:61-67 | `"v.x[1].y"` over a non-empty string, non-zero number or `true` in `v` logs `x is not an array.` and leaves the document unchanged. |
| Scenarios.AbandonThenContinue | src/patch_and_update_document_handler.ts:39-67 | After that abandoned key, the next key `something` still runs, and the one diagnostic is logged. |
| Scenarios.IndexPropsPair | src/patch_and_update_document_handler.ts:63 | Spreading two elements gives exactly the properties `"0"` and `"1"` holding them. |
| Scenarios.SpreadTwoChars | src/patch_and_update_document_handler.ts:63 | Spreading a two-character string gives exactly `"0"` and `"1"` holding its characters. |
| Scenarios.SpreadStringPayload | src/patch_and_update_document_handler.ts:63 | `name[id]` with the string payload `"ab"` over a truthy non-array stores `{ _id: id, 0: "a", 1: "b" }`. |

## Left out

- Logging. `console.log(JSON.stringify(document, null, 2))` (line 116) is output only and is not modelled. The `console.error` of line 66 is the diagnostic returned with `Abandoned`, not I/O.
- The module-level sample documents and the call made at import (lines 121-195). They are data, not logic.
- The TypeScript interfaces (lines 1-34). The `Node` datatype stands for them.
- The compiled copy `dist/patch_and_update_document_handler.js`. It is the same function, with `Object.assign` in place of the spread. It does carry `"use strict"`, which is why writing into a primitive is `Stuck` rather than silently ignored.
- Floating-point numbers: `Num` holds an integer, and falsiness only treats `0` as false. `NaN` and `-0` are not modelled.
- The order of keys in an object. `Fields` is a map, so `JSON.stringify`'s key order is not modelled.
- `Object.keys` order of the update: the update is an explicit sequence of pairs, applied in sequence order.
- Prototype-inherited properties. The model's lookup of `currentPart[name]` sees only the object's own fields. The JavaScript lookup also finds inherited properties and the `__proto__` accessor. For example, `currentPart["toString"]` is the inherited function, so line 107 creates no `{}` and the walk moves onto that function. Keys naming such properties are not modelled.
- Reference aliasing. The model works on values: a payload object stored without cloning and later changed through another reference is not captured. The document is a value held by the `Document` object, and a cursor path stands for the reference `currentPart`.
- Steps the model leaves undefined (`Stuck`, then `Failed` for the whole update). All of them come after a field segment that lands on a truthy value other than an object (`StuckOnlyPastValue`). Under strict mode (`"use strict"` in the compiled copy) some of them throw a `TypeError`:
  - creating a property on a string, number or boolean: setting a field (line 103), the `{}` of line 108 for a property the value lacks, and the `[]` or one-element array of lines 57 and 63;
  - deleting `length` or a character of a string, or the `length` of an array (line 101);
  - setting an array's `length` to a value that is not a valid array length, such as the `{}` of line 108 or the one-element array of line 63 (a `RangeError`).

  The others carry on in JavaScript, and the model does not follow them:
  - a field before the last over a string whose `length` or character is truthy (line 110): the cursor moves onto a number or a one-character string;
  - a field before the last over an array whose element at that index, or whose non-zero `length`, is truthy (line 110): the cursor moves onto it. So `"a.0.x": 2` over `{ a: [{ x: 1 }] }` gives `{ a: [{ x: 2 }] }` in the JavaScript, and the later keys run;
  - a last indexed part over an array whose element at that index is itself an array (lines 72-87): the `findIndex`, and the splice, replace or push, act on that nested array;
  - other writes into an array through its cursor (lines 57, 63, 103, 108): they set an element or a valid `length`, or add a named property that the `Arr` value cannot hold;
  - deleting an element of an array through its cursor (line 101), which leaves a hole;
  - an indexed part before the last whose index names an element of the array that is itself an array (line 61): the walk goes on inside that nested array.

  On `Failed`, `Document.Patch` leaves `root` as the keys before the failing one made it, without any of the failing key's own writes. The JavaScript differs in two ways:
  - where it throws, it keeps what the failing key wrote before the throw. An example is a `{ _id: id }` stub pushed at line 91 or a `{}` created at line 108. With `{ a: [] }` and `"a[7]._id.x": 1`, the stub `{ _id: "7" }` is pushed, the cursor moves onto the string `"7"`, and line 103 throws. The document is then `{ a: [{ _id: "7" }] }`, where the model's `root` stays `{ a: [] }`;
  - where it does not throw, it goes on with the later keys.
- Characters of a string: object spread copies UTF-16 code units, and `Chars` copies Dafny characters (Unicode scalar values). They differ for a character outside the Basic Multilingual Plane.

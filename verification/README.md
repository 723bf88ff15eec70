# groovy.utils collection helpers in Dafny

This project models the collection helpers of groovy.utils, a small JavaScript
library. It covers `each`, `grep`, `collect` and `collectEntries` as written in
`src/groovy.utils.js` and `src/groovyjs.js`, and the standalone `each` of
`index.js`. It also proves properties of that model.

- **`each`**
  - Takes `(obj, context, handler)` with 1/2/3-argument overloading.
  - Calls `handler.call(context, value, key, index)` for every own enumerable
    entry of an object.
  - A key named `"length"` is skipped on arrays and on the array-like host
    lists (HTMLCollection, NodeList, FileList).
  - `index` counts the calls made.
  - It returns the collection it was given.
- **`grep`** keeps the entries whose handler result is not strictly `false`.
  Arrays are packed; on objects each kept entry stays under its key.
- **`collect`** replaces each entry by the handler's result.
  - On an object, a `false` result deletes the key.
  - On an array, `list[key] = result` is followed by `list.splice(key, 1)` when
    the result is `false`.
- **`collectEntries`** writes `list[result[0]] = result[1]` for every non-false
  result.
  - In `src/groovy.utils.js` the container is an array when the input is an
    array.
  - In `src/groovyjs.js` it is always a plain object.

Modules:

- **`JsValues`** (`js_values.dfy`): the slice of JavaScript values the helpers
  observe.
  - Arrays are sequences of slots, so a slot can be a hole.
  - Objects hold their own enumerable properties in enumeration order.
  - Covers the canonical decimal spelling of array indices and the property
    writes and deletions the helpers perform.
- **`Iteration`** (`iteration.dfy`): the overloading and `each`.
  - A run of `each` is described by the sequence of calls it makes, each
    recorded with the handler's result.
  - Handlers are Dafny functions of `(this, value, key, index)`.
  - A handler argument that is not a function is `NotFn`.
- **`Combinators`** (`combinators.dfy`): `grep`, `collect` and `collectEntries` of
  `src/groovy.utils.js`.
  - Each output is defined as a fold over the calls `each` makes and related
    to an independent description: the kept calls, the last pair per key, or
    the index each result is written at.
  - The module also holds `CollectCompacting`, the `collect` that its own
    documentation describes (see Findings).
- **`GroovyJs`** (`groovyjs.dfy`): the one behaviour in `src/groovyjs.js` that
  differs, which is `collectEntries`.
  - Its `each`, `grep` and `collect` bodies are the same code as in
    `src/groovy.utils.js`, so they are modelled once.
- **`Examples`** (`examples.dfy`): the assertions of `specs/each.spec.js` and the
  examples in the source's doc comments, worked through the model.

Behaviours of the code that the model keeps:

- **`each` has no early exit.** The loop never reads the handler's result
  (src/groovy.utils.js:89), so a handler answering `false` is still called on
  every later entry. See `Iteration.HandlerResultIgnored` and
  `Examples.EachDoesNotStopOnFalse`.
- **Only `"length"` is excluded.** The test at src/groovy.utils.js:84-88 drops
  a key only when it is `"length"` and the collection is array-like.
- **A non-function handler throws in `grep`, `collect` and `collectEntries`.**
  - The callback they hand to `each` is always a function, so `each` walks
    the collection.
  - Its first `handler.call` (src/groovy.utils.js:124, :166, :204) then throws
    a TypeError.
  - The model returns `Threw(TypeError)` exactly when the handler is not a
    function and at least one entry is visited.
- **`this` is bound in non-strict mode.**
  - None of the three files is strict code (index.js:2,
    src/groovy.utils.js:2). In the one- and two-argument forms, `this` is
    therefore never a primitive.
  - `undefined` and `null` become the global object.
  - A string becomes its String wrapper, which is walked code unit by code
    unit (one per character for BMP text; see Left out).
  - Numbers and booleans become wrappers with no own enumerable properties.
  - `JsValues.BindThis` performs this binding. Every helper takes its
    receiver after it.
- **`collect` on an array leaves holes.** Its doc comment
  (src/groovy.utils.js:136-142) promises the non-false results packed in
  order, but the code does not pack them (see Findings).

## Model

| member | source | states |
|---|---|---|
| JsValues.DecimalRoundTrip | src/groovy.utils.js:166-167 | the key string a handler gets for array index n addresses index n again when used as `list[key]` or `list.splice(key, 1)` |
| JsValues.ParseRoundTrip | src/groovy.utils.js:83 | every canonical index string is the decimal spelling of the index it denotes |
| JsValues.IndexKeysDistinct | src/groovy.utils.js:125 | distinct array indices reach handlers as distinct key strings |
| JsValues.IndexKeyIsNotLength | src/groovy.utils.js:84-88 | an index key is never the string "length", so the length test never hides an array element |
| JsValues.PutEffect | src/groovy.utils.js:125 | `obj[name] = v` makes `name` read `v`, leaves every other key's value alone, and appends a new key at the end of the enumeration order |
| JsValues.Delete | src/groovy.utils.js:167 | `delete obj[name]` removes `name`, leaves every other key's value alone, and is a no-op on an absent key |
| JsValues.NamesFollowLookups | src/groovy.utils.js:125 | an object that reads like another except that one more name is set has exactly the other's names plus that one |
| JsValues.BindThis | index.js:15-23 | the `this` a non-strict helper sees: an object or function passes unchanged, `undefined` and `null` become the global object, a string becomes its wrapper with one property per character named by its index, and a number or boolean becomes a wrapper with no own enumerable properties |
| JsValues.BindThisWellFormed | index.js:17-18 | binding `this` never produces an object with a repeated property name |
| JsValues.SetIndex | src/groovy.utils.js:166 | `arr[i] = v` puts `v` at `i`, keeps other slots, and writing past the end grows the array with holes in between |
| JsValues.SpliceOne | src/groovy.utils.js:167 | `arr.splice(i, 1)` removes slot `i` and shifts the later ones down; a start at or past the end changes nothing |
| Iteration.ArrayEntries | src/groovy.utils.js:83-84 | `for..in` over an array yields each element (holes excluded) exactly once, at its own index, in ascending index order |
| Iteration.VisibleMembers | src/groovy.utils.js:84-88 | an entry survives the length test exactly when it is not a "length" key of an array-like collection |
| Iteration.Walk | src/groovy.utils.js:83-89 | the loop makes exactly as many calls as there are entries surviving the length test (which call is which: `Iteration.WalkCalls`) |
| Iteration.WalkCalls | src/groovy.utils.js:83-89 | the j-th call of the loop is made on the j-th surviving entry, in order, and its `index` counts only the calls made before it |
| Iteration.Invocations | src/groovy.utils.js:82-89 | the j-th call receives the context, the j-th visited entry's value and key, and index j |
| Iteration.Each | index.js:12-37 | `each` returns the resolved collection; it makes one call per visited entry with a callable handler and none otherwise; each call gets the resolved context, the entry's key and value, and its ordinal |
| Iteration.HandlerResultIgnored | src/groovy.utils.js:89 | two handlers that differ only in what they return lead to the same calls with the same arguments: no early exit |
| Iteration.FalseDoesNotStopEach | index.js:33 | a handler that always returns `false` is still called on every visited entry |
| Iteration.ArrayVisitsEveryElement | src/groovyjs.js:76-82 | on an array every element is visited, in ascending index order, with key text equal to the index's decimal spelling; nothing else is visited |
| Iteration.ObjectVisits | src/groovyjs.js:77-82 | on an object each own property is visited exactly when it is not named "length" or the object is plain; only own properties are visited |
| Iteration.VisitedKeysDistinct | src/groovyjs.js:76 | `for..in` on a well-formed collection never hands two calls the same key string |
| Iteration.InertUnlessObjectAndFunction | index.js:26-36 | with a non-object collection or a non-function handler, `each` calls nothing and returns the collection |
| Iteration.OneArgumentUsesReceiver | index.js:15-19 | with one argument, the bound receiver is both the collection walked and `this` in every call, and is returned |
| Iteration.WrapperVisited | index.js:27-33 | `for..in` over a String wrapper visits each character once, in order, under its index's decimal spelling, and skips nothing |
| Iteration.StringReceiverWalksCharacters | index.js:15-33 | `each.call(s, h)` on a string walks its wrapper: `h` gets each character under its index's decimal spelling, with the wrapper as `this` and the running index, and the wrapper is returned |
| Iteration.TwoArgumentsDefaultContext | index.js:21-24 | with two arguments, the first is walked and returned and the bound receiver is `this` in every call |
| Combinators.KeptMembers | src/groovy.utils.js:124 | the kept calls are exactly the calls whose result is not strictly `false`, in order |
| Combinators.GrepSlots | src/groovy.utils.js:125 | pushing every kept value gives the array of kept values in visit order |
| Combinators.GrepPropsAreKeptValues | src/groovy.utils.js:123-127 | with distinct keys, assigning `list[key] = value` for kept calls gives exactly the kept (key, value) pairs in visit order |
| Combinators.Grep | src/groovy.utils.js:107-130 | `grep` throws exactly when the handler is not a function and an entry is visited; otherwise an array input gives the array of kept values and an object input gives a plain object of the kept (key, value) pairs |
| Combinators.GrepObjectKeepsExactlyNonFalse | src/groovy.utils.js:121-127 | on an object, the key of every visited entry is present in the result, with its original value, exactly when the predicate did not return `false`; no other key appears |
| Combinators.GrepOnStringReceiver | src/groovy.utils.js:110-125 | `grep.call(s, h)` on a string gives an object, not an array: each character `h` did not reject is under its index's decimal spelling, and no other key is present |
| Combinators.CollectArrayKeepsPositions | src/groovy.utils.js:165-169 | on an array, write-then-splice never shifts anything: each non-false result sits at its own index, every other slot is a hole, and the length is one past the last index, or the last index itself when its result was `false` |
| Combinators.CollectArrayHoles | src/groovy.utils.js:166-167 | on an array, the index of an entry whose result was `false` is left a hole or lies past the end of the result |
| Combinators.CollectSlotsLength | src/groovy.utils.js:166-167 | the length of the array `collect` builds is the one stated above |
| Combinators.CollectPropsAreKeptResults | src/groovy.utils.js:166-167 | on an object with distinct keys, writing every result and deleting the `false` ones leaves exactly the non-false (key, result) pairs in visit order |
| Combinators.DeleteUndoesAppend | src/groovy.utils.js:167 | deleting a freshly appended key restores the object |
| Combinators.Collect | src/groovy.utils.js:149-172 | `collect` throws exactly as `grep` does; on an array it is the array of the write-then-splice steps, with the length stated above; on an object it is the non-false results under their keys |
| Combinators.CollectObjectDeletesExactlyFalse | src/groovyjs.js:154-160 | on an object, the key of every visited entry holds its handler result exactly when that result is not `false`; no other key appears |
| Combinators.CollectArrayResult | src/groovyjs.js:156-160 | on an array, every non-false result is at its entry's index, a `false` result leaves that index a hole or past the end, and every element comes from a visited entry at that index |
| Combinators.CompactSlots | src/groovy.utils.js:136-142 | the documented `collect` on an array: the non-false results packed in visit order |
| Combinators.CollectCompacting | src/groovy.utils.js:140-142 | the documented `collect`: same failure and object behaviour as `Collect`, and an array input gives the packed non-false results |
| Combinators.EntryProps | src/groovy.utils.js:203-208 | the keys written are exactly the keys of the pairs returned; each holds the value of the last pair returned for it; no key appears twice |
| Combinators.AddPairStep | src/groovy.utils.js:204-207 | one `collectEntries` step keeps the object holding the last pair per key: the new pair's key now reads its value, the others are unchanged, and no key repeats |
| Combinators.PutKeepsDistinct | src/groovy.utils.js:206 | assigning a property never duplicates a key |
| Combinators.CollectEntries | src/groovy.utils.js:188-210 | throws exactly when the handler is not a function and an entry is visited; the container is an array exactly when the input is one; its keys are the pair keys and each holds the last value paired with it |
| GroovyJs.CollectEntries | src/groovyjs.js:178-199 | always a well-formed plain object, with the same keys and last-pair values, and the same failure condition |
| GroovyJs.CollectEntriesVersionsAgree | src/groovyjs.js:179 | the two versions write the same properties and fail alike; they differ only in the container used for an array input |
| GroovyJs.NonCollectionGivesEmptyObject | src/groovyjs.js:115-123 | on a collection that is not an object (a primitive passed explicitly, or a function bound as `this`), `grep`, `collect` and `collectEntries` return an empty plain object |
| Examples.SpecEachReturnsInput | specs/each.spec.js:6-7 | `each([1,2,3], noop)` returns `[1,2,3]` and `each({a:1,b:2,c:3}, noop)` returns that object |
| Examples.SpecEachHandlerArguments | specs/each.spec.js:13-19 | the handler of `each([1], ...)` sees `(1, "0", 0)` and that of `each({a: 1}, ...)` sees `(1, "a", 0)` |
| Examples.EachBoundDocExample | src/groovy.utils.js:51-55 | `each.bind({a: 10, b: 20})(h)` calls `h` with `(10, "a", 0)` and `(20, "b", 1)`, with the bound object as `this`, and returns it |
| Examples.EachDocExampleContext | src/groovy.utils.js:57-61 | `each([1,2,3], {multiply: 4}, h)` calls `h` three times with that context, the values 1, 2, 3, keys "0", "1", "2" and indices 0, 1, 2, and returns the array |
| Examples.EachDoesNotStopOnFalse | src/groovy.utils.js:89 | a handler answering `false` is called on all three elements of `[1,2,3]` |
| Examples.LengthKeyExample | src/groovy.utils.js:84-88 | a "length" property is visited on a plain object and skipped on an array-like one |
| Examples.GrepDocExample | src/groovy.utils.js:99-100 | `grep([1,2,3], even)` is `[2]` |
| Examples.CollectDocExampleLeavesHole | src/groovy.utils.js:141-142 | `collect([1,2,3], n => n%2===0 ? n*2 : false)` is `[ , 4]` (a hole, then 4), not the documented `[4]` |
| Examples.CompactingCollectMatchesDocExample | src/groovy.utils.js:141-142 | the documented `collect` gives `[4]` on that example |
| Examples.CollectEntriesDocExample | src/groovy.utils.js:180-181 | `collectEntries({a:1}, (v, k) => [k.toUpperCase(), v])` is `{A: 1}` in both versions |

## Left out

- JavaScript engine enumeration order: properties are kept in one fixed order, and arrays enumerate their indices in ascending order. Named (non-index) properties on arrays and inherited enumerable properties are not modelled. `hasOwnProperty` filters out inherited properties, and an object that overrides `hasOwnProperty` is not modelled.
- The array index limit of 2^32 - 2 and floating-point numbers: indices are unbounded naturals and numbers are integers. The handlers in the examples only need integers.
- Handler side effects (mutating the collection during the walk) and exceptions thrown by a handler: handlers are pure functions. The only exception modelled is the TypeError from calling a non-function.
- `collectEntries` results other than `false` or a `[key, value]` pair (for example `null`, a string, or a short array), and the ToPropertyKey conversion of `result[0]`: a reply is `false` or a pair whose key is already a string.
- Combinators.CollectEntries: on the array container of `src/groovy.utils.js`, a pair key that is a canonical index or "length" acts on the array's elements or length in JavaScript. The model keeps every pair as a named property of the container.
- JsValues.BindThis: strings are sequences of Unicode scalar values here, and JavaScript strings are sequences of UTF-16 code units. A character outside the BMP is therefore one String-wrapper property in the model and two in JavaScript, each holding a lone surrogate. A lone surrogate is not a Dafny `char`, so it cannot be represented.
- Iteration.WrapperVisited: same reason. A character outside the BMP is visited once here, while JavaScript visits each of its two code units.
- Iteration.StringReceiverWalksCharacters: same reason. `each.call(s, h)` makes one call per Unicode scalar value here and one per UTF-16 code unit in JavaScript. The two agree for BMP text.
- Combinators.GrepOnStringReceiver: same reason. A character outside the BMP gives one key here and two in JavaScript.
- The global object's properties: the global object is a parameter of `JsValues.BindThis`. The receiver of `each` called without `this` (for example `var e = each; e(h)`) is therefore that parameter, whatever it holds.
- Assigning to a key named `__proto__`, which changes the prototype instead of adding a property.
- Objects that have a `call` property but are not functions: a handler is either a function or not callable.
- Arguments beyond the third: the code only distinguishes one and two arguments, so a fourth is ignored, as it is in the model's three-argument form.
- In `src/groovyjs.js` the combinators reach `each` through `this.each`. The model takes that to be the library's own `each`. A receiver without an `each` method, which would throw, is not modelled.
- DOM host types: HTMLCollection, NodeList and FileList are reduced to one array-like tag. Their live updating is not modelled.
- `karma.conf.js` (test-runner configuration) is not part of this model.

## Findings

| source | as written | input that shows it | evidently intended | confidence | as-written member | corrected member |
|---|---|---|---|---|---|---|
| src/groovy.utils.js:166-167 | on an array, `collect` writes each result at the entry's own index and then splices that same index out when the result is `false`, so earlier removals never shift later results | `collect([1,2,3], n => n%2===0 ? n*2 : false)` gives an array of length 2: a hole at 0 and 4 at 1 | `[4]`, as the doc comment at src/groovy.utils.js:141-142 (and src/groovyjs.js:132-133) states: the non-false results packed in order | high, not executed | Examples.CollectDocExampleLeavesHole | Combinators.CollectCompacting |

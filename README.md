# A verified model of the food importer

`tools/import_foods.js` reads an array of raw food records and writes them to the Firestore
collection `foods`. Each record is normalized by `normalizeFood`. A record whose normalized
title is empty is skipped. The other records are staged one by one into a write batch, each
under a freshly generated document reference. `commit()` is called whenever the running count
of staged records is a multiple of 400, and once more after the loop if the count is not a
multiple of 400.

The model has four modules:

- `JsValues` (`js_values.dfy`): the JavaScript semantics `normalizeFood` relies on, stated
  after ECMA-262:
  - JSON values plus `undefined`;
  - truthiness and `||`;
  - `String(...)` (arrays are joined with `,`, plain objects give `"[object Object]"`, and
    an object with its own `toString` property throws a TypeError);
  - `Number(...)` on strings, following the StringNumericLiteral grammar;
  - `String.prototype.trim` over the WhiteSpace and LineTerminator code points of sections
    12.2 and 12.3;
  - `Array.isArray`;
  - property reads, which throw a TypeError on `null` and `undefined`.
- `Foods` (`normalize_food.dfy`): `normalizeFood` as a total function. It returns a `Food`
  document, or `TypeError` when the array element is `null` or one of the fields it converts
  holds an object with its own `toString` property, or an array containing one.
- `Batching` (`batching.dfy`): when the loop calls `commit()` and what each call delivers,
  as functions of the staged writes and the capacity `B`.
    - `InLoopCommits` and `CommitLog` describe the code as written.
    - `Chunks` describes the alternative in which a new batch follows every commit.
- `FoodImport` (`import_foods.dfy`): `run` as imperative code.
  - The Firestore handle is a `Store` class. It hands out consecutive references and records
    each commit.
  - A batch is a `WriteBatch` class with its writes, a `committed` flag, and a count of the
    `set` calls made after its first commit.
  - `Run` is the loop with any capacity `B > 0` and any per-element conversion.
  - `Import` is `run()` itself: `normalizeFood` with capacity 400.

The code creates the batch once (line 55) and never replaces it after the in-loop commit
(line 65). Every later `set` goes to the already-committed batch. The model keeps this: each
commit delivers the batch as it then stands, which is every write staged so far.

A loop that starts a new batch after every commit would instead give two commits, of 400 and
1, for 401 records. The model follows the code. The fresh-batch loop is modelled separately,
as `RunFreshBatches` (see Findings).

An element that is `null` makes `doc.title` throw. So does an element whose `title` (or
another field passed to `String` or `Number`) is an object with its own `toString` key:
`JSON.parse` makes that key a data property, which cannot be called, and no primitive is
found. `run()` then rejects, and the process exits at lines 76-79. The model stops the loop
at that element and reports `ok == false`. Commits made before it stand, and the final flush
is not reached.

## Model

| member | source | states |
|---|---|---|
| JsValues.Trim | tools/import_foods.js:39 | the result has no leading or trailing whitespace; it is empty exactly when the input is whitespace only; a string with nothing to trim is returned unchanged |
| JsValues.TrimRemovesOnlyWhiteSpace | tools/import_foods.js:39 | the input is a whitespace prefix, then the trimmed string, then a whitespace suffix |
| JsValues.TrimIdempotent | tools/import_foods.js:39 | trimming twice equals trimming once |
| JsValues.Truthy | tools/import_foods.js:39-47 | `null` and `undefined` are falsy; every array and object is truthy |
| JsValues.Or | tools/import_foods.js:39-47 | `a \|\| b` is one of its operands; it is `a` when `a` is truthy; it is truthy exactly when either operand is |
| JsValues.NatToDecimal | tools/import_foods.js:39 | `String(n)` of a non-negative integer is a digit string whose decimal value is n, with no leading zero unless it is `"0"` |
| JsValues.ToStr | tools/import_foods.js:39-44 | `String(v)` is defined when no conversion to a primitive throws; a string converts to itself; `[]` gives `''`; a one-element array converts like its element unless that is `null` or `undefined` |
| JsValues.IntToDecimal | tools/import_foods.js:39 | `String(n)` of an integer starts with `-` exactly when n is negative, and the digits after any sign are the canonical numeral of the absolute value of n: no leading zero unless the numeral is `0` |
| JsValues.ToPrimitiveThrows | tools/import_foods.js:39-47 | only arrays and objects can fail to convert to a primitive; a one-element array fails exactly when its element does |
| JsValues.Join | tools/import_foods.js:39-44 | joining n array elements gives at least n - 1 characters, and begins with the first element's string when that element is not `null` or `undefined` |
| JsValues.StringToNumber | tools/import_foods.js:45-47 | `Number(s)` of an empty or whitespace-only string is 0 |
| JsValues.NumberIgnoresSurroundingWhiteSpace | tools/import_foods.js:45-47 | whitespace around a numeric string does not change its value |
| JsValues.ToNumber | tools/import_foods.js:45-47 | `Number(v)` is defined when no conversion to a primitive throws; `[]` gives 0; a string gives its `StringToNumber` value |
| JsValues.ObjectToNumberIsNaN | tools/import_foods.js:45-47 | `Number` of a plain object is NaN |
| JsValues.Prop | tools/import_foods.js:39-49 | `v[key]` is the own property when there is one, and `undefined` otherwise |
| JsValues.IsArray | tools/import_foods.js:48-49 | `Array.isArray(v)` holds only for truthy values |
| JsValues.IntNumeralIsTrimmed | tools/import_foods.js:39 | the numeral `String(n)` writes has no surrounding whitespace, so `.trim()` leaves it unchanged |
| JsValues.IntNumeralValue | tools/import_foods.js:45-47 | the numeral `String(n)` writes is a signed integer literal whose value is n |
| JsValues.NumberOfStringOfInt | tools/import_foods.js:45-47 | `Number(String(n))` is n for every safe integer n |
| Foods.StringField | tools/import_foods.js:39-44 | `String(v \|\| '').trim()` is trimmed; it is `''` for a falsy v; it is empty exactly when v is falsy or converts to whitespace only; an already-trimmed string passes through unchanged |
| Foods.NumberField | tools/import_foods.js:45-47 | `Number(v \|\| 0)` is 0 for falsy v; it equals `Number(v)` for every v except `undefined` |
| Foods.ListField | tools/import_foods.js:48-49 | `Array.isArray(v) ? v : []` is the array's elements for an array; a non-empty result comes only from an array |
| Foods.FieldConversionThrows | tools/import_foods.js:39-47 | a converted field can throw only when the record is an object |
| Foods.NormalizeThrows | tools/import_foods.js:37-47 | normalizeFood throws on `null` and `undefined`; otherwise it throws only on an object record, never on a number, string, boolean or array |
| Foods.NormalizeFood | tools/import_foods.js:37-52 | throws exactly on `null`, `undefined`, or a record one of whose nine converted fields cannot be turned into a primitive; a non-null record whose own properties all convert never throws; otherwise the six string fields are trimmed; `updatedAt` is always the server-timestamp marker; the title is empty exactly when the raw title is falsy or whitespace only |
| Foods.OwnToStringTitleThrows | tools/import_foods.js:39 | a record whose title is an object with its own `toString` key makes normalizeFood throw |
| Foods.MissingFieldsDefault | tools/import_foods.js:39-49 | missing or falsy strings give `''`; missing or falsy numbers give 0; an array list field is passed through unchanged; any other list field gives `[]` |
| Foods.EmptyRecordNormalizesToDefaults | tools/import_foods.js:37-52 | `{}` normalizes to the all-defaults document |
| Foods.TitleOnlyNormalizes | tools/import_foods.js:37-52 | a record holding only a title normalizes to its trimmed title with every other field at its default |
| Foods.NormalizeIsIdempotent | tools/import_foods.js:37-52 | normalizing an already-normalized document (integer numbers) gives the same document |
| Foods.StringFieldFixed | tools/import_foods.js:39-44 | a trimmed string is a fixed point of the string-field conversion |
| Foods.NumberFieldFixed | tools/import_foods.js:45-47 | an integer is a fixed point of the number-field conversion |
| FoodImport.Store.constructor | tools/import_foods.js:35 | a new handle has issued no references and received no commits |
| FoodImport.Store.Doc | tools/import_foods.js:61 | returns a reference never handed out before; the commit log is unchanged |
| FoodImport.WriteBatch.constructor | tools/import_foods.js:55 | a new batch is empty and not committed |
| FoodImport.WriteBatch.Set | tools/import_foods.js:62 | appends one write; counts it as late when the batch was already committed |
| FoodImport.WriteBatch.Commit | tools/import_foods.js:64-71 | the store receives every write the batch holds; the batch is marked committed and keeps its writes |
| FoodImport.Keep | tools/import_foods.js:59-60 | an element contributes at most one document; it contributes exactly when it converts without throwing and has a non-empty title; what it contributes is that document |
| FoodImport.Kept | tools/import_foods.js:58-60 | no more documents are kept than there are elements |
| FoodImport.Processed | tools/import_foods.js:58-59 | the loop gets through a prefix of elements that all convert, and stops at the first one that throws |
| FoodImport.ProcessedStopsAtFirstThrow | tools/import_foods.js:39-59 | with normalizeFood, the loop stops exactly at the first element on which normalizeFood throws |
| FoodImport.Staged | tools/import_foods.js:61-62 | one write per kept document |
| FoodImport.StagedAppend | tools/import_foods.js:61-63 | staging one more document appends one write under the next reference |
| FoodImport.StagedWrites | tools/import_foods.js:61-62 | the k-th write stages the k-th kept document, in input order; the references are pairwise distinct and fresh |
| FoodImport.KeptAppend | tools/import_foods.js:58-60 | the documents kept from a + b are those kept from a followed by those kept from b |
| FoodImport.KeptComesFromTitledElements | tools/import_foods.js:58-60 | every kept document is the normalization of an input element, and has a non-empty title (skipped records are never staged) |
| FoodImport.AllTitledAllKept | tools/import_foods.js:58-60 | when every element has a title, every element is kept, in order |
| FoodImport.TitledCount | tools/import_foods.js:58-63 | the number of elements with a title, counted from the front, is at most the number of elements |
| FoodImport.KeptCount | tools/import_foods.js:58-63 | the number of kept documents equals TitledCount |
| FoodImport.FinishedRunCount | tools/import_foods.js:58-63 | a run that gets through every element keeps exactly TitledCount documents |
| FoodImport.KeptDocumentsAreNormalized | tools/import_foods.js:39-60 | every kept document has a non-empty, trimmed title and the server-timestamp marker |
| FoodImport.ProcessedPast | tools/import_foods.js:58-59 | an element that converts lets the loop past it |
| FoodImport.KeptStep | tools/import_foods.js:58-60 | one more element adds its document when that has a title, and nothing otherwise |
| FoodImport.Run | tools/import_foods.js:54-74 | `ok` holds exactly when no element throws; the batch holds the kept documents of the processed prefix under consecutive fresh references; `count` is their number; the store has received exactly `CommitLog(writes, B, ok)`; the batch is committed exactly when something was committed; `set` calls after the first commit number `count - B` |
| FoodImport.Stage | tools/import_foods.js:60-66 | the loop invariant survives one element: a titled document is staged and counted, and a commit happens when the count reaches a multiple of B |
| FoodImport.Flush | tools/import_foods.js:69-71 | after the final flush the store holds `CommitLog(writes, B, true)` |
| FoodImport.Import | tools/import_foods.js:54-74 | `run()` with normalizeFood and 400: `ok` holds exactly when normalizeFood throws on no element; it stages the kept documents and receives `CommitLog(writes, 400, ok)`; when `ok`, count is the number of titled elements |
| Batching.InLoopCommits | tools/import_foods.js:63-66 | when the count of writes is a positive multiple of B, the last in-loop commit delivers all of them |
| Batching.CommitLog | tools/import_foods.js:63-71 | a run stopped by an exception has only the in-loop commits; the last commit of a finished non-empty run delivers every write |
| Batching.InLoopCommitsAppend | tools/import_foods.js:63-66 | one more write adds one in-loop commit exactly when the count becomes a multiple of B |
| Batching.InLoopCommitCount | tools/import_foods.js:64-66 | the loop commits `count / B` times (floor) |
| Batching.InLoopCommitAt | tools/import_foods.js:64-66 | the k-th in-loop commit delivers the first (k + 1) B writes |
| Batching.InLoopCommitsClosedForm | tools/import_foods.js:64-66 | there are `count / B` in-loop commits; the k-th delivers a prefix of length (k + 1) B |
| Batching.InLoopCommitPoints | tools/import_foods.js:63-66 | the loop commits after the n-th write exactly when n is a positive multiple of B |
| Batching.CommitAtMultiple | tools/import_foods.js:63-66 | at every positive multiple of B the prefix so far is committed |
| Batching.CommitOnlyAtMultiple | tools/import_foods.js:63-66 | every prefix the loop commits has a length that is a multiple of B |
| Batching.CommitCount | tools/import_foods.js:64-71 | a finished run commits `ceil(count / B)` times; a run stopped by an exception commits `count / B` times |
| Batching.FinalCommitCarriesEverything | tools/import_foods.js:69-71 | no commit delivers nothing (there is no trailing empty commit); the last commit of a finished run delivers every staged write |
| Batching.NoCommits | tools/import_foods.js:64-71 | no commit happens exactly when fewer than B writes were staged and either there were none or the run stopped early |
| Batching.SingleCommitCarriesAll | tools/import_foods.js:55-71 | with at most B writes, one commit delivers all of them (none when there are none) |
| Batching.ReusedBatchRecommits | tools/import_foods.js:55-71 | with B + 1 writes the commits deliver the first B writes and then all B + 1 |
| Batching.Chunks | tools/import_foods.js:64-71 | with a new batch after every commit, each commit delivers between 1 and B writes; there are none exactly when there are no writes |
| Batching.WholeChunks | tools/import_foods.js:64-66 | the longest prefix whose length is a multiple of B; fewer than B writes remain after it |
| Batching.ChunksShape | tools/import_foods.js:64-71 | q B + r writes make q full chunks of B and, when r > 0, a last chunk of the remaining r |
| Batching.FlattenChunks | tools/import_foods.js:58-71 | the chunks, concatenated, are the writes in order |
| Batching.ChunksAppend | tools/import_foods.js:64-71 | a piece of at most B writes after whole chunks adds exactly one chunk |
| Batching.ChunksCount | tools/import_foods.js:64-71 | `ceil(count / B)` chunks that together are the writes |
| Batching.SmallRunsAgree | tools/import_foods.js:55-71 | with at most B writes, the reused batch and fresh batches commit the same thing |
| FoodImport.RunFreshBatches | tools/import_foods.js:54-74 | the corrected loop: the store receives `Chunks` of the staged writes, or the whole chunks only when a conversion throws |
| FoodImport.StageAllFresh | tools/import_foods.js:58-67 | the corrected loop's invariant at exit: whole chunks are delivered, and the current batch holds the rest |
| FoodImport.StageFresh | tools/import_foods.js:60-66 | one element of the corrected loop keeps its invariant, starting a new batch after each commit |
| FoodImport.FlushFresh | tools/import_foods.js:69-71 | the corrected final flush completes `Chunks` of all staged writes |
| FoodImport.DoneIsWholeChunks | tools/import_foods.js:64-71 | the writes delivered in whole chunks are `WholeChunks` of the staged writes |
| FoodImport.EmptyImportCommitsNothing | tools/import_foods.js:69-71 | an empty array keeps nothing and commits nothing |
| FoodImport.FullBatchCommitsOnce | tools/import_foods.js:64-71 | 400 kept documents produce exactly one commit, and no trailing one |
| FoodImport.OneOverCommitsTwice | tools/import_foods.js:55-71 | 401 kept documents produce two commits, the second re-delivering the first 400; fresh batches would give 400 and then 1 |
| FoodImport.BlankThenTitled | tools/import_foods.js:39-60 | a whitespace-only title is skipped and a trimmed title is kept |
| FoodImport.BlankTitleSkipped | tools/import_foods.js:39-60 | from `[{title: "  "}, {title: "Soup"}]` only `Soup` is kept, with default fields |
| FoodImport.KeptPair | tools/import_foods.js:58-60 | two elements contribute what each contributes, in order |
| FoodImport.TitleOnlyRecord | tools/import_foods.js:37-60 | a title-only record is skipped exactly when its title is whitespace only, and otherwise kept with the trimmed title |

## Left out

- Credential lookup, the file checks, `readFileSync`, `JSON.parse`, `firebase-admin`
  initialization, `process.exit` and `console` output (lines 1-35, 73, 76-79). These are I/O
  and library setup. The parsed array is the input of `Run` and `Import`.
- A top-level value that is not an array (lines 26-29) is an I/O precondition. It is not
  modelled.
- `async`/`await` is not modelled. The commits are awaited one after another, so the loop is
  sequential.
- Firestore itself is not modelled: its documents, its merge semantics (`{ merge: true }` is
  a no-op here because every reference is fresh), and the document IDs it generates, which are
  modelled as consecutive numbers from a counter.
- What the Firestore library does on a `set` or `commit` after a batch has been committed
  (it rejects them) is library behaviour, not part of this file. The model records those
  calls (`lateWrites`, the repeated commits) instead of raising the library's error.
- A failing `commit()` is not modelled: the store accepts every commit.
- Numbers are the safe integers. Non-integer floating-point values, `-0`, `NaN` and
  `Infinity` as inputs are not modelled.
- `JsValues.StringToNumber`: a string that JavaScript converts to -0 (`"-0"`, `" -0"`,
  `"-00"`, and arrays such as `["-0"]`) is reported as `Int(0)`. So `Number(doc.price || 0)`
  gives 0 here where JavaScript gives -0.
- Strings are sequences of Unicode code points. A JSON string holding a lone surrogate escape
  such as `"\uD800"`, which `JSON.parse` accepts, cannot be represented. Trim is unaffected,
  because every whitespace code point it removes lies in the Basic Multilingual Plane.
- `JsValues.Join`: its contract gives only a length bound and the first element's string.
  That the result is every element's string joined with `,` comes from its body alone.
  `String` of an array matters to normalizeFood only as a field value, and nothing it promises
  depends on the joined text.
- `JsValues.StringToNumber` does not evaluate a numeric string with a fraction, an exponent,
  `Infinity` or a value beyond the safe range. It is kept as `Unevaluated(literal)`, because
  its IEEE double is not computed here.
- A callable `toString` or `valueOf` is not modelled, since `JSON.parse` cannot produce a
  function. An own `toString` key is modelled as the TypeError it causes. An own `valueOf` key
  changes nothing, since the inherited `toString` still gives `"[object Object]"`.
- `NormalizeFood` does not model properties inherited through the prototype. Property reads
  return own properties only; none of the names read here is defined by `Object.prototype`,
  `Array.prototype` or `String.prototype`.
- `FoodImport.Kept`: its own contract states only the length bound. Its partners carry what it
  means: `KeptAppend`, `KeptComesFromTitledElements`, `AllTitledAllKept`, `KeptCount`.

## Findings

| source | as written | input that shows it | evidently intended | confidence | as-written member | corrected member |
|---|---|---|---|---|---|---|
| tools/import_foods.js:55-65 | the single batch created at line 55 is committed at line 65 and then keeps receiving `set` calls and a second `commit()` | 401 records with non-empty titles (capacity 400): the model's store accepts the 401st `set` and the second commit and logs 400 writes, then all 401 again; the Firestore library instead throws on a `set` to a committed batch, so the real run rejects after committing 400 and the 401st record is never written | a new batch after each in-loop commit, so each commit delivers only the next at most 400 writes (400, then 1) | not executed | Batching.ReusedBatchRecommits | FoodImport.RunFreshBatches |

`Run` and `Import` keep the code as written. `RunFreshBatches` is the corrected loop.
`ChunksCount`, `ChunksShape` and `FlattenChunks` prove what it delivers: `ceil(count / B)`
commits, each of at most B writes, together the whole input in order, with no write delivered
twice. `SmallRunsAgree` shows that the two loops agree up to B records. `OneOverCommitsTwice`
contrasts them at 401.

# GetBatch: batched point reads against Firestore

A Dafny model of `GetBatch` from the FirestoreGoogleAppsScript library. The
class collects document paths with a chainable `add`. Its `get` sends them in
one `batchGet` request: each path is prefixed with the client's `basePath`, and
an optional field mask applies to the whole batch. `get` then reduces the
response array to the documents that were found. Each one is tagged with the
read time of its own response entry.

Files:

- `firestore_api.dfy`, module `FirestoreApi`: the wire shapes. These are the
  request (`BatchGetRequest`, `FieldMask`), the response entry and the result
  `Document`. A response entry is a tagged variant: `Found(found, readTime)` or
  `Missing(missing, readTime)`. It replaces the source's truthiness test on the
  `found` field. The raw document payload and the transport's failure are
  opaque types.
- `get_batch.dfy`, module `Batch`:
  - the class `GetBatch`, whose `documents: seq<string>` field is the private
    `#documents` array;
  - the payload functions `Prefixed` and `BuildRequest`;
  - the reconciliation. `FoundDocuments` is the specification function.
    `Reconcile` is the reduce loop, proved equal to it. The lemmas relate
    `FoundDocuments` to an independent characterisation, `IsFoundSubsequence`.

The HTTP transport is a parameter of `Get`: a total function from the request
to either the response entries or a `TransportError`. `Get` applies it once,
to the request it builds. A failure comes back unchanged, which models an
exception propagating out of `request.post`.

`Get` has no `modifies` clause. The verifier therefore holds it to leaving
`documents` unchanged, so a second `Get` sends the same paths again.

In the source, `mask && { fieldPaths: mask }` wraps any supplied array,
including an empty one, because an empty array is truthy. The model follows
this: `Some([])` becomes `Some(FieldMask([]))`, and only an omitted mask gives
`None` (`EmptyBatch` shows it).

## Model

| member | source | states |
|---|---|---|
| `Batch.GetBatch.constructor` | GetBatch.ts:5-11 | a new builder has no paths and keeps its client's base path |
| `Batch.GetBatch.Add` | GetBatch.ts:18-21 | the path list becomes the old list plus `[docPath]`: it grows by one at the end and earlier entries are unchanged; the result is the same instance (`self == this`), so calls chain |
| `Batch.Prefixed` | GetBatch.ts:33 | the absolute names have the same length as the paths; name i is `basePath + paths[i]` (order kept, no deduplication) |
| `Batch.BuildRequest` | GetBatch.ts:32-35 | (with its helper `WrapMask`) the payload's `documents` are the prefixed paths, pointwise; its mask is absent exactly when no mask is given, and is `FieldMask(mask)` when one is |
| `Batch.RequestAfterAdd` | GetBatch.ts:19 | adding a path appends exactly `basePath + docPath` to the payload's documents and leaves the mask as it was |
| `Batch.DuplicatesAreSent` | GetBatch.ts:33 | two equal accumulated paths give two equal entries in the payload: duplicates are sent, not merged |
| `Batch.DocumentsComeFromFoundEntries` | GetBatch.ts:40-42 | every result document is the `found` payload of some found response entry and carries that same entry's `readTime` |
| `Batch.FoundDocuments` | GetBatch.ts:39-45 | the reconciled documents are never more than the response entries |
| `Batch.Reconcile` | GetBatch.ts:39-45 | the reduce loop that pushes a document for each found entry computes exactly `FoundDocuments(entries)` |
| `Batch.FoundDocumentsAppend` | GetBatch.ts:39-45 | reconciling a concatenated response gives the concatenation of the parts' results, so order is preserved |
| `Batch.MissingIsDropped` | GetBatch.ts:40 | a missing entry anywhere in the response changes nothing in the result |
| `Batch.FoundIndices` | GetBatch.ts:38-45 | gives strictly increasing positions that select each result document 1:1 from a found entry and that cover every found entry |
| `Batch.FoundDocumentsIsFoundSubsequence` | GetBatch.ts:38-45 | the result is a found subsequence of the response, in response order, with every found entry converted |
| `Batch.FoundSubsequenceIsFoundDocuments` | GetBatch.ts:38-45 | conversely, any sequence that is a found subsequence of the response equals the result, so the characterisation fixes the result exactly |
| `Batch.FoundSubsequenceOfInit` | GetBatch.ts:40-42 | when the last entry is found, it is the last one selected, and dropping it leaves a found subsequence of the shorter response |
| `Batch.MissingSubsequenceOfInit` | GetBatch.ts:40 | when the last entry is missing, it is never selected |
| `Batch.FoundDocumentsKeepsLength` | GetBatch.ts:39-45 | the result is as long as the response if and only if every entry is found |
| `Batch.AllMissingYieldsNothing` | GetBatch.ts:39-45 | a response with only missing entries (including an empty one) gives an empty result and no error |
| `Batch.GetBatch.Get` | GetBatch.ts:28-47 | the request sent has one entry `basePath + documents[i]` per accumulated path and the wrapped mask; a transport failure is returned unchanged; otherwise the result is `FoundDocuments` of the response; the mask is absent exactly when none is given and is `FieldMask(mask)` when one is |
| `Batch.OneFoundOneMissing` | GetBatch.ts:18-47 | after chained adds of `users/alice` and `users/bob`, with alice found at t1 and bob missing, `Get` returns only alice's document, tagged t1 |
| `Batch.DuplicatePath` | GetBatch.ts:18-47 | adding `a` twice sends it twice, and two found entries give two documents in response order |
| `Batch.EmptyBatch` | GetBatch.ts:28-47 | with no paths and no mask, the request names no documents and has no mask, and an empty response gives an empty result; with an empty mask array, that array is still sent as a mask |

## Left out

- The HTTP transport (`new Request(...)`, `route('batchGet')`, `post`) is not modelled: no network, auth, base URL or token. `Get` takes the transport as a function parameter instead. Because of that, the model cannot count transport calls. That there is exactly one round trip is visible only in the body of `Get`.
- Decoding the raw Firestore document in the `Document` constructor is not modelled. The payload is the opaque `RawDocument`, and a result `Document` is the pair (payload, read time).
- The `Firestore` parent is not modelled beyond the `basePath` it supplies. The model fixes `basePath` when the builder is constructed. The source reads the parent's current `basePath` on every `get`, so a change to it between construction and `get` is not captured.
- The truthiness test on `found` is replaced by the `Found`/`Missing` variants. A `found` value that is present but falsy cannot occur in a decoded response, since `found` is an object.
- Concurrent use of one builder is not modelled. It is unsupported in the source.

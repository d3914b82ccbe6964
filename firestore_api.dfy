/** Shapes exchanged with the Firestore REST endpoint `documents:batchGet`.
    The raw document payload and the transport's failure are opaque: decoding
    a Firestore document and the HTTP layer live outside this model. */
module FirestoreApi {

  /** The raw Firestore document carried by a `found` response entry. */
  type RawDocument

  /** Whatever the transport raises (network, auth, HTTP status, bad body). */
  type TransportError

  /** A read timestamp as the API sends it (RFC 3339 text). */
  type Timestamp = string

  datatype Option<+T> = None | Some(value: T)

  datatype Result<+T, +E> = Ok(value: T) | Err(error: E)

  /** `{ fieldPaths: [...] }`: restricts the fields returned for every document. */
  datatype FieldMask = FieldMask(fieldPaths: seq<string>)

  /** Body of a batchGet request: absolute document names and an optional mask. */
  datatype BatchGetRequest = BatchGetRequest(documents: seq<string>, mask: Option<FieldMask>)

  /** One entry of the batchGet response. The API marks a hit by the presence of
      a `found` field; here the hit and the miss are the two variants. */
  datatype ResponseEntry =
    | Found(found: RawDocument, readTime: Timestamp)
    | Missing(missing: string, readTime: Timestamp)

  /** A result document: the found payload with the read time of its entry. */
  datatype Document = Document(fields: RawDocument, readTime: Timestamp)
}

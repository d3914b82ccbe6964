/** The batch point-read builder: accumulate document paths, send one batchGet
    request, and keep only the documents the response reports as found. */
module Batch {
  import opened FirestoreApi

  // ---------------------------------------------------------------------------
  // Request payload
  // ---------------------------------------------------------------------------

  /** Every accumulated path resolved against the client's base path. */
  function Prefixed(basePath: string, paths: seq<string>): (absolute: seq<string>)
    ensures |absolute| == |paths|
    ensures forall i :: 0 <= i < |paths| ==> absolute[i] == basePath + paths[i]
  {
    if paths == [] then [] else [basePath + paths[0]] + Prefixed(basePath, paths[1..])
  }

  /** The optional mask argument wrapped as `{ fieldPaths: mask }`. An empty
      list is still a supplied mask (it is truthy in the source). */
  function WrapMask(mask: Option<seq<string>>): Option<FieldMask>
  {
    match mask
    case None => None
    case Some(fieldPaths) => Some(FieldMask(fieldPaths))
  }

  /** The payload `get` posts: one absolute name per accumulated path, in
      order and with duplicates, and the mask applied to the whole batch. */
  function BuildRequest(basePath: string, paths: seq<string>, mask: Option<seq<string>>): (request: BatchGetRequest)
    ensures |request.documents| == |paths|
    ensures forall i :: 0 <= i < |paths| ==> request.documents[i] == basePath + paths[i]
    ensures request.mask.None? <==> mask.None?
    ensures mask.Some? ==> request.mask == Some(FieldMask(mask.value))
  {
    BatchGetRequest(Prefixed(basePath, paths), WrapMask(mask))
  }

  /** Adding a path adds exactly its absolute name at the end of the payload. */
  lemma RequestAfterAdd(basePath: string, paths: seq<string>, docPath: string, mask: Option<seq<string>>)
    ensures BuildRequest(basePath, paths + [docPath], mask).documents
         == BuildRequest(basePath, paths, mask).documents + [basePath + docPath]
    ensures BuildRequest(basePath, paths + [docPath], mask).mask == BuildRequest(basePath, paths, mask).mask
  {
  }

  /** The same path added twice is sent twice. */
  lemma DuplicatesAreSent(basePath: string, paths: seq<string>, i: nat, j: nat, mask: Option<seq<string>>)
    requires i < j < |paths| && paths[i] == paths[j]
    ensures |BuildRequest(basePath, paths, mask).documents| == |paths|
    ensures BuildRequest(basePath, paths, mask).documents[i] == BuildRequest(basePath, paths, mask).documents[j]
  {
  }

  // ---------------------------------------------------------------------------
  // Response reconciliation
  // ---------------------------------------------------------------------------

  /** The result document built from a found entry, tagged with its read time. */
  function DocumentOf(entry: ResponseEntry): Document
    requires entry.Found?
  {
    Document(entry.found, entry.readTime)
  }

  /** What the reduce over the response accumulates: one document per found
      entry, in response order. Defined on the last entry, as the accumulator
      is pushed to at its end. */
  function FoundDocuments(entries: seq<ResponseEntry>): (docs: seq<Document>)
    ensures |docs| <= |entries|
  {
    if entries == [] then []
    else
      var last := entries[|entries| - 1];
      FoundDocuments(entries[..|entries| - 1]) + (if last.Found? then [DocumentOf(last)] else [])
  }

  /** `docs` is the subsequence of `entries` at the strictly increasing
      positions `idx`, each converted 1:1, and `idx` covers every found entry. */
  ghost predicate IsFoundSubsequence(entries: seq<ResponseEntry>, docs: seq<Document>, idx: seq<nat>)
  {
    && |idx| == |docs|
    && (forall k :: 0 <= k < |idx| ==> idx[k] < |entries| && entries[idx[k]].Found?
                                       && docs[k] == DocumentOf(entries[idx[k]]))
    && (forall k, l :: 0 <= k < l < |idx| ==> idx[k] < idx[l])
    && (forall i :: 0 <= i < |entries| && entries[i].Found? ==> i in idx)
  }

  /** The documents of a concatenated response are those of each part. */
  lemma {:induction false} FoundDocumentsAppend(a: seq<ResponseEntry>, b: seq<ResponseEntry>)
    ensures FoundDocuments(a + b) == FoundDocuments(a) + FoundDocuments(b)
    decreases |b|
  {
    if b == [] {
      assert a + b == a;
    } else {
      var b' := b[..|b| - 1];
      assert (a + b)[..|a + b| - 1] == a + b';
      FoundDocumentsAppend(a, b');
    }
  }

  /** A missing entry, wherever it stands, contributes nothing. */
  lemma MissingIsDropped(before: seq<ResponseEntry>, missing: ResponseEntry, after: seq<ResponseEntry>)
    requires missing.Missing?
    ensures FoundDocuments(before + [missing] + after) == FoundDocuments(before + after)
  {
    FoundDocumentsAppend(before + [missing], after);
    FoundDocumentsAppend(before, [missing]);
    FoundDocumentsAppend(before, after);
    assert [missing][..0] == [];
  }

  /** Soundness: the result is the found subsequence of the response. */
  lemma {:induction false} FoundDocumentsIsFoundSubsequence(entries: seq<ResponseEntry>)
    ensures exists idx :: IsFoundSubsequence(entries, FoundDocuments(entries), idx)
  {
    var idx := FoundIndices(entries);
    assert IsFoundSubsequence(entries, FoundDocuments(entries), idx);
  }

  /** A witness for FoundDocumentsIsFoundSubsequence. */
  lemma {:induction false} FoundIndices(entries: seq<ResponseEntry>) returns (idx: seq<nat>)
    ensures IsFoundSubsequence(entries, FoundDocuments(entries), idx)
  {
    if entries == [] {
      idx := [];
    } else {
      var n := |entries| - 1;
      var init := entries[..n];
      var prev := FoundIndices(init);
      var docs := FoundDocuments(entries);
      if entries[n].Found? {
        idx := prev + [n];
      } else {
        idx := prev;
      }
      assert docs == FoundDocuments(init) + (if entries[n].Found? then [DocumentOf(entries[n])] else []);
      forall k | 0 <= k < |idx|
        ensures idx[k] < |entries| && entries[idx[k]].Found? && docs[k] == DocumentOf(entries[idx[k]])
      {
        if k < |prev| {
          assert init[prev[k]] == entries[prev[k]];
        }
      }
      forall i | 0 <= i < |entries| && entries[i].Found?
        ensures i in idx
      {
        if i < n {
          assert init[i] == entries[i];
        } else {
          assert idx[|idx| - 1] == n;
        }
      }
    }
  }

  /** `doc` is the payload of a found entry of `entries`, tagged with that
      same entry's read time. */
  ghost predicate FromFoundEntry(entries: seq<ResponseEntry>, doc: Document)
  {
    exists i :: 0 <= i < |entries| && entries[i].Found?
                && doc == Document(entries[i].found, entries[i].readTime)
  }

  /** Every result document comes from a found response entry and carries
      that entry's read time. */
  lemma {:induction false} DocumentsComeFromFoundEntries(entries: seq<ResponseEntry>)
    ensures forall k :: 0 <= k < |FoundDocuments(entries)| ==> FromFoundEntry(entries, FoundDocuments(entries)[k])
  {
    var docs := FoundDocuments(entries);
    var idx := FoundIndices(entries);
    forall k | 0 <= k < |docs|
      ensures FromFoundEntry(entries, docs[k])
    {
      var i := idx[k];
      assert docs[k] == Document(entries[i].found, entries[i].readTime);
    }
  }

  /** Completeness: any found subsequence of the response is the result, so
      the characterisation determines the result exactly. */
  lemma {:induction false} FoundSubsequenceIsFoundDocuments(entries: seq<ResponseEntry>, docs: seq<Document>, idx: seq<nat>)
    requires IsFoundSubsequence(entries, docs, idx)
    ensures docs == FoundDocuments(entries)
    decreases |entries|
  {
    if entries == [] {
      assert idx == [];
    } else if entries[|entries| - 1].Found? {
      var m := |idx| - 1;
      FoundSubsequenceOfInit(entries, docs, idx);
      FoundSubsequenceIsFoundDocuments(entries[..|entries| - 1], docs[..m], idx[..m]);
      assert docs == docs[..m] + [DocumentOf(entries[|entries| - 1])];
    } else {
      MissingSubsequenceOfInit(entries, docs, idx);
      FoundSubsequenceIsFoundDocuments(entries[..|entries| - 1], docs, idx);
    }
  }

  /** A found last entry is the last selected one; the rest select from the
      shorter response. */
  lemma FoundSubsequenceOfInit(entries: seq<ResponseEntry>, docs: seq<Document>, idx: seq<nat>)
    requires IsFoundSubsequence(entries, docs, idx)
    requires entries != [] && entries[|entries| - 1].Found?
    ensures |idx| > 0 && idx[|idx| - 1] == |entries| - 1
    ensures docs[|docs| - 1] == DocumentOf(entries[|entries| - 1])
    ensures IsFoundSubsequence(entries[..|entries| - 1], docs[..|docs| - 1], idx[..|idx| - 1])
  {
  }

  /** A missing last entry is never selected; the same positions select from
      the shorter response. */
  lemma MissingSubsequenceOfInit(entries: seq<ResponseEntry>, docs: seq<Document>, idx: seq<nat>)
    requires IsFoundSubsequence(entries, docs, idx)
    requires entries != [] && !entries[|entries| - 1].Found?
    ensures IsFoundSubsequence(entries[..|entries| - 1], docs, idx)
  {
  }

  /** Nothing is dropped exactly when every entry is found. */
  lemma {:induction false} FoundDocumentsKeepsLength(entries: seq<ResponseEntry>)
    ensures |FoundDocuments(entries)| == |entries| <==> forall i :: 0 <= i < |entries| ==> entries[i].Found?
    decreases |entries|
  {
    if entries != [] {
      var n := |entries| - 1;
      var init := entries[..n];
      FoundDocumentsKeepsLength(init);
      if forall i :: 0 <= i < |entries| ==> entries[i].Found? {
        assert forall i :: 0 <= i < |init| ==> init[i] == entries[i];
      } else if !entries[n].Found? {
        assert |FoundDocuments(entries)| == |FoundDocuments(init)| <= n;
      } else {
        var i :| 0 <= i < n && !entries[i].Found?;
        assert !init[i].Found?;
      }
    }
  }

  /** A response without found entries yields no documents and no error. */
  lemma {:induction false} AllMissingYieldsNothing(entries: seq<ResponseEntry>)
    requires forall i :: 0 <= i < |entries| ==> entries[i].Missing?
    ensures FoundDocuments(entries) == []
    decreases |entries|
  {
    if entries != [] {
      var n := |entries| - 1;
      assert forall i :: 0 <= i < n ==> entries[..n][i] == entries[i];
      AllMissingYieldsNothing(entries[..n]);
    }
  }

  /** The reduce of the source: walk the response once, pushing a document for
      every found entry onto the accumulator. */
  method Reconcile(entries: seq<ResponseEntry>) returns (docs: seq<Document>)
    ensures docs == FoundDocuments(entries)
  {
    docs := [];
    for i := 0 to |entries|
      invariant docs == FoundDocuments(entries[..i])
    {
      assert entries[..i + 1][..i] == entries[..i];
      if entries[i].Found? {
        docs := docs + [DocumentOf(entries[i])];
      }
    }
    assert entries[..|entries|] == entries;
  }

  // ---------------------------------------------------------------------------
  // The builder
  // ---------------------------------------------------------------------------

  /** Gets multiple documents with one batchGet call. Not safe for concurrent
      use: one owner adds paths, then calls Get. */
  class GetBatch {
    /** The parent client's document-root prefix (`projects/../documents/`). */
    const basePath: string
    /** The paths to fetch, in the order they were added. */
    var documents: seq<string>

    constructor (basePath: string)
      ensures this.basePath == basePath && documents == []
    {
      this.basePath := basePath;
      documents := [];
    }

    /** Appends `docPath` and returns this same builder for chaining. */
    method Add(docPath: string) returns (self: GetBatch)
      modifies this
      ensures self == this
      ensures documents == old(documents) + [docPath]
    {
      documents := documents + [docPath];
      self := this;
    }

    /** Builds the payload from the accumulated paths and the optional mask,
        posts it once through `transport`, and reconciles the response. A
        transport failure comes back unchanged. Get changes nothing: it has no
        modifies clause, so `documents` is the same afterwards. */
    method Get(mask: Option<seq<string>>, transport: BatchGetRequest -> Result<seq<ResponseEntry>, TransportError>)
      returns (sent: BatchGetRequest, result: Result<seq<Document>, TransportError>)
      ensures |sent.documents| == |documents|
      ensures forall i :: 0 <= i < |documents| ==> sent.documents[i] == basePath + documents[i]
      ensures sent.mask.None? <==> mask.None?
      ensures mask.Some? ==> sent.mask == Some(FieldMask(mask.value))
      ensures transport(sent).Err? ==> result == Err(transport(sent).error)
      ensures transport(sent).Ok? ==> result == Ok(FoundDocuments(transport(sent).value))
    {
      sent := BuildRequest(basePath, documents, mask);
      var response := transport(sent);
      match response
      case Err(e) =>
        result := Err(e);
      case Ok(entries) =>
        var docs := Reconcile(entries);
        result := Ok(docs);
    }
  }

  /** Two chained adds, one found and one missing entry: a single document
      comes back, carrying the read time of its own entry. */
  method OneFoundOneMissing(root: string, alice: RawDocument, t1: Timestamp, t2: Timestamp)
    returns (sent: BatchGetRequest, result: Result<seq<Document>, TransportError>)
    ensures sent.documents == [root + "users/alice", root + "users/bob"]
    ensures sent.mask == None
    ensures result == Ok([Document(alice, t1)])
  {
    var batch := new GetBatch(root);
    var chained := batch.Add("users/alice");
    chained := chained.Add("users/bob");
    var transport := (request: BatchGetRequest) =>
      Ok([Found(alice, t1), Missing(root + "users/bob", t2)]);
    sent, result := batch.Get(None, transport);
    assert batch.documents == ["users/alice", "users/bob"];
    assert FoundDocuments([Found(alice, t1)]) == [Document(alice, t1)] by {
      assert [Found(alice, t1)][..0] == [];
    }
    MissingIsDropped([Found(alice, t1)], Missing(root + "users/bob", t2), []);
  }

  /** The same path added twice: it is sent twice and both found entries
      come back as two documents, in response order. */
  method DuplicatePath(root: string, a1: RawDocument, a2: RawDocument, t1: Timestamp, t2: Timestamp)
    returns (sent: BatchGetRequest, result: Result<seq<Document>, TransportError>)
    ensures sent.documents == [root + "a", root + "a"]
    ensures result == Ok([Document(a1, t1), Document(a2, t2)])
  {
    var batch := new GetBatch(root);
    var chained := batch.Add("a");
    chained := chained.Add("a");
    var transport := (request: BatchGetRequest) => Ok([Found(a1, t1), Found(a2, t2)]);
    sent, result := batch.Get(None, transport);
    assert batch.documents == ["a", "a"];
    var entries := [Found(a1, t1), Found(a2, t2)];
    assert entries[..1][..0] == [] && entries[..1] == [Found(a1, t1)];
    assert FoundDocuments(entries[..1]) == [Document(a1, t1)];
    assert FoundDocuments(entries) == [Document(a1, t1), Document(a2, t2)];
  }

  /** No path added and no mask: the request names no documents and carries
      no mask, and an empty response gives an empty result. An empty mask
      array is still a supplied mask and is sent as one. */
  method EmptyBatch(root: string)
    returns (sent: BatchGetRequest, sentMasked: BatchGetRequest, result: Result<seq<Document>, TransportError>)
    ensures sent == BatchGetRequest([], None)
    ensures sentMasked == BatchGetRequest([], Some(FieldMask([])))
    ensures result == Ok([])
  {
    var batch := new GetBatch(root);
    var transport := (request: BatchGetRequest) => Ok([]);
    sent, result := batch.Get(None, transport);
    var again;
    sentMasked, again := batch.Get(Some([]), transport);
  }
}

/** `main`: fetch, format, publish, then checkpoint, until a fetch is empty. */
module Sync {
  import opened Results
  import opened Ids
  import opened Aid
  import opened Notes
  import opened Query
  import opened Meilisearch
  import opened Checkpoint

  datatype SyncOutcome =
    | Finished                    // a fetch came back empty
    | DecodeFailed(error: AidError) // format_note raised on a note id
    | PublishFailed(status: int)  // the index answered outside {200, 202}

  /** All documents of a log of batches, in order. */
  function Flatten(batches: seq<seq<Document>>): seq<Document> {
    if batches == [] then [] else Flatten(batches[..|batches| - 1]) + batches[|batches| - 1]
  }

  lemma FlattenAppend(batches: seq<seq<Document>>, b: seq<Document>)
    ensures Flatten(batches + [b]) == Flatten(batches) + b
  {
    assert (batches + [b])[..|batches|] == batches;
  }

  /** The cursor after publishing `docs` starting from `c`: the id of the
      last published document, or `c` when nothing was published. */
  function Checkpointed(c: Cursor, docs: seq<Document>): Cursor {
    if docs == [] then c else At(docs[|docs| - 1].id)
  }

  /** After the first k pending rows are done, the cursor at the k-th row is
      at or above where it started and no done row lies above it. */
  lemma CheckpointBounds(db: seq<Row>, c: Cursor, k: nat)
    requires 0 < k <= |Pending(db, c)|
    ensures var p := Pending(db, c);
      Above(p[k - 1].id, c) &&
      forall i :: 0 <= i < k ==> !Above(p[i].id, At(p[k - 1].id))
  {
    var p := Pending(db, c);
    PendingSound(db, c);
    PendingAscending(db, c);
    BelowIrreflexive(p[k - 1].id);
    forall i | 0 <= i < k - 1
      ensures !Above(p[i].id, At(p[k - 1].id))
    {
      BelowAsymmetric(p[i].id, p[k - 1].id);
    }
  }

  /** The next batch is the next stretch of the ordered pending rows. */
  lemma FetchContinues(db: seq<Row>, c0: Cursor, done: nat, c: Cursor)
    requires done <= |Pending(db, c0)|
    requires Pending(db, c) == Pending(db, c0)[done..]
    ensures done + |Fetch(db, c)| <= |Pending(db, c0)|
    ensures Fetch(db, c) == Pending(db, c0)[done..done + |Fetch(db, c)|]
  {
    var p0, p := Pending(db, c0), Pending(db, c);
    if |p| > BatchLimit {
      assert Fetch(db, c) == p[..BatchLimit] == p0[done..done + BatchLimit];
    }
  }

  /** Formatting the next batch extends the formatted prefix of the pending rows. */
  lemma FormatContinues(p0: seq<Row>, pub: seq<Document>, fetched: seq<Row>, notes: seq<Document>)
    requires |pub| + |fetched| <= |p0| && fetched == p0[|pub|..|pub| + |fetched|]
    requires forall i :: 0 <= i < |pub| ==> FormatNote(p0[i]) == Success(pub[i])
    requires FormatAll(fetched) == Success(notes)
    ensures |notes| == |fetched|
    ensures forall i :: 0 <= i < |pub + notes| ==> FormatNote(p0[i]) == Success((pub + notes)[i])
    ensures forall i :: 0 <= i < |pub + notes| ==> (pub + notes)[i].id == p0[i].id
  {
    forall i | 0 <= i < |pub + notes|
      ensures FormatNote(p0[i]) == Success((pub + notes)[i])
    {
      if i >= |pub| {
        assert p0[i] == fetched[i - |pub|];
      }
      FormatNoteFields(p0[i]);
    }
  }

  /** Publishing the first k pending rows leaves the cursor at the k-th id,
      above the start, with no published id above it and the rest still pending. */
  lemma CheckpointAfter(db: seq<Row>, c0: Cursor, pub: seq<Document>)
    requires 0 < |pub| <= |Pending(db, c0)|
    requires forall i :: 0 <= i < |pub| ==> pub[i].id == Pending(db, c0)[i].id
    ensures var p0, c := Pending(db, c0), Checkpointed(c0, pub);
      && c == At(p0[|pub| - 1].id)
      && Pending(db, c) == p0[|pub|..]
      && Above(c.id, c0)
      && forall i :: 0 <= i < |pub| ==> !Above(pub[i].id, c)
  {
    PendingResume(db, c0, |pub|);
    CheckpointBounds(db, c0, |pub|);
  }

  /** What a run that started at cursor `c0` has achieved once it published
      `pub`: the formatted first |pub| pending rows, in order; the cursor it
      leaves is at or above `c0`, no published id lies above it, and the
      rows still pending from it are exactly the rest. */
  ghost predicate PublishedPrefix(db: seq<Row>, c0: Cursor, pub: seq<Document>) {
    var p0, c := Pending(db, c0), Checkpointed(c0, pub);
    && |pub| <= |p0|
    && (forall i :: 0 <= i < |pub| ==> FormatNote(p0[i]) == Success(pub[i]))
    && Pending(db, c) == p0[|pub|..]
    && (c == c0 || Above(c.id, c0))
    && (forall i :: 0 <= i < |pub| ==> !Above(pub[i].id, c))
  }

  /** One turn of the loop keeps PublishedPrefix and strictly extends `pub`. */
  lemma PublishedPrefixStep(db: seq<Row>, c0: Cursor, pub: seq<Document>, notes: seq<Document>)
    requires PublishedPrefix(db, c0, pub)
    requires Fetch(db, Checkpointed(c0, pub)) != []
    requires FormatAll(Fetch(db, Checkpointed(c0, pub))) == Success(notes)
    ensures notes != [] && PublishedPrefix(db, c0, pub + notes)
  {
    var p0, c := Pending(db, c0), Checkpointed(c0, pub);
    FetchContinues(db, c0, |pub|, c);
    FormatContinues(p0, pub, Fetch(db, c), notes);
    CheckpointAfter(db, c0, pub + notes);
  }

  /** The loop stops exactly when everything pending has been published. */
  lemma PublishedPrefixDone(db: seq<Row>, c0: Cursor, pub: seq<Document>)
    requires PublishedPrefix(db, c0, pub)
    ensures Fetch(db, Checkpointed(c0, pub)) == [] <==> |pub| == |Pending(db, c0)|
  {
  }

  /** Every batch in `log` is the whole formatted fetch from the checkpoint
      that the batches before it left, and the index accepted it; so no
      request carried more than BatchLimit documents. */
  ghost predicate AcceptedBatches(db: seq<Row>, c0: Cursor, log: seq<seq<Document>>,
                                  respond: seq<Document> -> int) {
    forall i :: 0 <= i < |log| ==>
      && FormatAll(Fetch(db, Checkpointed(c0, Flatten(log[..i])))) == Success(log[i])
      && Send(log[i], respond) == Accepted
      && |log[i]| <= BatchLimit
  }

  /** Logging a batch only after the index accepts it keeps AcceptedBatches. */
  lemma AcceptedBatchesStep(db: seq<Row>, c0: Cursor, log: seq<seq<Document>>,
                            respond: seq<Document> -> int, notes: seq<Document>)
    requires AcceptedBatches(db, c0, log, respond)
    requires FormatAll(Fetch(db, Checkpointed(c0, Flatten(log)))) == Success(notes)
    requires Send(notes, respond) == Accepted
    ensures AcceptedBatches(db, c0, log + [notes], respond)
  {
    var extended := log + [notes];
    forall i | 0 <= i < |extended|
      ensures FormatAll(Fetch(db, Checkpointed(c0, Flatten(extended[..i])))) == Success(extended[i])
      ensures |extended[i]| <= BatchLimit
    {
      if i < |log| {
        assert extended[..i] == log[..i];
      } else {
        assert extended[..i] == log;
      }
    }
  }

  class Indexer {
    /** The note table; the synchroniser only reads it. */
    const db: seq<Row>
    /** The content of the checkpoint file. */
    var checkpoint: Cursor
    /** Every batch the index service accepted during the last run, in order. */
    ghost var log: seq<seq<Document>>

    /** Start-up: `file` is the content of the checkpoint file, None when
        there is none. */
    constructor (db: seq<Row>, file: Option<string>)
      ensures this.db == db && checkpoint == Load(file) && log == []
      ensures file.None? ==> checkpoint == Beginning
    {
      this.db := db;
      checkpoint := Load(file);
      log := [];
    }

    /** The `while True` loop of `main`. What it publishes is the ordered
        list of pending notes from the old checkpoint on, formatted, cut
        where the run stopped; the checkpoint is the last published id,
        so it never moves past a note that was not accepted. */
    method Sync(respond: seq<Document> -> int) returns (outcome: SyncOutcome)
      modifies this
      ensures AcceptedBatches(db, old(checkpoint), log, respond)
      ensures var pub := Flatten(log);
        && PublishedPrefix(db, old(checkpoint), pub)
        && checkpoint == Checkpointed(old(checkpoint), pub)
        && (outcome.Finished? <==> |pub| == |Pending(db, old(checkpoint))|)
      ensures outcome.DecodeFailed? ==>
        FormatAll(Fetch(db, checkpoint)) == Failure(outcome.error)
      ensures outcome.PublishFailed? ==>
        && FormatAll(Fetch(db, checkpoint)).Success?
        && Send(FormatAll(Fetch(db, checkpoint)).value, respond) == Rejected(outcome.status)
      ensures Pending(db, old(checkpoint)) == [] ==>
        outcome == Finished && log == [] && checkpoint == old(checkpoint)
    {
      ghost var c0 := checkpoint;
      ghost var p0 := Pending(db, c0);
      ghost var pub: seq<Document> := [];
      log := [];
      while true
        invariant pub == Flatten(log) && |log| <= |pub|
        invariant PublishedPrefix(db, c0, pub) && checkpoint == Checkpointed(c0, pub)
        invariant AcceptedBatches(db, c0, log, respond)
        decreases |p0| - |pub|
      {
        PublishedPrefixDone(db, c0, pub);
        var fetched := Fetch(db, checkpoint);
        if fetched == [] {
          return Finished;
        }
        var formatted := FormatAll(fetched);
        if formatted.Failure? {
          return DecodeFailed(formatted.error);
        }
        var notes := formatted.value;
        var delivery := Send(notes, respond);
        if !delivery.Accepted? {
          return PublishFailed(delivery.status);
        }
        PublishedPrefixStep(db, c0, pub, notes);
        AcceptedBatchesStep(db, c0, log, respond, notes);
        FlattenAppend(log, notes);
        log := log + [notes];
        checkpoint := At(notes[|notes| - 1].id);  // save_last_indexed_id
        pub := pub + notes;
      }
    }
  }
}

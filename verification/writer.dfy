/**
 * The Lucene IndexWriter as the indexer sees it: a log of the calls made on
 * it and whether it is still open. What the calls do to segments on disk is
 * the library's business.
 */
module Writer {
  import opened Builder

  datatype WriterEvent =
    | Added(doc: Document)
    | Committed
    | Merged(maxSegments: int)
    | Closed

  /** The documents added, in order. */
  function AddedDocuments(log: seq<WriterEvent>): seq<Document>
    decreases |log|
  {
    if log == [] then []
    else
      AddedDocuments(log[..|log| - 1])
      + (match log[|log| - 1] case Added(doc) => [doc] case _ => [])
  }

  /** How many events of the log satisfy `p`. */
  function CountWhere(log: seq<WriterEvent>, p: WriterEvent -> bool): nat
    decreases |log|
  {
    if log == [] then 0
    else CountWhere(log[..|log| - 1], p) + (if p(log[|log| - 1]) then 1 else 0)
  }

  function CommitCount(log: seq<WriterEvent>): nat {
    CountWhere(log, (e: WriterEvent) => e.Committed?)
  }

  function MergeCount(log: seq<WriterEvent>): nat {
    CountWhere(log, (e: WriterEvent) => e.Merged?)
  }

  function CloseCount(log: seq<WriterEvent>): nat {
    CountWhere(log, (e: WriterEvent) => e.Closed?)
  }

  /** Counting over a log extended by some events. */
  lemma {:induction false} CountAppend(log: seq<WriterEvent>, more: seq<WriterEvent>, p: WriterEvent -> bool)
    ensures CountWhere(log + more, p) == CountWhere(log, p) + CountWhere(more, p)
    decreases |more|
  {
    if more != [] {
      var n := |more| - 1;
      assert (log + more)[..|log + more| - 1] == log + more[..n];
      CountAppend(log, more[..n], p);
    } else {
      assert log + more == log;
    }
  }

  /** Documents added over a log extended by some events. */
  lemma {:induction false} AddedAppend(log: seq<WriterEvent>, more: seq<WriterEvent>)
    ensures AddedDocuments(log + more) == AddedDocuments(log) + AddedDocuments(more)
    decreases |more|
  {
    if more != [] {
      var n := |more| - 1;
      assert (log + more)[..|log + more| - 1] == log + more[..n];
      AddedAppend(log, more[..n]);
    } else {
      assert log + more == log;
    }
  }

  /** A log with no additions adds no documents. */
  lemma {:induction false} NoAddedDocuments(log: seq<WriterEvent>)
    requires forall i :: 0 <= i < |log| ==> !log[i].Added?
    ensures AddedDocuments(log) == []
    decreases |log|
  {
    if log != [] {
      var n := |log| - 1;
      assert forall i :: 0 <= i < n ==> log[..n][i] == log[i];
      NoAddedDocuments(log[..n]);
    }
  }

  /** Counting over a log extended by one event. */
  lemma CountPush(log: seq<WriterEvent>, e: WriterEvent, p: WriterEvent -> bool)
    ensures CountWhere(log + [e], p) == CountWhere(log, p) + (if p(e) then 1 else 0)
  {
    assert (log + [e])[..|log|] == log;
  }

  /** The finishing calls (commit, merge, close) add one of each and no document. */
  lemma FinishingCounts(log: seq<WriterEvent>, maxSegments: int)
    ensures AddedDocuments(log + [Committed, Merged(maxSegments), Closed]) == AddedDocuments(log)
    ensures CommitCount(log + [Committed, Merged(maxSegments), Closed]) == CommitCount(log) + 1
    ensures MergeCount(log + [Committed, Merged(maxSegments), Closed]) == MergeCount(log) + 1
    ensures CloseCount(log + [Committed, Merged(maxSegments), Closed]) == CloseCount(log) + 1
  {
    var tail := [Committed, Merged(maxSegments), Closed];
    var log1 := log + [Committed];
    var log2 := log1 + [Merged(maxSegments)];
    assert log + tail == log2 + [Closed];
    assert AddedDocuments(log + tail) == AddedDocuments(log) by {
      AddedAppend(log, tail);
      NoAddedDocuments(tail);
    }
    assert CommitCount(log + tail) == CommitCount(log) + 1 by {
      var p := (e: WriterEvent) => e.Committed?;
      CountPush(log, Committed, p);
      CountPush(log1, Merged(maxSegments), p);
      CountPush(log2, Closed, p);
    }
    assert MergeCount(log + tail) == MergeCount(log) + 1 by {
      var p := (e: WriterEvent) => e.Merged?;
      CountPush(log, Committed, p);
      CountPush(log1, Merged(maxSegments), p);
      CountPush(log2, Closed, p);
    }
    assert CloseCount(log + tail) == CloseCount(log) + 1 by {
      var p := (e: WriterEvent) => e.Closed?;
      CountPush(log, Committed, p);
      CountPush(log1, Merged(maxSegments), p);
      CountPush(log2, Closed, p);
    }
  }

  class IndexWriter {
    var log: seq<WriterEvent>
    var open: bool

    constructor ()
      ensures log == [] && open
    {
      log := [];
      open := true;
    }

    method AddDocument(doc: Document)
      requires open
      modifies this
      ensures open && log == old(log) + [Added(doc)]
    {
      log := log + [Added(doc)];
    }

    method Commit()
      requires open
      modifies this
      ensures open && log == old(log) + [Committed]
    {
      log := log + [Committed];
    }

    method ForceMerge(maxSegments: int)
      requires open
      modifies this
      ensures open && log == old(log) + [Merged(maxSegments)]
    {
      log := log + [Merged(maxSegments)];
    }

    method Close()
      modifies this
      ensures !open && log == old(log) + [Closed]
    {
      log := log + [Closed];
      open := false;
    }

    function IsOpen(): bool
      reads this
    {
      open
    }
  }
}

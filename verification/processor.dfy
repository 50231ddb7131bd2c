/**
 * The per-subdirectory pipeline and its session state: load, build, add to
 * the writer, count, and commit every `commitFrequency` documents; then the
 * final commit, merge and close.
 */
module Processor {
  import opened Failures
  import opened IndexSchema
  import opened Loader
  import opened Builder
  import opened Writer

  function Abs(x: int): nat {
    if x < 0 then -x else x
  }

  /** The document a subdirectory becomes: its metadata loaded, then built against the schema. */
  function Prepared(schema: Schema, dir: Subdirectory): Result<Document> {
    match Loaded(dir, schema.copyFields)
    case Err(e) => Err(e)
    case Ok(meta) => Build(schema.fields, meta)
  }

  /** Each subdirectory's document or exception, in listing order. */
  function PreparedAll(schema: Schema, dirs: seq<Subdirectory>): (rs: seq<Result<Document>>)
    ensures |rs| == |dirs|
    ensures forall i :: 0 <= i < |dirs| ==> rs[i] == Prepared(schema, dirs[i])
  {
    seq(|dirs|, i requires 0 <= i < |dirs| => Prepared(schema, dirs[i]))
  }

  /** Every subdirectory yields a document. */
  predicate AllBuild(rs: seq<Result<Document>>) {
    forall i :: 0 <= i < |rs| ==> rs[i].Ok?
  }

  /** What processing changes: the writer's log and the indexed-document counter. */
  datatype Session = Session(log: seq<WriterEvent>, count: nat)

  /**
   * One subdirectory, given what loading and building it gave. The document
   * is added and the counter incremented before the remainder is taken, so a
   * frequency of zero fails only after the document went in. The commit test
   * `count % frequency == 0` is written as "count is a multiple of |frequency|",
   * which CommitTestIsRemainder shows to be the same test.
   */
  function Step(frequency: int, s: Session, prepared: Result<Document>): (Session, Outcome) {
    match prepared
    case Err(e) => (s, Fail(e))
    case Ok(doc) =>
      var count := s.count + 1;
      var log := s.log + [Added(doc)];
      if frequency == 0 then (Session(log, count), Fail(DivisionByZero))
      else if IsMultiple(count, Abs(frequency)) then (Session(log + [Committed], count), Pass)
      else (Session(log, count), Pass)
  }

  /** The subdirectories in listing order; the first exception ends the run. */
  function Run(frequency: int, s: Session, rs: seq<Result<Document>>): (Session, Outcome)
    decreases |rs|
  {
    if rs == [] then (s, Pass)
    else
      var before := Run(frequency, s, rs[..|rs| - 1]);
      if before.1.Fail? then before else Step(frequency, before.0, rs[|rs| - 1])
  }

  /** A passing run over a prefix, followed by one more step, is the run over the longer prefix. */
  lemma RunExtends(frequency: int, s: Session, rs: seq<Result<Document>>, i: nat, after: Session, outcome: Outcome)
    requires i < |rs| && Run(frequency, s, rs[..i]).1 == Pass
    requires (after, outcome) == Step(frequency, Run(frequency, s, rs[..i]).0, rs[i])
    ensures (after, outcome) == Run(frequency, s, rs[..i + 1])
  {
    assert rs[..i + 1][..i] == rs[..i];
  }

  /** Once a prefix of the listing fails, the run ends there. */
  lemma {:induction false} RunFailurePersists(frequency: int, s: Session, rs: seq<Result<Document>>, k: nat)
    requires k <= |rs| && Run(frequency, s, rs[..k]).1.Fail?
    ensures Run(frequency, s, rs) == Run(frequency, s, rs[..k])
    decreases |rs|
  {
    if k < |rs| {
      var prefix := rs[..|rs| - 1];
      assert prefix[..k] == rs[..k];
      RunFailurePersists(frequency, s, prefix, k);
    } else {
      assert rs[..k] == rs;
    }
  }

  /** A negative divisor divides exactly the numbers its absolute value divides. */
  lemma RemainderOfAbs(n: nat, f: int)
    requires f != 0
    ensures n % f == 0 <==> n % Abs(f) == 0
  {
    if f < 0 {
      if n % f == 0 {
        assert n == f * (n / f);
        assert n == Abs(f) * -(n / f);
      }
      if n % Abs(f) == 0 {
        assert n == Abs(f) * (n / Abs(f));
        assert n == f * -(n / Abs(f));
      }
    }
  }

  /** Euclidean division by a positive number has one quotient and one remainder. */
  lemma DivisionUnique(n: int, f: int, q: int, r: int)
    requires f > 0 && n == f * q + r && 0 <= r < f
    ensures n / f == q && n % f == r
  {
    var q', r' := n / f, n % f;
    assert n == f * q' + r' && 0 <= r' < f;
    if q' > q {
      MultipleAtLeast(f, q' - q);
    } else if q' < q {
      MultipleAtLeast(f, q - q');
    }
  }

  lemma {:induction false} MultipleAtLeast(f: nat, k: int)
    requires k >= 1
    ensures f * k >= f
    decreases k
  {
    if k > 1 {
      MultipleAtLeast(f, k - 1);
      assert f * k == f * (k - 1) + f;
    }
  }

  /** Counting one more document crosses a multiple of f exactly when the new count is one. */
  lemma QuotientStep(n: nat, f: nat)
    requires f > 0
    ensures (n + 1) / f == n / f + (if (n + 1) % f == 0 then 1 else 0)
  {
    var q, r := n / f, n % f;
    assert n == f * q + r && 0 <= r < f;
    if r + 1 == f {
      DivisionUnique(n + 1, f, q + 1, 0);
    } else {
      DivisionUnique(n + 1, f, q, r + 1);
    }
  }

  /** The documents of a listing in which every subdirectory builds. */
  function Documents(rs: seq<Result<Document>>): (docs: seq<Document>)
    requires AllBuild(rs)
    ensures |docs| == |rs|
    ensures forall i :: 0 <= i < |rs| ==> docs[i] == rs[i].value
  {
    seq(|rs|, i requires 0 <= i < |rs| => rs[i].value)
  }

  /** n is a multiple of f, by repeated subtraction. */
  function IsMultiple(n: nat, f: nat): bool
    requires f > 0
    decreases n
  {
    if n < f then n == 0 else IsMultiple(n - f, f)
  }

  /** Repeated subtraction agrees with the remainder. */
  lemma {:induction false} IsMultipleIsRemainderZero(n: nat, f: nat)
    requires f > 0
    ensures IsMultiple(n, f) <==> n % f == 0
    decreases n
  {
    if n < f {
      DivisionUnique(n, f, 0, n);
    } else {
      IsMultipleIsRemainderZero(n - f, f);
      var q, r := (n - f) / f, (n - f) % f;
      assert n - f == f * q + r && 0 <= r < f;
      assert n == f * (q + 1) + r;
      DivisionUnique(n, f, q + 1, r);
    }
  }

  /**
   * The commit test agrees with Java's `count % frequency == 0`: the counter
   * is never negative, so Java's truncating remainder is zero exactly when
   * Dafny's Euclidean one is, whatever the sign of the frequency.
   */
  lemma CommitTestIsRemainder(count: nat, frequency: int)
    requires frequency != 0
    ensures IsMultiple(count, Abs(frequency)) <==> count % frequency == 0
  {
    RemainderOfAbs(count, frequency);
    IsMultipleIsRemainderZero(count, Abs(frequency));
  }

  /** How many of the counts 1..n are multiples of f. */
  function MultiplesUpTo(n: nat, f: nat): nat
    requires f > 0
  {
    if n == 0 then 0 else MultiplesUpTo(n - 1, f) + (if IsMultiple(n, f) then 1 else 0)
  }

  /** The multiples of f among 1..n are n / f of them. */
  lemma {:induction false} MultiplesUpToIsQuotient(n: nat, f: nat)
    requires f > 0
    ensures MultiplesUpTo(n, f) == n / f
  {
    if n > 0 {
      MultiplesUpToIsQuotient(n - 1, f);
      QuotientStep(n - 1, f);
      IsMultipleIsRemainderZero(n, f);
    }
  }

  /**
   * One subdirectory that yields a document, under a non-zero frequency:
   * the run goes on, the document is appended and the counter goes up by one.
   */
  lemma StepAddsOneDocument(frequency: int, s: Session, doc: Document)
    requires frequency != 0
    ensures Step(frequency, s, Ok(doc)).1 == Pass
    ensures Step(frequency, s, Ok(doc)).0.count == s.count + 1
    ensures s.log <= Step(frequency, s, Ok(doc)).0.log
    ensures AddedDocuments(Step(frequency, s, Ok(doc)).0.log) == AddedDocuments(s.log) + [doc]
  {
    var log1 := s.log + [Added(doc)];
    AddedAppend(s.log, [Added(doc)]);
    if IsMultiple(s.count + 1, Abs(frequency)) {
      AddedAppend(log1, [Committed]);
    }
  }

  /**
   * The same step commits exactly when the new count is a multiple of |F|,
   * whatever the sign of F.
   */
  lemma StepCommitsOnMultiples(frequency: int, s: Session, doc: Document)
    requires frequency != 0
    ensures CommitCount(Step(frequency, s, Ok(doc)).0.log)
            == CommitCount(s.log) + (if (s.count + 1) % Abs(frequency) == 0 then 1 else 0)
    ensures CommitCount(Step(frequency, s, Ok(doc)).0.log)
            == CommitCount(s.log) + (if IsMultiple(s.count + 1, Abs(frequency)) then 1 else 0)
  {
    var commit := IsMultiple(s.count + 1, Abs(frequency));
    var log1 := s.log + [Added(doc)];
    assert Step(frequency, s, Ok(doc)).0.log == if commit then log1 + [Committed] else log1;
    assert CommitCount(log1) == CommitCount(s.log) by {
      CountPush(s.log, Added(doc), (e: WriterEvent) => e.Committed?);
    }
    assert CommitCount(log1 + [Committed]) == CommitCount(log1) + 1 by {
      CountPush(log1, Committed, (e: WriterEvent) => e.Committed?);
    }
    assert commit <==> (s.count + 1) % Abs(frequency) == 0 by {
      IsMultipleIsRemainderZero(s.count + 1, Abs(frequency));
    }
  }

  /**
   * When every subdirectory yields a document and the frequency is not zero,
   * the run passes, each subdirectory adds exactly one document, in listing
   * order, and one to the counter.
   */
  lemma {:induction false} RunAddsEveryDocument(frequency: int, s: Session, rs: seq<Result<Document>>)
    requires frequency != 0 && AllBuild(rs)
    ensures Run(frequency, s, rs).1 == Pass
    ensures Run(frequency, s, rs).0.count == s.count + |rs|
    ensures AddedDocuments(Run(frequency, s, rs).0.log) == AddedDocuments(s.log) + Documents(rs)
    decreases |rs|
  {
    if rs != [] {
      var n := |rs| - 1;
      var prefix := rs[..n];
      var doc := rs[n].value;
      DocumentsOfPrefix(rs);
      var mid := Run(frequency, s, prefix).0;
      assert && Run(frequency, s, prefix).1 == Pass
             && mid.count == s.count + n
             && AddedDocuments(mid.log) == AddedDocuments(s.log) + Documents(prefix) by {
        RunAddsEveryDocument(frequency, s, prefix);
      }
      var end := Run(frequency, s, rs);
      assert && end.1 == Pass
             && end.0.count == mid.count + 1
             && AddedDocuments(end.0.log) == AddedDocuments(mid.log) + [doc] by {
        assert end == Step(frequency, mid, Ok(doc));
        StepAddsOneDocument(frequency, mid, doc);
      }
    }
  }

  /** The documents of a listing are those of all but its last subdirectory, then the last one's. */
  lemma DocumentsOfPrefix(rs: seq<Result<Document>>)
    requires rs != [] && AllBuild(rs)
    ensures AllBuild(rs[..|rs| - 1])
    ensures Documents(rs) == Documents(rs[..|rs| - 1]) + [rs[|rs| - 1].value]
  {
    var n := |rs| - 1;
    assert forall i :: 0 <= i < n ==> rs[..n][i] == rs[i];
  }

  /**
   * Commit cadence: under the same conditions a commit is issued for every
   * count passed that is a multiple of |F|.
   */
  lemma {:induction false} RunCadence(frequency: int, s: Session, rs: seq<Result<Document>>)
    requires frequency != 0 && AllBuild(rs)
    ensures CommitCount(Run(frequency, s, rs).0.log) + MultiplesUpTo(s.count, Abs(frequency))
            == CommitCount(s.log) + MultiplesUpTo(s.count + |rs|, Abs(frequency))
    decreases |rs|
  {
    if rs != [] {
      var n := |rs| - 1;
      var prefix := rs[..n];
      var f := Abs(frequency);
      var mid := Run(frequency, s, prefix).0;
      var end := Run(frequency, s, rs).0;
      var total := s.count + |rs|;
      var bump := if IsMultiple(mid.count + 1, f) then 1 else 0;
      var doc := rs[n].value;
      assert Run(frequency, s, prefix).1 == Pass && mid.count + 1 == total by {
        DocumentsOfPrefix(rs);
        RunAddsEveryDocument(frequency, s, prefix);
      }
      assert CommitCount(end.log) == CommitCount(mid.log) + bump by {
        assert end == Step(frequency, mid, Ok(doc)).0 by {
          assert rs[n] == Ok(doc);
        }
        StepCommitsOnMultiples(frequency, mid, doc);
      }
      assert CommitCount(mid.log) + MultiplesUpTo(s.count, f) == CommitCount(s.log) + MultiplesUpTo(mid.count, f) by {
        DocumentsOfPrefix(rs);
        RunCadence(frequency, s, prefix);
      }
      assert MultiplesUpTo(total, f) == MultiplesUpTo(mid.count, f) + bump by {
        assert total - 1 == mid.count;
      }
      assert CommitCount(end.log) + MultiplesUpTo(s.count, f) == CommitCount(s.log) + MultiplesUpTo(total, f);
    } else {
      assert Run(frequency, s, rs).0 == s;
      assert s.count + |rs| == s.count;
    }
  }

  /** Processing alone never merges or closes the writer. */
  lemma {:induction false} RunKeepsMergesAndCloses(frequency: int, s: Session, rs: seq<Result<Document>>)
    ensures MergeCount(Run(frequency, s, rs).0.log) == MergeCount(s.log)
    ensures CloseCount(Run(frequency, s, rs).0.log) == CloseCount(s.log)
    decreases |rs|
  {
    if rs != [] {
      var prefix := rs[..|rs| - 1];
      var before := Run(frequency, s, prefix);
      RunKeepsMergesAndCloses(frequency, s, prefix);
      if before.1.Pass? {
        StepKeepsMergesAndCloses(frequency, before.0, rs[|rs| - 1]);
      }
    }
  }

  /** One step only ever appends an addition and perhaps a commit. */
  lemma StepKeepsMergesAndCloses(frequency: int, s: Session, prepared: Result<Document>)
    ensures MergeCount(Step(frequency, s, prepared).0.log) == MergeCount(s.log)
    ensures CloseCount(Step(frequency, s, prepared).0.log) == CloseCount(s.log)
  {
    if prepared.Ok? {
      var log1 := s.log + [Added(prepared.value)];
      var merged := (e: WriterEvent) => e.Merged?;
      var closed := (e: WriterEvent) => e.Closed?;
      CountPush(s.log, Added(prepared.value), merged);
      CountPush(s.log, Added(prepared.value), closed);
      CountPush(log1, Committed, merged);
      CountPush(log1, Committed, closed);
    }
  }

  /**
   * The cadence in numbers: from counter c, D documents that all build
   * issue (c + D) / |F| - c / |F| commits; from a fresh session, D / |F|.
   */
  lemma RunCommits(frequency: int, s: Session, rs: seq<Result<Document>>)
    requires frequency != 0 && AllBuild(rs)
    ensures CommitCount(Run(frequency, s, rs).0.log)
            == CommitCount(s.log) + (s.count + |rs|) / Abs(frequency) - s.count / Abs(frequency)
    ensures s == Session([], 0) ==>
              CommitCount(Run(frequency, s, rs).0.log) == |rs| / Abs(frequency)
  {
    RunCadence(frequency, s, rs);
    MultiplesUpToIsQuotient(s.count, Abs(frequency));
    MultiplesUpToIsQuotient(s.count + |rs|, Abs(frequency));
  }

  /**
   * Fail-fast: the first subdirectory that fails to load or build ends the
   * run with its exception, after the documents before it and nothing more.
   */
  lemma RunStopsAtFirstFailure(frequency: int, s: Session, rs: seq<Result<Document>>, k: nat)
    requires frequency != 0
    requires k < |rs| && AllBuild(rs[..k]) && rs[k].Err?
    ensures Run(frequency, s, rs) == (Run(frequency, s, rs[..k]).0, Fail(rs[k].error))
    ensures Run(frequency, s, rs).0.count == s.count + k
  {
    var prefix := rs[..k + 1];
    assert prefix[..k] == rs[..k];
    RunAddsEveryDocument(frequency, s, rs[..k]);
    assert Run(frequency, s, prefix).1.Fail?;
    RunFailurePersists(frequency, s, rs, k + 1);
  }

  /**
   * A commit frequency of zero: the first document that builds is added and
   * counted, and then the remainder by zero ends the run.
   */
  lemma ZeroFrequencyFailsAfterFirstDocument(s: Session, rs: seq<Result<Document>>)
    requires rs != [] && rs[0].Ok?
    ensures Run(0, s, rs) == (Session(s.log + [Added(rs[0].value)], s.count + 1), Fail(DivisionByZero))
  {
    assert rs[..1][..0] == [];
    RunFailurePersists(0, s, rs, 1);
  }

  /** Java's IndexProcessor: the writer, the listing, the schema and the shared counter. */
  class IndexProcessor {
    const writer: IndexWriter
    const subdirectories: seq<Subdirectory>
    const schema: Schema
    const commitFrequency: int
    /** Documents the writer had been given before this processor was made. */
    ghost const addedBefore: nat
    var indexedFilesCount: nat
    var listingOpen: bool

    /** The counter is the number of documents this processor has added. */
    ghost predicate Valid()
      reads this, writer
    {
      |AddedDocuments(writer.log)| == addedBefore + indexedFilesCount
    }

    ghost function State(): Session
      reads this, writer
    {
      Session(writer.log, indexedFilesCount)
    }

    constructor (writer: IndexWriter, subdirectories: seq<Subdirectory>, schema: Schema, commitFrequency: int)
      ensures Valid()
      ensures this.writer == writer && this.subdirectories == subdirectories
      ensures this.schema == schema && this.commitFrequency == commitFrequency
      ensures indexedFilesCount == 0 && listingOpen
    {
      this.writer := writer;
      this.subdirectories := subdirectories;
      this.schema := schema;
      this.commitFrequency := commitFrequency;
      addedBefore := |AddedDocuments(writer.log)|;
      indexedFilesCount := 0;
      listingOpen := true;
    }

    method ProcessCorporaSubdirectory(dir: Subdirectory) returns (outcome: Outcome)
      requires Valid() && writer.open
      modifies this`indexedFilesCount, writer
      ensures Valid() && writer.open
      ensures (State(), outcome) == Step(commitFrequency, old(State()), Prepared(schema, dir))
    {
      var meta := LoadMetadata(dir, schema.copyFields);
      if meta.Err? {
        assert Prepared(schema, dir) == Err(meta.error);
        return Fail(meta.error);
      }
      var doc := CreateDocument(schema.fields, meta.value);
      assert Prepared(schema, dir) == doc;
      if doc.Err? {
        return Fail(doc.error);
      }
      assert AddedDocuments(writer.log + [Added(doc.value)]) == AddedDocuments(writer.log) + [doc.value] by {
        AddedAppend(writer.log, [Added(doc.value)]);
      }
      writer.AddDocument(doc.value);
      indexedFilesCount := indexedFilesCount + 1;
      if commitFrequency == 0 {
        // Java's `%` by zero throws ArithmeticException here.
        return Fail(DivisionByZero);
      }
      CommitTestIsRemainder(indexedFilesCount, commitFrequency);
      if indexedFilesCount % commitFrequency == 0 {
        assert AddedDocuments(writer.log + [Committed]) == AddedDocuments(writer.log) by {
          AddedAppend(writer.log, [Committed]);
        }
        writer.Commit();
      }
      return Pass;
    }

    method ProcessSequentially() returns (outcome: Outcome)
      requires Valid() && writer.open && listingOpen
      modifies this`indexedFilesCount, writer
      ensures Valid() && writer.open
      ensures (State(), outcome) == Run(commitFrequency, old(State()), PreparedAll(schema, subdirectories))
    {
      ghost var start := State();
      ghost var rs := PreparedAll(schema, subdirectories);
      var i := 0;
      while i < |subdirectories|
        invariant 0 <= i <= |subdirectories|
        invariant Valid() && writer.open
        invariant (State(), Pass) == Run(commitFrequency, start, rs[..i])
      {
        outcome := ProcessCorporaSubdirectory(subdirectories[i]);
        RunExtends(commitFrequency, start, rs, i, State(), outcome);
        if outcome.Fail? {
          RunFailurePersists(commitFrequency, start, rs, i + 1);
          return;
        }
        i := i + 1;
      }
      assert rs[..i] == rs;
      return Pass;
    }

    method OptimizeAndCloseIndex(targetSegmentsCount: int)
      requires Valid() && writer.open
      modifies writer
      ensures Valid() && !writer.open
      ensures writer.log == old(writer.log) + [Committed, Merged(targetSegmentsCount), Closed]
    {
      ghost var start := writer.log;
      ghost var tail := [Committed, Merged(targetSegmentsCount), Closed];
      AddedAppend(start, tail);
      NoAddedDocuments(tail);
      writer.Commit();
      writer.ForceMerge(targetSegmentsCount);
      writer.Close();
      assert writer.log == start + tail;
    }

    method Close()
      requires Valid()
      modifies this`listingOpen, writer
      ensures Valid() && !listingOpen && !writer.open
      ensures writer.log == old(writer.log) + (if old(writer.open) then [Closed] else [])
    {
      listingOpen := false;
      if writer.IsOpen() {
        AddedAppend(writer.log, [Closed]);
        writer.Close();
      }
    }

    method GetIndexedFilesCount() returns (count: nat)
      requires Valid()
      ensures count == indexedFilesCount
      ensures addedBefore + count == |AddedDocuments(writer.log)|
    {
      return indexedFilesCount;
    }
  }
}

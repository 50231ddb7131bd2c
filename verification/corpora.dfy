/**
 * The sequential path of a whole indexing run: process every subdirectory
 * (unless only optimizing), finalize the index, then close the processor,
 * which closes the writer only if finalizing did not.
 */
module CorporaIndex {
  import opened Failures
  import opened Metadata
  import opened IndexSchema
  import opened Loader
  import opened Builder
  import opened Writer
  import opened Processor

  /** The segment count the finished index is merged down to. */
  const TargetSegments: int := 16

  method IndexCorpora(schema: Schema, commitFrequency: int, subdirectories: seq<Subdirectory>, onlyOptimize: bool)
    returns (log: seq<WriterEvent>, indexed: nat, outcome: Outcome)
    ensures var run := Run(commitFrequency, Session([], 0),
                           PreparedAll(schema, if onlyOptimize then [] else subdirectories));
            && indexed == run.0.count
            && outcome == run.1
            && log == run.0.log + (if run.1.Pass? then [Committed, Merged(TargetSegments)] else []) + [Closed]
    ensures onlyOptimize ==>
              log == [Committed, Merged(TargetSegments), Closed] && indexed == 0 && outcome == Pass
    ensures && !onlyOptimize
            && commitFrequency != 0
            && (forall i :: 0 <= i < |subdirectories| ==> Prepared(schema, subdirectories[i]).Ok?)
            ==>
            && outcome == Pass
            && indexed == |subdirectories|
            && AddedDocuments(log) == Documents(PreparedAll(schema, subdirectories))
            && CommitCount(log) == |subdirectories| / Abs(commitFrequency) + 1
            && MergeCount(log) == 1
            && CloseCount(log) == 1
  {
    var writer := new IndexWriter();
    var processor := new IndexProcessor(writer, subdirectories, schema, commitFrequency);
    outcome := Pass;
    if !onlyOptimize {
      outcome := processor.ProcessSequentially();
    }
    if outcome.Pass? {
      processor.OptimizeAndCloseIndex(TargetSegments);
    }
    processor.Close();
    log := writer.log;
    indexed := processor.GetIndexedFilesCount();

    ghost var allBuild := !onlyOptimize && commitFrequency != 0
      && forall i :: 0 <= i < |subdirectories| ==> Prepared(schema, subdirectories[i]).Ok?;
    assert allBuild ==>
      && outcome == Pass
      && indexed == |subdirectories|
      && AddedDocuments(log) == Documents(PreparedAll(schema, subdirectories))
      && CommitCount(log) == |subdirectories| / Abs(commitFrequency) + 1
      && MergeCount(log) == 1
      && CloseCount(log) == 1
    by {
      if allBuild {
        var rs := PreparedAll(schema, subdirectories);
        CompletedRun(commitFrequency, rs);
        assert outcome == Pass;
        assert log == Run(commitFrequency, Session([], 0), rs).0.log + [Committed, Merged(TargetSegments), Closed];
      }
    }
  }

  /** A run in which every subdirectory builds, followed by the final commit, merge and close. */
  lemma CompletedRun(commitFrequency: int, rs: seq<Result<Document>>)
    requires commitFrequency != 0 && AllBuild(rs)
    ensures var run := Run(commitFrequency, Session([], 0), rs);
            var log := run.0.log + [Committed, Merged(TargetSegments), Closed];
            && run.1 == Pass
            && run.0.count == |rs|
            && AddedDocuments(log) == Documents(rs)
            && CommitCount(log) == |rs| / Abs(commitFrequency) + 1
            && MergeCount(log) == 1
            && CloseCount(log) == 1
  {
    var start := Session([], 0);
    RunAddsEveryDocument(commitFrequency, start, rs);
    RunKeepsMergesAndCloses(commitFrequency, start, rs);
    RunCommits(commitFrequency, start, rs);
    var processed := Run(commitFrequency, start, rs).0;
    FinishingCounts(processed.log, TargetSegments);
    assert AddedDocuments(processed.log) == Documents(rs);
    assert MergeCount(processed.log) == 0 && CloseCount(processed.log) == 0;
  }

  /** The schema of the worked example: an exact `title` and the analyzed content field. */
  function TitleSchema(): Schema {
    Schema([SchemaField("title", "string", true, true), SchemaField(ContentField, "text", true, true)], [])
  }

  /** Every subdirectory whose doc.json is {"title": "T"} builds under the title schema. */
  lemma TitledDirectoriesBuild(dirs: seq<Subdirectory>)
    requires forall i :: 0 <= i < |dirs| ==> dirs[i].metadata == Some(map["title" := Str("T")])
    ensures forall i :: 0 <= i < |dirs| ==> Prepared(TitleSchema(), dirs[i]).Ok?
  {
    var fields := TitleSchema().fields;
    forall i | 0 <= i < |dirs| ensures Prepared(TitleSchema(), dirs[i]).Ok? {
      var meta := Seeded(map["title" := Str("T")], dirs[i].path);
      assert Loaded(dirs[i], []) == Ok(meta);
      assert "title" != ContentField;
      assert "title" in meta && meta["title"] == Str("T");
      assert ContentField in meta && meta[ContentField] == Str(ContentPath(dirs[i].path));
      assert Buildable(fields[0], meta) && Buildable(fields[1], meta);
      BuildSucceedsIff(fields, meta);
    }
  }

  /** Three documents under a commit every two: the commit falls right after the second. */
  lemma ThreeDocumentRun(d1: Document, d2: Document, d3: Document)
    ensures Run(2, Session([], 0), [Ok(d1), Ok(d2), Ok(d3)])
         == (Session([Added(d1), Added(d2), Committed, Added(d3)], 3), Pass)
  {
    var rs := [Ok(d1), Ok(d2), Ok(d3)];
    var start := Session([], 0);
    var s1 := Session([Added(d1)], 1);
    var s2 := Session([Added(d1), Added(d2), Committed], 2);
    var s3 := Session([Added(d1), Added(d2), Committed, Added(d3)], 3);
    assert Abs(2) == 2 && !IsMultiple(1, 2) && IsMultiple(2, 2) && !IsMultiple(3, 2) by {
      assert IsMultiple(0, 2);
      assert IsMultiple(3, 2) == IsMultiple(1, 2);
    }
    assert rs[..0] == [];
    assert (s1, Pass) == Step(2, start, rs[0]) by {
      assert start.log + [Added(d1)] == s1.log;
    }
    RunExtends(2, start, rs, 0, s1, Pass);
    assert (s2, Pass) == Step(2, s1, rs[1]) by {
      assert s1.log + [Added(d2)] + [Committed] == s2.log;
    }
    RunExtends(2, start, rs, 1, s2, Pass);
    assert (s3, Pass) == Step(2, s2, rs[2]) by {
      assert s2.log + [Added(d3)] == s3.log;
    }
    RunExtends(2, start, rs, 2, s3, Pass);
    assert rs[..3] == rs;
  }

  /**
   * A worked example: three subdirectories whose doc.json is {"title": "T"}
   * and a commit every two documents give one commit right after the second
   * document and one before the merge.
   */
  method ThreeDocumentScenario() {
    var json: Metadata := map["title" := Str("T")];
    var dirs := [
      Subdirectory("/corpus/d1", Some(json)),
      Subdirectory("/corpus/d2", Some(json)),
      Subdirectory("/corpus/d3", Some(json))
    ];
    TitledDirectoriesBuild(dirs);
    var rs := PreparedAll(TitleSchema(), dirs);
    assert rs == [Ok(rs[0].value), Ok(rs[1].value), Ok(rs[2].value)];
    ThreeDocumentRun(rs[0].value, rs[1].value, rs[2].value);
    var log, indexed, outcome := IndexCorpora(TitleSchema(), 2, dirs, false);
    assert outcome == Pass && indexed == 3;
    assert log == [Added(rs[0].value), Added(rs[1].value), Committed, Added(rs[2].value),
                   Committed, Merged(TargetSegments), Closed];
    assert log[2] == Committed && log[4..] == [Committed, Merged(16), Closed];
    assert |AddedDocuments(log)| == 3;
    assert CommitCount(log) == 2;
    assert MergeCount(log) == 1 && CloseCount(log) == 1;
  }
}

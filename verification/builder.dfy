/**
 * Building the index document for one subdirectory: the schema's fields are
 * walked in order and each indexed field present in the metadata becomes one
 * field record.
 */
module Builder {
  import opened Failures
  import opened Metadata
  import opened IndexSchema

  /** Solr's internal version field, never indexed by this tool. */
  const VersionField: string := "_version_"

  /** An exact-match (StringField) or an analyzed (TextField) record. */
  datatype FieldKind = Exact | Analyzed

  datatype FieldRecord = FieldRecord(name: string, kind: FieldKind, value: string, stored: bool)

  type Document = seq<FieldRecord>

  /** Fields the builder passes over whatever their flags: the version field and int/long types. */
  predicate Excluded(f: SchemaField) {
    f.name == VersionField || f.typeName == "int" || f.typeName == "long"
  }

  /** Fields that reach the type switch. */
  predicate Emitted(f: SchemaField, meta: Metadata) {
    !Excluded(f) && f.indexed && f.name in meta
  }

  /** The record kind a field type routes to, None for a type the builder does not know. */
  function KindOf(typeName: string): Option<FieldKind> {
    if typeName == "string" then Some(Exact)
    else if typeName == "text" || typeName == "mtas" then Some(Analyzed)
    else None
  }

  /** A field the builder gets through without an exception. */
  predicate Buildable(f: SchemaField, meta: Metadata) {
    Emitted(f, meta) ==> KindOf(f.typeName).Some? && meta[f.name] != Null
  }

  /** `rec` is the record field `f` yields from `meta`. */
  predicate Describes(rec: FieldRecord, f: SchemaField, meta: Metadata) {
    && rec.name == f.name
    && f.name in meta
    && KindOf(f.typeName) == Some(rec.kind)
    && JavaString(meta[f.name]) == Some(rec.value)
    && rec.stored == f.stored
  }

  /**
   * What one schema field contributes: nothing, a record, or an exception.
   * The type is switched on before the value is converted, so an unknown
   * type wins over a null value.
   */
  function FieldStep(f: SchemaField, meta: Metadata): Result<Option<FieldRecord>> {
    if !Emitted(f, meta) then Ok(None)
    else match KindOf(f.typeName)
      case None => Err(UnknownType(f.typeName))
      case Some(kind) =>
        match JavaString(meta[f.name])
        case None => Err(NullValue(f.name))
        case Some(text) => Ok(Some(FieldRecord(f.name, kind, text, f.stored)))
  }

  /** The document the schema's fields build, or the first exception. */
  function Build(fields: seq<SchemaField>, meta: Metadata): Result<Document>
    decreases |fields|
  {
    if fields == [] then Ok([])
    else
      match Build(fields[..|fields| - 1], meta)
      case Err(e) => Err(e)
      case Ok(doc) =>
        match FieldStep(fields[|fields| - 1], meta)
        case Err(e) => Err(e)
        case Ok(None) => Ok(doc)
        case Ok(Some(rec)) => Ok(doc + [rec])
  }

  /** The positions of the emitted fields, in schema order. */
  function EmittedIndices(fields: seq<SchemaField>, meta: Metadata): seq<nat>
    decreases |fields|
  {
    if fields == [] then []
    else
      EmittedIndices(fields[..|fields| - 1], meta)
      + (if Emitted(fields[|fields| - 1], meta) then [|fields| - 1] else [])
  }

  method CreateDocument(fields: seq<SchemaField>, meta: Metadata) returns (r: Result<Document>)
    ensures r == Build(fields, meta)
  {
    var doc: Document := [];
    var i := 0;
    while i < |fields|
      invariant 0 <= i <= |fields|
      invariant Build(fields[..i], meta) == Ok(doc)
    {
      var f := fields[i];
      assert fields[..i + 1][..i] == fields[..i];
      if f.name == VersionField || f.typeName == "int" || f.typeName == "long" {
        // passed over
      } else if f.indexed && f.name in meta {
        var kind;
        if f.typeName == "string" {
          kind := Exact;
        } else if f.typeName == "text" || f.typeName == "mtas" {
          kind := Analyzed;
        } else {
          BuildErrorPersists(fields, i + 1, meta);
          return Err(UnknownType(f.typeName));
        }
        var text := JavaString(meta[f.name]);
        if text.None? {
          BuildErrorPersists(fields, i + 1, meta);
          return Err(NullValue(f.name));
        }
        doc := doc + [FieldRecord(f.name, kind, text.value, f.stored)];
      }
      i := i + 1;
    }
    assert fields[..i] == fields;
    return Ok(doc);
  }

  /** Once a prefix of the schema raises, the whole walk raises the same exception. */
  lemma {:induction false} BuildErrorPersists(fields: seq<SchemaField>, k: nat, meta: Metadata)
    requires k <= |fields| && Build(fields[..k], meta).Err?
    ensures Build(fields, meta) == Build(fields[..k], meta)
    decreases |fields|
  {
    if k < |fields| {
      var prefix := fields[..|fields| - 1];
      assert prefix[..k] == fields[..k];
      BuildErrorPersists(prefix, k, meta);
    } else {
      assert fields[..k] == fields;
    }
  }

  /** The emitted positions are increasing, in range, emitted, and all of them. */
  lemma {:induction false} EmittedIndicesExact(fields: seq<SchemaField>, meta: Metadata)
    ensures forall a, b :: 0 <= a < b < |EmittedIndices(fields, meta)|
              ==> EmittedIndices(fields, meta)[a] < EmittedIndices(fields, meta)[b]
    ensures forall k :: 0 <= k < |EmittedIndices(fields, meta)|
              ==> EmittedIndices(fields, meta)[k] < |fields|
                  && Emitted(fields[EmittedIndices(fields, meta)[k]], meta)
    ensures forall i :: 0 <= i < |fields| && Emitted(fields[i], meta)
              ==> i in EmittedIndices(fields, meta)
    decreases |fields|
  {
    if fields != [] {
      var n := |fields| - 1;
      var prefix := fields[..n];
      EmittedIndicesExact(prefix, meta);
      forall k | 0 <= k < |EmittedIndices(prefix, meta)|
        ensures fields[EmittedIndices(prefix, meta)[k]] == prefix[EmittedIndices(prefix, meta)[k]]
      {
      }
      forall i | 0 <= i < n && Emitted(fields[i], meta)
        ensures i in EmittedIndices(prefix, meta)
      {
        assert prefix[i] == fields[i];
      }
    }
  }

  /** Building succeeds exactly when every schema field is buildable. */
  lemma {:induction false} BuildSucceedsIff(fields: seq<SchemaField>, meta: Metadata)
    ensures Build(fields, meta).Ok? <==> forall i :: 0 <= i < |fields| ==> Buildable(fields[i], meta)
    decreases |fields|
  {
    if fields != [] {
      var n := |fields| - 1;
      var prefix := fields[..n];
      BuildSucceedsIff(prefix, meta);
      assert forall i :: 0 <= i < n ==> prefix[i] == fields[i];
    }
  }

  /**
   * A failed build failed at the first unbuildable field, with that field's
   * exception: an unknown type for the type name, else a null value.
   */
  lemma {:induction false} BuildFailsAtFirstBadField(fields: seq<SchemaField>, meta: Metadata)
    requires Build(fields, meta).Err?
    ensures exists i ::
              && 0 <= i < |fields|
              && (forall j :: 0 <= j < i ==> Buildable(fields[j], meta))
              && Emitted(fields[i], meta)
              && !Buildable(fields[i], meta)
              && Build(fields, meta).error
                 == (if KindOf(fields[i].typeName).None? then UnknownType(fields[i].typeName)
                     else NullValue(fields[i].name))
    decreases |fields|
  {
    var n := |fields| - 1;
    var prefix := fields[..n];
    assert forall j :: 0 <= j < n ==> prefix[j] == fields[j];
    if Build(prefix, meta).Err? {
      BuildFailsAtFirstBadField(prefix, meta);
      var i :| 0 <= i < n && (forall j :: 0 <= j < i ==> Buildable(prefix[j], meta))
               && Emitted(prefix[i], meta)
               && Build(prefix, meta).error
                  == (if KindOf(prefix[i].typeName).None? then UnknownType(prefix[i].typeName)
                      else NullValue(prefix[i].name));
      assert forall j :: 0 <= j < i ==> Buildable(fields[j], meta);
    } else {
      BuildSucceedsIff(prefix, meta);
      assert forall j :: 0 <= j < n ==> Buildable(fields[j], meta);
    }
  }

  /**
   * A built document holds one record per emitted field, in schema order,
   * each carrying the field's name, routed kind, stored flag and the value's
   * string form.
   */
  lemma {:induction false} BuildFollowsSchema(fields: seq<SchemaField>, meta: Metadata)
    requires Build(fields, meta).Ok?
    ensures |Build(fields, meta).value| == |EmittedIndices(fields, meta)|
    ensures forall k :: 0 <= k < |Build(fields, meta).value|
              ==> EmittedIndices(fields, meta)[k] < |fields|
                  && Describes(Build(fields, meta).value[k], fields[EmittedIndices(fields, meta)[k]], meta)
    decreases |fields|
  {
    if fields != [] {
      var n := |fields| - 1;
      var prefix := fields[..n];
      var last := fields[n];
      BuildFollowsSchema(prefix, meta);
      var doc0, idx0 := Build(prefix, meta).value, EmittedIndices(prefix, meta);
      var doc, idx := Build(fields, meta).value, EmittedIndices(fields, meta);
      assert forall k :: 0 <= k < |idx0| ==> idx0[k] < n && fields[idx0[k]] == prefix[idx0[k]];
      match FieldStep(last, meta)
      case Ok(None) =>
        assert !Emitted(last, meta);
        assert doc == doc0 && idx == idx0;
      case Ok(Some(rec)) =>
        assert Emitted(last, meta) && Describes(rec, last, meta);
        assert doc == doc0 + [rec] && idx == idx0 + [n];
    }
  }

  /** No record is ever named after the version field or after an int or long field. */
  lemma NoRecordForExcludedField(fields: seq<SchemaField>, meta: Metadata)
    requires DistinctNames(fields)
    requires Build(fields, meta).Ok?
    ensures forall k :: 0 <= k < |Build(fields, meta).value| ==> Build(fields, meta).value[k].name != VersionField
    ensures forall k, i :: 0 <= k < |Build(fields, meta).value| && 0 <= i < |fields| && Excluded(fields[i])
              ==> Build(fields, meta).value[k].name != fields[i].name
  {
    BuildFollowsSchema(fields, meta);
    EmittedIndicesExact(fields, meta);
  }

  /** A schema field has a record exactly when it is emitted: not excluded, indexed and present. */
  lemma RecordIffEmitted(fields: seq<SchemaField>, meta: Metadata, i: nat)
    requires DistinctNames(fields)
    requires Build(fields, meta).Ok?
    requires i < |fields|
    ensures (exists k :: 0 <= k < |Build(fields, meta).value| && Build(fields, meta).value[k].name == fields[i].name)
            <==> Emitted(fields[i], meta)
  {
    var doc := Build(fields, meta).value;
    var idx := EmittedIndices(fields, meta);
    BuildFollowsSchema(fields, meta);
    EmittedIndicesExact(fields, meta);
    if Emitted(fields[i], meta) {
      var k :| 0 <= k < |idx| && idx[k] == i;
      assert doc[k].name == fields[i].name;
    }
  }

  /** Record x is built from an earlier schema field than record y. */
  predicate FromEarlierField(fields: seq<SchemaField>, meta: Metadata, x: FieldRecord, y: FieldRecord) {
    exists i, j :: 0 <= i < j < |fields| && Describes(x, fields[i], meta) && Describes(y, fields[j], meta)
  }

  /**
   * Record a comes from an earlier schema field than record b, for a before
   * b, and the two are named differently.
   */
  lemma RecordPairOrdered(fields: seq<SchemaField>, meta: Metadata, a: nat, b: nat)
    requires DistinctNames(fields)
    requires Build(fields, meta).Ok?
    requires a < b < |Build(fields, meta).value|
    ensures FromEarlierField(fields, meta, Build(fields, meta).value[a], Build(fields, meta).value[b])
    ensures Build(fields, meta).value[a].name != Build(fields, meta).value[b].name
  {
    var idx := EmittedIndices(fields, meta);
    BuildFollowsSchema(fields, meta);
    EmittedIndicesExact(fields, meta);
    var i, j := idx[a], idx[b];
    assert 0 <= i < j < |fields|;
  }

  /** Records follow schema order and no two records come from the same field or share a name. */
  lemma RecordsOrderedAndUnique(fields: seq<SchemaField>, meta: Metadata)
    requires DistinctNames(fields)
    requires Build(fields, meta).Ok?
    ensures forall a, b :: 0 <= a < b < |Build(fields, meta).value|
              ==> FromEarlierField(fields, meta, Build(fields, meta).value[a], Build(fields, meta).value[b])
    ensures forall a, b :: 0 <= a < b < |Build(fields, meta).value|
              ==> Build(fields, meta).value[a].name != Build(fields, meta).value[b].name
  {
    forall a, b | 0 <= a < b < |Build(fields, meta).value|
      ensures FromEarlierField(fields, meta, Build(fields, meta).value[a], Build(fields, meta).value[b])
      ensures Build(fields, meta).value[a].name != Build(fields, meta).value[b].name
    {
      RecordPairOrdered(fields, meta, a, b);
    }
  }
}

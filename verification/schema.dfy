/** The already-resolved Solr schema the indexer consumes. */
module IndexSchema {

  /** One declared field: its name, its field type's name and its flags. */
  datatype SchemaField = SchemaField(name: string, typeName: string, indexed: bool, stored: bool)

  /** A copy-field entry: one source field and the fields it is copied into, in order. */
  datatype CopyRule = CopyRule(source: string, destinations: seq<string>)

  /** Fields in the schema's iteration order, and the copy-field table in its iteration order. */
  datatype Schema = Schema(fields: seq<SchemaField>, copyFields: seq<CopyRule>)

  /** The schema's fields come from a map keyed by name, so no name repeats. */
  predicate DistinctNames(fields: seq<SchemaField>) {
    forall i, j :: 0 <= i < j < |fields| ==> fields[i].name != fields[j].name
  }
}

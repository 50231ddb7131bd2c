/**
 * Loading one subdirectory's metadata: the parsed doc.json, the synthesized
 * content entry pointing at morph.xml, then the schema's copy fields.
 */
module Loader {
  import opened Failures
  import opened Metadata
  import opened IndexSchema

  /** The synthesized field that refers to the annotated content file. */
  const ContentField: string := "text_data"
  const ContentFile: string := "morph.xml"

  /**
   * One directory of the corpus listing: its absolute path, and the parsed
   * doc.json object, or None when that file could not be read or parsed.
   */
  datatype Subdirectory = Subdirectory(path: string, metadata: Option<Metadata>)

  /** The absolute path of the content file inside directory `dir`. */
  function ContentPath(dir: string): string {
    dir + "/" + ContentFile
  }

  /** Every key some copy rule writes into. */
  function Destinations(rules: seq<CopyRule>): set<string> {
    set i, d | 0 <= i < |rules| && d in rules[i].destinations :: d
  }

  /** The destinations of one rule, as a set. */
  function Targets(rule: CopyRule): set<string> {
    set d | d in rule.destinations
  }

  /** `m` with every key of `keys` put to `v`. */
  function PutAll(m: Metadata, keys: seq<string>, v: Value): Metadata {
    m + map d | d in keys :: v
  }

  /** One rule: the source's value, read once, is put under every destination. */
  function ApplyRule(m: Metadata, rule: CopyRule): Metadata {
    PutAll(m, rule.destinations, Lookup(m, rule.source))
  }

  /** The rules applied one after another, in table order. */
  function ApplyRules(m: Metadata, rules: seq<CopyRule>): Metadata
    decreases |rules|
  {
    if rules == [] then m
    else ApplyRule(ApplyRules(m, rules[..|rules| - 1]), rules[|rules| - 1])
  }

  /** The metadata before copy fields: doc.json with the content path put in. */
  function Seeded(json: Metadata, dir: string): Metadata {
    json[ContentField := Str(ContentPath(dir))]
  }

  /** What loading a subdirectory yields. */
  function Loaded(dir: Subdirectory, rules: seq<CopyRule>): Result<Metadata> {
    match dir.metadata
    case None => Err(LoadError(dir.path))
    case Some(json) => Ok(ApplyRules(Seeded(json, dir.path), rules))
  }

  /** The value a copy rule with source `source` reads when no earlier rule wrote to it. */
  function SourceValue(json: Metadata, dir: string, source: string): Value {
    if source == ContentField then Str(ContentPath(dir)) else Lookup(json, source)
  }

  method LoadMetadata(dir: Subdirectory, copyFields: seq<CopyRule>) returns (r: Result<Metadata>)
    ensures r == Loaded(dir, copyFields)
  {
    if dir.metadata.None? {
      return Err(LoadError(dir.path));
    }
    var doc := dir.metadata.value;
    doc := doc[ContentField := Str(ContentPath(dir.path))];
    ghost var seeded := doc;
    var i := 0;
    while i < |copyFields|
      invariant 0 <= i <= |copyFields|
      invariant doc == ApplyRules(seeded, copyFields[..i])
    {
      var rule := copyFields[i];
      var value := Lookup(doc, rule.source);
      ghost var before := doc;
      var j := 0;
      while j < |rule.destinations|
        invariant 0 <= j <= |rule.destinations|
        invariant doc == PutAll(before, rule.destinations[..j], value)
      {
        PutNext(before, rule.destinations, j, value);
        doc := doc[rule.destinations[j] := value];
        j := j + 1;
      }
      assert rule.destinations[..j] == rule.destinations;
      assert copyFields[..i + 1][..i] == copyFields[..i];
      i := i + 1;
    }
    assert copyFields[..i] == copyFields;
    return Ok(doc);
  }

  lemma PutNext(m: Metadata, keys: seq<string>, j: nat, v: Value)
    requires j < |keys|
    ensures PutAll(m, keys[..j], v)[keys[j] := v] == PutAll(m, keys[..j + 1], v)
  {
    assert keys[..j + 1] == keys[..j] + [keys[j]];
  }

  lemma {:induction false} DestinationsOfPrefix(rules: seq<CopyRule>)
    requires rules != []
    ensures Destinations(rules)
         == Destinations(rules[..|rules| - 1]) + Targets(rules[|rules| - 1])
  {
    var n := |rules| - 1;
    forall d | d in Destinations(rules)
      ensures d in Destinations(rules[..n]) || d in rules[n].destinations
    {
      var i :| 0 <= i < |rules| && d in rules[i].destinations;
      if i < n { assert rules[..n][i] == rules[i]; }
    }
    forall d | d in Destinations(rules[..n]) ensures d in Destinations(rules) {
      var i :| 0 <= i < n && d in rules[..n][i].destinations;
      assert rules[i] == rules[..n][i];
    }
  }

  /** Copy fields add exactly the destination keys and remove none. */
  lemma {:induction false} AppliedKeys(m: Metadata, rules: seq<CopyRule>)
    ensures ApplyRules(m, rules).Keys == m.Keys + Destinations(rules)
    decreases |rules|
  {
    if rules != [] {
      AppliedKeys(m, rules[..|rules| - 1]);
      DestinationsOfPrefix(rules);
    }
  }

  /** A key no rule writes into keeps its value (or its absence). */
  lemma {:induction false} AppliedUntouched(m: Metadata, rules: seq<CopyRule>, k: string)
    requires k !in Destinations(rules)
    ensures k in ApplyRules(m, rules) <==> k in m
    ensures k in m ==> ApplyRules(m, rules)[k] == m[k]
    decreases |rules|
  {
    if rules != [] {
      DestinationsOfPrefix(rules);
      AppliedUntouched(m, rules[..|rules| - 1], k);
    }
  }

  /**
   * The last rule naming `d` as a destination decides its value: the value
   * the rule's source had when that rule ran.
   */
  lemma {:induction false} LastCopyWins(m: Metadata, rules: seq<CopyRule>, i: nat, d: string)
    requires i < |rules| && d in rules[i].destinations
    requires forall j :: i < j < |rules| ==> d !in rules[j].destinations
    ensures d in ApplyRules(m, rules)
    ensures ApplyRules(m, rules)[d] == Lookup(ApplyRules(m, rules[..i]), rules[i].source)
    decreases |rules|
  {
    var n := |rules| - 1;
    if i < n {
      var prefix := rules[..n];
      assert prefix[..i] == rules[..i];
      forall j | i < j < |prefix| ensures d !in prefix[j].destinations {
        assert prefix[j] == rules[j];
      }
      LastCopyWins(m, prefix, i, d);
      assert d !in rules[n].destinations;
    }
  }

  /**
   * The copy-field promise: when `d` is last written by rule i and no earlier
   * rule wrote into that rule's source, `d` holds the source's raw value as
   * the starting map had it (null when absent).
   */
  lemma CopyOfUntouchedSource(m: Metadata, rules: seq<CopyRule>, i: nat, d: string)
    requires i < |rules| && d in rules[i].destinations
    requires forall j :: i < j < |rules| ==> d !in rules[j].destinations
    requires forall j :: 0 <= j < i ==> rules[i].source !in rules[j].destinations
    ensures d in ApplyRules(m, rules)
    ensures ApplyRules(m, rules)[d] == Lookup(m, rules[i].source)
  {
    LastCopyWins(m, rules, i, d);
    var source := rules[i].source;
    assert source !in Destinations(rules[..i]) by {
      forall j | 0 <= j < i ensures source !in rules[..i][j].destinations {
        assert rules[..i][j] == rules[j];
      }
    }
    AppliedUntouched(m, rules[..i], source);
  }

  /** After loading, the keys are doc.json's, the content field and every copy destination. */
  lemma LoadedKeys(dir: Subdirectory, rules: seq<CopyRule>)
    requires dir.metadata.Some?
    ensures Loaded(dir, rules).Ok?
    ensures Loaded(dir, rules).value.Keys
         == dir.metadata.value.Keys + {ContentField} + Destinations(rules)
  {
    AppliedKeys(Seeded(dir.metadata.value, dir.path), rules);
  }

  /** Unless a copy rule writes into it, the content field holds the path of morph.xml. */
  lemma LoadedContentPath(dir: Subdirectory, rules: seq<CopyRule>)
    requires dir.metadata.Some?
    requires ContentField !in Destinations(rules)
    ensures Loaded(dir, rules).Ok?
    ensures ContentField in Loaded(dir, rules).value
    ensures Loaded(dir, rules).value[ContentField] == Str(ContentPath(dir.path))
  {
    AppliedUntouched(Seeded(dir.metadata.value, dir.path), rules, ContentField);
  }

  /** A doc.json key that is neither the content field nor a copy destination keeps its value. */
  lemma LoadedKeepsJsonValue(dir: Subdirectory, rules: seq<CopyRule>, k: string)
    requires dir.metadata.Some? && k in dir.metadata.value
    requires k != ContentField && k !in Destinations(rules)
    ensures Loaded(dir, rules).Ok?
    ensures k in Loaded(dir, rules).value
    ensures Loaded(dir, rules).value[k] == dir.metadata.value[k]
  {
    AppliedUntouched(Seeded(dir.metadata.value, dir.path), rules, k);
  }

  /**
   * A destination last written by rule i holds that rule's source value as
   * loaded: the content path for the content field, the doc.json value
   * otherwise, and null when doc.json lacks the source.
   */
  lemma LoadedCopy(dir: Subdirectory, rules: seq<CopyRule>, i: nat, d: string)
    requires dir.metadata.Some?
    requires i < |rules| && d in rules[i].destinations
    requires forall j :: i < j < |rules| ==> d !in rules[j].destinations
    requires forall j :: 0 <= j < i ==> rules[i].source !in rules[j].destinations
    ensures Loaded(dir, rules).Ok?
    ensures d in Loaded(dir, rules).value
    ensures Loaded(dir, rules).value[d] == SourceValue(dir.metadata.value, dir.path, rules[i].source)
  {
    CopyOfUntouchedSource(Seeded(dir.metadata.value, dir.path), rules, i, d);
  }
}

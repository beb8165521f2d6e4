/**
 * Mapping Resolver: turns the CRM's metadata query response into the
 * source-field to destination-field dictionary used by the record mapper.
 */
module AttributeMapping {
  import opened Wrappers
  import opened Dicts

  /** Field names queried from the `Attribute_Mapping__mdt` metadata object. */
  const SourceFieldName: string := "Source_Field__c"
  const DestinationFieldName: string := "Destination_Field__c"

  /**
   * One metadata record: a dict of text fields, each a string or null
   * (`Id`, `Source_Field__c`, `Destination_Field__c`, ...).
   */
  type MetaRecord = Dict<Option<string>>

  /** The query response; `records` is `None` when the response has no `records` key. */
  datatype Response = Response(records: Option<seq<MetaRecord>>)

  /** The records of a response; a response without `records` iterates over nothing. */
  function RecordsOf(response: Response): seq<MetaRecord> {
    match response.records
    case None => []
    case Some(rs) => rs
  }

  /** `record.get(name)`: a missing field and a null field both read as `None`. */
  function Field(record: MetaRecord, name: string): Option<string> {
    match Get(record, name)
    case None => None
    case Some(f) => f
  }

  /** Python truthiness of a text field: `None` and `""` are false. */
  predicate Truthy(f: Option<string>) {
    f.Some? && f.value != ""
  }

  /**
   * What one metadata record contributes: its `(source, destination)` pair
   * when both names are truthy, nothing otherwise.
   */
  function Entry(record: MetaRecord): Option<(string, string)> {
    var sourceField := Field(record, SourceFieldName);
    var destinationField := Field(record, DestinationFieldName);
    if Truthy(sourceField) && Truthy(destinationField) then Some((sourceField.value, destinationField.value))
    else None
  }

  /** The contributions of the records, in record order. */
  function Entries(rs: seq<MetaRecord>): seq<Option<(string, string)>> {
    seq(|rs|, i requires 0 <= i < |rs| => Entry(rs[i]))
  }

  /** The dictionary after assigning the pairs of `es` in turn, skipping the empty contributions. */
  function Assign(es: seq<Option<(string, string)>>): Dict<string> {
    if es == [] then []
    else
      var m := Assign(es[..|es| - 1]);
      match es[|es| - 1]
      case None => m
      case Some((src, dst)) => Set(m, src, dst)
  }

  /** The mapping built from a list of metadata records. */
  function MappingOf(rs: seq<MetaRecord>): Dict<string> {
    Assign(Entries(rs))
  }

  /** The source names contributed, in record order, repetitions kept. */
  function Sources(es: seq<Option<(string, string)>>): seq<string> {
    if es == [] then []
    else
      Sources(es[..|es| - 1]) +
        match es[|es| - 1]
        case None => []
        case Some((src, _)) => [src]
  }

  /** The destination of the last contribution whose source is `k`, if any. */
  function LastDestination(es: seq<Option<(string, string)>>, k: string): Option<string> {
    if es == [] then None
    else
      var last := es[|es| - 1];
      if last.Some? && last.value.0 == k then Some(last.value.1)
      else LastDestination(es[..|es| - 1], k)
  }

  /**
   * A record contributes `(s, d)` exactly when it has a `Source_Field__c`
   * that is the non-empty string `s` and a `Destination_Field__c` that is
   * the non-empty string `d`; a missing field, a null and `""` all make it
   * contribute nothing.
   */
  lemma EntryCondition(record: MetaRecord, s: string, d: string)
    ensures Entry(record) == Some((s, d)) <==>
              && Get(record, SourceFieldName) == Some(Some(s)) && s != ""
              && Get(record, DestinationFieldName) == Some(Some(d)) && d != ""
  {
  }

  /** The mapping is a dict: no source name occurs twice. */
  lemma {:induction false} AssignUnique(es: seq<Option<(string, string)>>)
    ensures UniqueKeys(Assign(es))
  {
    if es != [] {
      AssignUnique(es[..|es| - 1]);
    }
  }

  /** At most one entry per metadata record. */
  lemma {:induction false} AssignSize(es: seq<Option<(string, string)>>)
    ensures |Assign(es)| <= |es|
  {
    if es != [] {
      AssignSize(es[..|es| - 1]);
      var m := Assign(es[..|es| - 1]);
      match es[|es| - 1]
      case None =>
      case Some((src, dst)) =>
        assert |Set(m, src, dst)| == |Keys(Set(m, src, dst))|;
    }
  }

  /** Every pair of the mapping is a pair some record contributed. */
  lemma {:induction false} AssignEntries(es: seq<Option<(string, string)>>)
    ensures forall i :: 0 <= i < |Assign(es)| ==> Some(Assign(es)[i]) in es
  {
    if es != [] {
      var n := |es| - 1;
      var init := es[..n];
      AssignEntries(init);
      var m := Assign(init);
      forall i | 0 <= i < |Assign(es)| ensures Some(Assign(es)[i]) in es {
        var p := Assign(es)[i];
        if p in m {
          var j :| 0 <= j < |m| && m[j] == p;
          assert Some(p) in init;
          var t :| 0 <= t < n && init[t] == Some(p);
          assert es[t] == Some(p);
        } else {
          assert es[n] == Some(p);
        }
      }
    }
  }

  /** Every retained entry has a non-empty source name and a non-empty destination name. */
  lemma MappingOfNonEmpty(rs: seq<MetaRecord>)
    ensures forall i :: 0 <= i < |MappingOf(rs)| ==> MappingOf(rs)[i].0 != "" && MappingOf(rs)[i].1 != ""
  {
    AssignEntries(Entries(rs));
    forall i | 0 <= i < |MappingOf(rs)| ensures MappingOf(rs)[i].0 != "" && MappingOf(rs)[i].1 != "" {
      var j :| 0 <= j < |rs| && Entries(rs)[j] == Some(MappingOf(rs)[i]);
      assert Entry(rs[j]) == Some(MappingOf(rs)[i]);
    }
  }

  /** Looking a source name up in the mapping finds the last contribution's destination. */
  lemma {:induction false} AssignGet(es: seq<Option<(string, string)>>, k: string)
    ensures Get(Assign(es), k) == LastDestination(es, k)
  {
    if es != [] {
      AssignGet(es[..|es| - 1], k);
    }
  }

  /** The keys are the contributed source names in order of first appearance. */
  lemma {:induction false} AssignKeys(es: seq<Option<(string, string)>>)
    ensures Keys(Assign(es)) == Distinct(Sources(es))
  {
    if es != [] {
      var n := |es| - 1;
      AssignKeys(es[..n]);
      var qs := Sources(es[..n]);
      match es[n]
      case None =>
        assert Sources(es) == qs;
      case Some((src, _)) =>
        assert Sources(es) == qs + [src];
        assert (qs + [src])[..|qs|] == qs;
    }
  }

  /** Last one wins: the last contribution with a given source name fixes its destination. */
  lemma {:induction false} LastContributionWins(es: seq<Option<(string, string)>>, i: nat, k: string, d: string)
    requires i < |es| && es[i] == Some((k, d))
    requires forall j :: i < j < |es| ==> es[j].None? || es[j].value.0 != k
    ensures LastDestination(es, k) == Some(d)
  {
    if i < |es| - 1 {
      var init := es[..|es| - 1];
      assert init[i] == es[i];
      LastContributionWins(init, i, k, d);
    }
  }

  /** A source name is absent from the mapping exactly when no record contributes it. */
  lemma {:induction false} LastDestinationNone(es: seq<Option<(string, string)>>, k: string)
    ensures LastDestination(es, k).None? <==> forall j :: 0 <= j < |es| ==> es[j].None? || es[j].value.0 != k
  {
    if es != [] {
      var n := |es| - 1;
      LastDestinationNone(es[..n], k);
      assert forall j :: 0 <= j < n ==> es[..n][j] == es[j];
    }
  }

  /** One more record extends the mapping by that record's contribution. */
  lemma MappingOfSnoc(rs: seq<MetaRecord>, i: nat)
    requires i < |rs|
    ensures MappingOf(rs[..i + 1]) ==
              match Entry(rs[i])
              case None => MappingOf(rs[..i])
              case Some((src, dst)) => Set(MappingOf(rs[..i]), src, dst)
  {
    var es := Entries(rs[..i + 1]);
    assert es[..i] == Entries(rs[..i]);
    assert es[i] == Entry(rs[i]);
  }

  /**
   * `create_attribute_mapping_from_response`: iterates over the response's
   * records, if it has any, and assigns `source -> destination` for every
   * record whose two names are both truthy.
   */
  method CreateAttributeMappingFromResponse(response: Response) returns (m: Dict<string>)
    ensures m == MappingOf(RecordsOf(response))
    ensures response.records.None? || response.records == Some([]) ==> m == []
    ensures UniqueKeys(m) && |m| <= |RecordsOf(response)|
    ensures forall i :: 0 <= i < |m| ==> m[i].0 != "" && m[i].1 != ""
    ensures forall k :: Get(m, k) == LastDestination(Entries(RecordsOf(response)), k)
    ensures forall k :: k in ToMap(m) <==> LastDestination(Entries(RecordsOf(response)), k).Some?
    ensures forall k :: k in ToMap(m) ==> ToMap(m)[k] == LastDestination(Entries(RecordsOf(response)), k).value
    ensures Keys(m) == Distinct(Sources(Entries(RecordsOf(response))))
  {
    m := [];
    if response.records.Some? {
      var rs := response.records.value;
      var i := 0;
      while i < |rs|
        invariant 0 <= i <= |rs|
        invariant m == MappingOf(rs[..i])
      {
        var record := rs[i];
        var sourceField := Field(record, SourceFieldName);
        var destinationField := Field(record, DestinationFieldName);
        if Truthy(sourceField) && Truthy(destinationField) {
          m := Set(m, sourceField.value, destinationField.value);
        }
        MappingOfSnoc(rs, i);
        i := i + 1;
      }
      assert rs[..|rs|] == rs;
    }
    MappingFacts(RecordsOf(response));
  }

  /** The properties of the mapping the method returns, gathered for its postcondition. */
  lemma MappingFacts(rs: seq<MetaRecord>)
    ensures UniqueKeys(MappingOf(rs)) && |MappingOf(rs)| <= |rs|
    ensures forall i :: 0 <= i < |MappingOf(rs)| ==> MappingOf(rs)[i].0 != "" && MappingOf(rs)[i].1 != ""
    ensures forall k :: Get(MappingOf(rs), k) == LastDestination(Entries(rs), k)
    ensures forall k :: k in ToMap(MappingOf(rs)) <==> LastDestination(Entries(rs), k).Some?
    ensures forall k :: k in ToMap(MappingOf(rs)) ==> ToMap(MappingOf(rs))[k] == LastDestination(Entries(rs), k).value
    ensures Keys(MappingOf(rs)) == Distinct(Sources(Entries(rs)))
  {
    var es := Entries(rs);
    AssignUnique(es);
    AssignSize(es);
    MappingOfNonEmpty(rs);
    AssignKeys(es);
    forall k ensures Get(MappingOf(rs), k) == LastDestination(es, k) {
      AssignGet(es, k);
    }
  }
}

/**
 * Record Mapper: reshapes each device record read from the source store
 * into the CRM's field names, keeping only the fields the mapping names.
 */
module RecordMapper {
  import opened Wrappers
  import opened Dicts

  /** A scalar field value of a device record, as decoded from JSON. */
  datatype Value = Null | Bool(b: bool) | Int(i: int) | Str(s: string)

  /** A device record: field name to value, in the order the fields arrived. */
  type Record = Dict<Value>

  /**
   * The value a mapped destination field receives: `item[src]` when `src`
   * is a key of the item (even when that value is itself null), `None` otherwise.
   */
  function SourceValue(item: Record, src: string): (v: Value)
    ensures src in Keys(item) ==> Get(item, src) == Some(v)
    ensures src !in Keys(item) ==> v == Null
  {
    match Get(item, src)
    case None => Null
    case Some(x) => x
  }

  /** The mapped record after the inner loop has seen the pairs of `mapping`, in order. */
  function MapItem(item: Record, mapping: Dict<string>): Record {
    if mapping == [] then []
    else
      var n := |mapping| - 1;
      Set(MapItem(item, mapping[..n]), mapping[n].1, SourceValue(item, mapping[n].0))
  }

  /** The source of the last pair of `mapping` whose destination is `dst`, if any. */
  function LastSourceFor(mapping: Dict<string>, dst: string): Option<string> {
    if mapping == [] then None
    else
      var n := |mapping| - 1;
      if mapping[n].1 == dst then Some(mapping[n].0) else LastSourceFor(mapping[..n], dst)
  }

  /** The output of `apply_custom_mapping`, record by record. */
  function MapAll(data: seq<Record>, mapping: Dict<string>): seq<Record> {
    seq(|data|, i requires 0 <= i < |data| => MapItem(data[i], mapping))
  }

  /**
   * The mapped record's fields are the mapping's destination names, each
   * once, in the order the destinations first appear in the mapping,
   * whatever fields the input record has.
   */
  lemma {:induction false} MapItemKeys(item: Record, mapping: Dict<string>)
    ensures Keys(MapItem(item, mapping)) == Distinct(Values(mapping))
    ensures UniqueKeys(MapItem(item, mapping))
  {
    if mapping != [] {
      var n := |mapping| - 1;
      MapItemKeys(item, mapping[..n]);
      var vs := Values(mapping);
      assert vs[..n] == Values(mapping[..n]);
      assert vs[n] == mapping[n].1;
    }
  }

  /** So the key set of a mapped record is exactly the set of the mapping's values. */
  lemma MapItemKeySet(item: Record, mapping: Dict<string>)
    ensures forall k :: k in Keys(MapItem(item, mapping)) <==> k in Values(mapping)
  {
    MapItemKeys(item, mapping);
  }

  /** A destination field holds the value of the last source mapped to it. */
  lemma {:induction false} MapItemGet(item: Record, mapping: Dict<string>, dst: string)
    ensures Get(MapItem(item, mapping), dst) ==
            match LastSourceFor(mapping, dst)
            case None => None
            case Some(src) => Some(SourceValue(item, src))
  {
    if mapping != [] {
      MapItemGet(item, mapping[..|mapping| - 1], dst);
    }
  }

  /** A destination name has a last source exactly when it is one of the mapping's values. */
  lemma {:induction false} LastSourceForSome(mapping: Dict<string>, dst: string)
    ensures LastSourceFor(mapping, dst).Some? <==> dst in Values(mapping)
  {
    if mapping != [] {
      var n := |mapping| - 1;
      LastSourceForSome(mapping[..n], dst);
      assert Values(mapping) == Values(mapping[..n]) + [mapping[n].1];
    }
  }

  /** The last pair of the mapping naming a destination decides that destination's value. */
  lemma {:induction false} LastPairWins(mapping: Dict<string>, i: nat)
    requires i < |mapping|
    requires forall j :: i < j < |mapping| ==> mapping[j].1 != mapping[i].1
    ensures LastSourceFor(mapping, mapping[i].1) == Some(mapping[i].0)
  {
    if i < |mapping| - 1 {
      var init := mapping[..|mapping| - 1];
      assert init[i] == mapping[i];
      LastPairWins(init, i);
    }
  }

  /**
   * A whitelist: fields of the item that no pair of the mapping reads do
   * not influence the result, so two items that agree on the mapped
   * source fields map to the same record.
   */
  lemma {:induction false} MapItemWhitelist(a: Record, b: Record, mapping: Dict<string>)
    requires forall i :: 0 <= i < |mapping| ==> SourceValue(a, mapping[i].0) == SourceValue(b, mapping[i].0)
    ensures MapItem(a, mapping) == MapItem(b, mapping)
  {
    if mapping != [] {
      var n := |mapping| - 1;
      assert forall i :: 0 <= i < n ==> mapping[..n][i] == mapping[i];
      MapItemWhitelist(a, b, mapping[..n]);
    }
  }

  /**
   * The batch invariant: one output record per input record, each with
   * exactly the mapping's destination names as fields (each once, in the
   * order they first appear in the mapping), and each destination holding
   * the input record's value of the last source mapped to it.
   */
  ghost predicate MappedBatch(out: seq<Record>, data: seq<Record>, mapping: Dict<string>) {
    && |out| == |data|
    && (forall i :: 0 <= i < |out| ==> Keys(out[i]) == Distinct(Values(mapping)) && UniqueKeys(out[i]))
    && (forall i, dst :: 0 <= i < |out| ==>
          Get(out[i], dst) ==
            match LastSourceFor(mapping, dst)
            case None => None
            case Some(src) => Some(SourceValue(data[i], src)))
  }

  /** The output of the mapper satisfies the batch invariant. */
  lemma MapAllShape(data: seq<Record>, mapping: Dict<string>)
    ensures MappedBatch(MapAll(data, mapping), data, mapping)
  {
    forall i | 0 <= i < |data|
      ensures Keys(MapItem(data[i], mapping)) == Distinct(Values(mapping)) && UniqueKeys(MapItem(data[i], mapping))
    {
      MapItemKeys(data[i], mapping);
    }
    forall i, dst | 0 <= i < |data|
      ensures Get(MapItem(data[i], mapping), dst) ==
                match LastSourceFor(mapping, dst)
                case None => None
                case Some(src) => Some(SourceValue(data[i], src))
    {
      MapItemGet(data[i], mapping, dst);
    }
  }

  /** Mapping one more record appends its mapped record. */
  lemma MapAllSnoc(data: seq<Record>, i: nat, mapping: Dict<string>)
    requires i < |data|
    ensures MapAll(data[..i + 1], mapping) == MapAll(data[..i], mapping) + [MapItem(data[i], mapping)]
  {
    assert data[..i + 1] == data[..i] + [data[i]];
    assert forall j :: 0 <= j < i ==> data[..i + 1][j] == data[..i][j];
  }

  /**
   * The inner loop of `apply_custom_mapping`: starting from an empty dict,
   * assigns every destination of the mapping, in the mapping's order, the
   * item's value of the corresponding source field, or null when the item
   * has no such key.
   */
  method BuildMappedItem(item: Record, mapping: Dict<string>) returns (mappedItem: Record)
    ensures mappedItem == MapItem(item, mapping)
    ensures Keys(mappedItem) == Distinct(Values(mapping)) && UniqueKeys(mappedItem)
    ensures forall dst ::
              Get(mappedItem, dst) ==
                match LastSourceFor(mapping, dst)
                case None => None
                case Some(src) => Some(SourceValue(item, src))
  {
    mappedItem := [];
    for k := 0 to |mapping|
      invariant mappedItem == MapItem(item, mapping[..k])
    {
      var (taniumField, salesforceField) := mapping[k];
      var value := if taniumField in Keys(item) then Get(item, taniumField).value else Null;
      mappedItem := Set(mappedItem, salesforceField, value);
      MapItemSnoc(item, mapping, k);
    }
    assert mapping[..|mapping|] == mapping;
    MapItemFacts(item, mapping);
  }

  /** One more pair assigns one more destination. */
  lemma MapItemSnoc(item: Record, mapping: Dict<string>, k: nat)
    requires k < |mapping|
    ensures MapItem(item, mapping[..k + 1]) ==
              Set(MapItem(item, mapping[..k]), mapping[k].1, SourceValue(item, mapping[k].0))
  {
    assert mapping[..k + 1][..k] == mapping[..k];
  }

  /** The properties of one mapped record, gathered for the postcondition of `BuildMappedItem`. */
  lemma MapItemFacts(item: Record, mapping: Dict<string>)
    ensures Keys(MapItem(item, mapping)) == Distinct(Values(mapping)) && UniqueKeys(MapItem(item, mapping))
    ensures forall dst ::
              Get(MapItem(item, mapping), dst) ==
                match LastSourceFor(mapping, dst)
                case None => None
                case Some(src) => Some(SourceValue(item, src))
  {
    MapItemKeys(item, mapping);
    forall dst
      ensures Get(MapItem(item, mapping), dst) ==
                match LastSourceFor(mapping, dst)
                case None => None
                case Some(src) => Some(SourceValue(item, src))
    {
      MapItemGet(item, mapping, dst);
    }
  }

  /**
   * `apply_custom_mapping`: maps each item in turn and appends the result,
   * so the output is the input's records, in order, each reshaped.
   */
  method ApplyCustomMapping(data: seq<Record>, mapping: Dict<string>) returns (mappedData: seq<Record>)
    ensures mappedData == MapAll(data, mapping)
    ensures |mappedData| == |data|
    ensures data == [] ==> mappedData == []
    ensures mapping == [] ==> forall i :: 0 <= i < |mappedData| ==> mappedData[i] == []
    ensures MappedBatch(mappedData, data, mapping)
  {
    mappedData := [];
    for i := 0 to |data|
      invariant mappedData == MapAll(data[..i], mapping)
    {
      var mappedItem := BuildMappedItem(data[i], mapping);
      MapAllSnoc(data, i, mapping);
      mappedData := mappedData + [mappedItem];
    }
    assert data[..|data|] == data;
    MapAllShape(data, mapping);
  }
}

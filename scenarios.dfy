/**
 * Worked examples: a metadata response with malformed and repeated rows,
 * and two device records, one without an IP address, mapped and exported.
 */
module Scenarios {
  import opened Wrappers
  import opened Dicts
  import opened AttributeMapping
  import opened RecordMapper

  /** A well-formed metadata row, one whose source is null, and one whose destination is empty. */
  const NameRow: MetaRecord := [("Id", Some("m0")), (SourceFieldName, Some("Tanium_Name")), (DestinationFieldName, Some("Device_Name__c"))]
  const NullSourceRow: MetaRecord := [("Id", Some("m1")), (SourceFieldName, None), (DestinationFieldName, Some("Owner__c"))]
  const EmptyDestinationRow: MetaRecord := [("Id", Some("m2")), (SourceFieldName, Some("Tanium_IP")), (DestinationFieldName, Some(""))]

  /** A metadata row laid out as the query returns it: `Id`, then the two queried fields read back. */
  lemma RowFields(id: Option<string>, src: Option<string>, dst: Option<string>)
    ensures Field([("Id", id), (SourceFieldName, src), (DestinationFieldName, dst)], SourceFieldName) == src
    ensures Field([("Id", id), (SourceFieldName, src), (DestinationFieldName, dst)], DestinationFieldName) == dst
  {
    var r: MetaRecord := [("Id", id), (SourceFieldName, src), (DestinationFieldName, dst)];
    assert "Id"[0] != SourceFieldName[0] && "Id"[0] != DestinationFieldName[0] && SourceFieldName[0] != DestinationFieldName[0];
    assert r[1..] == [(SourceFieldName, src), (DestinationFieldName, dst)];
    assert r[1..][1..] == [(DestinationFieldName, dst)];
    assert IndexOf(r[1..], SourceFieldName) == Some(0);
    assert IndexOf(r[1..][1..], DestinationFieldName) == Some(0);
  }

  /** Only the well-formed row contributes a pair. */
  lemma MetadataRows()
    ensures Entry(NameRow) == Some(("Tanium_Name", "Device_Name__c"))
    ensures Entry(NullSourceRow) == None
    ensures Entry(EmptyDestinationRow) == None
  {
    RowFields(Some("m0"), Some("Tanium_Name"), Some("Device_Name__c"));
    RowFields(Some("m1"), None, Some("Owner__c"));
    RowFields(Some("m2"), Some("Tanium_IP"), Some(""));
  }

  /** A contributing record followed by two that contribute nothing gives a one-entry mapping. */
  lemma SkippedRows(good: MetaRecord, bad1: MetaRecord, bad2: MetaRecord, src: string, dst: string)
    requires Entry(good) == Some((src, dst)) && Entry(bad1).None? && Entry(bad2).None?
    ensures MappingOf([good, bad1, bad2]) == [(src, dst)]
  {
    var rs := [good, bad1, bad2];
    assert rs[..0] == [] && rs[..3] == rs;
    var e: Dict<string> := [];
    assert MappingOf(rs[..0]) == e;
    assert IndexOf(e, src).None?;
    MappingOfSnoc(rs, 0);
    MappingOfSnoc(rs, 1);
    MappingOfSnoc(rs, 2);
  }

  /**
   * A response with the three example rows yields a one-entry mapping: the
   * null source and the empty destination are skipped. A response without
   * records yields `{}`.
   */
  lemma MetadataScenario()
    ensures MappingOf([NameRow, NullSourceRow, EmptyDestinationRow]) == [("Tanium_Name", "Device_Name__c")]
    ensures MappingOf(RecordsOf(Response(None))) == []
  {
    MetadataRows();
    SkippedRows(NameRow, NullSourceRow, EmptyDestinationRow, "Tanium_Name", "Device_Name__c");
  }

  const ExampleMapping: Dict<string> := [("Tanium_Name", "Device_Name__c"), ("Tanium_IP", "IP_Address__c")]
  const HostOne: Record := [("Tanium_Name", Str("host1")), ("Tanium_IP", Str("10.0.0.1"))]
  const HostTwo: Record := [("Tanium_Name", Str("host2"))]

  /** A mapping of two pairs with different destinations yields those two fields, in that order. */
  lemma MapItemTwoPairs(item: Record, a: string, x: string, b: string, y: string)
    requires x != y
    ensures MapItem(item, [(a, x), (b, y)]) == [(x, SourceValue(item, a)), (y, SourceValue(item, b))]
  {
    var m := [(a, x), (b, y)];
    var d: Record := [(x, SourceValue(item, a))];
    assert m[..1] == [(a, x)] && m[..1][..0] == [];
    assert MapItem(item, m[..1]) == d by {
      var e: Record := [];
      assert IndexOf(e, x).None?;
    }
    assert IndexOf(d, y).None?;
    assert MapItem(item, m) == Set(d, y, SourceValue(item, b));
  }

  /** Under the example mapping every record becomes a device name and an IP address, in that order. */
  lemma ExampleMapItem(item: Record)
    ensures MapItem(item, ExampleMapping) ==
              [("Device_Name__c", SourceValue(item, "Tanium_Name")), ("IP_Address__c", SourceValue(item, "Tanium_IP"))]
  {
    assert "Device_Name__c"[0] != "IP_Address__c"[0];
    MapItemTwoPairs(item, "Tanium_Name", "Device_Name__c", "Tanium_IP", "IP_Address__c");
  }

  /** The example records' source values: the second record has no `Tanium_IP` key. */
  lemma HostValues()
    ensures SourceValue(HostOne, "Tanium_Name") == Str("host1")
    ensures SourceValue(HostOne, "Tanium_IP") == Str("10.0.0.1")
    ensures SourceValue(HostTwo, "Tanium_Name") == Str("host2")
    ensures SourceValue(HostTwo, "Tanium_IP") == Null
  {
    assert "Tanium_Name"[7] != "Tanium_IP"[7];
    assert IndexOf(HostOne, "Tanium_IP") == Some(1);
    assert IndexOf(HostTwo, "Tanium_IP").None?;
  }

  /** A batch of two records maps record by record. */
  lemma MapAllPair(a: Record, b: Record, mapping: Dict<string>)
    ensures MapAll([a, b], mapping) == [MapItem(a, mapping), MapItem(b, mapping)]
  {
    var out := MapAll([a, b], mapping);
    assert out[0] == MapItem(a, mapping) && out[1] == MapItem(b, mapping);
  }

  /** The two-host batch maps to two records with the same two fields. */
  lemma TwoHostsScenario()
    ensures MapAll([HostOne, HostTwo], ExampleMapping)
            == [[("Device_Name__c", Str("host1")), ("IP_Address__c", Str("10.0.0.1"))],
                [("Device_Name__c", Str("host2")), ("IP_Address__c", Null)]]
  {
    MapAllPair(HostOne, HostTwo, ExampleMapping);
    ExampleMapItem(HostOne);
    ExampleMapItem(HostTwo);
    HostValues();
  }
}

/**
 * Batch Exporter, first half: `save_csv_file` writes the mapped batch to a
 * CSV file whose header is the first record's field names.
 *
 * The file is modelled by its rows (a header and one row of values per
 * record written), not by its characters: quoting, escaping and line
 * endings are the csv module's business and are not modelled.
 */
module CsvExport {
  import opened Wrappers
  import opened Dicts
  import opened RecordMapper

  /** The default file name of `save_csv_file`. */
  const DefaultFilename: string := "devices_data.csv"

  /**
   * `csv.DictWriter`'s default `restval`: the cell written for a header
   * field the record does not have.
   */
  const Restval: Value := Str("")

  /** A CSV file as rows: the header, then one row of cells per record written. */
  datatype Table = Table(header: seq<string>, rows: seq<seq<Value>>)

  /**
   * `ValueError` raised by `csv.DictWriter` (default `extrasaction='raise'`)
   * for the record at index `row`, which has a field that is not in the header.
   */
  datatype CsvError = ExtraFields(row: nat)

  /** The record's cells under `header`: its value for each header field, or `Restval`. */
  function RowOf(header: seq<string>, rec: Record): (row: seq<Value>)
    ensures |row| == |header|
    ensures forall c :: 0 <= c < |header| ==>
              row[c] == (if header[c] in Keys(rec) then Get(rec, header[c]).value else Restval)
  {
    seq(|header|, c requires 0 <= c < |header| =>
      match Get(rec, header[c])
      case Some(v) => v
      case None => Restval)
  }

  /** The rows of several records under one header. */
  function RowsOf(header: seq<string>, recs: seq<Record>): (rows: seq<seq<Value>>) {
    seq(|recs|, i requires 0 <= i < |recs| => RowOf(header, recs[i]))
  }

  /** The writer accepts a record only if every one of its fields is a header field. */
  predicate Fits(header: seq<string>, rec: Record) {
    forall k :: k in Keys(rec) ==> k in header
  }

  /** The index of the first record the writer rejects, if any. */
  function FirstMisfit(header: seq<string>, data: seq<Record>): (r: Option<nat>)
    ensures r.Some? ==> r.value < |data| && !Fits(header, data[r.value])
    ensures r.Some? ==> forall j :: 0 <= j < r.value ==> Fits(header, data[j])
    ensures r.None? <==> forall j :: 0 <= j < |data| ==> Fits(header, data[j])
  {
    if data == [] then None
    else if !Fits(header, data[0]) then Some(0)
    else
      match FirstMisfit(header, data[1..])
      case None =>
        assert forall j :: 1 <= j < |data| ==> data[j] == data[1..][j - 1];
        None
      case Some(i) =>
        assert forall j :: 1 <= j < i + 1 ==> data[j] == data[1..][j - 1];
        Some(i + 1)
  }

  /** How many rows the writer gets through: all of them, or those before the first rejected one. */
  function RowsWritten(data: seq<Record>): nat
    requires data != []
  {
    match FirstMisfit(Keys(data[0]), data)
    case None => |data|
    case Some(i) => i
  }

  /** The file `save_csv_file` leaves behind for a non-empty batch. */
  function ExportTable(data: seq<Record>): Table
    requires data != []
  {
    var header := Keys(data[0]);
    Table(header, RowsOf(header, data[..RowsWritten(data)]))
  }

  /** What `save_csv_file` returns, or raises. */
  function ExportOutcome(data: seq<Record>, filename: string): Result<string, CsvError> {
    if data == [] then Success("")
    else
      match FirstMisfit(Keys(data[0]), data)
      case None => Success(filename)
      case Some(i) => Failure(ExtraFields(i))
  }

  /** A record always fits the header made from its own keys, so the first record is never rejected. */
  lemma FirstRecordFits(data: seq<Record>)
    requires data != []
    ensures Fits(Keys(data[0]), data[0])
    ensures FirstMisfit(Keys(data[0]), data) != Some(0)
  {
  }

  /**
   * When the writer accepts every record, the file is the first record's
   * keys as header and one row per record, in order, each record's cell
   * under a column being its value for that field or `Restval`.
   */
  lemma ExportTableComplete(data: seq<Record>, filename: string)
    requires data != []
    requires ExportOutcome(data, filename).Success?
    ensures ExportOutcome(data, filename) == Success(filename)
    ensures ExportTable(data).header == Keys(data[0])
    ensures |ExportTable(data).rows| == |data|
    ensures forall i, c :: 0 <= i < |data| && 0 <= c < |Keys(data[0])| ==>
              ExportTable(data).rows[i][c] ==
                (if Keys(data[0])[c] in Keys(data[i]) then Get(data[i], Keys(data[0])[c]).value else Restval)
  {
    assert data[..|data|] == data;
  }

  /**
   * When the writer rejects record `i`, the call raises after the header
   * and the `i` records before it have been written.
   */
  lemma ExportTablePartial(data: seq<Record>, filename: string, i: nat)
    requires data != []
    requires ExportOutcome(data, filename) == Failure(ExtraFields(i))
    ensures 0 < i < |data| && !Fits(Keys(data[0]), data[i])
    ensures ExportTable(data) == Table(Keys(data[0]), RowsOf(Keys(data[0]), data[..i]))
  {
    FirstRecordFits(data);
  }

  /**
   * The uniform-field guarantee behind the export: a batch produced by the
   * record mapper is never rejected; its header is the mapping's
   * destination names in the order they first appear, and each cell is the
   * source record's value of the last source mapped to that column.
   */
  lemma MappedBatchExports(data: seq<Record>, mapping: Dict<string>, filename: string)
    requires data != []
    ensures ExportOutcome(MapAll(data, mapping), filename) == Success(filename)
    ensures ExportTable(MapAll(data, mapping)).header == Distinct(Values(mapping))
    ensures |ExportTable(MapAll(data, mapping)).rows| == |data|
    ensures forall i, c :: 0 <= i < |data| && 0 <= c < |Distinct(Values(mapping))| ==>
              LastSourceFor(mapping, Distinct(Values(mapping))[c]).Some? &&
              ExportTable(MapAll(data, mapping)).rows[i][c] ==
                SourceValue(data[i], LastSourceFor(mapping, Distinct(Values(mapping))[c]).value)
  {
    var out := MapAll(data, mapping);
    var header := Distinct(Values(mapping));
    MapAllShape(data, mapping);
    assert Keys(out[0]) == header;
    assert FirstMisfit(header, out).None? by {
      forall j | 0 <= j < |out| ensures Fits(header, out[j]) {
        assert Keys(out[j]) == header;
      }
    }
    ExportTableComplete(out, filename);
    forall i, c | 0 <= i < |data| && 0 <= c < |header|
      ensures LastSourceFor(mapping, header[c]).Some?
      ensures ExportTable(out).rows[i][c] == SourceValue(data[i], LastSourceFor(mapping, header[c]).value)
    {
      LastSourceForSome(mapping, header[c]);
      assert header[c] in Keys(out[i]);
      assert Get(out[i], header[c]) == Some(SourceValue(data[i], LastSourceFor(mapping, header[c]).value));
    }
  }

  /**
   * With an empty mapping every mapped record is empty, and the batch is
   * still exported: a file with an empty header and one empty row per record.
   */
  lemma EmptyMappingExport(data: seq<Record>, filename: string)
    requires data != []
    ensures ExportOutcome(MapAll(data, []), filename) == Success(filename)
    ensures ExportTable(MapAll(data, [])).header == []
    ensures ExportTable(MapAll(data, [])).rows == seq(|data|, i => [])
  {
    MappedBatchExports(data, [], filename);
    assert Distinct(Values([])) == [];
  }

  /** The directory the export file is written to: file name to contents. */
  class FileStore {
    var files: map<string, Table>

    constructor ()
      ensures files == map[]
    {
      files := map[];
    }

    /**
     * `save_csv_file`: an empty batch returns `""` and touches no file.
     * Otherwise the file is opened for writing (truncating it), the header
     * made from the first record's keys is written, then the records in
     * order; a record with a field outside the header makes the writer
     * raise, leaving the rows written so far; on success the file name is
     * returned.
     */
    method SaveCsvFile(data: seq<Record>, filename: string) returns (r: Result<string, CsvError>)
      modifies this
      ensures r == ExportOutcome(data, filename)
      ensures data == [] ==> files == old(files)
      ensures data != [] ==> files == old(files)[filename := ExportTable(data)]
    {
      if data == [] {
        return Success("");
      }
      var header := Keys(data[0]);
      files := files[filename := Table(header, [])];
      var i := 0;
      assert RowsOf(header, data[..0]) == [];
      while i < |data|
        invariant 0 <= i <= |data|
        invariant forall j :: 0 <= j < i ==> Fits(header, data[j])
        invariant files == old(files)[filename := Table(header, RowsOf(header, data[..i]))]
      {
        if !Fits(header, data[i]) {
          assert FirstMisfit(header, data) == Some(i) by {
            FirstMisfitAt(header, data, i);
          }
          return Failure(ExtraFields(i));
        }
        assert RowsOf(header, data[..i + 1]) == RowsOf(header, data[..i]) + [RowOf(header, data[i])] by {
          assert forall j :: 0 <= j < i ==> data[..i + 1][j] == data[..i][j];
        }
        files := files[filename := Table(header, files[filename].rows + [RowOf(header, data[i])])];
        i := i + 1;
      }
      r := Success(filename);
    }

    /** `save_csv_file(data)` as the orchestrator calls it: with the default file name. */
    method SaveCsvFileDefault(data: seq<Record>) returns (r: Result<string, CsvError>)
      modifies this
      ensures r == ExportOutcome(data, DefaultFilename)
      ensures data == [] ==> r == Success("") && files == old(files)
      ensures data != [] ==> files == old(files)[DefaultFilename := ExportTable(data)]
    {
      r := SaveCsvFile(data, DefaultFilename);
    }
  }

  /** The contract of `FirstMisfit` determines it: the first rejected record is the one found. */
  lemma FirstMisfitAt(header: seq<string>, data: seq<Record>, i: nat)
    requires i < |data| && !Fits(header, data[i])
    requires forall j :: 0 <= j < i ==> Fits(header, data[j])
    ensures FirstMisfit(header, data) == Some(i)
  {
    var r := FirstMisfit(header, data);
    assert r.Some?;
    assert !(r.value < i);
    assert !(i < r.value);
  }
}

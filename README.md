# Discovery-provider middleware: mapping, reshaping and CSV export

This project models the data-handling core of a middleware service. The
service copies device records from a discovery provider's store into a CRM.
The model covers three steps of that pipeline:

- **Mapping Resolver** (`create_attribute_mapping_from_response`). It reads
  the CRM's `Attribute_Mapping__mdt` metadata query response. From it, it
  builds the dictionary from source field name to destination field name.
  A record counts only when both `Source_Field__c` and
  `Destination_Field__c` are truthy. A later record with the same source
  name replaces the destination and keeps the key's place.
- **Record Mapper** (`apply_custom_mapping`). It reshapes every device record
  into the destination field names, in mapping order. A source field the
  record lacks gives null. Fields the mapping does not name are dropped.
- **Batch Exporter** (`save_csv_file`). An empty batch returns `""` and
  writes nothing. Otherwise the file is truncated and the header is the
  first record's keys. Then the records are written in order. A record with
  a field outside the header makes the writer raise (`ValueError`). The rows
  written before that record stay in the file.

Python dictionaries are modelled as association lists in insertion order
(`Dicts.Dict`), because key order is observable. It decides the order in
which the mapping is iterated and the column order of the CSV file. The file
system is a `FileStore` object whose `files` map (file name to table) the
export method updates. A file is modelled by its header and rows of values,
not by its characters.

Modules: `Wrappers` (Option, Result), `Dicts` (the dictionary model),
`AttributeMapping`, `RecordMapper`, `CsvExport`, and `Scenarios` (worked
examples), one module per file.

## Model

| member | source | states |
|---|---|---|
| Dicts.Set | discovery_provider_middlware.py:55 | Assigning `d[k] = v` keeps an existing key in its place or appends a new one at the end; `k` then maps to `v`, every other key keeps its value, all pairs come from `d` or are `(k, v)`, and unique keys stay unique |
| Dicts.IndexOf | discovery_provider_middlware.py:68 | The key-membership test: the found position holds the key and no earlier one does, and nothing is found exactly when the key is absent |
| Dicts.Keys | discovery_provider_middlware.py:80 | `list(d.keys())`: the keys in insertion order, one per entry |
| Dicts.Get | discovery_provider_middlware.py:51-52 | `d.get(k)`: the value at the first position holding `k`, or nothing when `k` is not a key |
| Dicts.ToMapSet | discovery_provider_middlware.py:55 | Assignment into the ordered dictionary is assignment into its unordered map view |
| Dicts.GetEntry | discovery_provider_middlware.py:69 | In a dictionary with unique keys, looking up the key at position `i` returns the value at position `i` |
| Dicts.Distinct | discovery_provider_middlware.py:55 | The key order of an insertion-ordered dict: the same elements as the input, without repeats, and no longer than it |
| Dicts.DistinctOrder | discovery_provider_middlware.py:55 | That order is the order of first occurrence: earlier keys were first inserted earlier |
| AttributeMapping.RecordsOf | discovery_provider_middlware.py:49-50 | The records the loop visits: the response's `records`, or none when the response has no `records` key |
| AttributeMapping.Field | discovery_provider_middlware.py:51-52 | `record.get(name)`: the field's text, or nothing when the field is missing or null |
| AttributeMapping.Truthy | discovery_provider_middlware.py:54 | Python truthiness of a text field: false for nothing and for `""`, true for any other string |
| AttributeMapping.Entry | discovery_provider_middlware.py:51-54 | What one record contributes: its `(source, destination)` pair when both fields are truthy, nothing otherwise |
| AttributeMapping.Assign | discovery_provider_middlware.py:50-55 | The dictionary after assigning the contributed pairs in record order, each by `Dicts.Set`, skipping records that contribute nothing |
| AttributeMapping.MappingOf | discovery_provider_middlware.py:47-57 | The mapping built from a list of records: `Assign` of their contributions |
| AttributeMapping.EntryCondition | discovery_provider_middlware.py:51-54 | A metadata record contributes `(s, d)` exactly when its source field is the non-empty string `s` and its destination field is the non-empty string `d`; a missing field, null or `""` contributes nothing |
| AttributeMapping.AssignUnique | discovery_provider_middlware.py:47-55 | The resulting mapping never has a repeated source name |
| AttributeMapping.AssignSize | discovery_provider_middlware.py:50-55 | The mapping has at most one entry per metadata record |
| AttributeMapping.AssignEntries | discovery_provider_middlware.py:50-55 | Every pair in the mapping is a pair some metadata record contributed |
| AttributeMapping.MappingOfNonEmpty | discovery_provider_middlware.py:54-55 | Every entry has a non-empty source name and a non-empty destination name |
| AttributeMapping.AssignGet | discovery_provider_middlware.py:50-55 | Looking up a source name gives the destination of the last record contributing that name, and nothing when none does |
| AttributeMapping.AssignKeys | discovery_provider_middlware.py:50-55 | The mapping's keys are the contributed source names in order of first appearance |
| AttributeMapping.LastContributionWins | discovery_provider_middlware.py:55 | Last one wins: a contribution with no later contribution for the same source name fixes that name's destination |
| AttributeMapping.LastDestinationNone | discovery_provider_middlware.py:50-55 | A source name is missing from the mapping exactly when no record contributes it |
| AttributeMapping.MappingOfSnoc | discovery_provider_middlware.py:50-55 | One more record extends the mapping by exactly that record's contribution |
| AttributeMapping.MappingFacts | discovery_provider_middlware.py:46-57 | Collects the properties above for the mapping built from a list of records |
| AttributeMapping.CreateAttributeMappingFromResponse | discovery_provider_middlware.py:46-57 | The loop builds the mapping of the response's records. A response without `records`, or with none, gives `{}`. Keys are unique and non-empty, values are non-empty, and there are at most as many entries as records. Each lookup gives the last contributed destination, and the keys come in order of first contribution |
| RecordMapper.SourceValue | discovery_provider_middlware.py:68-71 | A destination receives `item[src]` when `src` is a key of the item (even when that value is null), and null when `src` is not a key |
| RecordMapper.MapItem | discovery_provider_middlware.py:66-71 | The mapped record: starting from `{}`, each mapping pair in order assigns its destination the item's value of its source, or null |
| RecordMapper.MapAll | discovery_provider_middlware.py:63-73 | The mapped batch: one mapped record per input record, in input order |
| RecordMapper.MapItemKeys | discovery_provider_middlware.py:66-71 | A mapped record's fields are exactly the mapping's destination names, each once, in order of first appearance, whatever fields the input has |
| RecordMapper.MapItemKeySet | discovery_provider_middlware.py:66-71 | So a mapped record has a field exactly when the mapping has that destination name as a value |
| RecordMapper.MapItemGet | discovery_provider_middlware.py:67-71 | A destination field holds the item's value of the last source mapped to it, and a name that is not a destination is absent |
| RecordMapper.LastSourceForSome | discovery_provider_middlware.py:67 | A destination name has a last source exactly when it is one of the mapping's values |
| RecordMapper.LastPairWins | discovery_provider_middlware.py:67-71 | The last mapping pair naming a destination decides where that destination's value comes from |
| RecordMapper.MapItemWhitelist | discovery_provider_middlware.py:66-71 | Fields no mapping pair reads have no influence: items that agree on the mapped source fields map to the same record |
| RecordMapper.MapAllShape | discovery_provider_middlware.py:63-73 | The mapper's output is the batch invariant: one record per input record, all with the same field list, each field holding the value described above |
| RecordMapper.MapAllSnoc | discovery_provider_middlware.py:72 | Mapping one more input record appends exactly its mapped record |
| RecordMapper.MapItemSnoc | discovery_provider_middlware.py:67-71 | One more mapping pair assigns its destination the item's value of its source |
| RecordMapper.MapItemFacts | discovery_provider_middlware.py:66-71 | Collects the field-list and field-value facts of one mapped record |
| RecordMapper.BuildMappedItem | discovery_provider_middlware.py:66-71 | The inner loop builds the mapped record: its fields are the distinct destination names in order, and each holds the value of its last source |
| RecordMapper.ApplyCustomMapping | discovery_provider_middlware.py:63-73 | The outer loop returns one mapped record per input record, in input order, and the output keeps the batch invariant. An empty batch gives `[]`, and an empty mapping gives empty records |
| CsvExport.RowOf | discovery_provider_middlware.py:80-82 | A row has one cell per header field: the record's value for that field, or `""` (the writer's default `restval`) when the record lacks it |
| CsvExport.Fits | discovery_provider_middlware.py:82 | The writer accepts a record exactly when every field of it is a header field |
| CsvExport.RowsWritten | discovery_provider_middlware.py:82 | How many rows `writerows` gets through: all records, or those before the first rejected one |
| CsvExport.ExportTable | discovery_provider_middlware.py:79-82 | The file left behind for a non-empty batch: the first record's keys as header, then the rows of the records written |
| CsvExport.ExportOutcome | discovery_provider_middlware.py:76-84 | `""` for an empty batch; otherwise the file name, or `ExtraFields(i)` for the first record `i` with a field outside the first record's keys |
| CsvExport.FirstMisfit | discovery_provider_middlware.py:82 | Finds the first record with a field outside the header; every earlier record fits, and nothing is found exactly when all records fit |
| CsvExport.FirstMisfitAt | discovery_provider_middlware.py:82 | A record that does not fit, after only fitting records, is the first misfit |
| CsvExport.FirstRecordFits | discovery_provider_middlware.py:80 | The header is made from the first record's keys, so the first record is never rejected |
| CsvExport.ExportTableComplete | discovery_provider_middlware.py:79-84 | When every record fits, the call returns the file name. The file's header is the first record's keys, with one row per record in order, each cell filled as `RowOf` says |
| CsvExport.ExportTablePartial | discovery_provider_middlware.py:79-82 | When record `i` is rejected, `i` is not the first record; the call fails, and the file holds the header and the rows of the `i` records before it |
| CsvExport.MappedBatchExports | discovery_provider_middlware.py:102-103 | A non-empty batch from the record mapper is never rejected. The header is the mapping's distinct destination names, with one row per record. Each cell is the source record's value of the last source mapped to that column |
| CsvExport.EmptyMappingExport | discovery_provider_middlware.py:75-84 | With an empty mapping, a non-empty batch is still exported: an empty header and one empty row per record |
| CsvExport.FileStore.SaveCsvFile | discovery_provider_middlware.py:75-84 | An empty batch returns `""` and leaves every file as it was. Otherwise the call returns the file name or the writer's error. Only the named file changes: it is replaced by the header and the rows written before success or the first rejected record |
| CsvExport.FileStore.SaveCsvFileDefault | discovery_provider_middlware.py:75 | Called without a file name, as on line 103, the export writes to `devices_data.csv`: it returns `""` and changes nothing for an empty batch, and otherwise replaces that file with the export table |
| Scenarios.RowFields | discovery_provider_middlware.py:51-52 | The two queried fields read back from a metadata row in the query's layout |
| Scenarios.MetadataRows | discovery_provider_middlware.py:51-54 | A well-formed row contributes its pair; rows with a null source or an empty destination contribute nothing |
| Scenarios.SkippedRows | discovery_provider_middlware.py:49-57 | A contributing record followed by two non-contributing ones gives a one-entry mapping |
| Scenarios.MetadataScenario | discovery_provider_middlware.py:46-57 | The three example rows give `{"Tanium_Name": "Device_Name__c"}`; a response without records gives `{}` |
| Scenarios.MapItemTwoPairs | discovery_provider_middlware.py:66-71 | Two mapping pairs with different destinations give those two fields, in mapping order |
| Scenarios.ExampleMapItem | discovery_provider_middlware.py:66-71 | Under the example mapping, every record becomes a device name followed by an IP address |
| Scenarios.HostValues | discovery_provider_middlware.py:68-71 | The example records' source values; the second record has no IP field, so it reads as null |
| Scenarios.MapAllPair | discovery_provider_middlware.py:65-72 | A two-record batch is mapped record by record, in order |
| Scenarios.TwoHostsScenario | discovery_provider_middlware.py:63-73 | Two hosts map to two records with the same two fields; the host without an IP gets null |

## Left out

- The HTTP route, the environment configuration, and the CRM and store clients with their queries are not modelled. These are network and foreign calls (`discovery_provider_middlware.py:9-44`, `59-61`).
- The bulk insert and upsert calls are not modelled: they are foreign calls to the CRM (`86-92`).
- The orchestrator is modelled only as the composition of mapper and exporter (`CsvExport.MappedBatchExports`). Its `json.loads` round trip, the logging with `print`/`traceback`, and its catch-all exception handler are left out (`94-108`).
- The CSV text is not modelled: no quoting, escaping, line endings, UTF-8 encoding or the conversion of values to text. A file is its header plus rows of values.
- I/O errors on opening or writing the file are not modelled, only the writer's error for a record with extra fields.
- Metadata field values are text or null. A non-text value (a number or a boolean) in `Source_Field__c`/`Destination_Field__c` is not modelled. Device field values are null, booleans, integers or strings; floats and nested JSON values are left out.
- Python dictionaries are association lists, and the inputs are not required to have unique keys. A lookup finds the first occurrence. Every dictionary the code itself builds is proved to have unique keys.
- Nothing deletes `devices_data.csv` after the upload (`94-105`). No operation removes a file from `FileStore`, so the model does not either.
- An empty batch is not a no-op end to end. `save_csv_file` returns `""` (`76-77`), and line `105` still passes that name to `upsert_devices`, which is a foreign call and is not modelled.
- The zero-column export for an empty mapping with a non-empty batch is modelled as it happens (`CsvExport.EmptyMappingExport`). It is not treated as an error.
- Concurrent invocations sharing the fixed file name `devices_data.csv` are not modelled. The model is single-threaded.

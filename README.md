# OpenAIRE dump analyzer and URL tools — a Dafny model

This project models the data-handling core of a set of tools that read the
OpenAIRE research-product dumps (JSON Lines files) and produce tables from them:

- **dump_analyzer** reads one collection directory, validates every line
  against the `ResearchProduct` schema, and flattens each record. Every
  nested field gets its own table of rows. Each row is stamped with the
  record's id, type and publisher (the *triad* `rp_id`, `rp_type`,
  `rp_publisher`). The remaining fields become one "one-level" table with
  one column per field. Each table is written as one file under the
  collection's metadata directory.
- **missing_metadata** counts the missing values of every column of a table.
- **urls_checker** and **urls_response_codes** read JSON Lines objects and
  keep the `id`, `publisher` and `url` fields. For every row they count the
  URLs and the distinct lower-cased URLs, then gather the URLs of each
  publisher. Their `extract_response_code` helpers read the status code out
  of a response's text.

Python values are a closed datatype (`PyValues.Value`):

- Dicts and pydantic models are ordered sequences of key/value entries.
- Lookup takes the first match.
- `dict.update` overwrites a key in place or appends it.
- A model's `.dict()` is `PyValues.ToPlain`.

JSON decoding, the file system and the collection settings are parameters:

- `decode` is the JSON decoder, as a function from a line to an optional value.
- `files` is the directory walk.
- `nested` is the set of nested field names.
- `collections` maps each collection to its metadata directory.

Modules, one per concern:

- `PyValues`: the value model and its dict operations.
- `Schema`: the `ResearchProduct` fields and their validation.
- `DataLoader`:
  - directory-name normalisation;
  - `process_file`;
  - `convert_model_to_dict`.
- `FlattenRows`: what one record contributes to each table.
- `Flatten`:
  - the `Flattener` class, which holds the tables and updates them in place;
  - the artifacts it saves.
- `Collection`: `process_and_save_data` end to end.
- `MissingMetadata`: `analyze_missing_values`.
- `ResponseRegex`: the regular expression `\[(\d+)\s*(?:\w+\s*)*\]` under `re.search`.
- `CheckerUtils`, `ResponseCodesUtils`: the two `extract_response_code` versions.
- `UrlRows`: `process_object` and `compute_row_values`. They are identical in both URL tools.
- `PublisherGrouping`, `CheckerGrouping`, `ResponseCodesGrouping`: the two publisher grouping loops.

The model follows what the code does on these points, where a reader might expect otherwise:

- `convert_model_to_dict` prefixes keys at one level only. The recursive call passes the bare key `k` as parent, and a sub-model has already been turned into a plain dict by `.dict()` (data_loader.py:48-49). Deeper keys therefore keep their own names (`DataLoader.OneLevelPrefixing`).
- The placeholder branch at data_loader.py:119 can never run. `field_type` is a pydantic field descriptor, not a class, so `inspect.isclass` is false. A falsy nested field, whether `None`, `[]` or `{}`, therefore gets a row holding only the triad (`FlattenRows.NestedRowsRule`), not a row of `None` placeholders.
- "Present" means truthy. An empty list, an empty dict, `0` and `""` are all treated as absent by the `if converted_field_data:` test (data_loader.py:105).

## Model

| member | source | states |
|---|---|---|
| DataLoader.NormalizeDirectoryName | dump_analyzer/data_loader/data_loader.py:15-27 | the result is never one of the two renamed names, and it is the input unless the input is one of them |
| DataLoader.NormalizeTable | dump_analyzer/data_loader/data_loader.py:23-27 | "organization" becomes "organisation", "otherresearchproduct" becomes "other_rp", and every other name is unchanged |
| DataLoader.NormalizeIdempotent | dump_analyzer/data_loader/data_loader.py:23-27 | normalising twice gives the same name as normalising once |
| DataLoader.RStripSeparators | dump_analyzer/data_loader/data_loader.py:61 | `path.rstrip(os.sep)` is a prefix of the path, does not end in '/', and only '/' characters were removed |
| DataLoader.BaseName | dump_analyzer/data_loader/data_loader.py:61 | `os.path.basename` is the suffix after the last '/' and contains no '/' |
| DataLoader.ParseLine | dump_analyzer/data_loader/data_loader.py:35-37 | `model.parse_obj(json.loads(line))`, or nothing when either raises (its contract is in ParsedRecords and UndecodableLineSkipped) |
| DataLoader.ParsedRecords | dump_analyzer/data_loader/data_loader.py:30-39 | at most one record per line; every record is a model whose fields are exactly the schema's field names, in order |
| DataLoader.EveryLineAccounted | dump_analyzer/data_loader/data_loader.py:33-39 | the records yielded and the errors logged together number exactly the lines of the file |
| DataLoader.ParsedRecordsAppend | dump_analyzer/data_loader/data_loader.py:34-37 | the records read from two consecutive runs of lines are those of the first followed by those of the second (a generator keeps order) |
| DataLoader.UndecodableLineSkipped | dump_analyzer/data_loader/data_loader.py:35-39 | a line that is not JSON adds no record and is logged, and the lines before it are unaffected |
| DataLoader.ProcessFile | dump_analyzer/data_loader/data_loader.py:30-39 | the loop yields exactly the validated records and logs exactly the failing lines, and the two together count the lines |
| DataLoader.ConvertModelToDict | dump_analyzer/data_loader/data_loader.py:42-56 | the converted value itself is neither a model nor an enum (values inside it keep what `.dict()` left); a model becomes a dict with one entry per field, a list keeps its length, an enum becomes its value, and anything else is returned unchanged |
| DataLoader.ConvertListPointwise | dump_analyzer/data_loader/data_loader.py:51-52 | a list converts item by item, in order, each item under the same parent key |
| DataLoader.ListOfModelsPrefixed | dump_analyzer/data_loader/data_loader.py:46-52 | a model inside a list becomes a dict keyed by its field names prefixed with the parent key (`author_fullname`), in field order, each value converted under its bare field name |
| DataLoader.ConvertFields | dump_analyzer/data_loader/data_loader.py:46-50 | entry i of a converted model has key `parent_k` (or `k` without a parent) and the converted `.dict()` value of field i |
| DataLoader.ConvertIdempotent | dump_analyzer/data_loader/data_loader.py:42-56 | converting an already converted value changes nothing, whatever parent key is given |
| DataLoader.OneLevelPrefixing | dump_analyzer/data_loader/data_loader.py:46-50 | a sub-model field is kept as the plain dict `.dict()` made, with its own unprefixed keys; only the top-level key is prefixed |
| PyValues.Len | dump_analyzer/process_metadata/missing_metadata.py:33 | `len` is defined exactly on strings, lists and dicts |
| PyValues.Put | urls_checker/data_loader.py:44 | after assigning `d[k] = v`, `k` maps to `v`, every other key is unchanged, and a new key is appended at the end |
| PyValues.Update | dump_analyzer/data_loader/data_loader.py:109 | after `d.update(o)`, the keys of `o` map to their values in `o`, every other key keeps its old value, and the keys are the union |
| PyValues.ToPlain | dump_analyzer/data_loader/data_loader.py:49 | `.dict()` leaves no model at any depth; at the top level it keeps the keys of a model or dict and the length of a list, and returns anything else unchanged |
| Schema.Names | dump_analyzer/data_loader/schema/model_2024_01/reserch_product.py:23-197 | `__fields__` lists the declared field names in declaration order |
| Schema.DeclOf | dump_analyzer/data_loader/schema/model_2024_01/reserch_product.py:23-197 | a field's declaration is found exactly when the name is a declared field |
| Schema.AsModel | dump_analyzer/data_loader/schema/model_2024_01/reserch_product.py:23-197 | a JSON object parsed into a sub-model keeps its keys, and lists of objects become lists of models |
| Schema.Conform | dump_analyzer/data_loader/schema/model_2024_01/reserch_product.py:23-197 | a value accepted for a field has that field's declared type |
| Schema.ValidateField | dump_analyzer/data_loader/schema/model_2024_01/reserch_product.py:23-197 | an accepted field is either `None` for an optional field or a value of the declared type |
| Schema.ValidateFields | dump_analyzer/data_loader/schema/model_2024_01/reserch_product.py:23-197 | a validated document has exactly the schema's fields, in order, each accepted by its declaration |
| Schema.Validate | dump_analyzer/data_loader/schema/model_2024_01/reserch_product.py:23-197 | `parse_obj` yields a model with every declared field, each of its declared type or `None` where optional |
| Schema.MissingRequiredFails | dump_analyzer/data_loader/schema/model_2024_01/reserch_product.py:106 | a document missing a required field is rejected |
| Schema.OnlyRequiredPresent | dump_analyzer/data_loader/schema/model_2024_01/reserch_product.py:23-197 | a document holding every required field with the right type, and nothing else, validates, and its optional fields default to `None` |
| Schema.OnlyIdRequired | dump_analyzer/data_loader/schema/model_2024_01/reserch_product.py:106 | `id` is a required string and every other one of the 41 fields is optional |
| Schema.MissingIdFails | dump_analyzer/data_loader/schema/model_2024_01/reserch_product.py:106 | a research product without an `id` (or with a null one) is rejected |
| Schema.SoleRequiredField | dump_analyzer/data_loader/schema/model_2024_01/reserch_product.py:23-197 | for any model whose only required field is a string, a document holding just that field validates, with every other field `None` |
| Schema.IdOnlyDocumentValidates | dump_analyzer/data_loader/schema/model_2024_01/reserch_product.py:23-197 | `{"id": s}` validates to the model with that id and every other field `None` |
| Schema.ObjectFields | dump_analyzer/data_loader/schema/model_2024_01/reserch_product.py:31-182 | a field is a single sub-model exactly when it is one of the five at positions 2, 7, 21, 24 and 36 |
| Schema.ObjectFieldNames | dump_analyzer/data_loader/schema/model_2024_01/reserch_product.py:31-182 | those five are the optional fields bestaccessright, container, indicator, language and subject |
| Schema.ObjectListFields | dump_analyzer/data_loader/schema/model_2024_01/reserch_product.py:24-172 | a field is a list of sub-models exactly when it is one of the eleven at positions 0, 1, 4, 8, 10, 16, 19, 22, 28, 30 and 33 |
| Schema.ObjectListNamesAtoC | dump_analyzer/data_loader/schema/model_2024_01/reserch_product.py:24-66 | affiliation, author, collectedfrom, context and country are optional lists of sub-models |
| Schema.ObjectListNamesEtoR | dump_analyzer/data_loader/schema/model_2024_01/reserch_product.py:90-172 | eoscif, geolocation, instance, pid, projects and relations are optional lists of sub-models |
| Schema.ScalarFields | dump_analyzer/data_loader/schema/model_2024_01/reserch_product.py:124-197 | exactly one field is an integer and exactly one is a list of nullable strings |
| Schema.ScalarFieldNames | dump_analyzer/data_loader/schema/model_2024_01/reserch_product.py:124-197 | those are lastupdatetimestamp and source, and publisher and type are optional strings |
| FlattenRows.Triad | dump_analyzer/data_loader/data_loader.py:92-96 | the triad has exactly the keys rp_id, rp_type and rp_publisher, once each, in that order |
| FlattenRows.TriadValues | dump_analyzer/data_loader/data_loader.py:92-96 | rp_id, rp_type and rp_publisher hold the record's id, type and publisher |
| FlattenRows.Stamp | dump_analyzer/data_loader/data_loader.py:106-109 | `item.update(rp_id_type_data)` on a dict item (its contract is in StampMeaning) |
| FlattenRows.StampMeaning | dump_analyzer/data_loader/data_loader.py:106-109 | a stamped dict carries the record's triad, and every other key keeps its value |
| FlattenRows.NestedRows | dump_analyzer/data_loader/data_loader.py:104-125 | every record contributes at least one row to every nested table |
| FlattenRows.NestedRowsRule | dump_analyzer/data_loader/data_loader.py:104-125 | for a non-empty list: one row per item, each dict item stamped with the triad and otherwise unchanged, other items as they are; for a non-empty dict: one stamped row; for another truthy value: one row `{field: value}` plus the triad; for a falsy value: exactly the triad |
| FlattenRows.StructuredFieldRowsCarryTriad | dump_analyzer/data_loader/data_loader.py:104-125 | for an absent field, a sub-model or a list of sub-models, every row carries the record's triad |
| FlattenRows.OneLevelCell | dump_analyzer/data_loader/data_loader.py:126-129 | a one-level cell holds no model and no enum |
| FlattenRows.OneLevelCellRule | dump_analyzer/data_loader/data_loader.py:101-102 | the cell is the field value converted with no parent key; a dict cell, even an empty one, gets the record's triad merged in and keeps every other key, and any other value is stored as it is |
| FlattenRows.OneLevelModelKeys | dump_analyzer/data_loader/data_loader.py:101-129 | a one-level sub-model gives a dict cell keyed by the sub-model's own field names, unprefixed, besides the triad |
| FlattenRows.UnprefixedKeys | dump_analyzer/data_loader/data_loader.py:46-50 | with no parent key, the converted entries of a model keep its field names |
| FlattenRows.OneLevelColumn | dump_analyzer/data_loader/data_loader.py:126-129 | a one-level column has one cell per record |
| FlattenRows.NestedTableAppend | dump_analyzer/data_loader/data_loader.py:90-125 | the nested table of two runs of records is the first run's table followed by the second's |
| FlattenRows.RecordAdded | dump_analyzer/data_loader/data_loader.py:97-129 | one more record appends exactly its rows to each nested table and its cell to each one-level column |
| FlattenRows.NestedTableCoversRecords | dump_analyzer/data_loader/data_loader.py:104-125 | a nested table has at least as many rows as there are records |
| FlattenRows.RecordBlock | dump_analyzer/data_loader/data_loader.py:90-125 | record j's rows sit, as one block, between the rows of the records before it and those after it |
| FlattenRows.NoOmission | dump_analyzer/data_loader/data_loader.py:104-125 | every record, even one whose nested field is absent, is linked by its triad to some row of that field's table |
| FlattenRows.RowsLinkToRecords | dump_analyzer/data_loader/data_loader.py:104-125 | every row of a nested table of structured fields carries the triad of some record read |
| Flatten.NestedFieldOrder | dump_analyzer/data_loader/data_loader.py:79-83 | the nested tables are the schema fields that are in the nested list, without duplicates |
| Flatten.OneLevelFieldOrder | dump_analyzer/data_loader/data_loader.py:84-88 | the one-level columns are exactly the schema fields not in the nested list |
| Flatten.NestedArtifacts | dump_analyzer/data_loader/data_loader.py:131-140 | the nested files written for a collection (its contract is in NestedArtifactsExact and AllNestedWritten) |
| Flatten.NestedArtifactsExact | dump_analyzer/data_loader/data_loader.py:131-140 | a nested file `<collection>_<field>.parquet` is written exactly for the fields whose table has rows, holding that table |
| Flatten.AllNestedWritten | dump_analyzer/data_loader/data_loader.py:131-140 | when every nested table has rows, one file is written per nested field |
| Flatten.Flattener.constructor | dump_analyzer/data_loader/data_loader.py:79-88 | the tables start empty, one per nested field, and the columns start empty, one per other field |
| Flatten.Flattener.AddRecord | dump_analyzer/data_loader/data_loader.py:92-129 | processing a record appends its rows to every nested table and its cell to every one-level column, and keeps the tables equal to those of the records read so far |
| Flatten.Flattener.OneLevelTable | dump_analyzer/data_loader/data_loader.py:142 | the one-level frame has one column per one-level field and one cell per record read |
| Flatten.Flattener.SaveArtifacts | dump_analyzer/data_loader/data_loader.py:131-149 | saving fails exactly when the normalised collection has no settings entry; otherwise it writes the non-empty nested tables in field order, then the one-level file |
| Flatten.WriteNested | dump_analyzer/data_loader/data_loader.py:131-140 | for a configured collection, the non-empty nested tables are written in field order under their file names; for an unknown one, the first non-empty table fails the lookup |
| Flatten.AddToTables | dump_analyzer/data_loader/data_loader.py:97-129 | the per-field loop appends the record's rows to each nested table and its cell to each column, and leaves the key sets unchanged |
| Flatten.AddField | dump_analyzer/data_loader/data_loader.py:99-129 | one pass of the field loop changes only that field's table or column, by the field's rows or cell |
| Flatten.Flattener.AddRecords | dump_analyzer/data_loader/data_loader.py:90-91 | processing the records one after another appends them, in order, to the records read so far |
| Flatten.FieldRows | dump_analyzer/data_loader/data_loader.py:99-125 | the rows the branches build for one nested field are that field's rows |
| Flatten.FieldCell | dump_analyzer/data_loader/data_loader.py:101-129 | the cell the branches build for one one-level field is that field's cell |
| Flatten.StampItems | dump_analyzer/data_loader/data_loader.py:106-109 | each list item is stamped with the triad, one result per item, in order |
| Flatten.Columns | dump_analyzer/data_loader/data_loader.py:142 | `pd.DataFrame(one_lvl_data)` has one column per field, in field order, holding that field's cells |
| Collection.AllRecords | dump_analyzer/data_loader/data_loader.py:90-91 | every record read from the collection is a model with exactly the schema's fields |
| Collection.EveryJsonLineAccounted | dump_analyzer/data_loader/data_loader.py:63-91 | across all `.json` files, the records and the logged errors together count the lines |
| Collection.Artifacts | dump_analyzer/data_loader/data_loader.py:131-149 | every file `process_and_save_data` writes for the records read (its contract is in ProcessAndSaveData, NoNestedWritten and FilesWritten) |
| Collection.ProcessAndSaveData | dump_analyzer/data_loader/data_loader.py:59-149 | logs exactly the failing lines; fails exactly when the collection is not configured; otherwise writes exactly the artifacts of the records read |
| Collection.NoNestedWritten | dump_analyzer/data_loader/data_loader.py:131-133 | empty nested tables produce no files |
| Collection.FilesWritten | dump_analyzer/data_loader/data_loader.py:131-149 | the one-level file is always written, last, with one cell per record in every column; with no record it is the only file; otherwise every nested field has its file |
| Collection.WrittenRowsLinkToRecords | dump_analyzer/data_loader/data_loader.py:92-140 | every row in a written nested file carries the triad of a record that was read |
| MissingMetadata.NaCount | dump_analyzer/process_metadata/missing_metadata.py:27 | the null count is at most the number of cells |
| MissingMetadata.MissingCount | dump_analyzer/process_metadata/missing_metadata.py:27-35 | `missing_count` of one column, or nothing when `len` raises (its contract is in ReportRows and ReportFailsIff) |
| MissingMetadata.ColumnRow | dump_analyzer/process_metadata/missing_metadata.py:22-39 | the report row of one column, or its `TypeError` (its contract is in ReportRows) |
| MissingMetadata.Report | dump_analyzer/process_metadata/missing_metadata.py:21-51 | the report of all the columns, or the first `TypeError` (its contract is in ReportRows, ReportFailsIff and FirstFailureEndsReport) |
| MissingMetadata.AnalyzeMissingValues | dump_analyzer/process_metadata/missing_metadata.py:4-53 | the loop computes the per-column report, or the `TypeError` of the first column whose `len` fails |
| MissingMetadata.FirstFailureEndsReport | dump_analyzer/process_metadata/missing_metadata.py:21-33 | once a column raises, later columns do not change the outcome |
| MissingMetadata.MissingAtMostCells | dump_analyzer/process_metadata/missing_metadata.py:27-35 | nulls plus empty values never exceed the number of cells |
| MissingMetadata.EmptyCountFails | dump_analyzer/process_metadata/missing_metadata.py:29-33 | counting empty values fails exactly when some non-null cell has no length |
| MissingMetadata.ReportRows | dump_analyzer/process_metadata/missing_metadata.py:21-51 | one row per column, in order, with the file name and the column name; total is the row count; existing plus missing is total; missing is between 0 and total; in a float or integer column missing is the nulls, in any other column the nulls plus the non-null values of length 0 |
| MissingMetadata.ReportFailsIff | dump_analyzer/process_metadata/missing_metadata.py:32-33 | the analysis raises exactly when a column that is neither float nor integer holds a non-null value without a length |
| ResponseRegex.DigitRunEnd | urls_checker/utils.py:12 | `\d+` consumes the maximal run of digits |
| ResponseRegex.WordSpaceEnd | urls_checker/utils.py:12 | `\s*(?:\w+\s*)*` consumes the maximal run of word and space characters |
| ResponseRegex.MatchAtIff | urls_checker/utils.py:12 | the pattern matches at p exactly when s[p] is '[', a digit follows, and the first character after it that is neither a word nor a space character is ']' |
| ResponseRegex.FindFrom | urls_checker/utils.py:12 | `re.search` returns the leftmost match position, or none when no position matches |
| ResponseRegex.DigitValue | urls_checker/utils.py:14 | a digit's value is below ten |
| ResponseRegex.DecimalString | urls_checker/utils.py:14 | a decimal numeral is a non-empty string of digits without a leading zero |
| ResponseRegex.DecimalRoundTrip | urls_checker/utils.py:14 | `int()` of a number's numeral is that number |
| ResponseRegex.LeadingZero | urls_checker/utils.py:14 | `int()` ignores a leading zero |
| ResponseRegex.Captured | urls_checker/utils.py:12-14 | group 1 is the maximal non-empty run of digits after the '[' |
| ResponseRegex.SkipToBracket | urls_checker/utils.py:12 | the search can skip text without a '[' |
| ResponseRegex.ExtractCode | urls_checker/utils.py:12-15 | `re.search` of the pattern then `int(group(1))` (its contract is in ExtractCodeSpec and the examples) |
| ResponseRegex.ExtractCodeSpec | urls_checker/utils.py:12-15 | a code is found exactly when the pattern matches somewhere; it is then the value of the leftmost match's digit group |
| ResponseRegex.NoBracketNoCode | urls_checker/utils.py:12-15 | text without a '[' has no code |
| ResponseRegex.MaximalRunExample | urls_checker/utils.py:12-15 | word characters after the digits are skipped: "[404x]" gives 404 |
| ResponseRegex.DigitsStopAtLetterExample | urls_checker/utils.py:12-15 | the code is only the leading digit run: "[4a2]" gives 4 |
| ResponseRegex.LeftmostExample | urls_checker/utils.py:12-15 | "[1] [2]" gives 1 |
| ResponseRegex.ResponseReprOuter | urls_checker/utils.py:12 | the outer '[' of "[<Response [200 OK]>]" is not a match |
| ResponseRegex.ResponseReprInner | urls_checker/utils.py:12 | the inner "[200 OK]" is a match |
| ResponseRegex.ResponseReprPrefix | urls_checker/utils.py:12 | no '[' lies between the outer bracket and the inner one |
| ResponseRegex.ResponseReprSearch | urls_checker/utils.py:12 | the search over "[<Response [200 OK]>]" stops at the inner bracket |
| ResponseRegex.ResponseReprExample | urls_checker/utils.py:12-15 | "[<Response [200 OK]>]" gives 200 |
| ResponseRegex.RejectExample | urls_checker/utils.py:12-15 | "[200-OK]" gives no code |
| ResponseRegex.LeadingZerosExample | urls_checker/utils.py:12-15 | "[007]" gives 7 |
| CheckerUtils.ExtractResponseCode | urls_checker/utils.py:3-15 | `extract_response_code(response)`: the code found in `str(response)` (its contract is in ExtractResponseCodeCases) |
| CheckerUtils.ExtractResponseCodeCases | urls_checker/utils.py:3-15 | after `str()`, `None`, integers and booleans give no code, a string is searched as it is, and any other object is searched through its repr |
| ResponseCodesUtils.ExtractResponseCode | urls_response_codes/utils.py:3-7 | `extract_response_code(response_str)`: the code found in a string, or a `TypeError` for anything else (its contract is in AgreesWithChecker) |
| ResponseCodesUtils.AgreesWithChecker | urls_response_codes/utils.py:3-7 | without `str()`, only a string can be searched (anything else raises `TypeError`), and on strings both versions agree |
| UrlRows.Split | urls_checker/data_loader.py:39 | `split("\n")` gives at least one piece, and no piece holds a newline |
| UrlRows.JoinExtendLast | urls_checker/data_loader.py:39 | appending a character to the last piece appends it to the joined text |
| UrlRows.SplitJoin | urls_checker/data_loader.py:39 | joining the pieces with newlines gives back the text |
| UrlRows.SpaceRunEnd | urls_checker/data_loader.py:40 | the leading whitespace run ends at the first non-space character |
| UrlRows.SpaceRunStart | urls_checker/data_loader.py:40 | the trailing whitespace run starts after the last non-space character |
| UrlRows.Strip | urls_checker/data_loader.py:40 | `line.strip()` (its contract is in StripMeaning and StripIdempotent) |
| UrlRows.StripMeaning | urls_checker/data_loader.py:40 | `strip()` removes a whitespace prefix and a whitespace suffix, and the result neither starts nor ends with whitespace |
| UrlRows.StripIdempotent | urls_checker/data_loader.py:40 | stripping twice equals stripping once |
| UrlRows.SelectFields | urls_checker/data_loader.py:44 | the row has exactly the selected fields, once each, each holding `doc.get(field)` (`None` when missing) |
| UrlRows.LoadRows | urls_checker/data_loader.py:37-47 | the rows of the line loop, or the error of the line that stops it (its contract is in EveryLineAccounted, RowsHoldSelectedFields and LoadFailureStays) |
| UrlRows.EveryLineAccounted | urls_checker/data_loader.py:39-47 | every line is a row, a logged decoding error or blank |
| UrlRows.RowsHoldSelectedFields | urls_checker/data_loader.py:42-45 | every row is the selected fields of some line's decoded object |
| UrlRows.CollectRows | urls_checker/data_loader.py:37-47 | the loop collects the rows of the non-blank decodable lines and logs the undecodable ones; when a line raises, the lines logged are the undecodable ones before that line (`StopLine`) |
| UrlRows.LoadFailureStays | urls_checker/data_loader.py:42-47 | a line that decodes to a non-object raises (`AttributeError` on `.get`), and later lines do not change that |
| UrlRows.StopLine | urls_checker/data_loader.py:39-47 | when loading fails, the index of the line that raises, which is a line of the object (its meaning is in StopLineStops) |
| UrlRows.StopLineStops | urls_checker/data_loader.py:39-47 | every line before that index loads and the line at it raises |
| UrlRows.StopLineUnique | urls_checker/data_loader.py:39-47 | at most one line can be the one that raises, because once loading has failed every longer prefix fails too |
| UrlRows.Elements | urls_checker/data_loader.py:55-56 | iterating a value works exactly when `len` does, and gives `len` elements |
| UrlRows.Lower | urls_checker/data_loader.py:56 | lower-casing keeps the length |
| UrlRows.Lowered | urls_checker/data_loader.py:56 | lower-casing the URLs works exactly when every URL is a string, and gives each one lower-cased |
| UrlRows.DistinctAtMost | urls_checker/data_loader.py:56 | there are no more distinct URLs than URLs |
| UrlRows.ComputeRowValues | urls_checker/data_loader.py:53-64 | `compute_row_values(row)` with the exceptions it raises (its contract is in ComputeRowValuesSpec) |
| UrlRows.ComputeRowValuesSpec | urls_checker/data_loader.py:53-64 | the row values exist exactly when `url` has a length and holds only strings and `id` and `publisher` are present; then id, publisher and urls are copied, `number_urls` is the length, and `number_unique_urls` is the number of distinct lower-cased URLs, at most `number_urls` and positive when it is |
| UrlRows.CaseInsensitiveExample | urls_checker/data_loader.py:56 | "HTTP://A.ORG" and "http://a.org" count as one unique URL |
| UrlRows.RowValues | urls_checker/data_loader.py:49 | on success, `apply` gives one result row per input row, each the row values of that row |
| UrlRows.RowValuesFailIff | urls_checker/data_loader.py:49 | `apply` raises exactly when some row's values cannot be computed |
| UrlRows.ProcessObject | urls_checker/data_loader.py:35-50 | `process_object` returns the row values of the collected rows, or the first error, and logs the undecodable lines, only those before the raising line (`StopLine`) when one raises |
| UrlRows.RowValuesFirstFailure | urls_checker/data_loader.py:49 | the error raised is that of the first failing row |
| UrlRows.FailureStays | urls_checker/data_loader.py:49 | rows after the first failure do not change the outcome |
| PublisherGrouping.Explode | urls_checker/data_loader.py:105 | `explode` gives at least one value for every row |
| PublisherGrouping.DropNa | urls_checker/data_loader.py:106 | `dropna` keeps exactly the non-null values and never adds any |
| PublisherGrouping.UrlsOf | urls_checker/data_loader.py:103-105 | the exploded URLs of the rows of one publisher (its contract is in UrlsOfCollects) |
| PublisherGrouping.UrlsOfCollects | urls_checker/data_loader.py:103-107 | the exploded URLs under a publisher are exactly those of the rows with that publisher; a null publisher selects no row |
| CheckerGrouping.Grouped | urls_checker/data_loader.py:100-111 | the publishers with their non-null URLs, empty lists skipped (its contract is in GroupedEntries and GroupedComplete) |
| CheckerGrouping.GroupByPublisher | urls_checker/data_loader.py:98-111 | the loop builds the grouping for the enumeration of the publisher set |
| CheckerGrouping.GroupedEntries | urls_checker/data_loader.py:100-111 | each entry is a publisher from the set with its non-null exploded URLs, which are never empty, and no publisher appears twice |
| CheckerGrouping.GroupedComplete | urls_checker/data_loader.py:100-111 | every non-null URL of a row with a non-null publisher is listed under that publisher |
| ResponseCodesGrouping.Grouped | urls_response_codes/data_loader.py:77-80 | there is one entry per publisher, even when its list is empty |
| ResponseCodesGrouping.GroupByPublisher | urls_response_codes/data_loader.py:75-80 | the loop builds the grouping for the enumeration of the publisher set |
| ResponseCodesGrouping.GroupedSpec | urls_response_codes/data_loader.py:77-80 | entry k is publisher k with all its exploded URLs, nulls included; a null publisher gets an empty list |
| ResponseCodesGrouping.CheckerDropsNullsAndEmpties | urls_response_codes/data_loader.py:77-80 | the checker's grouping is this one with nulls dropped from each list and empty entries removed |

## Left out

- File input and output are outside the model: `open`, `os.walk`, `os.path.join`, parquet writing, S3 access, UTF-8 decoding and logging. The directory walk is a sequence of named files, each a sequence of lines, and a written file is an `Artifact` value.
- `dump_analyzer/main.py`, `dump_analyzer/settings.py` and the request handlers are not part of this model. The nested field list and the collections' metadata directories are parameters. The `'METADATA'` lookup is modelled as a map from collection to directory.
- `process_metadata.py`, which drives `analyze_missing_values` over saved files, is not part of this model.
- JSON decoding is a parameter `decode`. Its result is trusted to be a JSON value.
- Schema.Validate: pydantic coercions (such as "12" to 12) are not modelled. The sub-schemas (Author, Instance, …) are not checked field by field. A sub-object is accepted as a model carrying the keys it has, so no enum ever comes out of validation.
- MissingMetadata.ReportRows: `missing_percentage` is floating point and is left out. So is pandas' turning `None` into NaN when it infers a dtype. A frame is a list of typed columns whose cells are values.
- ResponseRegex.IsDigit: `\d` and `\w` are taken as their ASCII forms. Python's Unicode digits and letters are not modelled. `\s` is the exact `str.isspace` set.
- UrlRows.Lower: `lower()` is ASCII-only. Other characters are unchanged.
- UrlRows.ProcessObject: `pd.DataFrame(rows)` is modelled as a list of rows. Pandas dtype inference, and the empty-frame case where `apply` returns an empty frame, are not distinguished.
- CheckerGrouping.GroupByPublisher: the iteration order of the publisher set is an input. Publishers must be strings or `None` (the `Enumerates` precondition). Unhashable publishers, which would make `set()` raise, are not modelled.
- ResponseCodesGrouping.GroupByPublisher: the same `Enumerates` precondition applies. The set order is an input, publishers must be strings or `None`, and unhashable publishers are not modelled.
- Flatten.Flattener.AddRecord: the single `rp_id_type_data` dict is shared by every row pandas later reads. The model copies it per row, which is what the written tables contain, but it does not model that aliasing.
- Progress bars (`tqdm`) and log message texts are not modelled.

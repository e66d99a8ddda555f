# NYC 311 ingestion client: a Dafny model of its record handling

The ingestion client fetches 311 service requests from the NYC Open Data
Socrata API and stages them for a pipeline that keeps their history. This
project models and proves the parts of `src/nyc311/ingestion/api_client.py`
that decide which records come out of it:

- **Pagination** (`pagination.dfy`). `fetch_all` requests pages at growing
  offsets and yields their records. It stops at an empty page, at a page
  shorter than `page_size`, or once `max_records` records have been yielded.
  A request exception is re-raised. The HTTP layer is replaced by a list of
  answers: the `k`-th request receives `pages[k]`, and `None` stands for a
  `RequestException`. Once the list is used up, every answer is an empty page.
- **Change-feed deduplication** (`dedup.dfy`). `fetch_changes_since` keeps
  one record per truthy `unique_key`. The record kept is the first one with
  the greatest `resolution_action_updated_date`, where a missing date reads
  as `""`. The output is in first-appearance order of the keys, because that
  is the order of the dictionary `seen`.
- **Quality report** (`quality.dfy`). `validate_records` counts missing
  fields, coordinates outside the city, and repeated keys, and it takes the
  `created_date` range. `DataQualityReport.is_valid` applies the 5 %
  thresholds.
- **Incremental loads** (`incremental.dfy`). `IncrementalLoader` is a class
  whose field `lastLoaded` holds the watermark kept in the state file.
  `LoadIncremental` chooses one of three queries from that field and
  `scd2_mode`. It validates the batch and moves the watermark to the latest
  `created_date` seen.
- **Shared definitions.** `records.dfy` holds the record datatype and Python
  truthiness. A record has one `Option<string>` field for each field the code
  reads, plus a map of the fields it does not read. `strings.dfy` holds Python's ordering of
  `str` values: lexicographic by code point, with a proper prefix sorting
  first. That ordering is used for the dedup comparison and for `min`/`max`.

The specification of each operation is a function over values: `Drain`,
`IsDeduplication`, `QualityReport` and `Watermark`. The imperative code is a
set of methods proved against those functions:

- the `fetch_all` loop (`FetchAll`, `PassOnPage`);
- the `seen` loop (`DeduplicateByKey`);
- the coordinate loop (`CountInvalidCoordinates`);
- the state step (`IncrementalLoader.LoadIncremental`).

The lemmas then state what those functions promise.

## Model

| member | source | states |
|---|---|---|
| Strings.Min | src/nyc311/ingestion/api_client.py:395 | `min` of a non-empty list of strings is one of its items and is no greater than any item, under Python string order |
| Strings.Max | src/nyc311/ingestion/api_client.py:395 | `max` of a non-empty list of strings is one of its items and no item is greater |
| Dedup.DeduplicateByKey | src/nyc311/ingestion/api_client.py:305-320 | the `seen` loop returns one record per key in first-appearance order of the keys, and each is the first record of its key with the greatest update date |
| Dedup.FirstKeysMembership | src/nyc311/ingestion/api_client.py:306-320 | the keys of `seen` at the end are exactly the truthy `unique_key` values of the input |
| Dedup.FirstKeysDistinct | src/nyc311/ingestion/api_client.py:306-320 | the key order of `seen` lists no key twice |
| Dedup.KeptIsLatest | src/nyc311/ingestion/api_client.py:313-318 | the kept version of a key has an update date no smaller than that of any input record of the same key |
| Dedup.DeduplicatedKeysUnique | src/nyc311/ingestion/api_client.py:306-320 | output keys are truthy and pairwise distinct, every output record is an input record, and the output is no longer than the input |
| Dedup.DeduplicationCoversKeys | src/nyc311/ingestion/api_client.py:306-320 | every input record with a truthy key has a record of that key in the output |
| Dedup.DeduplicationKeepsLatest | src/nyc311/ingestion/api_client.py:313-318 | each output record's update date is at least that of every input record with the same key |
| Dedup.DeduplicationIsUnique | src/nyc311/ingestion/api_client.py:306-320 | the result is fully determined by the input: two results for the same records are equal |
| Dedup.TieKeepsFirstSeen | src/nyc311/ingestion/api_client.py:316-318 | with two versions of one key and equal update dates, the one seen first is kept, because the comparison is strict |
| Quality.IsValidThreshold | src/nyc311/ingestion/api_client.py:63-75 | `is_valid` holds for a report of no records; otherwise it holds exactly when 20 × (missing keys + missing dates) < total and 20 × duplicates < total |
| Quality.CountMissing | src/nyc311/ingestion/api_client.py:371-373 | a count of records with a falsy field is at most the number of records |
| Quality.Present | src/nyc311/ingestion/api_client.py:390 | the truthy values of a field number exactly the records minus those where the field is falsy |
| Quality.PresentMembership | src/nyc311/ingestion/api_client.py:394 | a string is among the collected values of a field exactly when some record holds it, truthy, in that field |
| Quality.PresentEmpty | src/nyc311/ingestion/api_client.py:394-395 | the collected dates are empty exactly when no record has a truthy `created_date` |
| Quality.ElementsCount | src/nyc311/ingestion/api_client.py:391 | `len(set(keys)) <= len(keys)`, with equality exactly when no key repeats |
| Quality.DuplicateKeyCount | src/nyc311/ingestion/api_client.py:390-391 | the duplicate count is a natural number no larger than the number of records |
| Quality.InvalidCoordinateCount | src/nyc311/ingestion/api_client.py:376-387 | the invalid-coordinate count is at most the number of records |
| Quality.CountInvalidCoordinates | src/nyc311/ingestion/api_client.py:376-387 | the counting loop returns the number of records with truthy latitude and longitude that fail the bounding-box check |
| Quality.ValidateRecords | src/nyc311/ingestion/api_client.py:350-413 | `validate_records` returns the report of its batch: all zeros with no date range for an empty batch, otherwise the counts and the date range |
| Quality.EmptyBatchReport | src/nyc311/ingestion/api_client.py:360-369 | an empty batch gives an all-zero report with date range (None, None), and that report is valid |
| Quality.ReportCounts | src/nyc311/ingestion/api_client.py:371-405 | every count is bounded by the record total; duplicates plus missing keys are at most the total; duplicates are zero exactly when no truthy key repeats |
| Quality.DateRangeIsMinMax | src/nyc311/ingestion/api_client.py:394-395 | the range is (None, None) exactly when no record has a truthy `created_date`; otherwise both ends are such dates, start <= end, and every date lies between them |
| Quality.DuplicatesAreWhatDedupRemoves | src/nyc311/ingestion/api_client.py:390-391 | deduplicated records, duplicate keys and keyless records add up to the batch size |
| Pagination.Take | src/nyc311/ingestion/api_client.py:218-224 | what is yielded under a limit is a prefix of the available records, of length min(limit, available), and everything when there is no limit |
| Pagination.PassOnPage | src/nyc311/ingestion/api_client.py:218-224 | the per-record loop yields the page's records up to the limit and returns early exactly when the count reaches a truthy `max_records` |
| Pagination.FetchAll | src/nyc311/ingestion/api_client.py:187-237 | yields min(limit, available) of the records of the pages before the first empty or short page; each request is at the offset counting earlier records; the last request is the one whose answer ended the run (failed, empty or short) or whose page reached the limit, and no earlier page reached the limit; it re-raises exactly when a request failed before the limit was reached |
| Pagination.DrainStopsAtFirstPartialPage | src/nyc311/ingestion/api_client.py:207-237 | without a limit, the records yielded are the full pages up to the first page that is not full, followed by that page's records; the run raises exactly when that request failed |
| Pagination.DrainAllFullPages | src/nyc311/ingestion/api_client.py:207-237 | when every answer is a full page, all records are yielded in order and the run ends normally on the empty page that follows |
| Pagination.DrainIsPrefixOfPages | src/nyc311/ingestion/api_client.py:207-237 | records are yielded in page order and none is skipped before the run stops |
| Incremental.RunQuery | src/nyc311/ingestion/api_client.py:239-324 | the three fetches return every record `fetch_all` yields (no limit), deduplicated for the change feed, and fail exactly when a request failed |
| Incremental.IncrementalLoader.constructor | src/nyc311/ingestion/api_client.py:435-452 | a loader starts with its mode, its page size and the stored timestamp |
| Incremental.IncrementalLoader.LoadIncremental | src/nyc311/ingestion/api_client.py:471-509 | the query is a lookback without a truthy stored timestamp, else the change feed in scd2 mode or the created-since fetch; the result holds the fetched records and their report; the watermark moves only after a successful load with records and a truthy date-range end |
| Incremental.WatermarkIsLatestCreatedDate | src/nyc311/ingestion/api_client.py:504-507 | after a load with some truthy `created_date` the watermark is the greatest of them; with none it stays as stored |
| Incremental.CreatedSinceAdvancesWatermark | src/nyc311/ingestion/api_client.py:504-507 | when every loaded record was created after the stored timestamp, the watermark moves strictly forward |
| Incremental.ChangeFeedCanMoveWatermarkBack | src/nyc311/ingestion/api_client.py:504-507 | in change-feed mode a load whose only record is an update to an older request moves the watermark backwards, from 2024-02-01 to 2024-01-15 |

## Left out

- The HTTP session, its retry and backoff settings, and `raise_for_status` (lines 127-185). They are library behaviour. `_fetch_page` is replaced by the list of answers `pages`, and every request failure is one `None` answer.
- `_build_query` and the SoQL `$where` strings of `fetch_recent`, `fetch_since`, `fetch_changes_since` and `fetch_date_range`. Their meaning is evaluated by the server, and `fetch_recent` reads `datetime.now()`. The model records which query was chosen (`Query`), and the answers to it are a parameter.
- `fetch_date_range` is not modelled: no other part of the client calls it, and it differs from `fetch_since` only in its query text.
- Quality.CountInvalidCoordinates: float parsing and the bounding box (lines 380-387) are the parameter `inBox(lat, lon)`. It stands for "both parse as floats and lie in the box", so a parse failure counts as outside the box.
- Quality.IsValidThreshold: reads the threshold 0.05 as the exact rational 1/20 and divides exactly. Python's float division could differ from this only for totals above about 10^16 records.
- Quality.ValidateRecords: the report is returned without its `is_valid` warning, because that warning is logging only.
- Logging, `time.sleep`, `progress_callback` and `DataQualityReport.to_dict` are left out. They have no effect on records or state.
- The JSON state file. `_read_state` and `_write_state` become the field `lastLoaded`. A missing file, a file that is not valid JSON, or a file without the key reads as `None`. Other errors when reading the file (a permission error, say), and any error raised while `_write_state` writes it after the records were fetched, propagate out of `load_incremental`; they are not modelled. The `scd2_mode` value written next to the timestamp is not kept, because nothing reads it back.
- Pagination.FetchAll: the answers are a finite list followed by empty pages, so every run ends. A server that keeps answering full pages (one that ignores `$offset`, say) would keep the source's `while True` loop running forever; the model excludes that case.
- Pagination.FetchAll: the generator's laziness is not modelled. Each fetch consumes the whole generator, so the model returns everything it yields as one sequence.
- Record field values that are not strings (JSON numbers or `null`) are not modelled. A field is either absent or a string. In particular, a `null` update date would make the Python comparison raise, and that case does not arise here.
- The version-history (SCD Type 2) processing that consumes these records is not part of this model. No code in this repository implements it; a managed pipeline feature does.
- `notebooks/01_setup/01_create_catalog_schemas.py` is not part of this model. It only issues catalog DDL on an external platform.

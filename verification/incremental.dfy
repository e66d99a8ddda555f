/**
 * `IncrementalLoader`: one incremental load step. The loader reads the
 * stored watermark (`last_loaded_timestamp`), picks a query from it and
 * from `scd2_mode`, validates what comes back, and moves the watermark to
 * the latest `created_date` it saw. The state file is modelled as the field
 * `lastLoaded`; the page answers of the chosen query are a parameter.
 */
module Incremental {
  import opened Records
  import opened Strings
  import Dedup
  import Quality
  import Pagination

  /** The client call a load makes. */
  datatype Query =
    | Recent(days: int)                // fetch_recent(days)
    | CreatedSince(timestamp: string)  // fetch_since(timestamp)
    | ChangedSince(timestamp: string)  // fetch_changes_since(timestamp)

  /**
   * `fetch_recent`, `fetch_since` and `fetch_changes_since`: all three
   * collect `fetch_all` without a record limit; the change feed then
   * deduplicates by key. `failed` says the request exception propagated.
   * The query text itself is not modelled: `pages` are the answers to it.
   */
  method RunQuery(query: Query, pages: seq<Option<seq<Record>>>, pageSize: nat)
    returns (records: seq<Record>, failed: bool)
    ensures failed <==> Pagination.Drain(pages, pageSize).failed
    ensures !failed && query.ChangedSince? ==>
              Dedup.IsDeduplication(Pagination.Drain(pages, pageSize).records, records)
    ensures !failed && !query.ChangedSince? ==> records == Pagination.Drain(pages, pageSize).records
  {
    var fetched, _, raised := Pagination.FetchAll(pages, pageSize, None);
    if raised {
      return [], true;
    }
    failed := false;
    if query.ChangedSince? {
      records := Dedup.DeduplicateByKey(fetched);
    } else {
      records := fetched;
    }
  }

  /**
   * The watermark after a successful load of `records`: the end of the
   * report's date range when records came back and that end is truthy,
   * otherwise the stored value unchanged.
   */
  function Watermark(stored: Option<string>, records: seq<Record>, inBox: (string, string) -> bool): Option<string> {
    var end := Quality.QualityReport(records, inBox).dateRange.1;
    if |records| > 0 && Truthy(end) then end else stored
  }

  datatype Load = Load(query: Query, records: seq<Record>, report: Quality.DataQualityReport)

  datatype LoadResult = Loaded(load: Load) | RequestFailed

  class IncrementalLoader {
    const scd2Mode: bool
    /** The client's `page_size`. */
    const pageSize: nat
    /** The `last_loaded_timestamp` held by the state file, if any. */
    var lastLoaded: Option<string>

    constructor(scd2Mode: bool, pageSize: nat, stored: Option<string>)
      ensures this.scd2Mode == scd2Mode && this.pageSize == pageSize
      ensures lastLoaded == stored
    {
      this.scd2Mode := scd2Mode;
      this.pageSize := pageSize;
      lastLoaded := stored;
    }

    /**
     * `load_incremental`. With no truthy stored timestamp it loads the last
     * `initialLookbackDays` days; otherwise it asks for changes (scd2 mode)
     * or for newly created records since the timestamp. The watermark moves
     * only after a successful load that returned records with a date.
     */
    method LoadIncremental(initialLookbackDays: int, pages: seq<Option<seq<Record>>>,
                           inBox: (string, string) -> bool)
      returns (result: LoadResult)
      modifies this
      ensures result.Loaded? ==>
                result.load.query ==
                  (if !Truthy(old(lastLoaded)) then Recent(initialLookbackDays)
                   else if scd2Mode then ChangedSince(old(lastLoaded).value)
                   else CreatedSince(old(lastLoaded).value))
      ensures result.RequestFailed? <==> Pagination.Drain(pages, pageSize).failed
      ensures result.Loaded? && result.load.query.ChangedSince? ==>
                Dedup.IsDeduplication(Pagination.Drain(pages, pageSize).records, result.load.records)
      ensures result.Loaded? && !result.load.query.ChangedSince? ==>
                result.load.records == Pagination.Drain(pages, pageSize).records
      ensures result.Loaded? ==> result.load.report == Quality.QualityReport(result.load.records, inBox)
      ensures lastLoaded == if result.Loaded? then Watermark(old(lastLoaded), result.load.records, inBox)
                            else old(lastLoaded)
    {
      var lastTimestamp := lastLoaded;
      var query: Query;
      if Truthy(lastTimestamp) {
        if scd2Mode {
          query := ChangedSince(lastTimestamp.value);
        } else {
          query := CreatedSince(lastTimestamp.value);
        }
      } else {
        query := Recent(initialLookbackDays);
      }
      var records, failed := RunQuery(query, pages, pageSize);
      if failed {
        return RequestFailed;
      }
      var report := Quality.ValidateRecords(records, inBox);
      if |records| > 0 && Truthy(report.dateRange.1) {
        lastLoaded := report.dateRange.1;
      }
      result := Loaded(Load(query, records, report));
    }
  }

  /**
   * A load that returned records with a `created_date` sets the watermark
   * to the greatest such date; a load with none keeps the stored value.
   */
  lemma WatermarkIsLatestCreatedDate(stored: Option<string>, records: seq<Record>,
                                     inBox: (string, string) -> bool)
    ensures (forall i :: 0 <= i < |records| ==> !Truthy(records[i].createdDate)) ==>
              Watermark(stored, records, inBox) == stored
    ensures (exists i :: 0 <= i < |records| && Truthy(records[i].createdDate)) ==>
              var w := Watermark(stored, records, inBox);
              && Truthy(w)
              && (exists i :: 0 <= i < |records| && records[i].createdDate == w)
              && forall i :: 0 <= i < |records| && Truthy(records[i].createdDate) ==>
                   LessEq(records[i].createdDate.value, w.value)
  {
    Quality.DateRangeIsMinMax(records, inBox);
  }

  /**
   * In `fetch_since` mode every record was created after the stored
   * timestamp, so a non-empty load moves the watermark strictly forward.
   */
  lemma CreatedSinceAdvancesWatermark(timestamp: string, records: seq<Record>,
                                      inBox: (string, string) -> bool)
    requires |records| > 0
    requires forall i :: 0 <= i < |records| ==>
               Truthy(records[i].createdDate) && Less(timestamp, records[i].createdDate.value)
    ensures var w := Watermark(Some(timestamp), records, inBox);
            w.Some? && Less(timestamp, w.value)
  {
    WatermarkIsLatestCreatedDate(Some(timestamp), records, inBox);
    var w := Watermark(Some(timestamp), records, inBox);
    assert Truthy(records[0].createdDate);
    LessLessEqTransitive(timestamp, records[0].createdDate.value, w.value);
  }

  /**
   * In change-feed mode the watermark is still the greatest `created_date`,
   * so a load whose records are all updates to older requests moves it
   * back: here from 2024-02-01 to 2024-01-15.
   */
  lemma ChangeFeedCanMoveWatermarkBack(inBox: (string, string) -> bool)
    ensures var update := Record(Some("311-1"), Some("2024-01-15"), None, None, None,
                                 Some("2024-02-03"), map[]);
            && Dedup.IsDeduplication([update], [update])
            && Watermark(Some("2024-02-01"), [update], inBox) == Some("2024-01-15")
            && Less("2024-01-15", "2024-02-01")
  {
    var update := Record(Some("311-1"), Some("2024-01-15"), None, None, None,
                         Some("2024-02-03"), map[]);
    assert "2024-01-15" == "2024-0" + "1-15" && "2024-02-01" == "2024-0" + "2-01";
    LessCommonPrefix("2024-0", "1-15", "2-01");
    assert Dedup.KeysBefore([update], 0) == [];
    assert Dedup.FirstKeys([update]) == ["311-1"];
    assert Dedup.Kept([update], 0);
  }
}

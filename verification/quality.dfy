/**
 * The batch quality report (`validate_records` and
 * `DataQualityReport.is_valid`): null counts for three required fields,
 * a count of coordinates outside New York City, the number of repeated
 * `unique_key` values, and the range of `created_date` strings.
 */
module Quality {
  import opened Records
  import opened Strings
  import Dedup

  datatype DataQualityReport = DataQualityReport(
    totalRecords: nat,
    nullUniqueKey: nat,
    nullCreatedDate: nat,
    nullBorough: nat,
    invalidCoordinates: nat,
    duplicateKeys: nat,
    dateRange: (Option<string>, Option<string>))

  /** `DataQualityReport.is_valid`, with the threshold 0.05 read as the exact rational 1/20. */
  predicate IsValid(report: DataQualityReport) {
    if report.totalRecords == 0 then true
    else
      var nullRate := (report.nullUniqueKey + report.nullCreatedDate) as real / report.totalRecords as real;
      var dupeRate := report.duplicateKeys as real / report.totalRecords as real;
      nullRate < 0.05 && dupeRate < 0.05
  }

  /** Multiplying by a positive number keeps the order. */
  lemma ScaleLess(u: real, v: real, a: real)
    requires a > 0.0
    ensures u < v <==> u * a < v * a
  {
    if u < v {
      assert (v - u) * a > 0.0;
    } else {
      assert (u - v) * a >= 0.0;
    }
  }

  /** A rate `part / total` is below 1/20 exactly when twenty parts are fewer than the total. */
  lemma RateBelowTwentieth(part: nat, total: nat)
    requires total > 0
    ensures part as real / total as real < 0.05 <==> part * 20 < total
  {
    var x, t := part as real, total as real;
    var rate := x / t;
    assert rate * t == x;
    ScaleLess(rate, 0.05, t);
    ScaleLess(x, 0.05 * t, 20.0);
    assert (part * 20) as real == x * 20.0;
  }

  /**
   * The report passes when it counts no records; otherwise it passes
   * exactly when both the missing-key-or-date count and the duplicate-key
   * count are below one twentieth of the records.
   */
  lemma IsValidThreshold(report: DataQualityReport)
    ensures IsValid(report) <==>
            report.totalRecords == 0 ||
            ((report.nullUniqueKey + report.nullCreatedDate) * 20 < report.totalRecords &&
             report.duplicateKeys * 20 < report.totalRecords)
  {
    if report.totalRecords > 0 {
      RateBelowTwentieth(report.nullUniqueKey + report.nullCreatedDate, report.totalRecords);
      RateBelowTwentieth(report.duplicateKeys, report.totalRecords);
    }
  }

  /** The fields whose absence is counted. */
  datatype Field = UniqueKey | CreatedDate | Borough

  /** `record.get(field)`. */
  function Get(r: Record, field: Field): Option<string> {
    match field
    case UniqueKey => r.uniqueKey
    case CreatedDate => r.createdDate
    case Borough => r.borough
  }

  /** `sum(1 for r in records if not r.get(field))`. */
  function CountMissing(records: seq<Record>, field: Field): (n: nat)
    ensures n <= |records|
  {
    if records == [] then 0
    else
      CountMissing(records[..|records| - 1], field) +
      (if Truthy(Get(records[|records| - 1], field)) then 0 else 1)
  }

  /** The values of `field` that are truthy, in record order. */
  function Present(records: seq<Record>, field: Field): (values: seq<string>)
    ensures |values| + CountMissing(records, field) == |records|
  {
    if records == [] then []
    else
      var values := Present(records[..|records| - 1], field);
      var v := Get(records[|records| - 1], field);
      if Truthy(v) then values + [v.value] else values
  }

  lemma {:induction false} PresentMembership(records: seq<Record>, field: Field, v: string)
    ensures v in Present(records, field) <==>
            exists i :: 0 <= i < |records| && Truthy(Get(records[i], field)) && Get(records[i], field).value == v
  {
    if records != [] {
      var init := records[..|records| - 1];
      PresentMembership(init, field, v);
      if exists i :: 0 <= i < |init| && Truthy(Get(init[i], field)) && Get(init[i], field).value == v {
        var i :| 0 <= i < |init| && Truthy(Get(init[i], field)) && Get(init[i], field).value == v;
        assert records[i] == init[i];
      }
      if exists i :: 0 <= i < |records| && Truthy(Get(records[i], field)) && Get(records[i], field).value == v {
        var i :| 0 <= i < |records| && Truthy(Get(records[i], field)) && Get(records[i], field).value == v;
        if i < |init| {
          assert init[i] == records[i];
        }
      }
    }
  }

  lemma {:induction false} PresentEmpty(records: seq<Record>, field: Field)
    ensures Present(records, field) == [] <==>
            forall i :: 0 <= i < |records| ==> !Truthy(Get(records[i], field))
  {
    if records != [] {
      var init := records[..|records| - 1];
      PresentEmpty(init, field);
      assert forall i :: 0 <= i < |init| ==> init[i] == records[i];
    }
  }

  function Elements(s: seq<string>): set<string> {
    set x | x in s
  }

  predicate Distinct(s: seq<string>) {
    forall p, q :: 0 <= p < q < |s| ==> s[p] != s[q]
  }

  /** `len(set(s)) <= len(s)`, with equality exactly when `s` has no repeats. */
  lemma {:induction false} ElementsCount(s: seq<string>)
    ensures |Elements(s)| <= |s|
    ensures |Elements(s)| == |s| <==> Distinct(s)
  {
    if s != [] {
      var init := s[..|s| - 1];
      var last := s[|s| - 1];
      ElementsCount(init);
      assert s == init + [last];
      assert Elements(s) == Elements(init) + {last};
      if last in Elements(init) {
        assert Elements(s) == Elements(init);
        var p :| 0 <= p < |init| && init[p] == last;
        assert s[p] == s[|s| - 1];
      } else {
        assert |Elements(s)| == |Elements(init)| + 1;
        if Distinct(init) {
          forall p, q | 0 <= p < q < |s|
            ensures s[p] != s[q]
          {
            if q < |s| - 1 {
              assert s[p] == init[p] && s[q] == init[q];
            } else {
              assert s[p] == init[p];
            }
          }
        } else {
          var p, q :| 0 <= p < q < |init| && init[p] == init[q];
          assert s[p] == s[q];
        }
      }
    }
  }

  /** `len(unique_keys) - len(set(unique_keys))`. */
  function DuplicateKeyCount(records: seq<Record>): (n: nat)
    ensures n <= |records|
  {
    var keys := Present(records, UniqueKey);
    ElementsCount(keys);
    |keys| - |Elements(keys)|
  }

  /** `(min(dates), max(dates)) if dates else (None, None)` over the truthy `created_date` values. */
  function DateRange(records: seq<Record>): (Option<string>, Option<string>) {
    var dates := Present(records, CreatedDate);
    if dates == [] then (None, None) else (Some(Min(dates)), Some(Max(dates)))
  }

  /**
   * Whether the record has truthy latitude and longitude that fail the
   * New York City bounding-box check. `inBox(lat, lon)` stands for
   * "both parse as floats and lie in the box"; a parse failure makes it false.
   */
  predicate HasInvalidCoordinates(r: Record, inBox: (string, string) -> bool) {
    Truthy(r.latitude) && Truthy(r.longitude) && !inBox(r.latitude.value, r.longitude.value)
  }

  function InvalidCoordinateCount(records: seq<Record>, inBox: (string, string) -> bool): (n: nat)
    ensures n <= |records|
  {
    if records == [] then 0
    else
      InvalidCoordinateCount(records[..|records| - 1], inBox) +
      (if HasInvalidCoordinates(records[|records| - 1], inBox) then 1 else 0)
  }

  /** The report `validate_records` builds for `records`. */
  function QualityReport(records: seq<Record>, inBox: (string, string) -> bool): DataQualityReport {
    if records == [] then
      DataQualityReport(0, 0, 0, 0, 0, 0, (None, None))
    else
      DataQualityReport(
        |records|,
        CountMissing(records, UniqueKey),
        CountMissing(records, CreatedDate),
        CountMissing(records, Borough),
        InvalidCoordinateCount(records, inBox),
        DuplicateKeyCount(records),
        DateRange(records))
  }

  /** The coordinate loop of `validate_records`. */
  method CountInvalidCoordinates(records: seq<Record>, inBox: (string, string) -> bool)
    returns (invalidCoords: nat)
    ensures invalidCoords == InvalidCoordinateCount(records, inBox)
  {
    invalidCoords := 0;
    for i := 0 to |records|
      invariant invalidCoords == InvalidCoordinateCount(records[..i], inBox)
    {
      assert records[..i + 1][..i] == records[..i];
      var r := records[i];
      var lat := r.latitude;
      var lon := r.longitude;
      if Truthy(lat) && Truthy(lon) {
        if !inBox(lat.value, lon.value) {
          invalidCoords := invalidCoords + 1;
        }
      }
    }
    assert records[..|records|] == records;
  }

  /**
   * `validate_records`. The counts are those of `QualityReport`; this
   * method exists so that the coordinate count comes from the counting loop
   * `CountInvalidCoordinates`, as in the source.
   */
  method ValidateRecords(records: seq<Record>, inBox: (string, string) -> bool)
    returns (report: DataQualityReport)
    ensures report == QualityReport(records, inBox)
  {
    if records == [] {
      return DataQualityReport(0, 0, 0, 0, 0, 0, (None, None));
    }
    var nullUniqueKey := CountMissing(records, UniqueKey);
    var nullCreatedDate := CountMissing(records, CreatedDate);
    var nullBorough := CountMissing(records, Borough);
    var invalidCoords := CountInvalidCoordinates(records, inBox);
    var duplicateKeys := DuplicateKeyCount(records);
    var dateRange := DateRange(records);
    report := DataQualityReport(
      |records|, nullUniqueKey, nullCreatedDate, nullBorough,
      invalidCoords, duplicateKeys, dateRange);
  }

  /** An empty batch gives an all-zero report with no date range, and it passes. */
  lemma EmptyBatchReport(inBox: (string, string) -> bool)
    ensures QualityReport([], inBox) == DataQualityReport(0, 0, 0, 0, 0, 0, (None, None))
    ensures IsValid(QualityReport([], inBox))
  {
  }

  /**
   * Every count in the report is bounded by the number of records, and
   * `duplicate_keys` is zero exactly when no truthy key occurs twice.
   */
  lemma ReportCounts(records: seq<Record>, inBox: (string, string) -> bool)
    ensures var report := QualityReport(records, inBox);
            && report.totalRecords == |records|
            && report.nullUniqueKey <= report.totalRecords
            && report.nullCreatedDate <= report.totalRecords
            && report.nullBorough <= report.totalRecords
            && report.invalidCoordinates <= report.totalRecords
            && report.duplicateKeys + report.nullUniqueKey <= report.totalRecords
            && (report.duplicateKeys == 0 <==> Distinct(Present(records, UniqueKey)))
  {
    ElementsCount(Present(records, UniqueKey));
  }

  /**
   * The date range is empty exactly when no record has a truthy
   * `created_date`; otherwise its ends are the least and greatest such
   * dates under string order, so start <= end.
   */
  lemma DateRangeIsMinMax(records: seq<Record>, inBox: (string, string) -> bool)
    ensures var (start, end) := QualityReport(records, inBox).dateRange;
            && (start.None? <==> forall i :: 0 <= i < |records| ==> !Truthy(records[i].createdDate))
            && start.None? == end.None?
            && (start.Some? ==>
                  && LessEq(start.value, end.value)
                  && Truthy(start) && Truthy(end)
                  && (exists i :: 0 <= i < |records| && records[i].createdDate == start)
                  && (exists i :: 0 <= i < |records| && records[i].createdDate == end)
                  && forall i :: 0 <= i < |records| && Truthy(records[i].createdDate) ==>
                       LessEq(start.value, records[i].createdDate.value) &&
                       LessEq(records[i].createdDate.value, end.value))
  {
    var dates := Present(records, CreatedDate);
    PresentEmpty(records, CreatedDate);
    forall d ensures d in dates <==>
        exists i :: 0 <= i < |records| && Truthy(records[i].createdDate) && records[i].createdDate.value == d
    {
      PresentMembership(records, CreatedDate, d);
    }
    if dates != [] {
      var lo, hi := Min(dates), Max(dates);
      assert lo in dates && hi in dates;
      LessTotal(lo, hi);
      if Less(hi, lo) {
        LessTransitive(hi, lo, hi);
        LessIrreflexive(hi);
      }
    }
  }

  /**
   * The duplicate count is exactly what the change-feed deduplication
   * removes from the keyed records: keyless records, kept versions and
   * duplicates add up to the batch.
   */
  lemma DuplicatesAreWhatDedupRemoves(records: seq<Record>, deduped: seq<Record>,
                                      inBox: (string, string) -> bool)
    requires Dedup.IsDeduplication(records, deduped)
    ensures var report := QualityReport(records, inBox);
            |deduped| + report.duplicateKeys + report.nullUniqueKey == |records|
  {
    var keys := Present(records, UniqueKey);
    var first := Dedup.FirstKeys(records);
    Dedup.FirstKeysDistinct(records);
    ElementsCount(first);
    ElementsCount(keys);
    forall k ensures k in Elements(first) <==> k in Elements(keys) {
      Dedup.FirstKeysMembership(records, k);
      PresentMembership(records, UniqueKey, k);
      if k in Elements(keys) {
        var i :| 0 <= i < |records| && Truthy(Get(records[i], UniqueKey)) && Get(records[i], UniqueKey).value == k;
        assert GroupKey(records[i]) == Some(k);
      }
      if k in Elements(first) {
        var i :| 0 <= i < |records| && GroupKey(records[i]) == Some(k);
        assert Truthy(Get(records[i], UniqueKey)) && Get(records[i], UniqueKey).value == k;
      }
    }
    assert Elements(first) == Elements(keys);
  }
}

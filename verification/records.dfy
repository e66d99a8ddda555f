/**
 * The 311 service-request records the client handles. Each record is a
 * JSON object; only the fields the ingestion logic reads are modelled,
 * each as present (`Some`) or missing (`None`), and the rest is carried
 * along unread.
 */
module Records {

  datatype Option<T> = None | Some(value: T)

  /** Python truthiness of `record.get(field)`: present and not the empty string. */
  predicate Truthy(field: Option<string>) {
    field.Some? && field.value != ""
  }

  datatype Record = Record(
    uniqueKey: Option<string>,
    createdDate: Option<string>,
    borough: Option<string>,
    latitude: Option<string>,
    longitude: Option<string>,
    resolutionActionUpdatedDate: Option<string>,
    otherFields: map<string, string>)

  /** The key a record is grouped under: its `unique_key` when truthy, else none. */
  function GroupKey(r: Record): Option<string> {
    if Truthy(r.uniqueKey) then r.uniqueKey else None
  }

  /** `record.get("resolution_action_updated_date", "")`. */
  function UpdatedDate(r: Record): string {
    match r.resolutionActionUpdatedDate
    case Some(d) => d
    case None => ""
  }
}

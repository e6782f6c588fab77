/** The persisted report record. */
module ReportTypes {

  /** A report's lifecycle tag: exactly two values, no other state. */
  datatype Status = Active | Archived

  /** A report has exactly five fields. The id is the store's primary key;
      title, description and date (an ISO-8601 timestamp string) carry no
      validation of any kind. */
  datatype Report = Report(
    id: string,
    title: string,
    description: string,
    date: string,
    status: Status)

  /** No status other than `Active` and `Archived` exists. */
  lemma StatusIsTwoValued(s: Status)
    ensures s == Active || s == Archived
  {
  }
}

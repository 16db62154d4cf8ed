/** The rows of the four tables the dashboard reads. Only the columns the
    dashboard looks at get a field of their own; every other column (the
    report identifier and whatever metadata a table holds) is kept, by
    column name, in `others`, so that copies of a row can be compared. */
module Rows {

  /** A value of a column the dashboard does not interpret. */
  datatype Cell = Null | Int(n: int) | Text(s: string)

  /** A row of the `reports` table of one batch file. */
  datatype Report = Report(isReviewed: int, others: map<string, Cell>)

  /** A row of the findings table. */
  datatype FindingRow = FindingRow(finding: string, isPresent: int, others: map<string, Cell>)

  /** A row of the artifacts table. */
  datatype ArtifactRow = ArtifactRow(artifact: string, others: map<string, Cell>)

  /** A row of the medical-devices table as stored, label column `catheter`. */
  datatype CatheterRow = CatheterRow(catheter: string, others: map<string, Cell>)

  /** A row of the devices frame after its `catheter` column was renamed
      to `device`. */
  datatype DeviceRow = DeviceRow(device: string, others: map<string, Cell>)
}

/** The issue report handed to the publisher: an ordered, growable list of
    normalised issue records. */
module Report {

  /** One normalised issue. `line` is 0 when the issue concerns the whole file. */
  datatype SonarQubeIssue = SonarQubeIssue(
    key: string,
    severity: string,
    message: string,
    rule: string,
    path: string,
    line: int)

  /** The report is built by appending records one at a time; it keeps them
      in insertion order and never merges or reorders them. */
  class IssuesReport {
    var issues: seq<SonarQubeIssue>

    constructor ()
      ensures issues == []
    {
      issues := [];
    }

    method Add(issue: SonarQubeIssue)
      modifies this
      ensures issues == old(issues) + [issue]
    {
      issues := issues + [issue];
    }
  }
}

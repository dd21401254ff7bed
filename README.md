# sonar-stash issue collector, in Dafny

This project models the report-building step of the sonar-stash plugin, which
publishes SonarQube analysis issues as comments on a Stash pull request.
`SonarQubeCollector.extractIssueReport` takes the analysis issues, the input
file cache (component key to file), the project base directory and the plugin
configuration. It walks the issues in input order and skips pre-existing
issues unless "include existing issues" is set. It copies each remaining
issue's key, severity, rule and message, and uses line 0 when the issue has
no line. It looks the issue's file up in the cache and skips the issue when
the file is not there. Otherwise it appends a record whose path is relative
to the project base directory and sits under the configured base directory
when that setting is not blank.

Files:
- `wrappers.dfy`: `Option`. `None` stands for Java `null`.
- `paths.dfy`: paths as component sequences, with joining and splitting on
  `/`, and the relative-path computation restricted to files at or below the
  directory.
- `report.dfy`: the normalised issue record and the report class that
  records are appended to in place.
- `collector.dfy`: raw issues, the configuration, `isNotBlank`, `buildPath`,
  the specification function `IssueReport` with its lemmas, and the
  imperative `ExtractIssueReport` loop. The loop is proved equal to
  `IssueReport`.

`IssueReport` is a function of its inputs. Calling the builder twice on the
same inputs therefore gives the same records in the same order. The inputs
are values (sequence, map, datatypes), so the builder cannot modify them.

## Model

| member | source | states |
|---|---|---|
| `Collector.ExtractIssueReport` | src/main/java/org/sonar/plugins/stash/issue/collector/SonarQubeCollector.java:33-69 | the imperative loop builds a fresh report whose records are exactly `IssueReport` of the inputs |
| `Collector.IssueReport` | src/main/java/org/sonar/plugins/stash/issue/collector/SonarQubeCollector.java:39-68 | the report never has more records than there are input issues |
| `Collector.SelectedExactly` | src/main/java/org/sonar/plugins/stash/issue/collector/SonarQubeCollector.java:41-67 | the selected indices are strictly increasing and in range; an issue is selected exactly when it passes the novelty filter and its component key is cached |
| `Collector.ReportFollowsSelected` | src/main/java/org/sonar/plugins/stash/issue/collector/SonarQubeCollector.java:41-67 | the report has one record per selected issue; the j-th record is the record of the j-th selected issue (input order, nothing else) |
| `Collector.RecordFor` | src/main/java/org/sonar/plugins/stash/issue/collector/SonarQubeCollector.java:42-63 | an issue yields a record exactly when it passes both filters; the record copies key, severity, rule and message, uses the line or 0, and uses the built path of the cached file |
| `Collector.IssueInReport` | src/main/java/org/sonar/plugins/stash/issue/collector/SonarQubeCollector.java:41-67 | an issue passes the novelty filter and the cache lookup exactly when its record is one of the report's records |
| `Collector.ExistingIssueNeedsSetting` | src/main/java/org/sonar/plugins/stash/issue/collector/SonarQubeCollector.java:42-44 | a pre-existing issue is selected exactly when existing issues are included and its file is cached |
| `Collector.NewIssueKept` | src/main/java/org/sonar/plugins/stash/issue/collector/SonarQubeCollector.java:42-44 | a new issue with a cached file is always selected |
| `Collector.UncachedIssueDropped` | src/main/java/org/sonar/plugins/stash/issue/collector/SonarQubeCollector.java:55-57 | an issue whose component key is not in the cache is never selected, under any configuration |
| `Collector.RecordsCopyFields` | src/main/java/org/sonar/plugins/stash/issue/collector/SonarQubeCollector.java:45-63 | each record has its source issue's key, severity, rule and message unchanged, and its line, or 0 when the line is absent |
| `Collector.LinesNonNegative` | src/main/java/org/sonar/plugins/stash/issue/collector/SonarQubeCollector.java:50-53 | when no input line is negative, no record line is negative |
| `Collector.ReportOfConcat` | src/main/java/org/sonar/plugins/stash/issue/collector/SonarQubeCollector.java:39-68 | the report of `a + b` is the report of `a` followed by the report of `b`: order is kept and nothing is merged or deduplicated |
| `Collector.TwoIssueScenario` | src/main/java/org/sonar/plugins/stash/issue/collector/SonarQubeCollector.java:39-68 | with the default setting, a new cached issue `K1` and a pre-existing issue give exactly one record, for `K1` |
| `Collector.BuildPath` | src/main/java/org/sonar/plugins/stash/issue/collector/SonarQubeCollector.java:71-77 | the path is `baseDir + "/" + relative path` when the base-dir setting is not blank, else the relative path alone |
| `Collector.BuildPathRoundTrip` | src/main/java/org/sonar/plugins/stash/issue/collector/SonarQubeCollector.java:71-77 | the built path starts with the configured prefix, and splitting the rest and appending it to the project base directory gives the file back |
| `Collector.BuildPathExamples` | src/main/java/org/sonar/plugins/stash/issue/collector/SonarQubeCollector.java:71-77 | `/repo/src/Foo.java` under `/repo` becomes `src/Foo.java`, or `out/src/Foo.java` with base dir `out`, and `src/Foo.java` with a whitespace-only base dir |
| `Paths.RelativePath` | src/main/java/org/sonar/plugins/stash/issue/collector/SonarQubeCollector.java:72 | for a well-formed file (non-empty components without `/`) the relative path is empty exactly when the file is the directory itself |
| `Paths.RelativePathRoundTrip` | src/main/java/org/sonar/plugins/stash/issue/collector/SonarQubeCollector.java:72 | resolving the relative path against the directory gives the file back |
| `Paths.RelativePathExample` | src/main/java/org/sonar/plugins/stash/issue/collector/SonarQubeCollector.java:72 | `/repo/src/Foo.java` relative to `/repo` is `src/Foo.java` |
| `Report.IssuesReport.constructor` | src/main/java/org/sonar/plugins/stash/issue/collector/SonarQubeCollector.java:39 | a new report is empty |
| `Report.IssuesReport.Add` | src/main/java/org/sonar/plugins/stash/issue/collector/SonarQubeCollector.java:64 | adding appends the record at the end and changes nothing else |

## Left out

- Null arguments (SonarQubeCollector.java:34-37): Dafny values cannot be null, so the four non-null assertions are enforced by the types rather than by `requires` clauses or an error path.
- Files outside the project base directory: `PathResolver.relativePath` is a library call whose source is not part of this model. The model computes it only for files at or below the base directory. This is an assumption of the model, not something the Java checks: `SonarQubeCollector.extractIssueReport` accepts any cache. `RecordFor`, `IssueReport`, `ExtractIssueReport` and the lemmas about the report therefore require that every issue that reaches the report resolves to a file under the base directory (`AllResolveUnderBase`). Cache entries that no such issue uses are unconstrained.
- Path canonicalisation inside the resolver (symbolic links, `.` and `..`) is not modelled: paths are taken as already-canonical component sequences.
- `File.separator` is fixed to `/`, as on Unix-like platforms.
- Unicode whitespace: `IsWhitespace` lists the characters of `Character.isWhitespace` as of Java 8 (Unicode 6.2), which include U+180E. Later JDKs follow newer Unicode versions, where U+180E is no longer whitespace. No Unicode tables are consulted.
- Null issue fields: the model's `RawIssue` string fields (key, severity, rule, message, component key) are never null. In the Java, a null key, severity or message is copied into the record as null (SonarQubeCollector.java:45-48). A null rule key throws at :47, before the cache lookup at :55, so even an issue that would be dropped fails the call. Neither behaviour is modelled.
- `RuleKey.toString()` is not modelled: a raw issue carries the rule's qualified string directly.
- Logging (SonarQubeCollector.java:43, 57, 60) has no effect on the result and is left out.
- The SonarQube API objects (`ProjectIssues`, `Issue`, `InputFile`, `InputFileCache`) are replaced by a sequence, a datatype and a map. How the sensor fills the cache is not modelled.
- `SonarQubeIssuesReport` and `SonarQubeIssue` are not part of this model's sources. They are modelled from their use at SonarQubeCollector.java:39, 63-64: a record constructor and an append-only list.
- Plugin registration and property definitions in StashPlugin.java are not modelled. Only the default of "include existing issues" (StashPlugin.java:29) appears, as `DefaultIncludeExistingIssues`.

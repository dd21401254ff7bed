/** Building the issue report from the raw analysis issues. */
module Collector {
  import opened Wrappers
  import opened Paths
  import opened Report

  /** An analysis issue as the analysis engine reports it. `ruleKey` is the
      rule's qualified string form; `line` is `None` for a file-level issue. */
  datatype RawIssue = RawIssue(
    key: string,
    severity: string,
    ruleKey: string,
    message: string,
    line: Option<int>,
    isNew: bool,
    componentKey: string)

  /** The two settings the collector reads. */
  datatype Config = Config(includeExistingIssues: bool, baseDir: Option<string>)

  /** Default of the "include existing issues" property. */
  const DefaultIncludeExistingIssues: bool := false

  /** Component key to the file it names. */
  type InputFileCache = map<string, Path>

  /** The file an issue resolves to, if it reaches the report, lies at or
      below the project base directory. */
  predicate ResolvesUnderBase(issue: RawIssue, cache: InputFileCache, projectBaseDir: Path, config: Config) {
    Passes(issue, cache, config) ==> projectBaseDir <= cache[issue.componentKey]
  }

  /** Every issue that reaches the report resolves under the base directory;
      cache entries no issue uses are unconstrained. */
  predicate AllResolveUnderBase(
    issues: seq<RawIssue>, cache: InputFileCache, projectBaseDir: Path, config: Config)
  {
    forall i :: 0 <= i < |issues| ==> ResolvesUnderBase(issues[i], cache, projectBaseDir, config)
  }

  /** Java 8's `Character.isWhitespace` (Unicode 6.2, where U+180E is still
      a space separator). */
  predicate IsWhitespace(c: char) {
    c == ' ' || c == '\t' || c == '\n' || c == '\U{000B}' || c == '\U{000C}' || c == '\r'
    || ('\U{001C}' <= c <= '\U{001F}')
    || c == '\U{1680}' || c == '\U{180E}' || ('\U{2000}' <= c <= '\U{2006}') || ('\U{2008}' <= c <= '\U{200A}')
    || c == '\U{2028}' || c == '\U{2029}' || c == '\U{205F}' || c == '\U{3000}'
  }

  /** `StringUtils.isNotBlank`: present and holding a non-whitespace character. */
  predicate IsNotBlank(s: Option<string>) {
    s.Some? && exists i :: 0 <= i < |s.value| && !IsWhitespace(s.value[i])
  }

  /** What `BuildPath` puts before the relative path: the configured base
      directory and a separator, or nothing when that setting is blank. */
  function ConfiguredPrefix(config: Config): string {
    if IsNotBlank(config.baseDir) then config.baseDir.value + Separator else ""
  }

  /** The published path of `file`: its path relative to the project base
      directory, under the configured base directory when one is set. */
  function BuildPath(projectBaseDir: Path, file: Path, config: Config): (path: string)
    requires projectBaseDir <= file
    ensures IsNotBlank(config.baseDir) ==>
      path == config.baseDir.value + Separator + RelativePath(projectBaseDir, file)
    ensures !IsNotBlank(config.baseDir) ==> path == RelativePath(projectBaseDir, file)
  {
    ConfiguredPrefix(config) + RelativePath(projectBaseDir, file)
  }

  /** Stripping the configured prefix from a published path and resolving the
      rest against the project base directory gives the file back. */
  lemma BuildPathRoundTrip(projectBaseDir: Path, file: Path, config: Config)
    requires projectBaseDir <= file && |projectBaseDir| < |file| && WellFormed(file)
    ensures var path, prefix := BuildPath(projectBaseDir, file, config), ConfiguredPrefix(config);
      prefix <= path && projectBaseDir + Split(path[|prefix|..]) == file
  {
    var path, prefix := BuildPath(projectBaseDir, file, config), ConfiguredPrefix(config);
    assert path[|prefix|..] == RelativePath(projectBaseDir, file);
    RelativePathRoundTrip(projectBaseDir, file);
  }

  /** `/repo/src/Foo.java` under `/repo` is published as `src/Foo.java`, or
      as `out/src/Foo.java` when the base directory is set to `out`; a base
      directory of only whitespace counts as unset. */
  lemma BuildPathExamples(includeExisting: bool)
    ensures BuildPath(["repo"], ["repo", "src", "Foo.java"], Config(includeExisting, None))
      == "src/Foo.java"
    ensures BuildPath(["repo"], ["repo", "src", "Foo.java"], Config(includeExisting, Some("out")))
      == "out/src/Foo.java"
    ensures BuildPath(["repo"], ["repo", "src", "Foo.java"], Config(includeExisting, Some(" ")))
      == "src/Foo.java"
  {
    RelativePathExample();
    assert !IsWhitespace("out"[0]);
  }

  /** The novelty filter: pre-existing issues pass only when configured. */
  predicate Included(issue: RawIssue, config: Config) {
    issue.isNew || config.includeExistingIssues
  }

  /** An issue reaches the report when it passes the novelty filter and its
      component key names a cached file. */
  predicate Passes(issue: RawIssue, cache: InputFileCache, config: Config) {
    Included(issue, config) && issue.componentKey in cache
  }

  /** The record one issue contributes to the report, if any. */
  function RecordFor(issue: RawIssue, cache: InputFileCache, projectBaseDir: Path, config: Config)
    : (r: Option<SonarQubeIssue>)
    requires ResolvesUnderBase(issue, cache, projectBaseDir, config)
    ensures r.Some? <==> Passes(issue, cache, config)
    ensures r.Some? ==>
      && r.value.key == issue.key
      && r.value.severity == issue.severity
      && r.value.rule == issue.ruleKey
      && r.value.message == issue.message
      && r.value.line == issue.line.GetOr(0)
      && r.value.path == BuildPath(projectBaseDir, cache[issue.componentKey], config)
  {
    if !Included(issue, config) then None
    else if issue.componentKey !in cache then None
    else
      var line := if issue.line.Some? then issue.line.value else 0;
      var path := BuildPath(projectBaseDir, cache[issue.componentKey], config);
      Some(SonarQubeIssue(issue.key, issue.severity, issue.message, issue.ruleKey, path, line))
  }

  /** The report for `issues`: each issue's record, in input order. */
  function IssueReport(issues: seq<RawIssue>, cache: InputFileCache, projectBaseDir: Path, config: Config)
    : (r: seq<SonarQubeIssue>)
    requires AllResolveUnderBase(issues, cache, projectBaseDir, config)
    ensures |r| <= |issues|
    decreases |issues|
  {
    if issues == [] then []
    else
      var earlier := IssueReport(issues[..|issues| - 1], cache, projectBaseDir, config);
      match RecordFor(issues[|issues| - 1], cache, projectBaseDir, config)
      case Some(record) => earlier + [record]
      case None => earlier
  }

  /** Indices of the issues that reach the report, in increasing order. */
  function Selected(issues: seq<RawIssue>, cache: InputFileCache, config: Config): (idx: seq<nat>)
    decreases |issues|
  {
    if issues == [] then []
    else
      var earlier := Selected(issues[..|issues| - 1], cache, config);
      if Passes(issues[|issues| - 1], cache, config) then earlier + [|issues| - 1] else earlier
  }

  predicate StrictlyIncreasing(idx: seq<nat>) {
    forall j, k :: 0 <= j < k < |idx| ==> idx[j] < idx[k]
  }

  /** `Selected` lists exactly the passing issues, each once, in input order. */
  lemma {:induction false} SelectedExactly(issues: seq<RawIssue>, cache: InputFileCache, config: Config)
    ensures var idx := Selected(issues, cache, config);
      && StrictlyIncreasing(idx)
      && (forall j :: 0 <= j < |idx| ==> idx[j] < |issues|)
      && (forall i :: 0 <= i < |issues| ==> (i in idx <==> Passes(issues[i], cache, config)))
  {
    if issues != [] {
      var n := |issues| - 1;
      var init := issues[..n];
      SelectedExactly(init, cache, config);
      assert forall i :: 0 <= i < n ==> init[i] == issues[i];
    }
  }

  /** The j-th record of the report is the record of the j-th selected issue. */
  lemma {:induction false} ReportFollowsSelected(
    issues: seq<RawIssue>, cache: InputFileCache, projectBaseDir: Path, config: Config)
    requires AllResolveUnderBase(issues, cache, projectBaseDir, config)
    ensures var r, idx := IssueReport(issues, cache, projectBaseDir, config), Selected(issues, cache, config);
      && |r| == |idx|
      && forall j :: 0 <= j < |idx| ==>
           idx[j] < |issues| && RecordFor(issues[idx[j]], cache, projectBaseDir, config) == Some(r[j])
  {
    if issues != [] {
      var n := |issues| - 1;
      var init := issues[..n];
      ReportFollowsSelected(init, cache, projectBaseDir, config);
      assert forall i :: 0 <= i < n ==> init[i] == issues[i];
    }
  }

  /** An issue passes both filters exactly when its record is in the report. */
  lemma IssueInReport(
    issues: seq<RawIssue>, cache: InputFileCache, projectBaseDir: Path, config: Config, i: nat)
    requires AllResolveUnderBase(issues, cache, projectBaseDir, config)
    requires i < |issues|
    ensures var r := IssueReport(issues, cache, projectBaseDir, config);
      (Passes(issues[i], cache, config) <==>
       exists j :: 0 <= j < |r| && RecordFor(issues[i], cache, projectBaseDir, config) == Some(r[j]))
  {
    var r, idx := IssueReport(issues, cache, projectBaseDir, config), Selected(issues, cache, config);
    SelectedExactly(issues, cache, config);
    ReportFollowsSelected(issues, cache, projectBaseDir, config);
    if Passes(issues[i], cache, config) {
      var j :| 0 <= j < |idx| && idx[j] == i;
      assert RecordFor(issues[i], cache, projectBaseDir, config) == Some(r[j]);
    }
  }

  /** A pre-existing issue reaches the report exactly when existing issues
      are included and its file is cached. */
  lemma ExistingIssueNeedsSetting(
    issues: seq<RawIssue>, cache: InputFileCache, config: Config, i: nat)
    requires i < |issues| && !issues[i].isNew
    ensures i in Selected(issues, cache, config)
      <==> config.includeExistingIssues && issues[i].componentKey in cache
  {
    SelectedExactly(issues, cache, config);
  }

  /** The novelty filter never drops a new issue. */
  lemma NewIssueKept(issues: seq<RawIssue>, cache: InputFileCache, config: Config, i: nat)
    requires i < |issues| && issues[i].isNew && issues[i].componentKey in cache
    ensures i in Selected(issues, cache, config)
  {
    SelectedExactly(issues, cache, config);
  }

  /** An issue whose file is not cached never reaches the report, whatever
      the configuration. */
  lemma UncachedIssueDropped(issues: seq<RawIssue>, cache: InputFileCache, config: Config, i: nat)
    requires i < |issues| && issues[i].componentKey !in cache
    ensures i !in Selected(issues, cache, config)
  {
    SelectedExactly(issues, cache, config);
  }

  /** Every record carries its issue's key, severity, rule and message
      unchanged, and its line, or 0 when the issue has none. */
  lemma RecordsCopyFields(
    issues: seq<RawIssue>, cache: InputFileCache, projectBaseDir: Path, config: Config)
    requires AllResolveUnderBase(issues, cache, projectBaseDir, config)
    ensures var r, idx := IssueReport(issues, cache, projectBaseDir, config), Selected(issues, cache, config);
      |r| == |idx| &&
      forall j :: 0 <= j < |r| ==>
        && idx[j] < |issues|
        && r[j].key == issues[idx[j]].key
        && r[j].severity == issues[idx[j]].severity
        && r[j].rule == issues[idx[j]].ruleKey
        && r[j].message == issues[idx[j]].message
        && (issues[idx[j]].line.Some? ==> r[j].line == issues[idx[j]].line.value)
        && (issues[idx[j]].line.None? ==> r[j].line == 0)
  {
    ReportFollowsSelected(issues, cache, projectBaseDir, config);
  }

  /** Lines are never made negative: with non-negative input lines every
      record's line is non-negative. */
  lemma {:induction false} LinesNonNegative(
    issues: seq<RawIssue>, cache: InputFileCache, projectBaseDir: Path, config: Config)
    requires AllResolveUnderBase(issues, cache, projectBaseDir, config)
    requires forall i :: 0 <= i < |issues| && issues[i].line.Some? ==> issues[i].line.value >= 0
    ensures forall rec :: rec in IssueReport(issues, cache, projectBaseDir, config) ==> rec.line >= 0
  {
    if issues != [] {
      LinesNonNegative(issues[..|issues| - 1], cache, projectBaseDir, config);
    }
  }

  /** The report of a concatenation is the concatenation of the reports:
      records keep their input order and nothing is merged or deduplicated. */
  lemma {:induction false} ReportOfConcat(
    a: seq<RawIssue>, b: seq<RawIssue>, cache: InputFileCache, projectBaseDir: Path, config: Config)
    requires AllResolveUnderBase(a, cache, projectBaseDir, config)
    requires AllResolveUnderBase(b, cache, projectBaseDir, config)
    ensures IssueReport(a + b, cache, projectBaseDir, config)
      == IssueReport(a, cache, projectBaseDir, config) + IssueReport(b, cache, projectBaseDir, config)
    decreases |b|
  {
    if b == [] {
      assert a + b == a;
    } else {
      var n := |b| - 1;
      ReportOfConcat(a, b[..n], cache, projectBaseDir, config);
      assert (a + b)[..|a + b| - 1] == a + b[..n];
      assert (a + b)[|a + b| - 1] == b[n];
    }
  }

  /** A new issue `K1` with a cached file and a pre-existing issue `K2`, with
      existing issues excluded, give a report holding only `K1`'s record. */
  lemma TwoIssueScenario(k1: RawIssue, k2: RawIssue, file: Path)
    requires k1.key == "K1" && k1.isNew && !k2.isNew
    requires ["repo"] <= file
    ensures var cache := map[k1.componentKey := file];
      var config := Config(DefaultIncludeExistingIssues, None);
      var r := IssueReport([k1, k2], cache, ["repo"], config);
      |r| == 1 && r[0].key == "K1"
  {
    var cache := map[k1.componentKey := file];
    var config := Config(DefaultIncludeExistingIssues, None);
    assert [k1, k2][..1] == [k1];
    assert [k1][..0] == [];
  }

  /** Builds the report by walking the issues in order, appending the record
      of each issue that passes the novelty filter and has a cached file. */
  method ExtractIssueReport(
    projectIssues: seq<RawIssue>, inputFileCache: InputFileCache, projectBaseDir: Path, config: Config)
    returns (result: IssuesReport)
    requires AllResolveUnderBase(projectIssues, inputFileCache, projectBaseDir, config)
    ensures fresh(result)
    ensures result.issues == IssueReport(projectIssues, inputFileCache, projectBaseDir, config)
  {
    result := new IssuesReport();
    for i := 0 to |projectIssues|
      invariant result.issues == IssueReport(projectIssues[..i], inputFileCache, projectBaseDir, config)
    {
      var issue := projectIssues[i];
      assert projectIssues[..i + 1][..i] == projectIssues[..i];
      if issue.isNew || config.includeExistingIssues {
        var key := issue.key;
        var severity := issue.severity;
        var rule := issue.ruleKey;
        var message := issue.message;

        var line := 0;
        if issue.line.Some? {
          line := issue.line.value;
        }

        if issue.componentKey in inputFileCache {
          var path := BuildPath(projectBaseDir, inputFileCache[issue.componentKey], config);
          var stashIssue := SonarQubeIssue(key, severity, message, rule, path, line);
          result.Add(stashIssue);
        }
      }
    }
    assert projectIssues[..|projectIssues|] == projectIssues;
  }
}

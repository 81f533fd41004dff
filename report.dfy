/** report.py: `create_report` reads one target directory's project name and
    commit lines, `create_reports` merges the lines of every target, sorts
    them newest first and turns each into a CSV row under a fixed header.
    The outputs of the two shell commands run in a target (`pwd` and
    `git log`) are inputs here; the CSV file is the sequence of rows that
    would be handed to `csv.writer`. */
module Report {
  import opened Wrappers
  import opened PyStr
  import opened PyDate
  import opened DateSort

  /** One target directory, seen through what `pwd` and the `git log` query
      printed when run in it. */
  datatype Target = Target(pwdOutput: string, logOutput: string)

  /** One CSV row: its fields, before `csv.writer` quotes them. */
  type Row = seq<string>

  /** What `create_reports` leaves behind: the rows written to the report,
      or the ValueError of a sort key, raised before the file is opened. */
  datatype Outcome = Written(rows: seq<Row>) | DateParseFailure(line: string)

  /** The header row: it names `project` first, but every row built from a
      git line starts with the date. */
  const Header: Row := ["project", "date", "commit_id", "author", "subject"]

  /** `dir_name[dir_name.rfind('/') + 1:].strip()` */
  function ProjectName(pwdOutput: string): (name: string)
    ensures '/' !in name
    ensures name == [] || (!IsSpace(name[0]) && !IsSpace(name[|name| - 1]))
  {
    Strip(pwdOutput[RFind(pwdOutput, '/') + 1..])
  }

  /** The project name is the last component of the path, with the
      surrounding whitespace (the newline `pwd` prints) stripped. */
  lemma ProjectNameOfPath(parent: string, base: string)
    requires '/' !in base
    ensures ProjectName(parent + "/" + base) == Strip(base)
  {
    var s := parent + "/" + base;
    var k := RFind(s, '/');
    assert s[|parent|] == '/';
    forall j | k < j < |s| ensures s[j] != '/' {
      assert s[j] == s[k + 1..][j - k - 1];
    }
    forall j | |parent| < j < |s| ensures s[j] != '/' {
      assert s[j] == base[j - |parent| - 1];
    }
    assert s[|parent| + 1..] == base;
  }

  /** A path without `/`: `rfind` gives -1 and the whole text is stripped. */
  lemma ProjectNameWithoutSlash(s: string)
    requires '/' !in s
    ensures ProjectName(s) == Strip(s)
  {
    assert s[0..] == s;
  }

  /** What `pwd` prints for `/parent/base`, the directory name followed by a
      newline, yields exactly the directory name. */
  lemma ProjectNameOfPwd(parent: string, base: string)
    requires '/' !in base && base != []
    requires !IsSpace(base[0]) && !IsSpace(base[|base| - 1])
    ensures ProjectName(parent + "/" + base + "\n") == base
  {
    assert parent + "/" + base + "\n" == parent + "/" + (base + "\n");
    assert '/' !in base + "\n";
    ProjectNameOfPath(parent, base + "\n");
    StripNewline(base);
  }

  /** `create_report`: None when the `git log` output has no lines (the
      target is skipped with a notice), its lines otherwise. */
  function CreateReport(t: Target): (r: Option<seq<string>>)
    ensures r == None <==> t.logOutput == []
    ensures r.Some? ==> r.value == SplitLines(t.logOutput)
  {
    var lines := SplitLines(t.logOutput);
    if |lines| == 0 then None else Some(lines)
  }

  /** The `git log` output is the formatted commit lines with a newline
      between each two (`format:` puts none after the last): the target then
      yields exactly those lines, in order. */
  lemma CreateReportOfLog(pwdOutput: string, commits: seq<string>)
    requires commits != [] && commits[|commits| - 1] != []
    requires forall l | l in commits :: NoLineBreak(l)
    ensures CreateReport(Target(pwdOutput, Join(commits, '\n'))) == Some(commits)
  {
    SplitLinesJoin(commits);
  }

  /** What one target adds to `lines`: nothing when it yielded None. */
  function Contribution(t: Target): (lines: seq<string>)
    ensures lines == [] <==> t.logOutput == []
    ensures forall l | l in lines :: NoLineBreak(l)
  {
    match CreateReport(t)
    case None => []
    case Some(lines) => lines
  }

  /** `lines` after the loop of `create_reports` has seen `targets`. */
  function Gather(targets: seq<Target>): seq<string> {
    if targets == [] then []
    else Gather(targets[..|targets| - 1]) + Contribution(targets[|targets| - 1])
  }

  /** The number of lines the targets' `git log` outputs hold. */
  function TotalLines(targets: seq<Target>): nat {
    if targets == [] then 0
    else TotalLines(targets[..|targets| - 1]) + |SplitLines(targets[|targets| - 1].logOutput)|
  }

  /** The merged list holds every line of every target. */
  lemma {:induction false} GatherLength(targets: seq<Target>)
    ensures |Gather(targets)| == TotalLines(targets)
  {
    if targets != [] {
      GatherLength(targets[..|targets| - 1]);
    }
  }

  /** The merged list is the concatenation of the targets' lines in target
      order. */
  lemma {:induction false} GatherConcat(a: seq<Target>, b: seq<Target>)
    ensures Gather(a + b) == Gather(a) + Gather(b)
    decreases |b|
  {
    if b == [] {
      assert a + b == a;
    } else {
      var init, last := b[..|b| - 1], b[|b| - 1];
      assert Gather(a + b) == Gather(a + init) + Contribution(last) by {
        assert (a + b)[..|a + b| - 1] == a + init;
      }
      GatherConcat(a, init);
      AppendAssoc(Gather(a), Gather(init), Contribution(last));
    }
  }

  /** Associativity of concatenation, a lemma of its own for the same reason
      as `ConsAppend`. */
  lemma AppendAssoc<T>(a: seq<T>, b: seq<T>, c: seq<T>)
    ensures (a + b) + c == a + (b + c)
  {
  }

  /** A target whose `git log` printed nothing contributes nothing, and the
      targets after it are still gathered. */
  lemma GatherSkipsEmpty(a: seq<Target>, t: Target, b: seq<Target>)
    requires t.logOutput == []
    ensures Gather(a + [t] + b) == Gather(a + b)
  {
    assert Gather([t]) == [] by {
      assert [t][..0] == [];
      assert CreateReport(t) == None;
    }
    GatherConcat(a + [t], b);
    GatherConcat(a, [t]);
    GatherConcat(a, b);
    assert Gather(a + [t]) == Gather(a);
  }

  /** The projects named by a "no commits" notice, in target order. */
  function EmptyTargets(targets: seq<Target>): seq<string> {
    if targets == [] then []
    else
      var last := targets[|targets| - 1];
      EmptyTargets(targets[..|targets| - 1])
        + (if CreateReport(last) == None then [ProjectName(last.pwdOutput)] else [])
  }

  /** The `git log` outputs of the targets, in order. */
  function LogOutputs(targets: seq<Target>): seq<string> {
    seq(|targets|, i requires 0 <= i < |targets| => targets[i].logOutput)
  }

  /** Exactly one "no commits" notice per target whose `git log` printed
      nothing, none for a target with commits, each naming the project of
      such a target. */
  lemma {:induction false} EmptyTargetsNotices(targets: seq<Target>)
    ensures |EmptyTargets(targets)| == multiset(LogOutputs(targets))[[]]
    ensures forall n | n in EmptyTargets(targets) ::
      exists t | t in targets :: t.logOutput == [] && n == ProjectName(t.pwdOutput)
  {
    if targets != [] {
      var init, last := targets[..|targets| - 1], targets[|targets| - 1];
      EmptyTargetsNotices(init);
      assert LogOutputs(targets) == LogOutputs(init) + [last.logOutput];
      forall n | n in EmptyTargets(targets)
        ensures exists t | t in targets :: t.logOutput == [] && n == ProjectName(t.pwdOutput)
      {
        if n in EmptyTargets(init) {
          var t :| t in init && t.logOutput == [] && n == ProjectName(t.pwdOutput);
          assert t in targets;
        } else {
          assert last in targets;
        }
      }
    }
  }

  /** `line.split("\t")[0]`: the text up to the first tab, or the whole line. */
  function FirstField(line: string): (f: string)
    ensures |f| <= |line| && f == line[..|f|] && '\t' !in f
    ensures |f| < |line| ==> line[|f|] == '\t'
  {
    Split(line, '\t')[0]
  }

  /** The sort key of a line, or None where `strptime` raises. */
  function DateKey(line: string): Option<Date> {
    ParseDate(FirstField(line))
  }

  /** Each line turned into a row by the unbounded `line.split("\t")`. */
  function Rows(lines: seq<string>): seq<Row> {
    seq(|lines|, i requires 0 <= i < |lines| => Split(lines[i], '\t'))
  }

  /** `create_reports`, on the outputs of the commands run in the targets. */
  function ReportOutcome(targets: seq<Target>): (r: Outcome)
    ensures r.Written? ==> |r.rows| >= 1 && r.rows[0] == Header
    ensures r.DateParseFailure? ==> r.line in Gather(targets) && DateKey(r.line) == None
  {
    match Decorate(Gather(targets), DateKey)
    case Failure(bad) => DateParseFailure(bad)
    case Success(es) => Written([Header] + Rows(Lines(SortDesc(es))))
  }

  /** The rows joined back with tabs. */
  function Unsplit(rows: seq<Row>): seq<string> {
    seq(|rows|, i requires 0 <= i < |rows| => Join(rows[i], '\t'))
  }

  lemma UnsplitRows(lines: seq<string>)
    ensures Unsplit(Rows(lines)) == lines
  {
    forall i | 0 <= i < |lines| ensures Join(Split(lines[i], '\t'), '\t') == lines[i] {
      JoinSplit(lines[i], '\t');
    }
  }

  /** The outcome fails exactly when the keys pass does, with its error line.
      A lemma of its own keeps `ReportOutcome`'s body out of the proof that
      uses it. */
  lemma OutcomeOfKeys(targets: seq<Target>)
    ensures ReportOutcome(targets).DateParseFailure?
        <==> Decorate(Gather(targets), DateKey).Failure?
    ensures ReportOutcome(targets).DateParseFailure? ==>
      ReportOutcome(targets).line == Decorate(Gather(targets), DateKey).error
  {
  }

  /** The run aborts, before the report is written, exactly when some merged
      line's first field is not a `%Y-%m-%d` date; the error names the first
      such line. */
  lemma ReportAbortsOnBadDate(targets: seq<Target>)
    ensures ReportOutcome(targets).DateParseFailure?
        <==> exists i | 0 <= i < |Gather(targets)| :: DateKey(Gather(targets)[i]) == None
    ensures ReportOutcome(targets).DateParseFailure? ==>
      exists i | 0 <= i < |Gather(targets)| ::
        && Gather(targets)[i] == ReportOutcome(targets).line
        && DateKey(Gather(targets)[i]) == None
        && forall j | 0 <= j < i :: DateKey(Gather(targets)[j]).Some?
  {
    OutcomeOfKeys(targets);
    DecorateFails(Gather(targets), DateKey);
  }

  /** The report is the header and one row per line of every target. */
  lemma ReportRowCount(targets: seq<Target>)
    requires ReportOutcome(targets).Written?
    ensures |ReportOutcome(targets).rows| == 1 + TotalLines(targets)
    ensures ReportOutcome(targets).rows[0] == Header
  {
    GatherLength(targets);
    var es := Decorate(Gather(targets), DateKey).value;
    SortDescPermutation(es);
  }

  /** Joining each row with tabs gives back a permutation of the merged
      lines: nothing is dropped, duplicated or altered. */
  lemma ReportIsPermutation(targets: seq<Target>)
    requires ReportOutcome(targets).Written?
    ensures multiset(Unsplit(ReportOutcome(targets).rows[1..])) == multiset(Gather(targets))
  {
    var es := Decorate(Gather(targets), DateKey).value;
    var sorted := Lines(SortDesc(es));
    assert ReportOutcome(targets).rows[1..] == Rows(sorted);
    UnsplitRows(sorted);
    SortDescLinesPermutation(es);
  }

  /** Every row's first field is a `%Y-%m-%d` date, and no row is older
      than a row below it. */
  predicate NewestFirst(rows: seq<Row>) {
    && (forall i | 0 <= i < |rows| :: rows[i] != [] && ParseDate(rows[i][0]).Some?)
    && (forall i, j | 0 <= i < j < |rows| ::
          !Less(ParseDate(rows[i][0]).value, ParseDate(rows[j][0]).value))
  }

  /** The rows of sorted keyed entries run newest first. */
  lemma SortedRowsNewestFirst(es: seq<Entry>)
    requires WellKeyed(es, DateKey)
    ensures NewestFirst(Rows(Lines(SortDesc(es))))
  {
    var s := SortDesc(es);
    var rows := Rows(Lines(s));
    SortDescSorted(es);
    SortedWellKeyed(es, DateKey);
    forall i | 0 <= i < |rows| ensures rows[i] != [] && ParseDate(rows[i][0]) == Some(s[i].key) {
      RowKey(s, i);
    }
  }

  /** Below the header, the report runs newest first. */
  lemma ReportNewestFirst(targets: seq<Target>)
    requires ReportOutcome(targets).Written?
    ensures NewestFirst(ReportOutcome(targets).rows[1..])
  {
    var es := Decorate(Gather(targets), DateKey).value;
    assert ReportOutcome(targets).rows[1..] == Rows(Lines(SortDesc(es)));
    SortedRowsNewestFirst(es);
  }

  /** The row of a keyed entry starts with the text its key was parsed from. */
  lemma RowKey(s: seq<Entry>, k: nat)
    requires WellKeyed(s, DateKey) && k < |s|
    ensures Rows(Lines(s))[k] != [] && ParseDate(Rows(Lines(s))[k][0]) == Some(s[k].key)
  {
    var e := s[k];
    assert e in s;
    var row := Rows(Lines(s))[k];
    assert row == Split(e.line, '\t');
    assert row[0] == FirstField(e.line);
    assert DateKey(e.line) == Some(e.key);
  }

  /** The sort is stable: for every date, the lines of that date appear in
      the report in the order they had in the merged list. */
  lemma ReportStable(targets: seq<Target>, k: Date)
    requires ReportOutcome(targets).Written?
    ensures FilterLines(Unsplit(ReportOutcome(targets).rows[1..]), DateKey, k) == FilterLines(Gather(targets), DateKey, k)
  {
    var es := Decorate(Gather(targets), DateKey).value;
    var sorted := Lines(SortDesc(es));
    assert ReportOutcome(targets).rows[1..] == Rows(sorted);
    UnsplitRows(sorted);
    SortedWellKeyed(es, DateKey);
    FilterKeyLines(SortDesc(es), DateKey, k);
    SortDescStable(es, k);
    FilterKeyLines(es, DateKey, k);
  }

  /** The line `git log --pretty="format:%as\t<name>\t%h\t%ae\t%s"` prints
      for one commit: the five fields joined with tabs. */
  function GitLine(date: string, project: string, hash: string, email: string, subject: string): string {
    Join([date, project, hash, email, subject], '\t')
  }

  /** The row of a git line starts with the date, under the header's
      `project` column, and the subject is split at each of its own tabs:
      a subject with `n` tabs gives `5 + n` columns. */
  lemma GitLineRow(date: string, project: string, hash: string, email: string, subject: string)
    requires '\t' !in date && '\t' !in project && '\t' !in hash && '\t' !in email
    ensures Split(GitLine(date, project, hash, email, subject), '\t')
         == [date, project, hash, email] + Split(subject, '\t')
    ensures |Split(GitLine(date, project, hash, email, subject), '\t')| == 5 + multiset(subject)['\t']
    ensures Header[0] == "project" && Split(GitLine(date, project, hash, email, subject), '\t')[0] == date
  {
    var fields := [date, project, hash, email];
    assert fields + [subject] == [date, project, hash, email, subject];
    SplitJoinLast(fields, subject, '\t');
  }

  /** One more target seen by the gathering loop. */
  lemma GatherStep(targets: seq<Target>, i: nat)
    requires i < |targets|
    ensures Gather(targets[..i + 1]) == Gather(targets[..i]) + Contribution(targets[i])
    ensures EmptyTargets(targets[..i + 1]) == EmptyTargets(targets[..i])
      + (if CreateReport(targets[i]) == None then [ProjectName(targets[i].pwdOutput)] else [])
  {
    assert targets[..i + 1][..i] == targets[..i];
  }

  /** The loop of `create_reports` over the targets: `lines.extend` of each
      target's lines, a "no commits" notice for each target without any. */
  method GatherLines(targets: seq<Target>) returns (lines: seq<string>, notices: seq<string>)
    ensures lines == Gather(targets)
    ensures notices == EmptyTargets(targets)
  {
    lines := [];
    notices := [];
    for i := 0 to |targets|
      invariant lines == Gather(targets[..i])
      invariant notices == EmptyTargets(targets[..i])
    {
      GatherStep(targets, i);
      var result := CreateReport(targets[i]);
      if result == None {
        notices := notices + [ProjectName(targets[i].pwdOutput)];
        continue;
      }
      lines := lines + result.value;
    }
    assert targets[..|targets|] == targets;
  }

  /** The header, then `line.split("\t")` of every sorted line. */
  method WriteRows(entries: array<Entry>) returns (rows: seq<Row>)
    ensures rows == [Header] + Rows(Lines(entries[..]))
  {
    rows := [Header];
    for i := 0 to entries.Length
      invariant rows == [Header] + Rows(Lines(entries[..i]))
    {
      assert Lines(entries[..i + 1]) == Lines(entries[..i]) + [entries[i].line];
      rows := rows + [Split(entries[i].line, '\t')];
    }
    assert entries[..entries.Length] == entries[..];
  }

  /** `create_reports` as report.py runs it: gather every target's lines,
      compute every sort key, sort in place newest first, then the header and
      one row per line. `notices` records the "no commits" messages. */
  method CreateReports(targets: seq<Target>) returns (outcome: Outcome, notices: seq<string>)
    ensures outcome == ReportOutcome(targets)
    ensures notices == EmptyTargets(targets)
  {
    var lines;
    lines, notices := GatherLines(targets);
    var keyed := DecorateLines(lines, DateKey);
    if keyed.Failure? {
      return DateParseFailure(keyed.error), notices;
    }
    var entries := keyed.value;
    SortByDateDesc(entries);
    var rows := WriteRows(entries);
    outcome := Written(rows);
  }
}

/** The `shp buildrun list` sub-command: each BuildRun becomes one row of seven
    display strings, and the rows are written as tab-separated lines after an
    optional header line. */
module BuildRunList {
  import opened Wrappers
  import opened BuildRunApi
  import opened Precedence
  import opened TabSeparated

  /** The header: the seven column titles, tab separated. It is spelled out
      title by title, which is the same string as the single literal in the
      code. */
  const ColumnNames: string := "NAME" + [Tab] + "STATUS" + [Tab] + "AGE" + [Tab]
    + "SOURCE" + [Tab] + "OUTPUT-IMAGE" + [Tab] + "IMAGE-DIGEST" + [Tab] + "SOURCE-ORIGIN"

  /** The column titles, in column order. */
  const ColumnTitles: seq<string> :=
    ["NAME", "STATUS", "AGE", "SOURCE", "OUTPUT-IMAGE", "IMAGE-DIGEST", "SOURCE-ORIGIN"]

  /** The header as written, with the newline the printer adds. */
  const HeaderLine: string := ColumnNames + "\n"

  /** The placeholder shown in the last column of every data row. */
  const SourceOrigin: string := "source-origin"

  /** The `list` sub-command and its one flag. */
  datatype ListCommand = ListCommand(noHeader: bool)

  /** An error returned by the cluster client. */
  datatype Error = Error(message: string)

  /** One display row, in column order. */
  datatype Row = Row(
    name: string,
    status: string,
    age: string,
    source: string,
    outputImage: string,
    outputDigest: string,
    sourceOrigin: string)
  {
    function Fields(): seq<string> {
      [name, status, age, source, outputImage, outputDigest, sourceOrigin]
    }
  }

  // ---------------------------------------------------------------- status

  /** `i` is the position of the first condition of type `Succeeded`. */
  ghost predicate IsFirstSucceeded(conditions: seq<Condition>, i: int) {
    && 0 <= i < |conditions|
    && conditions[i].conditionType == Succeeded
    && forall j :: 0 <= j < i ==> conditions[j].conditionType != Succeeded
  }

  /** The STATUS column: the scan over the conditions that stops at the first
      `Succeeded` one. */
  function Status(conditions: seq<Condition>): (status: string)
    ensures (forall i :: 0 <= i < |conditions| ==> conditions[i].conditionType != Succeeded)
              ==> status == ConditionUnknown
    ensures forall i :: IsFirstSucceeded(conditions, i) ==> status == conditions[i].reason
  {
    if |conditions| == 0 then ConditionUnknown
    else if conditions[0].conditionType == Succeeded then conditions[0].reason
    else
      assert forall i :: IsFirstSucceeded(conditions, i) ==> IsFirstSucceeded(conditions[1..], i - 1);
      Status(conditions[1..])
  }

  /** The reason a condition offers for the status column, if it is of type
      `Succeeded`. */
  function SucceededReason(c: Condition): Option<string> {
    if c.conditionType == Succeeded then Some(c.reason) else None
  }

  /** The status is the first present candidate among the conditions' offered
      reasons, with `Unknown` as fallback. */
  lemma {:induction false} StatusIsFirstPresent(conditions: seq<Condition>)
    ensures Status(conditions)
         == FirstPresent(seq(|conditions|, k requires 0 <= k < |conditions| => SucceededReason(conditions[k])),
                         ConditionUnknown)
  {
    var offered := seq(|conditions|, k requires 0 <= k < |conditions| => SucceededReason(conditions[k]));
    if |conditions| > 0 {
      var tail := conditions[1..];
      StatusIsFirstPresent(tail);
      assert offered[1..] == seq(|tail|, k requires 0 <= k < |tail| => SucceededReason(tail[k]));
    }
  }

  /** Conditions after the first `Succeeded` one never change the status: the
      scan has already stopped. */
  lemma {:induction false} StatusIgnoresLaterConditions(conditions: seq<Condition>, later: seq<Condition>)
    requires exists i :: 0 <= i < |conditions| && conditions[i].conditionType == Succeeded
    ensures Status(conditions + later) == Status(conditions)
  {
    var all := conditions + later;
    assert all[0] == conditions[0];
    if conditions[0].conditionType != Succeeded {
      var i :| 0 <= i < |conditions| && conditions[i].conditionType == Succeeded;
      var tail := conditions[1..];
      assert tail[i - 1] == conditions[i];
      assert all[1..] == tail + later;
      assert Status(all) == Status(tail + later);
      StatusIgnoresLaterConditions(tail, later);
    }
  }

  // ---------------------------------------------------------- output image

  /** The OUTPUT-IMAGE column: a non-nil spec output wins, then the image of
      the build specification copied into the status, then "". */
  function OutputImage(br: BuildRun): (image: string)
    ensures image == ""
         || (br.spec.output.Some? && image == br.spec.output.value.image)
         || (br.status.buildSpec.Some? && image == br.status.buildSpec.value.output.image)
  {
    if br.spec.output.Some? then br.spec.output.value.image
    else if br.status.buildSpec.Some? then br.status.buildSpec.value.output.image
    else ""
  }

  /** The three cases of the output image, in precedence order. A present spec
      output wins even when its image is empty. */
  lemma OutputImagePrecedence(br: BuildRun)
    ensures br.spec.output.Some? ==> OutputImage(br) == br.spec.output.value.image
    ensures (br.spec.output.None? && br.status.buildSpec.Some?) ==>
              OutputImage(br) == br.status.buildSpec.value.output.image
    ensures br.spec.output.None? && br.status.buildSpec.None? ==> OutputImage(br) == ""
  {
  }

  /** Once the spec sets an output, nothing in the status affects the image. */
  lemma OutputImageIgnoresStatus(br: BuildRun, status: BuildRunStatus)
    requires br.spec.output.Some?
    ensures OutputImage(br.(status := status)) == OutputImage(br)
  {
  }

  /** The image offered by a present output reference. */
  function ImageOf(output: Option<Image>): Option<string> {
    match output
    case Some(o) => Some(o.image)
    case None => None
  }

  /** The image offered by the status build specification, if there is one. */
  function StatusImage(br: BuildRun): Option<string> {
    match br.status.buildSpec
    case Some(bs) => Some(bs.output.image)
    case None => None
  }

  /** The output image is the first present candidate of the chain
      spec output, status build specification output. */
  lemma OutputImageIsFirstPresent(br: BuildRun)
    ensures OutputImage(br) == FirstPresent([ImageOf(br.spec.output), StatusImage(br)], "")
  {
  }

  // ---------------------------------------------------------------- source

  /** The SOURCE column: only the build specification copied into the status
      is consulted; its URL is used unless it is nil or empty, in which case
      the revision (or "") is shown. */
  function Source(br: BuildRun): (source: string)
    ensures br.status.buildSpec.None? ==> source == ""
    ensures source == ""
         || (br.status.buildSpec.Some? && br.status.buildSpec.value.source.url == Some(source))
         || (br.status.buildSpec.Some? && br.status.buildSpec.value.source.revision == Some(source))
  {
    match br.status.buildSpec
    case None => ""
    case Some(bs) =>
      var url := bs.source.url.GetOr("");
      var revision := bs.source.revision.GetOr("");
      if url == "" then revision else url
  }

  /** The two cases of the source once the status carries a build
      specification: a non-empty URL, otherwise the revision. */
  lemma SourceFallback(br: BuildRun)
    requires br.status.buildSpec.Some?
    ensures var git := br.status.buildSpec.value.source;
            (git.url.Some? && git.url.value != "" ==> Source(br) == git.url.value)
            && (git.url.None? || git.url.value == "" ==> Source(br) == git.revision.GetOr(""))
  {
  }

  /** Source data in the run's own spec is never used: replacing the spec
      leaves the source unchanged. */
  lemma SourceIgnoresSpec(br: BuildRun, spec: BuildRunSpec)
    ensures Source(br.(spec := spec)) == Source(br)
  {
  }

  /** A present, non-empty string; absent otherwise. */
  function NonEmpty(s: Option<string>): Option<string> {
    if s.Some? && s.value != "" then s else None
  }

  /** With a status build specification, the source is the first non-empty
      candidate of the chain URL, revision; the code's "revision even when it
      is empty" choice coincides with this since the fallback is "". */
  lemma SourceIsFirstNonEmpty(br: BuildRun)
    requires br.status.buildSpec.Some?
    ensures var git := br.status.buildSpec.value.source;
            Source(br) == FirstPresent([NonEmpty(git.url), NonEmpty(git.revision)], "")
  {
  }

  // ---------------------------------------------------------------- digest

  /** The IMAGE-DIGEST column: the digest of the status output, when the run
      has produced one. */
  function Digest(br: BuildRun): (digest: string)
    ensures br.status.output.Some? ==> digest == br.status.output.value.digest
    ensures br.status.output.None? ==> digest == ""
  {
    if br.status.output.Some? then br.status.output.value.digest else ""
  }

  // ------------------------------------------------------------ row, lines

  /** The display row of one run; `ageOf` stands for the clock and the
      short human duration formatter. */
  function RowOf(br: BuildRun, ageOf: Time -> string): (row: Row)
    ensures row.Fields()[0] == br.name
    ensures row.Fields()[6] == SourceOrigin
  {
    Row(br.name, Status(br.status.conditions), ageOf(br.creationTimestamp),
        Source(br), OutputImage(br), Digest(br), SourceOrigin)
  }

  /** A table line as the row template prints it: the fields joined by tabs,
      then a newline. */
  function FormatLine(fields: seq<string>): string {
    Join(fields) + "\n"
  }

  /** A string that can sit in one table cell. */
  predicate CellSafe(s: string) {
    Tab !in s && '\n' !in s
  }

  /** A formatted line of cell-safe fields is a single line ending in a
      newline, and reading it back at the tabs gives exactly those fields. */
  lemma FormatLineReadsBack(fields: seq<string>)
    requires |fields| >= 1
    requires forall k :: 0 <= k < |fields| ==> CellSafe(fields[k])
    ensures var line := FormatLine(fields);
            && |line| >= 1
            && line[|line| - 1] == '\n'
            && '\n' !in line[..|line| - 1]
            && Split(line[..|line| - 1]) == fields
  {
    var line := FormatLine(fields);
    assert line[..|line| - 1] == Join(fields);
    JoinNoNewline(fields);
    SplitJoin(fields);
  }

  /** The data line of one run. It starts with the run's name and ends with
      the `source-origin` placeholder and a newline. */
  function DataLine(br: BuildRun, ageOf: Time -> string): (line: string)
    ensures br.name + [Tab] <= line
    ensures EndsWith(line, [Tab] + SourceOrigin + "\n")
  {
    var fields := RowOf(br, ageOf).Fields();
    JoinEnds(fields);
    FormatLine(fields)
  }

  /** The header is the row template applied to the seven column titles. */
  lemma HeaderIsFormattedTitles()
    ensures HeaderLine == FormatLine(ColumnTitles)
  {
  }

  /** The header is a single line ending in a newline that reads back as
      exactly the seven column titles, in column order. */
  lemma HeaderLineLayout()
    ensures |HeaderLine| >= 1 && HeaderLine[|HeaderLine| - 1] == '\n'
    ensures '\n' !in HeaderLine[..|HeaderLine| - 1]
    ensures Split(HeaderLine[..|HeaderLine| - 1]) == ColumnTitles
  {
    HeaderIsFormattedTitles();
    assert CellSafe(ColumnTitles[0]) && CellSafe(ColumnTitles[1]) && CellSafe(ColumnTitles[2])
      && CellSafe(ColumnTitles[3]) && CellSafe(ColumnTitles[4]) && CellSafe(ColumnTitles[5])
      && CellSafe(ColumnTitles[6]);
    FormatLineReadsBack(ColumnTitles);
  }

  /** A data line is never the header line: the last column reads
      `source-origin` on data lines and `SOURCE-ORIGIN` in the header. */
  lemma DataLineIsNotHeader(br: BuildRun, ageOf: Time -> string)
    ensures DataLine(br, ageOf) != HeaderLine
  {
    var line := DataLine(br, ageOf);
    assert line[|line| - 2] == 'n';
    assert HeaderLine[|HeaderLine| - 2] == 'N';
  }

  /** Every data line holds exactly the run's seven column values, in column
      order, separated by tabs, as a single line ending in a newline, as long
      as no value contains a tab or a newline. */
  lemma DataLineFields(br: BuildRun, ageOf: Time -> string)
    requires forall k :: 0 <= k < 7 ==> CellSafe(RowOf(br, ageOf).Fields()[k])
    ensures var line := DataLine(br, ageOf);
            && |line| >= 1
            && line[|line| - 1] == '\n'
            && '\n' !in line[..|line| - 1]
            && Split(line[..|line| - 1])
               == [br.name, Status(br.status.conditions), ageOf(br.creationTimestamp),
                   Source(br), OutputImage(br), Digest(br), SourceOrigin]
  {
    FormatLineReadsBack(RowOf(br, ageOf).Fields());
  }

  // ---------------------------------------------------------------- render

  /** How many header lines are written. */
  function HeaderCount(noHeader: bool): nat {
    if noHeader then 0 else 1
  }

  /** `f` applied to every element, in order. */
  function Map<A, B>(f: A -> B, xs: seq<A>): (ys: seq<B>)
    ensures |ys| == |xs|
    ensures forall k :: 0 <= k < |xs| ==> ys[k] == f(xs[k])
  {
    if |xs| == 0 then []
    else
      var front := xs[..|xs| - 1];
      assert forall k :: 0 <= k < |front| ==> front[k] == xs[k];
      Map(f, front) + [f(xs[|xs| - 1])]
  }

  /** One data line per run, in list order. */
  function DataLines(items: seq<BuildRun>, ageOf: Time -> string): (lines: seq<string>)
    ensures |lines| == |items|
    ensures forall k :: 0 <= k < |items| ==> lines[k] == DataLine(items[k], ageOf)
  {
    Map(br => DataLine(br, ageOf), items)
  }

  /** No data line is the header line. */
  lemma HeaderNotData(items: seq<BuildRun>, ageOf: Time -> string)
    ensures multiset(DataLines(items, ageOf))[HeaderLine] == 0
  {
    var data := DataLines(items, ageOf);
    forall k | 0 <= k < |data|
      ensures data[k] != HeaderLine
    {
      DataLineIsNotHeader(items[k], ageOf);
    }
    assert HeaderLine !in data;
  }

  /** The lines the command writes for a listed collection of runs: the header
      exactly once and first unless suppressed, then one line per run in list
      order, and nothing else. */
  function Render(items: seq<BuildRun>, noHeader: bool, ageOf: Time -> string): (lines: seq<string>)
    ensures |lines| == |items| + HeaderCount(noHeader)
    ensures !noHeader ==> lines[0] == HeaderLine
    ensures lines[HeaderCount(noHeader)..] == DataLines(items, ageOf)
    ensures multiset(lines)[HeaderLine] == HeaderCount(noHeader)
  {
    var data := DataLines(items, ageOf);
    HeaderNotData(items, ageOf);
    var lines := (if noHeader then [] else [HeaderLine]) + data;
    assert lines[HeaderCount(noHeader)..] == data;
    lines
  }

  /** Suppressing the header removes exactly the header line; the data lines
      are the same either way. */
  lemma HeaderToggle(items: seq<BuildRun>, ageOf: Time -> string)
    ensures Render(items, false, ageOf) == [HeaderLine] + Render(items, true, ageOf)
  {
  }

  /** An empty list prints only the header, or nothing without it. */
  lemma EmptyList(noHeader: bool, ageOf: Time -> string)
    ensures Render([], noHeader, ageOf) == (if noHeader then [] else [HeaderLine])
  {
  }

  /** A finished run whose spec sets no output: every column is filled from
      the status. */
  lemma FinishedRunRow(ageOf: Time -> string)
    ensures var br := BuildRun(
              "build-1", 0,
              BuildRunSpec(None, None),
              BuildRunStatus(
                [Condition("Succeeded", "Succeeded")],
                Some(BuildSpec(GitSource(Some("https://github.com/x/y"), Some("main")), Image("registry/img:latest"))),
                Some(BuildRunOutput("sha256:abc"))));
            RowOf(br, ageOf)
            == Row("build-1", "Succeeded", ageOf(0), "https://github.com/x/y",
                   "registry/img:latest", "sha256:abc", "source-origin")
  {
  }

  /** A run with an output spec whose image is empty shows an empty image, even
      though the status build specification names one. */
  lemma EmptySpecOutputHidesStatusImage()
    ensures var br := BuildRun(
              "build-2", 0,
              BuildRunSpec(None, Some(Image(""))),
              BuildRunStatus([], Some(BuildSpec(GitSource(None, Some("main")), Image("registry/img:latest"))), None));
            OutputImage(br) == "" && Source(br) == "main" && Status(br.status.conditions) == ConditionUnknown
  {
  }

  // ------------------------------------------------------------------- run

  /** The command: fail on a clientset error, then on a list error, writing
      nothing; otherwise write the optional header and one line per listed
      run, in list order. */
  method Run(cmd: ListCommand, clientset: Outcome<Error>, listing: Result<seq<BuildRun>, Error>,
             ageOf: Time -> string)
    returns (written: seq<string>, err: Option<Error>)
    ensures err.Some? ==> written == []
    ensures clientset.Fail? ==> err == Some(clientset.error)
    ensures clientset.Pass? && listing.Failure? ==> err == Some(listing.error)
    ensures (clientset.Pass? && listing.Success?) ==>
              err.None? && written == Render(listing.value, cmd.noHeader, ageOf)
  {
    if clientset.Fail? {
      return [], Some(clientset.error);
    }
    if listing.Failure? {
      return [], Some(listing.error);
    }
    var items := listing.value;
    // The tab writer holds lines back until it is flushed, to align the
    // columns, so the header and the data lines reach the output together,
    // header first.
    var rows: seq<string> := [];
    var i := 0;
    while i < |items|
      invariant 0 <= i <= |items|
      invariant rows == DataLines(items[..i], ageOf)
    {
      assert items[..i + 1][..i] == items[..i];
      rows := rows + [DataLine(items[i], ageOf)];
      i := i + 1;
    }
    assert items[..i] == items;
    written := (if cmd.noHeader then [] else [HeaderLine]) + rows;
    err := None;
  }
}

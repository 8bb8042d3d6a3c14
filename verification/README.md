# shp buildrun list — a Dafny model

This project models the `list` sub-command of the Shipwright CLI for BuildRuns
(`shp buildrun list`, `pkg/shp/cmd/buildrun/list.go`). The command lists the
BuildRun resources of a namespace and prints one table line per run. Each line
has seven columns: NAME, STATUS, AGE, SOURCE, OUTPUT-IMAGE, IMAGE-DIGEST and
SOURCE-ORIGIN. A header line comes first unless `--no-header` is given.

Modules:

- `Wrappers` (`wrappers.dfy`): `Option`, `Result` and `Outcome`. Nil pointers
  become `None`. Calls that may fail return a `Result` or an `Outcome`.
- `BuildRunApi` (`buildrun_api.dfy`): the parts of the `v1alpha1` BuildRun
  resource that the command reads. These are the conditions, the spec's
  output, and the status build spec and output. The module also holds the
  `Succeeded` and `Unknown` constants. It also carries the spec's embedded
  build spec, which the command never reads (only commented-out lines at
  `pkg/shp/cmd/buildrun/list.go:124-131` touch it). It is there so that
  `SourceIgnoresSpec` can state that it is never consulted.
- `Precedence` (`precedence.dfy`): `FirstPresent`, the rule "the first present
  candidate wins, otherwise a fallback". It is defined independently of the
  command. Lemmas show that the STATUS, OUTPUT-IMAGE and SOURCE columns are each
  an instance of it.
- `TabSeparated` (`tab_separated.dfy`): `Join` lays fields out with tabs
  between them, as the line template does. `Split` reads such a line back. The
  two are inverse to each other on tab-free fields.
- `BuildRunList` (`list.dfy`): the column derivation (`Status`, `OutputImage`,
  `Source`, `Digest`, `RowOf`), the line layout (`DataLine`, `HeaderLine`), the
  rendered output (`Render`) and the command itself (`Run`).

`Run` is an imperative loop that appends one line per listed run, as the
command writes to its tab writer. It is proved equal to the functional `Render`.
On a clientset or list error it returns the error and writes nothing, not even
the header.

The age column depends on the wall clock and on a duration formatter from
another library. It is the parameter `ageOf: Time -> string`, applied to the
run's creation timestamp. The clientset construction and the List call are the
inputs `clientset: Outcome<Error>` and `listing: Result<seq<BuildRun>, Error>`.
The clientset error is checked first, as in the code.

Three behaviours of the code are worth spelling out:

- A non-nil spec output wins even when its image is empty
  (`pkg/shp/cmd/buildrun/list.go:100-101`). See
  `EmptySpecOutputHidesStatusImage`.
- The source falls back to the revision when the URL is nil or empty
  (`pkg/shp/cmd/buildrun/list.go:115-117`).
- The status output digest is a plain string, copied as it is
  (`pkg/shp/cmd/buildrun/list.go:121`).

## Model

| member | source | states |
|---|---|---|
| BuildRunList.Status | pkg/shp/cmd/buildrun/list.go:84-90 | The status is the reason of the first condition whose type is `Succeeded`. It is `Unknown` when no condition has that type. |
| BuildRunList.StatusIgnoresLaterConditions | pkg/shp/cmd/buildrun/list.go:85-89 | Once a `Succeeded` condition exists, appending more conditions (more `Succeeded` ones included) leaves the status unchanged, because the scan breaks at the first match. |
| BuildRunList.StatusIsFirstPresent | pkg/shp/cmd/buildrun/list.go:84-90 | The status equals the first-present rule over the reasons of the `Succeeded` conditions, with `Unknown` as fallback. |
| BuildRunList.OutputImage | pkg/shp/cmd/buildrun/list.go:94-105 | The output image never comes from anywhere else: it is "", the spec output image, or the status build spec output image. |
| BuildRunList.OutputImagePrecedence | pkg/shp/cmd/buildrun/list.go:100-105 | A non-nil spec output gives its image, even an empty one. Otherwise a status build spec gives its output image. Otherwise the image is "". |
| BuildRunList.OutputImageIgnoresStatus | pkg/shp/cmd/buildrun/list.go:100-101 | When the spec sets an output, replacing the whole status leaves the output image unchanged. |
| BuildRunList.OutputImageIsFirstPresent | pkg/shp/cmd/buildrun/list.go:100-105 | The output image equals the first-present rule over the chain (spec output, status build spec output), with fallback "". |
| BuildRunList.Source | pkg/shp/cmd/buildrun/list.go:107-118 | The source is "" when the status has no build spec. Otherwise it is "", the status URL or the status revision. |
| BuildRunList.SourceFallback | pkg/shp/cmd/buildrun/list.go:108-117 | With a status build spec, a non-empty URL is shown. A nil or empty URL falls back to the revision, or to "" when the revision is nil. |
| BuildRunList.SourceIgnoresSpec | pkg/shp/cmd/buildrun/list.go:107-118 | Replacing the run's own spec (its embedded build spec source included) never changes the source. |
| BuildRunList.SourceIsFirstNonEmpty | pkg/shp/cmd/buildrun/list.go:108-117 | With a status build spec, the source equals the first non-empty value of (URL, revision), with fallback "". |
| BuildRunList.Digest | pkg/shp/cmd/buildrun/list.go:120-122 | The digest is the status output digest when a status output exists, and "" otherwise. |
| TabSeparated.JoinEnds | pkg/shp/cmd/buildrun/list.go:64 | A line of two or more joined fields starts with the first field and a tab, and ends with a tab and the last field. |
| TabSeparated.JoinNoNewline | pkg/shp/cmd/buildrun/list.go:64 | Joining fields that have no newline gives a line without a newline. |
| TabSeparated.SplitJoin | pkg/shp/cmd/buildrun/list.go:64 | Reading a line joined from tab-free fields gives back exactly those fields, in order. |
| BuildRunList.RowOf | pkg/shp/cmd/buildrun/list.go:139 | The seven column values, in the argument order of the print call: the first is the run's name and the last is `source-origin`. `DataLineFields` proves the full order as printed. |
| BuildRunList.FormatLineReadsBack | pkg/shp/cmd/buildrun/list.go:64 | `FormatLine` is the row template: fields with no tab or newline give a single line ending in a newline, and reading it back at the tabs gives exactly those fields. |
| BuildRunList.HeaderIsFormattedTitles | pkg/shp/cmd/buildrun/list.go:63-64 | `HeaderLine` (the column names with the newline that `Fprintln` adds at line 77) is the row template applied to the seven column titles. |
| BuildRunList.HeaderLineLayout | pkg/shp/cmd/buildrun/list.go:76-78 | The header is printed as a single line ending in a newline, and it reads back as exactly the seven titles, in column order. |
| BuildRunList.DataLine | pkg/shp/cmd/buildrun/list.go:139 | A data line starts with the run's name and a tab, and ends with a tab, `source-origin` and a newline. |
| BuildRunList.DataLineIsNotHeader | pkg/shp/cmd/buildrun/list.go:63-64 | No data line equals the header line: data lines end in `source-origin`, the header in `SOURCE-ORIGIN`. |
| BuildRunList.DataLineFields | pkg/shp/cmd/buildrun/list.go:139 | When no column value has a tab or newline, a data line is one line ending in a newline. It holds exactly seven tab-separated fields: name, status, age, source, output image, digest, `source-origin`. |
| BuildRunList.DataLines | pkg/shp/cmd/buildrun/list.go:82-140 | There is one data line per run, and line k is the data line of run k, in list order. |
| BuildRunList.Render | pkg/shp/cmd/buildrun/list.go:76-140 | The output has one line per run plus one header line unless suppressed. The header comes first and appears exactly once iff it is shown. Everything after it is exactly the data lines. |
| BuildRunList.HeaderToggle | pkg/shp/cmd/buildrun/list.go:76-78 | Output with the header is the header line followed by exactly the output without it. |
| BuildRunList.EmptyList | pkg/shp/cmd/buildrun/list.go:76-82 | An empty list prints only the header line, or nothing when the header is suppressed. |
| BuildRunList.Run | pkg/shp/cmd/buildrun/list.go:66-145 | A clientset error is returned first, then a list error, and either way nothing is written. On success there is no error and the lines written are those of `Render`. |
| BuildRunList.FinishedRunRow | pkg/shp/cmd/buildrun/list.go:82-139 | Worked example: a succeeded run with a status build spec and output yields its reason, URL, status image, digest and `source-origin`. |
| BuildRunList.EmptySpecOutputHidesStatusImage | pkg/shp/cmd/buildrun/list.go:100-117 | Worked example: a spec output with an empty image shows "" even though the status names an image. A nil URL shows the revision, and no conditions shows `Unknown`. |

## Left out

- Column alignment by `tabwriter` (padding, minimum width, `Flush`): the output is modelled as the sequence of logical tab-separated lines the writer receives.
- The age text (`time.Since` and `duration.ShortHumanDuration`): it depends on the clock and another library, so it is the opaque parameter `ageOf`.
- Clientset construction, namespace lookup and the Kubernetes `List` call: network plumbing, modelled as the input results `clientset` and `listing`.
- `log.Println` diagnostics: side-effect-only logging that does not affect the output.
- The cobra command wiring, the `--no-header` flag registration and the no-op `Complete` and `Validate`: CLI framework plumbing; the flag is the field `ListCommand.noHeader`.
- Write errors on standard output: the code ignores the results of `Fprintln`, `Fprintf` and `Flush`, so the model has no write-error path.
- BuildRunList.DataLineFields: the seven-field reading holds only when no column value contains a tab or newline. A value with a tab would add columns to the printed line.

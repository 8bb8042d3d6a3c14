/** The parts of the Shipwright `v1alpha1` BuildRun resource that the
    `shp buildrun list` command reads. Pointer fields become `Option`s. */
module BuildRunApi {
  import opened Wrappers

  /** A creation timestamp, in seconds; only the age formatter interprets it. */
  type Time = int

  /** The condition type whose reason is shown as the run's status. */
  const Succeeded: string := "Succeeded"

  /** The status shown when no `Succeeded` condition exists
      (`metav1.ConditionUnknown`). */
  const ConditionUnknown: string := "Unknown"

  /** A status condition: its type and the short machine-readable reason. */
  datatype Condition = Condition(conditionType: string, reason: string)

  /** The Git source of a build; both parts are optional pointers. */
  datatype GitSource = GitSource(url: Option<string>, revision: Option<string>)

  /** An output image reference. */
  datatype Image = Image(image: string)

  /** A build specification: where the source comes from, where the image goes. */
  datatype BuildSpec = BuildSpec(source: GitSource, output: Image)

  /** The desired state of a run: an optional embedded build specification and
      an optional output override. */
  datatype BuildRunSpec = BuildRunSpec(buildSpec: Option<BuildSpec>, output: Option<Image>)

  /** What a finished run produced. */
  datatype BuildRunOutput = BuildRunOutput(digest: string)

  /** The observed state of a run: its conditions, the build specification the
      controller copied from the originating Build, and the produced output. */
  datatype BuildRunStatus = BuildRunStatus(
    conditions: seq<Condition>,
    buildSpec: Option<BuildSpec>,
    output: Option<BuildRunOutput>)

  /** One BuildRun resource as returned by the list call. */
  datatype BuildRun = BuildRun(
    name: string,
    creationTimestamp: Time,
    spec: BuildRunSpec,
    status: BuildRunStatus)
}

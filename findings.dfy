/** The repository branch of `DetectAndCopyImage` as its documentation
    comment describes it, beside concrete runs of the branch as written. */
module Findings {
  import opened Types
  import opened GoStrings
  import opened Repository
  import opened Detect
  import PlanProperties

  /** copyRepository's result as it was evidently meant to be reported:
      success unless it returned an error. */
  function IntendedRepositoryStatus(r: RepoOutcome, workersOk: bool): (s: Status)
    ensures s == Completed <==> r.Started? && (r.workers < 1 || workersOk)
  {
    match r
    case AlreadySynced(_) => ExitAlreadySynced
    case Failed(_, e) => Error(RepositoryCopyError(Some(Early(e))))
    case Started(_, _, workers) =>
      if workers >= 1 && !workersOk then Error(RepositoryCopyError(Some(WorkerError))) else Completed
  }

  /** The untagged-source branch as intended: a whole-repository sync into an
      untagged destination, with the references in parameter order. Rejecting
      a tagged destination is a choice of this model: the workers append
      ":<tag>" to the destination, which a tagged destination cannot take. */
  function UntaggedSourceIntended(c: CliInput, obs: Observations, destRef: ImageRef, srcRef: ImageRef): Outcome
  {
    if HasTag(c.Destination, destRef) then
      Outcome([], Error(UnexpectedDestinationTag))
    else
      var r := CopyRepositorySpec(c, obs.regexp, obs.listTags, destRef, srcRef);
      Outcome([RepositoryCopy(r)], IntendedRepositoryStatus(r, obs.workersOk))
  }

  /** `DetectAndCopyImage` with the corrected repository branch. */
  function DetectAndCopyIntended(c: CliInput, obs: Observations): (o: Outcome)
    ensures obs.destRef.None? ==> o == Outcome([], Error(ParsingDestinationRef))
    ensures |o.attempts| <= 2
  {
    match obs.destRef
    case None => Outcome([], Error(ParsingDestinationRef))
    case Some(destRef) =>
      if obs.stat != StatFailed then CopyLocalSource(obs)
      else
        match obs.srcRef
        case None => Outcome([], Error(ParsingSourceDockerRef))
        case Some(srcRef) =>
          if HasTag(c.Source, srcRef) then CopyTaggedImage(obs)
          else UntaggedSourceIntended(c, obs, destRef, srcRef)
  }

  /** The correction touches only the repository branch. */
  lemma IntendedAgreesOutsideRepositoryBranch(c: CliInput, obs: Observations)
    requires obs.destRef.None? || KindOf(c, obs) != WholeRepository
    ensures DetectAndCopyIntended(c, obs) == DetectAndCopy(c, obs)
  {
  }

  /** Intended: an untagged source into an untagged destination syncs the
      whole repository. */
  lemma IntendedRepositorySyncRuns(c: CliInput, obs: Observations)
    requires obs.destRef.Some? && KindOf(c, obs) == WholeRepository
    requires !HasTag(c.Destination, obs.destRef.value)
    ensures DetectAndCopyIntended(c, obs).attempts ==
      [RepositoryCopy(CopyRepositorySpec(c, obs.regexp, obs.listTags, obs.destRef.value, obs.srcRef.value))]
  {
  }

  /** Intended: the repository sync reports success when copyRepository
      returned nil and only then. */
  lemma IntendedRepositorySyncCompletes(c: CliInput, obs: Observations)
    requires obs.destRef.Some? && KindOf(c, obs) == WholeRepository
    requires !HasTag(c.Destination, obs.destRef.value)
    ensures var r := CopyRepositorySpec(c, obs.regexp, obs.listTags, obs.destRef.value, obs.srcRef.value);
      DetectAndCopyIntended(c, obs).status == Completed <==> r.Started? && (r.workers < 1 || obs.workersOk)
  {
  }

  /** Intended: the source tags are listed from the source reference, and
      the destination tags from the destination reference. */
  lemma IntendedListsSourceFirst(c: CliInput, obs: Observations)
    requires obs.destRef.Some? && KindOf(c, obs) == WholeRepository
    requires !HasTag(c.Destination, obs.destRef.value)
    ensures var o := DetectAndCopyIntended(c, obs);
      && o.attempts[0].repo.listed[0] == obs.srcRef.value
      && (|o.attempts[0].repo.listed| == 2 ==> o.attempts[0].repo.listed[1] == obs.destRef.value)
  {
    PlanProperties.EarlyErrors(c, obs.regexp, obs.listTags, obs.destRef.value, obs.srcRef.value);
  }

  /** A run that syncs `registry.example.com/app` into `mirror.example.com/app:v1`,
      with `Overwrite` set, where every registry call succeeds and the only
      listed tag is "v1". */
  function ExampleInput(): CliInput
  {
    CliInput("registry.example.com/app", false, "mirror.example.com/app:v1", false, "", "", "", true, 1)
  }

  function ExampleObservations(dest: string): Observations
  {
    Observations(Some(ImageRef(dest)), StatFailed, false, false, false, false, false,
                 Some(ImageRef("registry.example.com/app:latest")), false,
                 Regexp(p => true, (p, t) => true), r => Some(["v1"]), true)
  }

  /** As written: an untagged source and an untagged destination copy
      nothing, and the run still reports success. */
  lemma ExampleUntaggedDestinationSkipsSync()
    ensures DetectAndCopy(ExampleInput().(Destination := "mirror.example.com/app"),
                          ExampleObservations("mirror.example.com/app:latest"))
            == Outcome([], Completed)
  {
    var s := "mirror.example.com/app:latest";
    assert |s| == 29 && s[7] == 'e';
    assert s[|s| - 22..][0] == s[7];
    assert !HasSuffix(s, "mirror.example.com/app");
    var t := "registry.example.com/app:latest";
    assert |t| == 31 && t[7] == 'y';
    assert t[|t| - 24..][0] == t[7];
    assert !HasSuffix(t, "registry.example.com/app");
  }

  /** As written: with `MaxConcurrentTags` 0 no worker starts and the pool
      returns nil, yet the run still returns the error
      "copy repository: %!w(<nil>)", whatever the workers would have done;
      the plan was computed from the tags of the destination repository. */
  lemma ExampleSuccessfulSyncReportsError(workersOk: bool)
    ensures var o := DetectAndCopy(ExampleInput().(MaxConcurrentTags := 0),
                                   ExampleObservations("mirror.example.com/app:v1").(workersOk := workersOk));
      && o.status == Error(RepositoryCopyError(None))
      && o.attempts[0].repo.plan == ["v1"]
      && o.attempts[0].repo.listed[0] == ImageRef("mirror.example.com/app:v1")
  {
    var t := "registry.example.com/app:latest";
    assert t[|t| - 24..][0] == 'y';
    assert !HasSuffix(t, "registry.example.com/app");
    var d := "mirror.example.com/app:v1";
    assert d[|d| - |d|..] == d;
    assert HasTag("mirror.example.com/app:v1", ImageRef(d));
    assert TagOrder.SortSpec(["v1"]) == ["v1"];
  }
}

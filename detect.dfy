/** `DetectAndCopyImage`: the first-match decision over what the library
    calls report, written as a function from those reports to the copies
    attempted and the value returned. It follows the code as written,
    including its repository branch (see module Findings for the intended one). */
module Detect {
  import opened Types
  import opened GoStrings
  import opened Repository
  import PlanProperties

  /** `hasTag(ref, imageRef)`: the normalised reference ends with the string
      the user gave. The parser appends ":latest" to an untagged reference,
      so an untagged input is usually not a suffix of its normalised form;
      a name that is itself a suffix of "latest", such as `test`
      (normalised to `docker.io/library/test:latest`), is the exception. */
  predicate HasTag(ref: string, imageRef: ImageRef): (b: bool)
    ensures b <==> exists p :: p + ref == imageRef.normalized
  {
    HasSuffixMeansEndsWith(imageRef.normalized, ref);
    HasSuffix(imageRef.normalized, ref)
  }

  /** What `os.Stat(c.Source)` reports. */
  datatype PathKind =
    | Directory
    | NotDirectory   // exists, and is not a directory
    | StatFailed     // does not exist, or cannot be examined

  /** The reports of the foreign calls `DetectAndCopyImage` makes. */
  datatype Observations = Observations(
    destRef: Option<ImageRef>,    // docker.ParseReference("//" + c.Destination)
    stat: PathKind,               // os.Stat(c.Source)
    ociLayoutParses: bool,        // ocilayout.ParseReference(c.Source)
    ociLayoutCopyOk: bool,        // copyImage from the OCI layout
    ociArchiveCopyOk: bool,       // copyImage from the OCI archive
    dockerArchiveParses: bool,    // dockerarchive.ParseReference(c.Source)
    dockerArchiveCopyOk: bool,    // copyImage from the docker archive
    srcRef: Option<ImageRef>,     // docker.ParseReference("//" + c.Source)
    tagCopyOk: bool,              // copyImage of the single tagged image
    regexp: Regexp,               // the regexp engine used by copyRepository
    listTags: Lister,             // docker.GetRepositoryTags
    workersOk: bool)              // no worker returned an error to wg.Wait()

  /** A copy operation the run starts. */
  datatype Attempt =
    | OciLayoutCopy
    | OciArchiveCopy
    | DockerArchiveCopy
    | TagCopy
    | RepositoryCopy(repo: RepoOutcome)   // a call of copyRepository

  /** Why copyRepository's error is non-nil: an early error of its own or a
      worker's error returned by wg.Wait(). */
  datatype RepoCause = Early(err: RepoError) | WorkerError

  /** The errors `DetectAndCopyImage` wraps, one per `fmt.Errorf` prefix. */
  datatype SyncError =
    | ParsingDestinationRef
    | ParsingSourceOciRef
    | CopyOciLayout
    | ParsingSourceDockerArchiveRef
    | CopyDockerArchiveLayout
    | ParsingSourceDockerRef
    | CopyTagFailed
      // "copy repository: %w"; None when copyRepository returned nil
    | RepositoryCopyError(cause: Option<RepoCause>)
      // only in the intended version of module Findings
    | UnexpectedDestinationTag

  datatype Status =
    | Completed           // nil returned after "Image(s) sync completed."
    | Error(e: SyncError) // a non-nil error returned
    | ExitAlreadySynced   // os.Exit(0) inside copyRepository

  datatype Outcome = Outcome(attempts: seq<Attempt>, status: Status)

  /** A source that exists on disk: an OCI layout directory, or a file tried
      as an OCI archive and then, only if that copy fails, as a docker
      archive. The OCI-archive parse error is discarded, so that copy is
      always attempted. */
  function CopyLocalSource(obs: Observations): (o: Outcome)
    requires obs.stat != StatFailed
    ensures obs.stat == Directory ==> o.attempts == (if obs.ociLayoutParses then [OciLayoutCopy] else [])
    ensures obs.stat == NotDirectory ==>
      && o.attempts != [] && o.attempts[0] == OciArchiveCopy
      && (DockerArchiveCopy in o.attempts <==> !obs.ociArchiveCopyOk && obs.dockerArchiveParses)
    ensures o.status != ExitAlreadySynced
  {
    if obs.stat == Directory then
      if !obs.ociLayoutParses then Outcome([], Error(ParsingSourceOciRef))
      else if !obs.ociLayoutCopyOk then Outcome([OciLayoutCopy], Error(CopyOciLayout))
      else Outcome([OciLayoutCopy], Completed)
    else
      if obs.ociArchiveCopyOk then Outcome([OciArchiveCopy], Completed)
      else if !obs.dockerArchiveParses then Outcome([OciArchiveCopy], Error(ParsingSourceDockerArchiveRef))
      else if !obs.dockerArchiveCopyOk then
        Outcome([OciArchiveCopy, DockerArchiveCopy], Error(CopyDockerArchiveLayout))
      else Outcome([OciArchiveCopy, DockerArchiveCopy], Completed)
  }

  /** The single tagged image copy. */
  function CopyTaggedImage(obs: Observations): (o: Outcome)
    ensures o.attempts == [TagCopy]
    ensures o.status.Completed? <==> obs.tagCopyOk
  {
    if obs.tagCopyOk then Outcome([TagCopy], Completed) else Outcome([TagCopy], Error(CopyTagFailed))
  }

  /** `copyRepository`'s result wrapped as at line 152: always a non-nil
      error, unless the plan was empty and the process exited. With no
      worker started, wg.Wait() returns nil. */
  function RepositoryStatus(r: RepoOutcome, workersOk: bool): (s: Status)
    ensures s != Completed
  {
    match r
    case AlreadySynced(_) => ExitAlreadySynced
    case Failed(_, e) => Error(RepositoryCopyError(Some(Early(e))))
    case Started(_, _, workers) =>
      Error(RepositoryCopyError(if workers >= 1 && !workersOk then Some(WorkerError) else None))
  }

  /** The untagged-source branch as written: copyRepository runs only when the
      destination has a tag, and receives (srcRef, destRef) in its
      (destRepository, srcRepository) parameters. */
  function UntaggedSource(c: CliInput, obs: Observations, destRef: ImageRef, srcRef: ImageRef): (o: Outcome)
    ensures !HasTag(c.Destination, destRef) ==> o == Outcome([], Completed)
    ensures HasTag(c.Destination, destRef) ==>
      && |o.attempts| == 1 && o.attempts[0].RepositoryCopy?
      && 1 <= |o.attempts[0].repo.listed| <= 2
      && o.attempts[0].repo.listed[0] == destRef
      && (|o.attempts[0].repo.listed| == 2 ==> o.attempts[0].repo.listed[1] == srcRef)
      && o.status != Completed
  {
    PlanProperties.EarlyErrors(c, obs.regexp, obs.listTags, srcRef, destRef);
    if HasTag(c.Destination, destRef) then
      var r := CopyRepositorySpec(c, obs.regexp, obs.listTags, srcRef, destRef);
      Outcome([RepositoryCopy(r)], RepositoryStatus(r, obs.workersOk))
    else
      Outcome([], Completed)
  }

  /** `DetectAndCopyImage(c)`. */
  function DetectAndCopy(c: CliInput, obs: Observations): (o: Outcome)
    ensures obs.destRef.None? ==> o == Outcome([], Error(ParsingDestinationRef))
    ensures |o.attempts| <= 2
    ensures o.status == ExitAlreadySynced ==>
      o.attempts != [] && o.attempts[0].RepositoryCopy? && o.attempts[0].repo.AlreadySynced?
  {
    match obs.destRef
    case None => Outcome([], Error(ParsingDestinationRef))
    case Some(destRef) =>
      if obs.stat != StatFailed then CopyLocalSource(obs)
      else
        match obs.srcRef
        case None => Outcome([], Error(ParsingSourceDockerRef))
        case Some(srcRef) =>
          if HasTag(c.Source, srcRef) then CopyTaggedImage(obs)
          else UntaggedSource(c, obs, destRef, srcRef)
  }

  /** The kind of source the documentation comment of DetectAndCopyImage
      describes, decided from the observations alone. */
  datatype SourceKind = OciLayout | Archive | TaggedImage | WholeRepository | Unparsable

  function KindOf(c: CliInput, obs: Observations): SourceKind
  {
    match obs.stat
    case Directory => OciLayout
    case NotDirectory => Archive
    case StatFailed =>
      match obs.srcRef
      case None => Unparsable
      case Some(s) => if HasTag(c.Source, s) then TaggedImage else WholeRepository
  }

  /** Once the destination parses, every copy attempted is of the kind the
      source was classified as: one OCI-layout copy for a directory; for a
      file the OCI-archive copy first and the docker-archive copy only after
      it failed; one single-image copy for a tagged reference; at most one
      repository sync for an untagged one, none for an unparsable one. */
  lemma AttemptsFollowKind(c: CliInput, obs: Observations)
    requires obs.destRef.Some?
    ensures var o := DetectAndCopy(c, obs);
      match KindOf(c, obs)
      case OciLayout =>
        o.attempts == (if obs.ociLayoutParses then [OciLayoutCopy] else [])
      case Archive =>
        o.attempts == (if obs.ociArchiveCopyOk || !obs.dockerArchiveParses then [OciArchiveCopy]
                       else [OciArchiveCopy, DockerArchiveCopy])
      case TaggedImage => o.attempts == [TagCopy]
      case WholeRepository => |o.attempts| <= 1 && forall k :: 0 <= k < |o.attempts| ==> o.attempts[k].RepositoryCopy?
      case Unparsable => o == Outcome([], Error(ParsingSourceDockerRef))
  {
  }

  /** When the run reports success, and exactly when. */
  lemma CompletedExactlyWhen(c: CliInput, obs: Observations)
    ensures DetectAndCopy(c, obs).status == Completed <==>
      && obs.destRef.Some?
      && match KindOf(c, obs)
         case OciLayout => obs.ociLayoutParses && obs.ociLayoutCopyOk
         case Archive => obs.ociArchiveCopyOk || (obs.dockerArchiveParses && obs.dockerArchiveCopyOk)
         case TaggedImage => obs.tagCopyOk
         case WholeRepository => !HasTag(c.Destination, obs.destRef.value)
         case Unparsable => false
  {
  }

  /** Whenever copyRepository runs, the run does not report success: it is
      either the "already synced" exit or a non-nil "copy repository" error,
      also when every tag was copied. */
  lemma RepositoryBranchNeverCompletes(c: CliInput, obs: Observations)
    ensures var o := DetectAndCopy(c, obs);
      (exists k :: 0 <= k < |o.attempts| && o.attempts[k].RepositoryCopy?) ==>
        o.status == ExitAlreadySynced || (o.status.Error? && o.status.e.RepositoryCopyError?)
  {
  }

  /** copyRepository is entered exactly for a missing path with an untagged
      source and a tagged destination; it then lists the "source" tags from
      the destination reference, and the "destination" tags from the source. */
  lemma RepositorySyncListsDestinationFirst(c: CliInput, obs: Observations)
    ensures var o := DetectAndCopy(c, obs);
      var entered := |o.attempts| == 1 && o.attempts[0].RepositoryCopy?;
      && (entered <==> obs.destRef.Some? && KindOf(c, obs) == WholeRepository && HasTag(c.Destination, obs.destRef.value))
      && (entered ==>
            && o.attempts[0].repo == CopyRepositorySpec(c, obs.regexp, obs.listTags, obs.srcRef.value, obs.destRef.value)
            && o.attempts[0].repo.listed[0] == obs.destRef.value
            && (|o.attempts[0].repo.listed| == 2 ==> o.attempts[0].repo.listed[1] == obs.srcRef.value))
  {
    var o := DetectAndCopy(c, obs);
    if obs.destRef.Some? && KindOf(c, obs) == WholeRepository && HasTag(c.Destination, obs.destRef.value) {
      PlanProperties.EarlyErrors(c, obs.regexp, obs.listTags, obs.srcRef.value, obs.destRef.value);
    }
  }

  /** A missing path whose source and destination are both untagged copies
      nothing and reports success. */
  lemma UntaggedBothCopiesNothing(c: CliInput, obs: Observations)
    requires obs.destRef.Some? && obs.stat == StatFailed && obs.srcRef.Some?
    requires !HasTag(c.Source, obs.srcRef.value) && !HasTag(c.Destination, obs.destRef.value)
    ensures DetectAndCopy(c, obs) == Outcome([], Completed)
  {
  }
}

/** `copyRepository`: from the tag listing of one repository to the plan of
    tags to copy and the number of workers that copy them. */
module Repository {
  import opened Types
  import opened GoStrings
  import opened TagOrder
  import opened TagSets

  /** Why `copyRepository` returned an error before starting any copy. */
  datatype RepoError =
    | GettingSourceTags               // the first tag listing failed
    | InvalidRegexp(pattern: string)  // a non-empty pattern did not compile

  /** How `copyRepository` ends. `listed` holds the repositories whose tags
      were requested, in the order of the requests. */
  datatype RepoOutcome =
    | Failed(listed: seq<ImageRef>, err: RepoError)
      // the process exits with status 0 ("already synced")
    | AlreadySynced(listed: seq<ImageRef>)
      // the worker pool is started on `plan` with `workers` workers
    | Started(listed: seq<ImageRef>, plan: seq<Tag>, workers: int)

  /** `docker.GetRepositoryTags`: the tags of the repository a reference
      names, or None when the registry call fails. */
  type Lister = ImageRef -> Option<seq<Tag>>

  function Min(a: int, b: int): (m: int)
    ensures m <= a && m <= b && (m == a || m == b)
  {
    if b < a then b else a
  }

  /** The comma-separated skip list, `strings.Split(c.SkipTags, ",")`. */
  function SkipList(c: CliInput): seq<Tag>
  {
    Split(c.SkipTags, ',')
  }

  /** `re.MatchString` for the compiled `pattern`, as a filter condition. */
  function Matching(re: Regexp, pattern: string): Tag -> bool
  {
    t => re.matches(pattern, t)
  }

  function NotMatching(re: Regexp, pattern: string): Tag -> bool
  {
    t => !re.matches(pattern, t)
  }

  /** Both non-empty patterns compile. */
  predicate PatternsCompile(c: CliInput, re: Regexp)
  {
    (c.TagsPattern == "" || re.compiles(c.TagsPattern)) &&
    (c.SkipTagsPattern == "" || re.compiles(c.SkipTagsPattern))
  }

  /** The three filter rules, each switched off by its empty option. */
  predicate Selected(c: CliInput, re: Regexp, t: Tag)
  {
    (c.SkipTags == "" || t !in SkipList(c)) &&
    (c.TagsPattern == "" || re.matches(c.TagsPattern, t)) &&
    (c.SkipTagsPattern == "" || !re.matches(c.SkipTagsPattern, t))
  }

  function SelectedBy(c: CliInput, re: Regexp): Tag -> bool
  {
    t => Selected(c, re, t)
  }

  /** The filter stages in their fixed order: skip list, include pattern,
      exclude pattern. */
  function FilteredTags(c: CliInput, re: Regexp, tags: seq<Tag>): seq<Tag>
  {
    var skipped := if c.SkipTags != "" then Diff(tags, SkipList(c)) else tags;
    var included := if c.TagsPattern != "" then Filter(skipped, Matching(re, c.TagsPattern)) else skipped;
    if c.SkipTagsPattern != "" then Filter(included, NotMatching(re, c.SkipTagsPattern)) else included
  }

  /** The tags left after the destination subtraction, which is skipped on
      `Overwrite` or when the destination listing failed. */
  function PlanTags(c: CliInput, filtered: seq<Tag>, destTags: Option<seq<Tag>>): seq<Tag>
  {
    if c.Overwrite || destTags.None? then filtered else Diff(filtered, destTags.value)
  }

  /** The reference definition of `copyRepository`, stated on values: the
      pattern checks, then the filtered sorted listing, then the subtraction. */
  function CopyRepositorySpec(c: CliInput, re: Regexp, listTags: Lister,
                              destRepository: ImageRef, srcRepository: ImageRef): RepoOutcome
  {
    match listTags(srcRepository)
    case None => Failed([srcRepository], GettingSourceTags)
    case Some(listing) =>
      if c.TagsPattern != "" && !re.compiles(c.TagsPattern) then
        Failed([srcRepository], InvalidRegexp(c.TagsPattern))
      else if c.SkipTagsPattern != "" && !re.compiles(c.SkipTagsPattern) then
        Failed([srcRepository], InvalidRegexp(c.SkipTagsPattern))
      else
        var tags := PlanTags(c, FilteredTags(c, re, SortSpec(listing)), listTags(destRepository));
        if |tags| == 0 then AlreadySynced([srcRepository, destRepository])
        else Started([srcRepository, destRepository], tags, Min(c.MaxConcurrentTags, |tags|))
  }

  /** `copyRepository` up to the start of the worker pool: lists and sorts the
      source tags, narrows them stage by stage, subtracts the destination
      tags and clamps the number of workers. */
  method CopyRepository(c: CliInput, re: Regexp, listTags: Lister,
                        destRepository: ImageRef, srcRepository: ImageRef)
    returns (o: RepoOutcome)
    ensures o == CopyRepositorySpec(c, re, listTags, destRepository, srcRepository)
  {
    var srcListing := listTags(srcRepository);
    if srcListing.None? {
      return Failed([srcRepository], GettingSourceTags);
    }
    var listing := srcListing.value;
    var a := new Tag[|listing|](i requires 0 <= i < |listing| => listing[i]);
    assert a[..] == listing;
    SortTags(a);
    var srcTags := a[..];

    if c.SkipTags != "" {
      srcTags := Subtract(srcTags, SkipList(c));
    }
    if c.TagsPattern != "" {
      if !re.compiles(c.TagsPattern) {
        return Failed([srcRepository], InvalidRegexp(c.TagsPattern));
      }
      srcTags := Filter(srcTags, Matching(re, c.TagsPattern));
    }
    if c.SkipTagsPattern != "" {
      if !re.compiles(c.SkipTagsPattern) {
        return Failed([srcRepository], InvalidRegexp(c.SkipTagsPattern));
      }
      srcTags := Filter(srcTags, NotMatching(re, c.SkipTagsPattern));
    }

    var tags: seq<Tag>;
    var destTags := listTags(destRepository);
    if c.Overwrite || destTags.None? {
      tags := srcTags;
    } else {
      tags := Subtract(srcTags, destTags.value);
    }

    if |tags| == 0 {
      return AlreadySynced([srcRepository, destRepository]);
    }

    var numberOfConcurrentTags := c.MaxConcurrentTags;
    if |tags| < c.MaxConcurrentTags {
      numberOfConcurrentTags := |tags|;
    }
    o := Started([srcRepository, destRepository], tags, numberOfConcurrentTags);
  }
}

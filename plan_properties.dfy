/** What `copyRepository` promises about the plan it computes, proved about
    its reference definition `Repository.CopyRepositorySpec` (which the
    method `Repository.CopyRepository` is proved to compute). */
module PlanProperties {
  import opened Types
  import opened GoStrings
  import opened TagOrder
  import opened TagSets
  import opened Repository

  /** The skip-list rule as a condition that an empty option switches off. */
  function SkipRule(c: CliInput): Tag -> bool
  {
    t => c.SkipTags == "" || t !in SkipList(c)
  }

  function IncludeRule(c: CliInput, re: Regexp): Tag -> bool
  {
    t => c.TagsPattern == "" || re.matches(c.TagsPattern, t)
  }

  function ExcludeRule(c: CliInput, re: Regexp): Tag -> bool
  {
    t => c.SkipTagsPattern == "" || !re.matches(c.SkipTagsPattern, t)
  }

  lemma SkipStage(c: CliInput, s: seq<Tag>)
    ensures (if c.SkipTags != "" then Diff(s, SkipList(c)) else s) == Filter(s, SkipRule(c))
  {
    if c.SkipTags != "" {
      FilterExt(s, t => t !in SkipList(c), SkipRule(c));
    } else {
      FilterKeepsAll(s, SkipRule(c));
    }
  }

  lemma IncludeStage(c: CliInput, re: Regexp, s: seq<Tag>)
    ensures (if c.TagsPattern != "" then Filter(s, Matching(re, c.TagsPattern)) else s)
            == Filter(s, IncludeRule(c, re))
  {
    if c.TagsPattern != "" {
      FilterExt(s, Matching(re, c.TagsPattern), IncludeRule(c, re));
    } else {
      FilterKeepsAll(s, IncludeRule(c, re));
    }
  }

  lemma ExcludeStage(c: CliInput, re: Regexp, s: seq<Tag>)
    ensures (if c.SkipTagsPattern != "" then Filter(s, NotMatching(re, c.SkipTagsPattern)) else s)
            == Filter(s, ExcludeRule(c, re))
  {
    if c.SkipTagsPattern != "" {
      FilterExt(s, NotMatching(re, c.SkipTagsPattern), ExcludeRule(c, re));
    } else {
      FilterKeepsAll(s, ExcludeRule(c, re));
    }
  }

  /** The three stages together are one filter by all three rules. */
  lemma FilteredIsSelection(c: CliInput, re: Regexp, s: seq<Tag>)
    ensures FilteredTags(c, re, s) == Filter(s, SelectedBy(c, re))
  {
    SkipStage(c, s);
    var skipped := Filter(s, SkipRule(c));
    IncludeStage(c, re, skipped);
    var included := Filter(skipped, IncludeRule(c, re));
    ExcludeStage(c, re, included);
    FilterFilter(s, SkipRule(c), IncludeRule(c, re));
    FilterFilter(s, Both(SkipRule(c), IncludeRule(c, re)), ExcludeRule(c, re));
    FilterExt(s, Both(Both(SkipRule(c), IncludeRule(c, re)), ExcludeRule(c, re)), SelectedBy(c, re));
  }

  /** With no skip list and no patterns nothing is filtered out. */
  lemma NoRulesNoFiltering(c: CliInput, re: Regexp, s: seq<Tag>)
    requires c.SkipTags == "" && c.TagsPattern == "" && c.SkipTagsPattern == ""
    ensures FilteredTags(c, re, s) == s
  {
    FilteredIsSelection(c, re, s);
    FilterKeepsAll(s, SelectedBy(c, re));
  }

  /** Filtering an already filtered list again changes nothing. */
  lemma FilteringIdempotent(c: CliInput, re: Regexp, s: seq<Tag>)
    ensures FilteredTags(c, re, FilteredTags(c, re, s)) == FilteredTags(c, re, s)
  {
    FilteredIsSelection(c, re, s);
    FilteredIsSelection(c, re, FilteredTags(c, re, s));
    FilterIdempotent(s, SelectedBy(c, re));
  }

  /** Whether a listed tag ends up in the plan: it passes the three rules
      and, unless subtraction is skipped, is absent from the destination. */
  predicate Planned(c: CliInput, re: Regexp, destTags: Option<seq<Tag>>, t: Tag)
  {
    Selected(c, re, t) && (c.Overwrite || destTags.None? || t !in destTags.value)
  }

  function PlannedBy(c: CliInput, re: Regexp, destTags: Option<seq<Tag>>): Tag -> bool
  {
    t => Planned(c, re, destTags, t)
  }

  /** The plan is the sorted listing filtered by one condition per tag. */
  lemma PlanIsSelectionOfSortedListing(c: CliInput, re: Regexp, listing: seq<Tag>, destTags: Option<seq<Tag>>)
    ensures PlanTags(c, FilteredTags(c, re, SortSpec(listing)), destTags)
            == Filter(SortSpec(listing), PlannedBy(c, re, destTags))
  {
    var sorted := SortSpec(listing);
    FilteredIsSelection(c, re, sorted);
    var filtered := Filter(sorted, SelectedBy(c, re));
    if c.Overwrite || destTags.None? {
      FilterExt(sorted, SelectedBy(c, re), PlannedBy(c, re, destTags));
    } else {
      var d := destTags.value;
      FilterFilter(sorted, SelectedBy(c, re), t => t !in d);
      FilterExt(sorted, Both(SelectedBy(c, re), t => t !in d), PlannedBy(c, re, destTags));
    }
  }

  /** A started plan is ascending, only deletes from the sorted listing, and
      holds exactly the listed tags that pass the rules and the subtraction. */
  lemma StartedPlanShape(c: CliInput, re: Regexp, listTags: Lister, destRepository: ImageRef, srcRepository: ImageRef)
    ensures var o := CopyRepositorySpec(c, re, listTags, destRepository, srcRepository);
      o.Started? ==>
        && listTags(srcRepository).Some?
        && Sorted(o.plan)
        && IsSubsequence(o.plan, SortSpec(listTags(srcRepository).value))
        && (forall t :: t in o.plan <==>
              t in listTags(srcRepository).value && Planned(c, re, listTags(destRepository), t))
  {
    var o := CopyRepositorySpec(c, re, listTags, destRepository, srcRepository);
    if o.Started? {
      var listing := listTags(srcRepository).value;
      var sorted := SortSpec(listing);
      PlanIsSelectionOfSortedListing(c, re, listing, listTags(destRepository));
      FilterSorted(sorted, PlannedBy(c, re, listTags(destRepository)));
      FilterIsSubsequence(sorted, PlannedBy(c, re, listTags(destRepository)));
      forall t ensures t in sorted <==> t in listing {
        assert t in sorted <==> t in multiset(sorted);
      }
    }
  }

  /** Every planned tag obeys each rule whose option is set. */
  lemma PlannedTagsObeyRules(c: CliInput, re: Regexp, listTags: Lister, destRepository: ImageRef, srcRepository: ImageRef, t: Tag)
    ensures var o := CopyRepositorySpec(c, re, listTags, destRepository, srcRepository);
      o.Started? && t in o.plan ==>
        && (c.SkipTags != "" ==> t !in Split(c.SkipTags, ','))
        && (c.TagsPattern != "" ==> re.matches(c.TagsPattern, t))
        && (c.SkipTagsPattern != "" ==> !re.matches(c.SkipTagsPattern, t))
  {
    StartedPlanShape(c, re, listTags, destRepository, srcRepository);
  }

  /** On `Overwrite`, or when the destination listing fails, the plan is the
      filtered listing; otherwise it is the filtered listing minus the
      destination tags and shares no tag with them. */
  lemma PlanAgainstDestination(c: CliInput, re: Regexp, listTags: Lister, destRepository: ImageRef, srcRepository: ImageRef)
    ensures var o := CopyRepositorySpec(c, re, listTags, destRepository, srcRepository);
      o.Started? ==>
        var filtered := FilteredTags(c, re, SortSpec(listTags(srcRepository).value));
        var destTags := listTags(destRepository);
        if c.Overwrite || destTags.None? then o.plan == filtered
        else o.plan == Diff(filtered, destTags.value) && forall t :: t in destTags.value ==> t !in o.plan
  {
  }

  /** The early errors: a failed source listing, or a pattern that does not
      compile (the include pattern is checked first). Either way only the
      source repository was listed and no copy starts; when the listing
      succeeds and both patterns compile, no error is returned. */
  lemma EarlyErrors(c: CliInput, re: Regexp, listTags: Lister, destRepository: ImageRef, srcRepository: ImageRef)
    ensures var o := CopyRepositorySpec(c, re, listTags, destRepository, srcRepository);
      && (o.Failed? <==> listTags(srcRepository).None? || !PatternsCompile(c, re))
      && (o.Failed? ==> o.listed == [srcRepository])
      && (listTags(srcRepository).None? ==> o == Failed([srcRepository], GettingSourceTags))
      && (listTags(srcRepository).Some? && c.TagsPattern != "" && !re.compiles(c.TagsPattern) ==>
            o.err == InvalidRegexp(c.TagsPattern))
      && (listTags(srcRepository).Some? && PatternsCompile(c, re) ==>
            o.listed == [srcRepository, destRepository])
  {
  }

  /** An empty plan ends in the "already synced" exit, a non-empty one starts
      the workers. */
  lemma AlreadySyncedExactlyWhenPlanEmpty(c: CliInput, re: Regexp, listTags: Lister, destRepository: ImageRef, srcRepository: ImageRef)
    requires listTags(srcRepository).Some? && PatternsCompile(c, re)
    ensures var o := CopyRepositorySpec(c, re, listTags, destRepository, srcRepository);
      var tags := PlanTags(c, FilteredTags(c, re, SortSpec(listTags(srcRepository).value)), listTags(destRepository));
      (o.AlreadySynced? <==> tags == []) && (o.Started? <==> tags != []) &&
      (o.Started? ==> o.plan == tags && o.plan != [])
  {
  }

  /** The worker count is `min(MaxConcurrentTags, len(tags))`, and at least
      one and at most one per tag when `MaxConcurrentTags` is positive. */
  lemma WorkerCountBounds(c: CliInput, re: Regexp, listTags: Lister, destRepository: ImageRef, srcRepository: ImageRef)
    ensures var o := CopyRepositorySpec(c, re, listTags, destRepository, srcRepository);
      o.Started? ==>
        && o.workers <= c.MaxConcurrentTags
        && o.workers <= |o.plan|
        && (o.workers == c.MaxConcurrentTags || o.workers == |o.plan|)
        && (c.MaxConcurrentTags >= 1 ==> 1 <= o.workers <= |o.plan|)
  {
  }

  /** When every listed tag is already at the destination and nothing forces
      a copy, the run stops as already synced. */
  lemma InSyncWhenDestinationHasAll(c: CliInput, re: Regexp, listTags: Lister, destRepository: ImageRef, srcRepository: ImageRef)
    requires listTags(srcRepository).Some? && listTags(destRepository).Some?
    requires PatternsCompile(c, re) && !c.Overwrite
    requires forall t :: t in listTags(srcRepository).value ==> t in listTags(destRepository).value
    ensures CopyRepositorySpec(c, re, listTags, destRepository, srcRepository).AlreadySynced?
  {
    var listing := listTags(srcRepository).value;
    var sorted := SortSpec(listing);
    var filtered := FilteredTags(c, re, sorted);
    FilteredIsSelection(c, re, sorted);
    forall t | t in filtered ensures t in listTags(destRepository).value {
      assert t in sorted;
      assert t in multiset(sorted);
      assert t in listing;
    }
    DiffEmptyIff(filtered, listTags(destRepository).value);
  }

  /** A worked run in three steps: tags a, b, c, latest are already in
      order; the skip list "b" and an include pattern that matches only a
      and c leave a and c; subtracting the destination tag a leaves c. */
  lemma ExampleListingSorted()
    ensures SortSpec(["a", "b", "c", "latest"]) == ["a", "b", "c", "latest"]
  {
    var listing: seq<Tag> := ["a", "b", "c", "latest"];
    assert Le("a", "b") && Le("b", "c") && Le("c", "latest");
    assert Le("a", "c") by { LeTransitive("a", "b", "c"); }
    assert Le("a", "latest") by { LeTransitive("a", "c", "latest"); }
    assert Le("b", "latest") by { LeTransitive("b", "c", "latest"); }
    assert Sorted(listing);
    SortedUnique(SortSpec(listing), listing);
  }

  lemma ExampleSkip()
    ensures Split("b", ',') == ["b"]
    ensures Diff(["a", "b", "c", "latest"], ["b"]) == ["a", "c", "latest"]
  {
    assert Split("", ',') == [""];
    assert "b"[1..] == "";
    assert Split("b", ',') == [['b'] + ""];
    assert ['b'] + "" == "b";
    var listing: seq<Tag> := ["a", "b", "c", "latest"];
    assert listing[1..] == ["b", "c", "latest"] && listing[2..] == ["c", "latest"] && listing[3..] == ["latest"];
  }

  lemma ExampleInclude(re: Regexp)
    requires forall t :: re.matches("^[ac]$", t) <==> t == "a" || t == "c"
    ensures Filter(["a", "c", "latest"], Matching(re, "^[ac]$")) == ["a", "c"]
  {
    var skipped: seq<Tag> := ["a", "c", "latest"];
    assert skipped[1..] == ["c", "latest"] && skipped[2..] == ["latest"];
    assert !Matching(re, "^[ac]$")("latest");
  }

  lemma ExampleStages(c: CliInput, re: Regexp)
    requires c.SkipTags == "b" && c.TagsPattern == "^[ac]$" && c.SkipTagsPattern == ""
    requires forall t :: re.matches("^[ac]$", t) <==> t == "a" || t == "c"
    ensures FilteredTags(c, re, ["a", "b", "c", "latest"]) == ["a", "c"]
  {
    ExampleSkip();
    ExampleInclude(re);
    assert SkipList(c) == ["b"];
  }

  lemma ExampleSubtract()
    ensures Diff(["a", "c"], ["a"]) == ["c"]
  {
    var included: seq<Tag> := ["a", "c"];
    assert included[1..] == ["c"];
  }
}

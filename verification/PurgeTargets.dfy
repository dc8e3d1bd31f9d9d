/**
 Which images a run deletes. The scan dates a tag's image at one call, and the deletion resolves the tag again at a
 later one; other users may move the tag in between.
 */
module PurgeTargets {
  import opened PurgeAccounting
  import opened PurgeOutcome
  import opened PurgeRepeat
  import opened PurgeRun
  import opened RegistryClient
  import opened Retention
  import opened Sums
  import opened Text

  /** The manifest that the tag names when the next remote call is made. */
  function Resolved(env: Env, w: World, repo: string, tag: string): Option<string> {
    var (remoteRepo, remoteTag) := SplitRef(Ref(repo, tag));
    Lookup(Call(env, w).registry, remoteRepo, remoteTag)
  }

  /** In state `seen` the tag names manifest `digest`, which carries a date. */
  ghost predicate Dates(env: Env, seen: World, repo: string, t: TagData, digest: string) {
    && !env.refuses(seen.calls) && Resolved(env, seen, repo, t.name) == Some(digest)
    && env.image(digest).created == t.created != 0
  }

  // ---------- Every dated tag was seen by the scan ----------

  /** `seen` is the state before the call for the `j`-th of the given tags. */
  ghost predicate SeenAt(env: Env, sc: Scan, repo: string, tags: seq<string>, j: nat, seen: World, tag: string) {
    j < |tags| && tags[j] == tag && seen == ScanTags(env, sc, repo, tags[..j]).world
  }

  /** `seen` is the state of the scan in which it asks for the image of the tag. */
  ghost predicate SeenInScan(env: Env, start: Scan, catalog: seq<string>, seen: World, repo: string, tag: string) {
    exists i: nat, j: nat :: i < |catalog| && catalog[i] == repo &&
      SeenInRepo(env, ScanAll(env, start, catalog[..i]), repo, j, seen, tag)
  }

  ghost predicate SeenInRepo(env: Env, before: Scan, repo: string, j: nat, seen: World, tag: string) {
    var (w, tags) := Fetch(env, before.world, repo);
    tags.Some? && SeenAt(env, before.(world := w), repo, tags.value, j, seen, tag)
  }

  lemma ScanTagDates(env: Env, sc: Scan, repo: string, tag: string, x: string, t: TagData)
    requires t in DatedOf(ScanTag(env, sc, repo, tag).dated, x) && t !in DatedOf(sc.dated, x)
    ensures x == repo && t.name == tag
    ensures exists digest :: Dates(env, sc.world, repo, t, digest)
  {
    var (w, info) := GetInfo(env, sc.world, Ref(repo, tag));
    hide SplitRef;
    assert Dates(env, sc.world, repo, t, Resolved(env, sc.world, repo, tag).value);
  }

  lemma {:induction false} ScanTagsDates(env: Env, sc: Scan, repo: string, tags: seq<string>, x: string, t: TagData)
      returns (j: nat, seen: World)
    requires t in DatedOf(ScanTags(env, sc, repo, tags).dated, x) && t !in DatedOf(sc.dated, x)
    ensures x == repo && SeenAt(env, sc, repo, tags, j, seen, t.name)
    ensures exists digest :: Dates(env, seen, repo, t, digest)
  {
    hide ScanTag, Dates;
    assert tags != [];
    var n := |tags| - 1;
    var before := ScanTags(env, sc, repo, tags[..n]);
    if t in DatedOf(before.dated, x) {
      j, seen := ScanTagsDates(env, sc, repo, tags[..n], x, t);
      assert tags[..n][..j] == tags[..j];
    } else {
      ScanTagDates(env, before, repo, tags[n], x, t);
      j, seen := n, before.world;
    }
  }

  lemma {:induction false} ScanAllDates(env: Env, start: Scan, catalog: seq<string>, x: string, t: TagData)
      returns (seen: World, digest: string)
    requires t in DatedOf(ScanAll(env, start, catalog).dated, x) && t !in DatedOf(start.dated, x)
    ensures SeenInScan(env, start, catalog, seen, x, t.name) && Dates(env, seen, x, t, digest)
  {
    hide ScanTags, Dates, Fetch;
    assert catalog != [];
    var n := |catalog| - 1;
    var before := ScanAll(env, start, catalog[..n]);
    var (w, tags) := Fetch(env, before.world, catalog[n]);
    if t in DatedOf(before.dated, x) {
      seen, digest := ScanAllDates(env, start, catalog[..n], x, t);
      SeenLonger(env, start, catalog, n, seen, x, t.name);
    } else {
      var j;
      j, seen := ScanTagsDates(env, before.(world := w), catalog[n], tags.value, x, t);
      digest :| Dates(env, seen, x, t, digest);
      assert SeenInRepo(env, before, x, j, seen, t.name);
    }
  }

  lemma SeenLonger(env: Env, start: Scan, catalog: seq<string>, n: nat, seen: World, repo: string, tag: string)
    requires n <= |catalog| && SeenInScan(env, start, catalog[..n], seen, repo, tag)
    ensures SeenInScan(env, start, catalog, seen, repo, tag)
  {
    hide SeenInRepo, ScanAll;
    var i: nat, j: nat :| i < n && catalog[..n][i] == repo &&
      SeenInRepo(env, ScanAll(env, start, catalog[..n][..i]), repo, j, seen, tag);
    assert catalog[..n][..i] == catalog[..i];
  }

  /**
   Whatever fails and whoever interferes: for every deletion that a run requests, the scan has seen the tag, on an image
   that the policy allows to purge.
   */
  lemma RequestWasSeen(env: Env, w: World, c: RunConfig, repos: seq<string>, now: int, ref: (string, string))
      returns (seen: World, digest: string)
    requires ref in Requests(PlansOf(env, w, c, repos, now))
    ensures SeenInScan(env, Scan(w, map[], map[], []), Catalog(c, repos), seen, ref.0, ref.1)
    ensures var t := TagData(ref.1, env.image(digest).created);
            Dates(env, seen, ref.0, t, digest) && Candidate(c.policy, ref.0, now, t)
  {
    hide ScanAll, Plan, Catalog, SeenInScan, Candidate, AllRefs, SortedKeys;
    var plans := PlansOf(env, w, c, repos, now);
    KeysInPlans(plans);
    RefsOfPlans(plans, SortedKeys(plans.Keys), ref);
    var t := PurgedNameIsListed(c.policy, ref.0, now, ScanOf(env, w, c, repos).dated[ref.0], ref.1);
    seen, digest := ScanAllDates(env, Scan(w, map[], map[], []), Catalog(c, repos), ref.0, t);
    hide Dates;
    assert t == TagData(ref.1, env.image(digest).created) by {
      DatesIt(env, seen, ref.0, t, digest);
    }
  }

  lemma DatesIt(env: Env, seen: World, repo: string, t: TagData, digest: string)
    requires Dates(env, seen, repo, t, digest)
    ensures env.image(digest).created == t.created != 0
  {
  }

  // ---------- What the scan finds, and what it cannot read ----------

  /** In state `seen` the image of the tag cannot be read: the call fails, or the tag is gone. */
  ghost predicate Unreadable(env: Env, seen: World, repo: string, tag: string) {
    env.refuses(seen.calls) || Resolved(env, seen, repo, tag).None?
  }

  ghost predicate UnreadableAt(env: Env, sc: Scan, repo: string, tags: seq<string>, tag: string) {
    exists j: nat, seen :: SeenAt(env, sc, repo, tags, j, seen, tag) && Unreadable(env, seen, repo, tag)
  }

  ghost predicate DatedAt(env: Env, sc: Scan, repo: string, tags: seq<string>, t: TagData) {
    exists j: nat, seen, digest :: SeenAt(env, sc, repo, tags, j, seen, t.name) && Dates(env, seen, repo, t, digest)
  }

  /** One scanned tag: an error if it cannot be read, an entry if it has a date, else nothing. */
  lemma ScanTagIff(env: Env, sc: Scan, repo: string, tag: string, x: string, other: string, t: TagData)
    ensures var r := ScanTag(env, sc, repo, tag);
            && (InfoError(x, other) in r.errors <==>
                  InfoError(x, other) in sc.errors
                  || (x == repo && other == tag && Unreadable(env, sc.world, repo, tag)))
            && (t in DatedOf(r.dated, x) <==>
                  t in DatedOf(sc.dated, x)
                  || (x == repo && t.name == tag && exists digest :: Dates(env, sc.world, repo, t, digest)))
  {
    hide SplitRef, Lookup;
    var info := GetInfo(env, sc.world, Ref(repo, tag)).1;
    var found := Resolved(env, sc.world, repo, tag);
    if info.Some? && info.value.created != 0 {
      var entry := TagData(tag, info.value.created);
      assert Dates(env, sc.world, repo, entry, found.value);
      var before := DatedOf(sc.dated, repo);
      assert t in before + [entry] <==> t in before || t == entry;
    }
  }

  lemma SeenAtSnoc(env: Env, sc: Scan, repo: string, tags: seq<string>, j: nat, seen: World, tag: string)
    requires tags != []
    ensures var init, last := tags[..|tags| - 1], tags[|tags| - 1];
            SeenAt(env, sc, repo, tags, j, seen, tag) <==>
              SeenAt(env, sc, repo, init, j, seen, tag)
              || (j == |init| && tag == last && seen == ScanTags(env, sc, repo, init).world)
  {
    var init := tags[..|tags| - 1];
    if j <= |init| {
      assert init[..j] == tags[..j];
    }
  }

  lemma UnreadableAtSnoc(env: Env, sc: Scan, repo: string, tags: seq<string>, tag: string)
    requires tags != []
    ensures var init, last := tags[..|tags| - 1], tags[|tags| - 1];
            UnreadableAt(env, sc, repo, tags, tag) <==>
              UnreadableAt(env, sc, repo, init, tag)
              || (tag == last && Unreadable(env, ScanTags(env, sc, repo, init).world, repo, tag))
  {
    hide Unreadable, SeenAt, ScanTags;
    var init := tags[..|tags| - 1];
    SeenAtSnoc(env, sc, repo, tags, |init|, ScanTags(env, sc, repo, init).world, tag);
    if j: nat, seen :| SeenAt(env, sc, repo, tags, j, seen, tag) && Unreadable(env, seen, repo, tag) {
      SeenAtSnoc(env, sc, repo, tags, j, seen, tag);
    }
    if j: nat, seen :| SeenAt(env, sc, repo, init, j, seen, tag) && Unreadable(env, seen, repo, tag) {
      SeenAtSnoc(env, sc, repo, tags, j, seen, tag);
    }
  }

  lemma DatedAtSnoc(env: Env, sc: Scan, repo: string, tags: seq<string>, t: TagData)
    requires tags != []
    ensures var init, last := tags[..|tags| - 1], tags[|tags| - 1];
            DatedAt(env, sc, repo, tags, t) <==>
              DatedAt(env, sc, repo, init, t)
              || (t.name == last && exists digest :: Dates(env, ScanTags(env, sc, repo, init).world, repo, t, digest))
  {
    hide Dates, SeenAt, ScanTags;
    var init := tags[..|tags| - 1];
    SeenAtSnoc(env, sc, repo, tags, |init|, ScanTags(env, sc, repo, init).world, t.name);
    if j: nat, seen, digest :| SeenAt(env, sc, repo, tags, j, seen, t.name) && Dates(env, seen, repo, t, digest) {
      SeenAtSnoc(env, sc, repo, tags, j, seen, t.name);
    }
    if j: nat, seen, digest :| SeenAt(env, sc, repo, init, j, seen, t.name) && Dates(env, seen, repo, t, digest) {
      SeenAtSnoc(env, sc, repo, tags, j, seen, t.name);
    }
  }

  lemma {:induction false} ScanTagsIff(env: Env, sc: Scan, repo: string, tags: seq<string>, x: string, tag: string,
                                       t: TagData)
    ensures var r := ScanTags(env, sc, repo, tags);
            && (InfoError(x, tag) in r.errors <==>
                  InfoError(x, tag) in sc.errors || (x == repo && UnreadableAt(env, sc, repo, tags, tag)))
            && (t in DatedOf(r.dated, x) <==>
                  t in DatedOf(sc.dated, x) || (x == repo && DatedAt(env, sc, repo, tags, t)))
  {
    hide ScanTag, Unreadable, Dates, SeenAt;
    if tags == [] {
      NothingSeen(env, sc, repo);
    } else {
      hide UnreadableAt, DatedAt;
      var init, last := tags[..|tags| - 1], tags[|tags| - 1];
      ScanTagsIff(env, sc, repo, init, x, tag, t);
      ScanTagIff(env, ScanTags(env, sc, repo, init), repo, last, x, tag, t);
      UnreadableAtSnoc(env, sc, repo, tags, tag);
      DatedAtSnoc(env, sc, repo, tags, t);
    }
  }

  lemma NothingSeen(env: Env, sc: Scan, repo: string)
    ensures forall j: nat, seen, tag :: !SeenAt(env, sc, repo, [], j, seen, tag)
  {
  }

  lemma SeenInScanSnoc(env: Env, start: Scan, catalog: seq<string>, seen: World, repo: string, tag: string)
    requires catalog != []
    ensures var init, last := catalog[..|catalog| - 1], catalog[|catalog| - 1];
            SeenInScan(env, start, catalog, seen, repo, tag) <==>
              SeenInScan(env, start, init, seen, repo, tag)
              || (last == repo && SeenThere(env, ScanAll(env, start, init), repo, seen, tag))
  {
    hide SeenInRepo, ScanAll;
    var n := |catalog| - 1;
    if SeenInScan(env, start, catalog[..n], seen, repo, tag) {
      SeenLonger(env, start, catalog, n, seen, repo, tag);
    }
    if i: nat, j: nat :|
        i < |catalog| && catalog[i] == repo
        && SeenInRepo(env, ScanAll(env, start, catalog[..i]), repo, j, seen, tag) {
      if i < n {
        assert catalog[..n][..i] == catalog[..i] && catalog[..n][i] == repo;
      }
    }
  }

  ghost predicate SeenThere(env: Env, before: Scan, repo: string, seen: World, tag: string) {
    exists j: nat :: SeenInRepo(env, before, repo, j, seen, tag)
  }

  /** Some call of the scan for the tag cannot read it. */
  ghost predicate UnreadableInScan(env: Env, start: Scan, catalog: seq<string>, repo: string, tag: string) {
    exists seen :: SeenInScan(env, start, catalog, seen, repo, tag) && Unreadable(env, seen, repo, tag)
  }

  /** Some call of the scan for the tag finds an image of that date. */
  ghost predicate DatedInScan(env: Env, start: Scan, catalog: seq<string>, repo: string, t: TagData) {
    exists seen, digest :: SeenInScan(env, start, catalog, seen, repo, t.name) && Dates(env, seen, repo, t, digest)
  }

  ghost predicate UnreadableThere(env: Env, before: Scan, repo: string, tag: string) {
    exists seen :: SeenThere(env, before, repo, seen, tag) && Unreadable(env, seen, repo, tag)
  }

  ghost predicate DatedThere(env: Env, before: Scan, repo: string, t: TagData) {
    exists seen, digest :: SeenThere(env, before, repo, seen, t.name) && Dates(env, seen, repo, t, digest)
  }

  lemma InScanSnoc(env: Env, start: Scan, catalog: seq<string>, repo: string, tag: string, t: TagData)
    requires catalog != []
    ensures var init, last := catalog[..|catalog| - 1], catalog[|catalog| - 1];
            var before := ScanAll(env, start, init);
            && (UnreadableInScan(env, start, catalog, repo, tag) <==>
                  UnreadableInScan(env, start, init, repo, tag)
                  || (last == repo && UnreadableThere(env, before, repo, tag)))
            && (DatedInScan(env, start, catalog, repo, t) <==>
                  DatedInScan(env, start, init, repo, t) || (last == repo && DatedThere(env, before, repo, t)))
  {
    hide SeenInScan, SeenThere, Unreadable, Dates, ScanAll;
    forall seen, name: string
      ensures SeenInScan(env, start, catalog, seen, repo, name) <==>
                SeenInScan(env, start, catalog[..|catalog| - 1], seen, repo, name)
                || (catalog[|catalog| - 1] == repo
                    && SeenThere(env, ScanAll(env, start, catalog[..|catalog| - 1]), repo, seen, name))
    {
      SeenInScanSnoc(env, start, catalog, seen, repo, name);
    }
  }

  lemma RepoIff(env: Env, before: Scan, repo: string, x: string, tag: string, t: TagData)
    ensures var r := ScanRepo(env, before, repo);
            && (InfoError(x, tag) in r.errors <==>
                  InfoError(x, tag) in before.errors || (x == repo && UnreadableThere(env, before, repo, tag)))
            && (t in DatedOf(r.dated, x) <==>
                  t in DatedOf(before.dated, x) || (x == repo && DatedThere(env, before, repo, t)))
  {
    var (w, tags) := Fetch(env, before.world, repo);
    hide ScanTags, Unreadable, Dates, SeenAt, Fetch;
    if tags.Some? {
      var listed := before.(world := w);
      ScanTagsIff(env, listed, repo, tags.value, x, tag, t);
      forall seen, name: string
        ensures SeenThere(env, before, repo, seen, name) <==>
                  exists j: nat :: SeenAt(env, listed, repo, tags.value, j, seen, name)
      {
        forall j: nat ensures SeenInRepo(env, before, repo, j, seen, name) <==>
            SeenAt(env, listed, repo, tags.value, j, seen, name)
        {
        }
      }
      hide SeenThere;
      assert UnreadableThere(env, before, repo, tag) <==> UnreadableAt(env, listed, repo, tags.value, tag);
      assert DatedThere(env, before, repo, t) <==> DatedAt(env, listed, repo, tags.value, t);
    }
  }

  /**
   Whatever fails and whoever interferes: the scan reports a tag as unreadable if and only if one of its calls for that
   tag fails or finds the tag gone, and it dates a tag if and only if one of them finds an image with that date.
   */
  lemma {:induction false} ScanIff(env: Env, w: World, catalog: seq<string>, repo: string, tag: string, t: TagData)
    ensures var start := Scan(w, map[], map[], []);
            var r := ScanAll(env, start, catalog);
            && (InfoError(repo, tag) in r.errors <==> UnreadableInScan(env, start, catalog, repo, tag))
            && (t in DatedOf(r.dated, repo) <==> DatedInScan(env, start, catalog, repo, t))
  {
    hide ScanRepo, Unreadable, Dates, SeenInRepo;
    var start := Scan(w, map[], map[], []);
    if catalog != [] {
      hide UnreadableInScan, DatedInScan, UnreadableThere, DatedThere;
      var init, last := catalog[..|catalog| - 1], catalog[|catalog| - 1];
      ScanIff(env, w, init, repo, tag, t);
      RepoIff(env, ScanAll(env, start, init), last, repo, tag, t);
      InScanSnoc(env, start, catalog, repo, tag, t);
    }
  }

  lemma {:induction false} ScanTagsSameRegistry(env: Env, sc: Scan, repo: string, tags: seq<string>)
    requires Quiet(env)
    ensures ScanTags(env, sc, repo, tags).world.registry == sc.world.registry
  {
    hide GetInfo;
    if tags != [] {
      ScanTagsSameRegistry(env, sc, repo, tags[..|tags| - 1]);
      QuietInfo(env, ScanTags(env, sc, repo, tags[..|tags| - 1]).world, Ref(repo, tags[|tags| - 1]));
    }
  }

  lemma SeenInQuiet(env: Env, w: World, catalog: seq<string>, seen: World, repo: string, tag: string)
    requires Quiet(env) && Proper(w.registry)
    requires SeenInScan(env, Scan(w, map[], map[], []), catalog, seen, repo, tag)
    ensures seen.registry == w.registry
  {
    hide ScanTags, Fetch;
    var start := Scan(w, map[], map[], []);
    var i: nat, j: nat :| i < |catalog| && catalog[i] == repo &&
      SeenInRepo(env, ScanAll(env, start, catalog[..i]), repo, j, seen, tag);
    ScanAllFound(env, w, catalog[..i], repo);
    var before := ScanAll(env, start, catalog[..i]);
    QuietFetch(env, before.world, repo);
    var (w', tags) := Fetch(env, before.world, repo);
    ScanTagsSameRegistry(env, before.(world := w'), repo, tags.value[..j]);
  }

  /**
   Safety of a run that is the registry's only user, whichever calls fail: every requested deletion is of an existing
   tag, and its image has a date that the policy allows to purge.
   */
  lemma RequestsAreSafe(env: Env, w: World, c: RunConfig, repos: seq<string>, now: int, ref: (string, string))
    requires Quiet(env) && Proper(w.registry) && ref in Requests(PlansOf(env, w, c, repos, now))
    ensures var digest := Lookup(w.registry, ref.0, ref.1);
            && digest.Some? && env.image(digest.value).created != 0
            && Candidate(c.policy, ref.0, now, TagData(ref.1, env.image(digest.value).created))
  {
    hide ScanAll, Plan, Catalog, SeenInScan, Candidate, AllRefs, SortedKeys, Requests, PlansOf, PlansFrom, Proper,
      LastColon;
    var seen, digest := RequestWasSeen(env, w, c, repos, now, ref);
    SeenInQuiet(env, w, Catalog(c, repos), seen, ref.0, ref.1);
    QuietStart(env, w, c, repos, now);
    RequestExists(PlansOf(env, w, c, repos, now), w.registry, ref);
    SplitRefOfRef(ref.0, ref.1);
  }

  // ---------- The deletions of a run, one by one ----------

  /** The deletion loops, as one loop over the requests. */
  function ExecRefs(env: Env, ex: Exec, refs: seq<(string, string)>): (r: Exec)
    requires forall i :: 0 <= i < |refs| ==> refs[i].0 in ex.repositories
    ensures r.repositories.Keys == ex.repositories.Keys
  {
    if refs == [] then ex else
      ExecTag(env, ExecRefs(env, ex, refs[..|refs| - 1]), refs[|refs| - 1].0, refs[|refs| - 1].1)
  }

  lemma {:induction false} ExecRefsConcat(env: Env, ex: Exec, refs: seq<(string, string)>, more: seq<(string, string)>)
    requires forall i :: 0 <= i < |refs| ==> refs[i].0 in ex.repositories
    requires forall i :: 0 <= i < |more| ==> more[i].0 in ex.repositories
    ensures forall i :: 0 <= i < |refs + more| ==> (refs + more)[i].0 in ex.repositories
    ensures ExecRefs(env, ex, refs + more) == ExecRefs(env, ExecRefs(env, ex, refs), more)
  {
    hide ExecTag;
    if more == [] {
      assert refs + more == refs;
    } else {
      var init := more[..|more| - 1];
      ExecRefsConcat(env, ex, refs, init);
      assert (refs + more)[..|refs + more| - 1] == refs + init;
    }
  }

  lemma {:induction false} ExecTagsFlat(env: Env, ex: Exec, repo: string, tags: seq<string>)
    requires repo in ex.repositories
    ensures ExecTags(env, ex, repo, tags) == ExecRefs(env, ex, Refs(repo, tags))
  {
    hide ExecTag;
    if tags != [] {
      ExecTagsFlat(env, ex, repo, tags[..|tags| - 1]);
      assert Refs(repo, tags)[..|tags| - 1] == Refs(repo, tags[..|tags| - 1]);
    }
  }

  lemma {:induction false} ExecAllFlat(env: Env, ex: Exec, plans: map<string, RepoPlan>, order: seq<string>)
    requires plans.Keys == ex.repositories.Keys && forall i :: 0 <= i < |order| ==> order[i] in plans
    ensures forall i :: 0 <= i < |AllRefs(plans, order)| ==> AllRefs(plans, order)[i].0 in ex.repositories
    ensures ExecAll(env, ex, plans, order) == ExecRefs(env, ex, AllRefs(plans, order))
  {
    hide ExecTags, ExecRefs;
    if order == [] {
      NoRefs(env, ex);
    } else {
      var init, repo := order[..|order| - 1], order[|order| - 1];
      ExecAllFlat(env, ex, plans, init);
      ExecTagsFlat(env, ExecAll(env, ex, plans, init), repo, plans[repo].purge);
      ExecRefsConcat(env, ex, AllRefs(plans, init), Refs(repo, plans[repo].purge));
    }
  }

  lemma NoRefs(env: Env, ex: Exec)
    ensures ExecRefs(env, ex, []) == ex
  {
  }

  /** The state of a run before its `k`-th deletion. */
  ghost function BeforeDelete(env: Env, w: World, c: RunConfig, repos: seq<string>, now: int, k: nat): Exec
    requires k <= |Requests(PlansOf(env, w, c, repos, now))|
  {
    var start, plans := BeforeDeletes(env, w, c, repos, now), PlansOf(env, w, c, repos, now);
    KeysInPlans(plans);
    ExecAllFlat(env, start, plans, SortedKeys(plans.Keys));
    ExecRefs(env, start, Requests(plans)[..k])
  }

  /** These states lead from the start of a real run's deletions to their end, one request at a time. */
  lemma RunDeletes(env: Env, w: World, c: RunConfig, repos: seq<string>, now: int, k: nat)
    requires !c.dryRun && k <= |Requests(PlansOf(env, w, c, repos, now))|
    ensures BeforeDelete(env, w, c, repos, now, 0) == BeforeDeletes(env, w, c, repos, now)
    ensures var requests := Requests(PlansOf(env, w, c, repos, now));
            && BeforeDelete(env, w, c, repos, now, |requests|) == AfterDeletes(env, w, c, repos, now)
            && (k < |requests| ==>
                  requests[k].0 in BeforeDelete(env, w, c, repos, now, k).repositories
                  && BeforeDelete(env, w, c, repos, now, k + 1) ==
                     ExecTag(env, BeforeDelete(env, w, c, repos, now, k), requests[k].0, requests[k].1))
  {
    hide ExecTag, BeforeDeletes, PlansOf, AllRefs, SortedKeys, ExecAll;
    var start, plans := BeforeDeletes(env, w, c, repos, now), PlansOf(env, w, c, repos, now);
    KeysInPlans(plans);
    PlannedKeys(env, w, c, repos, now);
    ExecAllFlat(env, start, plans, SortedKeys(plans.Keys));
    var requests := Requests(plans);
    assert requests[..|requests|] == requests;
    if k < |requests| {
      assert requests[..k + 1][..k] == requests[..k];
    }
  }

  lemma PlannedKeys(env: Env, w: World, c: RunConfig, repos: seq<string>, now: int)
    ensures PlansOf(env, w, c, repos, now).Keys == BeforeDeletes(env, w, c, repos, now).repositories.Keys
  {
  }

  // ---------- The image that a deletion removes ----------

  /**
   The manifest that the reference names when it is deleted in state `at` is removed, in the registry as it then is.
   */
  ghost predicate Removes(env: Env, at: World, ref: (string, string), digest: string, after: Registry) {
    var drifted := env.drift(at.calls + 1, Call(env, at).registry);
    var repo := SplitRef(Ref(ref.0, ref.1)).0;
    Resolved(env, at, ref.0, ref.1) == Some(digest) && repo in drifted && after == WithoutDigest(drifted, repo, digest)
  }

  lemma DeleteRemoves(env: Env, at: World, repo: string, tag: string)
    requires Delete(env, at, repo, tag).1
    ensures exists digest :: Removes(env, at, (repo, tag), digest, Delete(env, at, repo, tag).0.registry)
  {
    hide SplitRef;
    assert Removes(env, at, (repo, tag), Resolved(env, at, repo, tag).value, Delete(env, at, repo, tag).0.registry);
  }

  /**
   Whatever fails and whoever interferes: a successful deletion of a run removes the image that the scan judged if and
   only if the tag names the same manifest at the resolving call as at the scan's call. Then the policy allows to purge
   it.
   */
  lemma DeletesScannedIff(env: Env, w: World, c: RunConfig, repos: seq<string>, now: int, k: nat)
      returns (seen: World, scanned: string, deleted: string)
    requires !c.dryRun && k < |Requests(PlansOf(env, w, c, repos, now))|
    requires var ref := Requests(PlansOf(env, w, c, repos, now))[k];
             Delete(env, BeforeDelete(env, w, c, repos, now, k).world, ref.0, ref.1).1
    ensures var ref, at := Requests(PlansOf(env, w, c, repos, now))[k], BeforeDelete(env, w, c, repos, now, k).world;
            && SeenInScan(env, Scan(w, map[], map[], []), Catalog(c, repos), seen, ref.0, ref.1)
            && Dates(env, seen, ref.0, TagData(ref.1, env.image(scanned).created), scanned)
            && Removes(env, at, ref, deleted, BeforeDelete(env, w, c, repos, now, k + 1).world.registry)
            && (deleted == scanned <==> Resolved(env, at, ref.0, ref.1) == Resolved(env, seen, ref.0, ref.1))
            && (deleted == scanned ==> Candidate(c.policy, ref.0, now, TagData(ref.1, env.image(deleted).created)))
  {
    hide PlansOf, Requests, BeforeDelete, SeenInScan, Catalog, Candidate, Delete, Resolved, WithoutDigest, SplitRef;
    var ref, at := Requests(PlansOf(env, w, c, repos, now))[k], BeforeDelete(env, w, c, repos, now, k).world;
    seen, scanned := RequestWasSeen(env, w, c, repos, now, ref);
    RunDeletes(env, w, c, repos, now, k);
    DeleteRemoves(env, at, ref.0, ref.1);
    deleted :| Removes(env, at, ref, deleted, Delete(env, at, ref.0, ref.1).0.registry);
  }
}

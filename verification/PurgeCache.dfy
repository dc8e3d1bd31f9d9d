/** The tag cache against the registry's own list, through single deletions and through a whole purge. */
module PurgeCache {
  import opened PurgeAccounting
  import opened PurgeOutcome
  import opened PurgeRepeat
  import opened PurgeRun
  import opened RegistryClient
  import opened Retention
  import opened Selection
  import opened Sums
  import opened Text

  /** No manifest has two tags. */
  ghost predicate UniqueDigests(entries: seq<Tagged>) {
    forall e, f :: e in entries && f in entries && e.digest == f.digest ==> e == f
  }

  lemma {:induction false} TagsSelect(entries: seq<Tagged>, p: Tagged -> bool, q: string -> bool)
    requires forall e :: e in entries ==> p(e) == q(e.tag)
    ensures Tags(Select(entries, p)) == Select(Tags(entries), q)
  {
    if entries != [] {
      var init, last := entries[..|entries| - 1], entries[|entries| - 1];
      TagsSelect(init, p, q);
      TagsInit(entries);
      assert last in entries;
    }
  }

  lemma TagsMember(entries: seq<Tagged>, tag: string)
    ensures tag in Tags(entries) <==> exists e :: e in entries && e.tag == tag
  {
    if tag in Tags(entries) {
      var i :| 0 <= i < |entries| && Tags(entries)[i] == tag;
      assert entries[i] in entries;
    }
    forall e | e in entries && e.tag == tag ensures tag in Tags(entries) {
      var i :| 0 <= i < |entries| && entries[i] == e;
      assert Tags(entries)[i] == tag;
    }
  }

  /** Removing by digest and removing by name agree exactly when no other tag has the digest. */
  lemma RemovalsAgree(entries: seq<Tagged>, e: Tagged)
    requires DistinctTags(entries) && e in entries
    ensures Tags(Select(entries, Not(HasDigest(e.digest)))) == Select(Tags(entries), Not(IsTag(e.tag)))
            <==> forall f :: f in entries && f.digest == e.digest ==> f == e
  {
    var left := Select(entries, Not(HasDigest(e.digest)));
    if forall f :: f in entries && f.digest == e.digest ==> f == e {
      forall f | f in entries ensures f.digest == e.digest <==> f.tag == e.tag {
        SameTagSameEntry(entries, e, f);
      }
      TagsSelect(entries, Not(HasDigest(e.digest)), Not(IsTag(e.tag)));
    } else {
      var f :| f in entries && f.digest == e.digest && f != e;
      SameTagSameEntry(entries, e, f);
      TagsMember(entries, f.tag);
      SelectMember(Tags(entries), Not(IsTag(e.tag)), f.tag);
      TagsMember(left, f.tag);
      forall g | g in left ensures g.tag != f.tag {
        SelectMember(entries, Not(HasDigest(e.digest)), g);
        SameTagSameEntry(entries, f, g);
      }
    }
  }

  lemma SameTagSameEntry(entries: seq<Tagged>, e: Tagged, f: Tagged)
    requires DistinctTags(entries) && e in entries && f in entries
    ensures e.tag == f.tag ==> e == f
  {
  }

  /**
   After a successful DeleteTag a cached list that was exact is still exact if and only if no other tag of the
   repository pointed to the deleted manifest: the registry drops all of them, the cache only the one named.
   */
  lemma DeleteKeepsSyncIff(env: Env, w: World, repo: string, tag: string)
    requires Quiet(env) && Proper(w.registry) && ':' !in tag && Synced(w, repo) && Delete(env, w, repo, tag).1
    ensures Synced(Delete(env, w, repo, tag).0, repo) <==>
            forall e :: e in w.registry[repo] && Some(e.digest) == DigestOf(w.registry[repo], tag) ==> e.tag == tag
  {
    hide Delete, Select, DistinctTags, Tags;
    var entries := w.registry[repo];
    var w' := Delete(env, w, repo, tag).0;
    QuietDelete(env, w, repo, tag);
    var digest := DigestOf(entries, tag).value;
    assert w'.registry[repo] == Select(entries, Not(HasDigest(digest)));
    assert w'.cache[repo] == Select(Tags(entries), Not(IsTag(tag)));
    assert ProperEntries(entries);
    DigestOfMember(entries, tag, digest);
    RemovalsAgree(entries, Tagged(tag, digest));
    forall f | f in entries ensures f.tag == tag ==> f == Tagged(tag, digest) {
      SameTagSameEntry(entries, Tagged(tag, digest), f);
    }
  }

  // ---------- Through a purge ----------

  /** Repository `x` of the registry is in step with the cache and has unique digests. */
  ghost predicate Exact(w: World, x: string) {
    Synced(w, x) && UniqueDigests(w.registry[x])
  }

  lemma DeleteKeepsExact(env: Env, w: World, repo: string, tag: string, x: string)
    requires Quiet(env) && Proper(w.registry) && ':' !in tag && Exact(w, x)
    ensures Exact(Delete(env, w, repo, tag).0, x) && Proper(Delete(env, w, repo, tag).0.registry)
  {
    QuietDelete(env, w, repo, tag);
    if Delete(env, w, repo, tag).1 {
      if repo == x {
        DeleteKeepsSyncIff(env, w, repo, tag);
        var digest := DigestOf(w.registry[x], tag).value;
        assert ProperEntries(w.registry[x]);
        DigestOfMember(w.registry[x], tag, digest);
      }
      hide Delete;
      var digest := Lookup(w.registry, repo, tag).value;
      SelectKeepsProper(w.registry[repo], Not(HasDigest(digest)));
      forall e ensures e in Select(w.registry[repo], Not(HasDigest(digest))) ==> e in w.registry[repo] {
        SelectMember(w.registry[repo], Not(HasDigest(digest)), e);
      }
    }
  }

  lemma {:induction false} ExecTagsKeepExact(env: Env, ex: Exec, repo: string, tags: seq<string>, x: string)
    requires Quiet(env) && Proper(ex.world.registry) && NoColons(tags) && repo in ex.repositories && Exact(ex.world, x)
    ensures var r := ExecTags(env, ex, repo, tags); Exact(r.world, x) && Proper(r.world.registry)
  {
    hide Exact, Proper, Delete;
    if tags != [] {
      var init, tag := tags[..|tags| - 1], tags[|tags| - 1];
      ExecTagsKeepExact(env, ex, repo, init, x);
      DeleteKeepsExact(env, ExecTags(env, ex, repo, init).world, repo, tag, x);
    }
  }

  lemma {:induction false} ExecAllKeepsExact(env: Env, ex: Exec, plans: map<string, RepoPlan>, order: seq<string>,
                                             x: string)
    requires Quiet(env) && Proper(ex.world.registry) && plans.Keys == ex.repositories.Keys && Exact(ex.world, x)
    requires forall i :: 0 <= i < |order| ==> order[i] in plans
    requires forall repo :: repo in plans ==> NoColons(plans[repo].purge)
    ensures var r := ExecAll(env, ex, plans, order); Exact(r.world, x) && Proper(r.world.registry)
  {
    hide Exact, Proper, ExecTags;
    if order != [] {
      var init, repo := order[..|order| - 1], order[|order| - 1];
      ExecAllKeepsExact(env, ex, plans, init, x);
      ExecTagsKeepExact(env, ExecAll(env, ex, plans, init), repo, plans[repo].purge, x);
    }
  }

  /** The number of the list call for the `i`-th repository of the scan. */
  function ListCall(env: Env, w: World, catalog: seq<string>, i: nat): nat
    requires i <= |catalog|
  {
    ScanAll(env, Scan(w, map[], map[], []), catalog[..i]).world.calls
  }

  /** Some list call for repository `x` in the scan of `catalog` is served. */
  ghost predicate ListServed(env: Env, w: World, catalog: seq<string>, x: string) {
    exists i :: 0 <= i < |catalog| && catalog[i] == x && !env.refuses(ListCall(env, w, catalog, i))
  }

  lemma ScanRepoExact(env: Env, before: Scan, repo: string, x: string)
    requires Quiet(env) && Proper(before.world.registry) && x in before.world.registry
    ensures ScanRepo(env, before, repo).world.registry == before.world.registry
    ensures Synced(before.world, x) || (repo == x && !env.refuses(before.world.calls))
            ==> Synced(ScanRepo(env, before, repo).world, x)
  {
    hide ScanTags, Proper, Tags, DatedOf;
    var (w, tags) := Fetch(env, before.world, repo);
    QuietFetch(env, before.world, repo);
    if tags.Some? {
      ScanTagsContent(env, before.(world := w), repo, w.registry[repo]);
    }
  }

  /** A list that is exact stays so through the scan, and one served list call makes it exact. */
  lemma {:induction false} ScanIsExact(env: Env, w: World, catalog: seq<string>, x: string)
    requires Quiet(env) && Proper(w.registry) && x in w.registry
    ensures ScanAll(env, Scan(w, map[], map[], []), catalog).world.registry == w.registry
    ensures Synced(w, x) || ListServed(env, w, catalog, x)
            ==> Synced(ScanAll(env, Scan(w, map[], map[], []), catalog).world, x)
  {
    hide ScanRepo, Synced, Proper;
    if catalog != [] {
      var n := |catalog| - 1;
      var init, repo := catalog[..n], catalog[n];
      var before := ScanAll(env, Scan(w, map[], map[], []), init);
      ScanIsExact(env, w, init, x);
      ScanRepoExact(env, before, repo, x);
      if ListServed(env, w, catalog, x) && !(repo == x && !env.refuses(before.world.calls)) {
        var i :| 0 <= i <= n && catalog[i] == x && !env.refuses(ListCall(env, w, catalog, i));
        assert i < n && init[i] == x && init[..i] == catalog[..i];
        assert ListCall(env, w, init, i) == ListCall(env, w, catalog, i);
      }
    }
  }

  /**
   Whichever calls fail: after a run the cached list of a repository without shared digests is the registry's list, even
   if the run deleted some of its tags, provided that the list was exact before the run or was served in its scan.
   */
  lemma CacheAfterPurge(env: Env, w: World, c: RunConfig, repos: seq<string>, now: int, x: string)
    requires Quiet(env) && Proper(w.registry) && x in w.registry && UniqueDigests(w.registry[x])
    requires Synced(w, x) || ListServed(env, w, Catalog(c, repos), x)
    ensures Synced(AfterDeletes(env, w, c, repos, now).world, x)
  {
    hide ScanAll, Plan, Catalog, ExecAll, UniqueDigests, Synced, SortedKeys, PlansFrom, ListServed;
    var start, plans := BeforeDeletes(env, w, c, repos, now), PlansOf(env, w, c, repos, now);
    QuietStart(env, w, c, repos, now);
    ScanIsExact(env, w, Catalog(c, repos), x);
    if !c.dryRun {
      PlansNoColons(plans, w.registry);
      KeysInPlans(plans);
      ExecAllKeepsExact(env, start, plans, SortedKeys(plans.Keys), x);
    }
  }

  /** A tag's manifest has been deleted if and only if some candidate of the repository is that manifest. */
  lemma HitIffRequested(env: Env, w: World, c: RunConfig, repos: seq<string>, now: int, x: string, e: Tagged)
    requires Quiet(env) && Served(env) && Proper(w.registry) && !c.dryRun && x in w.registry
    ensures Hit(AfterDeletes(env, w, c, repos, now).done, w.registry[x], x, e) <==>
            exists tag :: (x, tag) in Requests(PlansOf(env, w, c, repos, now)) &&
              DigestOf(w.registry[x], tag) == Some(e.digest)
  {
    hide AfterDeletes, PlansOf, LeftBy, DistinctManifests, Requests, Hit, DigestOf;
    var done, requests := AfterDeletes(env, w, c, repos, now).done, Requests(PlansOf(env, w, c, repos, now));
    RegistryAfterPurge(env, w, c, repos, now);
    EveryCandidateIsHit(env, w, c, repos, now);
    HitByTag(done, w.registry[x], x, e);
    if tag :| (x, tag) in requests && DigestOf(w.registry[x], tag) == Some(e.digest) {
      assert HitRef(done, w.registry, (x, tag));
      HitByTag(done, w.registry[x], x, Tagged(tag, e.digest));
    }
  }

  /**
   In a repository with unique digests, with all calls served, exactly the candidates are gone: every kept, unreadable
   or undated tag survives, in the old order. Other repositories may have shared digests.
   */
  lemma SurvivorsAreTheRest(env: Env, w: World, c: RunConfig, repos: seq<string>, now: int, x: string)
    requires Quiet(env) && Served(env) && Proper(w.registry) && !c.dryRun
    requires x in w.registry && UniqueDigests(w.registry[x])
    ensures var after := AfterDeletes(env, w, c, repos, now).world.registry;
            var requests := Requests(PlansOf(env, w, c, repos, now));
            x in after && after[x] == Select(w.registry[x], NotRequested(requests, x))
  {
    hide AfterDeletes, PlansOf, LeftBy, DistinctManifests, Requests, Hit, HitRef;
    var ex, requests := AfterDeletes(env, w, c, repos, now), Requests(PlansOf(env, w, c, repos, now));
    var entries := w.registry[x];
    RegistryAfterPurge(env, w, c, repos, now);
    RepositoryLeft(ex.done, w.registry, ex.world.registry, x);
    assert ProperEntries(entries);
    forall e | e in entries ensures NotHit(ex.done, entries, x)(e) == NotRequested(requests, x)(e) {
      HitIffRequested(env, w, c, repos, now, x, e);
      UniqueRequest(entries, requests, x, e);
    }
    SelectAgree(entries, NotHit(ex.done, entries, x), NotRequested(requests, x));
  }

  function NotRequested(requests: seq<(string, string)>, repo: string): Tagged -> bool {
    (e: Tagged) => (repo, e.tag) !in requests
  }

  lemma RepositoryLeft(done: seq<(string, string)>, registry0: Registry, registry: Registry, x: string)
    requires LeftBy(done, registry0, registry) && x in registry0
    ensures x in registry && registry[x] == Select(registry0[x], NotHit(done, registry0[x], x))
  {
  }

  lemma UniqueRequest(entries: seq<Tagged>, requests: seq<(string, string)>, repo: string, e: Tagged)
    requires ProperEntries(entries) && UniqueDigests(entries) && e in entries
    ensures (exists tag :: (repo, tag) in requests && DigestOf(entries, tag) == Some(e.digest))
            <==> (repo, e.tag) in requests
  {
    DigestOfMember(entries, e.tag, e.digest);
    if tag :| (repo, tag) in requests && DigestOf(entries, tag) == Some(e.digest) {
      DigestOfMember(entries, tag, e.digest);
    }
  }

  /**
   Shared digests or not, with all calls served: a tag survives if and only if no candidate of its repository is the
   same manifest. Some of the deletions may have been reported as failed.
   */
  lemma KeptTagSurvivesIff(env: Env, w: World, c: RunConfig, repos: seq<string>, now: int, x: string, e: Tagged)
    requires Quiet(env) && Served(env) && Proper(w.registry) && !c.dryRun && x in w.registry && e in w.registry[x]
    ensures var after := AfterDeletes(env, w, c, repos, now).world.registry;
            x in after && (e in after[x] <==>
              forall tag :: (x, tag) in Requests(PlansOf(env, w, c, repos, now)) ==>
                DigestOf(w.registry[x], tag) != Some(e.digest))
  {
    hide AfterDeletes, PlansOf, LeftBy, DistinctManifests, Requests, Hit;
    var ex := AfterDeletes(env, w, c, repos, now);
    RegistryAfterPurge(env, w, c, repos, now);
    RepositoriesLeft(ex.done, w.registry, ex.world.registry);
    SurvivorsAreUnhit(ex.done, w.registry, ex.world.registry, x, e);
    HitIffRequested(env, w, c, repos, now, x, e);
  }

  lemma HitByTag(done: seq<(string, string)>, entries: seq<Tagged>, repo: string, e: Tagged)
    ensures Hit(done, entries, repo, e) <==>
            exists tag :: (repo, tag) in done && DigestOf(entries, tag) == Some(e.digest)
  {
  }

  // ---------- The cache, with shared manifests ----------

  function NotDone(done: seq<(string, string)>, repo: string): string -> bool {
    (tag: string) => (repo, tag) !in done
  }

  /** The cached list is a given one less the tags whose deletion has succeeded. */
  ghost predicate CacheLeft(ex: Exec, x: string, tags: seq<string>) {
    x in ex.world.cache && ex.world.cache[x] == Select(tags, NotDone(ex.done, x))
  }

  lemma ExecTagCache(env: Env, registry0: Registry, ex: Exec, repo: string, tag: string, x: string, tags: seq<string>)
    requires Quiet(env) && Proper(registry0) && Outcome(registry0, ex) && repo in ex.repositories && ':' !in tag
    requires CacheLeft(ex, x, tags)
    ensures CacheLeft(ExecTag(env, ex, repo, tag), x, tags)
  {
    LeftByProper(ex.done, registry0, ex.world.registry);
    QuietDelete(env, ex.world, repo, tag);
    hide Delete, Outcome, WithoutDigest;
    var longer := ex.done + [(repo, tag)];
    if repo == x {
      SelectCompose(tags, NotDone(ex.done, x), Not(IsTag(tag)), NotDone(longer, x));
    } else {
      SelectAgree(tags, NotDone(ex.done, x), NotDone(longer, x));
    }
  }

  lemma {:induction false} ExecTagsCache(env: Env, registry0: Registry, ex: Exec, repo: string, purge: seq<string>,
                                         x: string, tags: seq<string>)
    requires Quiet(env) && Proper(registry0) && Outcome(registry0, ex) && repo in ex.repositories && NoColons(purge)
    requires CacheLeft(ex, x, tags)
    ensures CacheLeft(ExecTags(env, ex, repo, purge), x, tags)
  {
    hide Outcome, ExecTag, CacheLeft;
    if purge != [] {
      var init, tag := purge[..|purge| - 1], purge[|purge| - 1];
      ExecTagsCache(env, registry0, ex, repo, init, x, tags);
      ExecTagsOutcome(env, registry0, ex, repo, init);
      ExecTagCache(env, registry0, ExecTags(env, ex, repo, init), repo, tag, x, tags);
    }
  }

  lemma {:induction false} ExecAllCache(env: Env, registry0: Registry, ex: Exec, plans: map<string, RepoPlan>,
                                        order: seq<string>, x: string, tags: seq<string>)
    requires Quiet(env) && Proper(registry0) && Outcome(registry0, ex) && plans.Keys == ex.repositories.Keys
    requires forall i :: 0 <= i < |order| ==> order[i] in plans
    requires forall repo :: repo in plans ==> NoColons(plans[repo].purge)
    requires CacheLeft(ex, x, tags)
    ensures CacheLeft(ExecAll(env, ex, plans, order), x, tags)
  {
    hide Outcome, ExecTags, CacheLeft;
    if order != [] {
      var init, repo := order[..|order| - 1], order[|order| - 1];
      ExecAllCache(env, registry0, ex, plans, init, x, tags);
      ExecAllOutcome(env, registry0, ex, plans, init);
      ExecTagsCache(env, registry0, ExecAll(env, ex, plans, init), repo, plans[repo].purge, x, tags);
    }
  }

  /** After a real run, whichever calls fail, an exact list has lost the names of the successful deletions. */
  lemma CacheAfterRun(env: Env, w: World, c: RunConfig, repos: seq<string>, now: int, x: string)
    requires Quiet(env) && Proper(w.registry) && x in w.registry && !c.dryRun
    requires Synced(w, x) || ListServed(env, w, Catalog(c, repos), x)
    ensures CacheLeft(AfterDeletes(env, w, c, repos, now), x, Tags(w.registry[x]))
  {
    hide ScanAll, Plan, Catalog, ExecAll, SortedKeys, PlansFrom, ListServed, Outcome, Proper;
    var start, plans := BeforeDeletes(env, w, c, repos, now), PlansOf(env, w, c, repos, now);
    var tags := Tags(w.registry[x]);
    QuietStart(env, w, c, repos, now);
    ScanIsExact(env, w, Catalog(c, repos), x);
    SelectAll(tags, NotDone([], x));
    PlansNoColons(plans, w.registry);
    KeysInPlans(plans);
    StartOutcome(w.registry, start);
    ExecAllCache(env, w.registry, start, plans, SortedKeys(plans.Keys), x, tags);
  }

  lemma TagSelectionsAgreeIff(entries: seq<Tagged>, p: Tagged -> bool, q: Tagged -> bool)
    requires DistinctTags(entries)
    ensures Tags(Select(entries, p)) == Tags(Select(entries, q)) <==> forall e :: e in entries ==> p(e) == q(e)
  {
    if forall e :: e in entries ==> p(e) == q(e) {
      SelectAgree(entries, p, q);
    } else {
      var e :| e in entries && p(e) != q(e);
      SelectedTag(entries, p, e);
      SelectedTag(entries, q, e);
    }
  }

  lemma SelectedTag(entries: seq<Tagged>, p: Tagged -> bool, e: Tagged)
    requires DistinctTags(entries) && e in entries
    ensures e.tag in Tags(Select(entries, p)) <==> p(e)
  {
    TagsMember(Select(entries, p), e.tag);
    SelectMember(entries, p, e);
    forall f | f in Select(entries, p) && f.tag == e.tag ensures f == e {
      SelectMember(entries, p, f);
      SameTagSameEntry(entries, e, f);
    }
  }

  /** It is then exact if and only if every tag whose manifest was deleted was itself deleted by name. */
  lemma SyncedAfterRunIff(env: Env, w: World, c: RunConfig, repos: seq<string>, now: int, x: string)
    requires Quiet(env) && Proper(w.registry) && x in w.registry && !c.dryRun
    requires Synced(w, x) || ListServed(env, w, Catalog(c, repos), x)
    ensures var ex := AfterDeletes(env, w, c, repos, now);
            Synced(ex.world, x) <==>
              forall e :: e in w.registry[x] && Hit(ex.done, w.registry[x], x, e) ==> (x, e.tag) in ex.done
  {
    CacheAfterRun(env, w, c, repos, now, x);
    hide AfterDeletes, PlansOf, Catalog, ListServed, DistinctManifests, Requests, Hit, Select, Tags;
    var ex, entries := AfterDeletes(env, w, c, repos, now), w.registry[x];
    var named := (e: Tagged) => (x, e.tag) !in ex.done;
    RegistryAfterPurge(env, w, c, repos, now);
    RepositoryLeft(ex.done, w.registry, ex.world.registry, x);
    assert ProperEntries(entries);
    TagsSelect(entries, named, NotDone(ex.done, x));
    TagSelectionsAgreeIff(entries, named, NotHit(ex.done, entries, x));
    forall e | e in entries && (x, e.tag) in ex.done ensures Hit(ex.done, entries, x, e) {
      DoneIsHit(ex.done, entries, x, e);
    }
  }

  lemma DoneIsHit(done: seq<(string, string)>, entries: seq<Tagged>, repo: string, e: Tagged)
    requires ProperEntries(entries) && e in entries && (repo, e.tag) in done
    ensures Hit(done, entries, repo, e)
  {
    DigestOfMember(entries, e.tag, e.digest);
    HitByTag(done, entries, repo, e);
  }

  /** Some candidate of the repository shares its manifest with another tag. */
  ghost predicate SharedCandidate(entries: seq<Tagged>, requests: seq<(string, string)>, repo: string) {
    exists e, f :: e in entries && f in entries && (repo, e.tag) in requests && f.digest == e.digest && f != e
  }

  /** After a served real run the cached list of a scanned repository is wrong exactly when a candidate was shared. */
  lemma CacheAfterPurgeIff(env: Env, w: World, c: RunConfig, repos: seq<string>, now: int, x: string)
    requires Quiet(env) && Served(env) && Proper(w.registry) && !c.dryRun && x in w.registry && x in Catalog(c, repos)
    ensures Synced(AfterDeletes(env, w, c, repos, now).world, x) <==>
            !SharedCandidate(w.registry[x], Requests(PlansOf(env, w, c, repos, now)), x)
  {
    hide AfterDeletes, PlansOf, Requests, Hit, LeftBy, Synced, ScanAll, Catalog;
    var done, requests := AfterDeletes(env, w, c, repos, now).done, Requests(PlansOf(env, w, c, repos, now));
    var entries := w.registry[x];
    assert ListServed(env, w, Catalog(c, repos), x);
    SyncedAfterRunIff(env, w, c, repos, now, x);
    RegistryAfterPurge(env, w, c, repos, now);
    assert ProperEntries(entries);
    forall e | e in entries
      ensures Hit(done, entries, x, e) <==> exists f :: f in entries && (x, f.tag) in requests && f.digest == e.digest
      ensures Hit(done, entries, x, e) <==> exists f :: f in entries && (x, f.tag) in done && f.digest == e.digest
    {
      HitIffRequested(env, w, c, repos, now, x, e);
      HitByEntry(entries, requests, x, e);
      HitByTag(done, entries, x, e);
      HitByEntry(entries, done, x, e);
    }
    forall e, f | e in entries && f in entries && (x, e.tag) in done && (x, f.tag) in done && e.digest == f.digest
      ensures e == f
    {
      DoneOnce(w.registry, done, x, e, f);
    }
  }

  lemma HitByEntry(entries: seq<Tagged>, refs: seq<(string, string)>, repo: string, e: Tagged)
    requires ProperEntries(entries)
    ensures (exists tag :: (repo, tag) in refs && DigestOf(entries, tag) == Some(e.digest))
            <==> exists f :: f in entries && (repo, f.tag) in refs && f.digest == e.digest
  {
    if tag :| (repo, tag) in refs && DigestOf(entries, tag) == Some(e.digest) {
      DigestOfMember(entries, tag, e.digest);
      assert Tagged(tag, e.digest) in entries;
    }
    if f :| f in entries && (repo, f.tag) in refs && f.digest == e.digest {
      DigestOfMember(entries, f.tag, f.digest);
    }
  }

  /** No manifest is deleted under two names. */
  lemma DoneOnce(registry: Registry, done: seq<(string, string)>, x: string, e: Tagged, f: Tagged)
    requires Proper(registry) && x in registry && DistinctManifests(done, registry)
    requires e in registry[x] && f in registry[x] && (x, e.tag) in done && (x, f.tag) in done && e.digest == f.digest
    ensures e == f
  {
    assert ProperEntries(registry[x]);
    DigestOfMember(registry[x], e.tag, e.digest);
    DigestOfMember(registry[x], f.tag, f.digest);
    var i :| 0 <= i < |done| && done[i] == (x, e.tag);
    var j :| 0 <= j < |done| && done[j] == (x, f.tag);
    assert Lookup(registry, done[i].0, done[i].1) == Lookup(registry, done[j].0, done[j].1);
  }

  /** Deleting the old tag `1.0` takes `latest` of the same manifest with it, and the cache still lists `latest`. */
  lemma SharedManifestExample(env: Env, w: World)
    requires Quiet(env) && Served(env)
    requires w.registry == map["app" := [Tagged("latest", "d"), Tagged("1.0", "d")]]
    requires w.cache == map["app" := ["latest", "1.0"]]
    ensures var (after, ok) := Delete(env, w, "app", "1.0");
            ok && after.registry["app"] == [] && after.cache["app"] == ["latest"]
  {
    var entries := [Tagged("latest", "d"), Tagged("1.0", "d")];
    assert entries[1..] == [Tagged("1.0", "d")];
    assert DigestOf(entries, "1.0") == Some("d");
    assert Proper(w.registry) by {
      assert ':' !in "latest" && ':' !in "1.0";
    }
    QuietDelete(env, w, "app", "1.0");
    hide Delete, DigestOf;
    SelectTwo(entries[0], entries[1], HasDigest("d"));
    SelectTwo("latest", "1.0", IsTag("1.0"));
  }
}

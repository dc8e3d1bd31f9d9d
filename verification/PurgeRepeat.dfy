/**
 Runs in which every remote call is served: when all deletions succeed, and that a second run finds nothing to purge.
 */
module PurgeRepeat {
  import opened PurgeAccounting
  import opened PurgeOutcome
  import opened PurgeRun
  import opened RegistryClient
  import opened Retention
  import opened Selection
  import opened Sorting
  import opened Sums
  import opened Text

  // ---------- When does every deletion succeed? ----------

  /** The requests are for existing tags, and no two are for the same manifest. */
  ghost predicate Deletable(registry: Registry, refs: seq<(string, string)>) {
    && DistinctManifests(refs, registry)
    && forall i :: 0 <= i < |refs| ==> ':' !in refs[i].1 && Lookup(registry, refs[i].0, refs[i].1).Some?
  }

  /** So far everything has succeeded. */
  ghost predicate AllDone(start: Exec, ex: Exec, refs: seq<(string, string)>) {
    ex.done == refs && ex.errors == start.errors
  }

  lemma PrefixDeletable(registry: Registry, refs: seq<(string, string)>, more: seq<(string, string)>)
    requires Deletable(registry, refs + more)
    ensures Deletable(registry, refs)
  {
    var all := refs + more;
    assert forall i :: 0 <= i < |refs| ==> refs[i] == all[i];
  }

  /** A tag whose manifest none of the earlier requests named is still there. */
  lemma NextIsThere(registry0: Registry, registry: Registry, done: seq<(string, string)>, ref: (string, string))
    requires Proper(registry0) && LeftBy(done, registry0, registry) && Deletable(registry0, done + [ref])
    ensures ':' !in ref.1 && Lookup(registry, ref.0, ref.1).Some?
  {
    var all := done + [ref];
    assert all[|done|] == ref;
    var (repo, tag) := ref;
    var entries := registry0[repo];
    var digest := DigestOf(entries, tag).value;
    var e := Tagged(tag, digest);
    DigestOfMember(entries, tag, digest);
    assert forall i :: 0 <= i < |done| ==> all[i] == done[i];
    assert !Hit(done, entries, repo, e);
    SurvivorsAreUnhit(done, registry0, registry, repo, e);
    SelectKeepsProper(entries, NotHit(done, entries, repo));
    DigestOfMember(registry[repo], tag, digest);
  }

  lemma ExecTagSucceeds(env: Env, registry0: Registry, start: Exec, ex: Exec, repo: string, tag: string)
    requires Quiet(env) && Served(env) && Proper(registry0) && repo in ex.repositories
    requires Outcome(registry0, ex) && AllDone(start, ex, ex.done) && Deletable(registry0, ex.done + [(repo, tag)])
    ensures AllDone(start, ExecTag(env, ex, repo, tag), ex.done + [(repo, tag)])
  {
    hide LeftBy, DistinctManifests, Delete, Deletable;
    NextIsThere(registry0, ex.world.registry, ex.done, (repo, tag));
    LeftByProper(ex.done, registry0, ex.world.registry);
    QuietDelete(env, ex.world, repo, tag);
  }

  lemma {:induction false} ExecTagsSucceed(env: Env, registry0: Registry, start: Exec, ex: Exec, repo: string,
                                           tags: seq<string>)
    requires Quiet(env) && Served(env) && Proper(registry0) && repo in ex.repositories && NoColons(tags)
    requires Outcome(registry0, ex) && AllDone(start, ex, ex.done) && Deletable(registry0, ex.done + Refs(repo, tags))
    ensures AllDone(start, ExecTags(env, ex, repo, tags), ex.done + Refs(repo, tags))
  {
    hide Outcome, ExecTag, Deletable;
    if tags != [] {
      var init, tag := tags[..|tags| - 1], tags[|tags| - 1];
      assert ex.done + Refs(repo, tags) == ex.done + Refs(repo, init) + [(repo, tag)];
      PrefixDeletable(registry0, ex.done + Refs(repo, init), [(repo, tag)]);
      ExecTagsSucceed(env, registry0, start, ex, repo, init);
      ExecTagsOutcome(env, registry0, ex, repo, init);
      ExecTagSucceeds(env, registry0, start, ExecTags(env, ex, repo, init), repo, tag);
    }
  }

  lemma {:induction false} ExecAllSucceed(
      env: Env, registry0: Registry, start: Exec, plans: map<string, RepoPlan>, order: seq<string>)
    requires Quiet(env) && Served(env) && Proper(registry0) && plans.Keys == start.repositories.Keys
    requires forall i :: 0 <= i < |order| ==> order[i] in plans
    requires forall repo :: repo in plans ==> NoColons(plans[repo].purge)
    requires Outcome(registry0, start) && start.done == [] && Deletable(registry0, AllRefs(plans, order))
    ensures AllDone(start, ExecAll(env, start, plans, order), AllRefs(plans, order))
  {
    hide Outcome, ExecTags, Deletable;
    if order != [] {
      var init, repo := order[..|order| - 1], order[|order| - 1];
      PrefixDeletable(registry0, AllRefs(plans, init), Refs(repo, plans[repo].purge));
      ExecAllSucceed(env, registry0, start, plans, init);
      ExecAllOutcome(env, registry0, start, plans, init);
      ExecTagsSucceed(env, registry0, start, ExecAll(env, start, plans, init), repo, plans[repo].purge);
    }
  }

  lemma RequestExists(plans: map<string, RepoPlan>, registry: Registry, ref: (string, string))
    requires PlansFrom(plans, registry) && Proper(registry) && ref in Requests(plans)
    ensures ':' !in ref.1 && Lookup(registry, ref.0, ref.1).Some?
  {
    KeysInPlans(plans);
    RefsOfPlans(plans, SortedKeys(plans.Keys), ref);
    var entries := registry[ref.0];
    var j :| 0 <= j < |entries| && Tags(entries)[j] == ref.1;
    assert entries[j] in entries;
    DigestOfMember(entries, ref.1, entries[j].digest);
  }

  /**
   In a real run whose remote calls are all served, every deletion succeeds if and only if no two candidates are the
   same manifest; then the deletions made are exactly the candidates. (Two tags of one manifest: the second is gone
   already.)
   */
  lemma AllSucceedIffDistinct(env: Env, w: World, c: RunConfig, repos: seq<string>, now: int)
    requires Quiet(env) && Served(env) && Proper(w.registry) && !c.dryRun
    ensures var ex := AfterDeletes(env, w, c, repos, now);
            var requests := Requests(PlansOf(env, w, c, repos, now));
            && (Failures(ex.errors) == [] <==> DistinctManifests(requests, w.registry))
            && (Failures(ex.errors) == [] ==> ex.done == requests)
  {
    hide BeforeDeletes, PlansOf, LeftBy, ExecAll, SortedKeys, AllRefs, PlansFrom, DistinctManifests, Failures;
    var start, plans := BeforeDeletes(env, w, c, repos, now), PlansOf(env, w, c, repos, now);
    var ex := AfterDeletes(env, w, c, repos, now);
    QuietStart(env, w, c, repos, now);
    KeysInPlans(plans);
    PhasesAccounted(env, w, c, repos, now);
    NoFailures(start.errors);
    ExecAllProgress(env, start, plans, SortedKeys(plans.Keys));
    assert [] + Requests(plans) == Requests(plans);
    RegistryAfterPurge(env, w, c, repos, now);
    if DistinctManifests(Requests(plans), w.registry) {
      NothingHit(w.registry);
      PlansNoColons(plans, w.registry);
      RequestsExist(plans, w.registry);
      StartOutcome(w.registry, start);
      ExecAllSucceed(env, w.registry, start, plans, SortedKeys(plans.Keys));
    }
  }

  lemma StartOutcome(registry: Registry, start: Exec)
    requires start.done == [] && start.world.registry == registry
    ensures Outcome(registry, start)
  {
    NothingHit(registry);
  }

  // ---------- Every candidate is gone, even where a deletion was reported as failed ----------

  /** The manifest of an existing tag has been deleted, under this name or another. */
  ghost predicate HitRef(done: seq<(string, string)>, registry0: Registry, ref: (string, string)) {
    var digest := Lookup(registry0, ref.0, ref.1);
    digest.Some? && Hit(done, registry0[ref.0], ref.0, Tagged(ref.1, digest.value))
  }

  ghost predicate AllHit(done: seq<(string, string)>, registry0: Registry, refs: seq<(string, string)>) {
    forall i :: 0 <= i < |refs| ==> HitRef(done, registry0, refs[i])
  }

  ghost predicate AllExist(registry0: Registry, refs: seq<(string, string)>) {
    forall i :: 0 <= i < |refs| ==> ':' !in refs[i].1 && Lookup(registry0, refs[i].0, refs[i].1).Some?
  }

  lemma HitPersists(done: seq<(string, string)>, done': seq<(string, string)>, registry0: Registry,
                    ref: (string, string))
    requires done <= done' && HitRef(done, registry0, ref)
    ensures HitRef(done', registry0, ref)
  {
    var digest := Lookup(registry0, ref.0, ref.1).value;
    var i :| 0 <= i < |done| && done[i].0 == ref.0 && DigestOf(registry0[ref.0], done[i].1) == Some(digest);
    assert done'[i] == done[i];
  }

  /** A served deletion succeeds, or finds the manifest already deleted. */
  lemma ExecTagHits(env: Env, registry0: Registry, ex: Exec, repo: string, tag: string)
    requires Quiet(env) && Served(env) && Proper(registry0) && repo in ex.repositories && Outcome(registry0, ex)
    requires ':' !in tag && Lookup(registry0, repo, tag).Some?
    ensures var r := ExecTag(env, ex, repo, tag); ex.done <= r.done && HitRef(r.done, registry0, (repo, tag))
  {
    LeftByProper(ex.done, registry0, ex.world.registry);
    QuietDelete(env, ex.world, repo, tag);
    hide Delete;
    var digest := DigestOf(registry0[repo], tag).value;
    var e := Tagged(tag, digest);
    HitSnoc(ex.done, registry0[repo], repo, (repo, tag), e);
    if !Hit(ex.done, registry0[repo], repo, e) {
      assert ProperEntries(registry0[repo]);
      DigestOfMember(registry0[repo], tag, digest);
      SurvivorsAreUnhit(ex.done, registry0, ex.world.registry, repo, e);
      assert ProperEntries(ex.world.registry[repo]);
      DigestOfMember(ex.world.registry[repo], tag, digest);
    }
  }

  lemma {:induction false} ExecTagsHit(env: Env, registry0: Registry, ex: Exec, repo: string, tags: seq<string>)
    requires Quiet(env) && Served(env) && Proper(registry0) && repo in ex.repositories && Outcome(registry0, ex)
    requires NoColons(tags) && AllExist(registry0, Refs(repo, tags))
    ensures var r := ExecTags(env, ex, repo, tags); ex.done <= r.done && AllHit(r.done, registry0, Refs(repo, tags))
  {
    hide Outcome, ExecTag, HitRef, Lookup;
    if tags != [] {
      var init, tag := tags[..|tags| - 1], tags[|tags| - 1];
      var before := ExecTags(env, ex, repo, init);
      assert Refs(repo, tags) == Refs(repo, init) + [(repo, tag)];
      assert forall i :: 0 <= i < |init| ==> Refs(repo, init)[i] == Refs(repo, tags)[i];
      ExecTagsHit(env, registry0, ex, repo, init);
      ExecTagsOutcome(env, registry0, ex, repo, init);
      assert Refs(repo, tags)[|init|] == (repo, tag);
      ExecTagHits(env, registry0, before, repo, tag);
      AllHitExtend(before.done, ExecTag(env, before, repo, tag).done, registry0, Refs(repo, init), [(repo, tag)]);
    }
  }

  lemma AllHitExtend(done: seq<(string, string)>, done': seq<(string, string)>, registry0: Registry,
                     refs: seq<(string, string)>, more: seq<(string, string)>)
    requires done <= done' && AllHit(done, registry0, refs) && AllHit(done', registry0, more)
    ensures AllHit(done', registry0, refs + more)
  {
    hide HitRef;
    forall i | 0 <= i < |refs| ensures HitRef(done', registry0, refs[i]) {
      HitPersists(done, done', registry0, refs[i]);
    }
  }

  lemma {:induction false} ExecAllHits(env: Env, registry0: Registry, ex: Exec, plans: map<string, RepoPlan>,
                                       order: seq<string>)
    requires Quiet(env) && Served(env) && Proper(registry0) && plans.Keys == ex.repositories.Keys
    requires forall i :: 0 <= i < |order| ==> order[i] in plans
    requires forall repo :: repo in plans ==> NoColons(plans[repo].purge)
    requires Outcome(registry0, ex) && AllExist(registry0, AllRefs(plans, order))
    ensures var r := ExecAll(env, ex, plans, order);
            ex.done <= r.done && AllHit(r.done, registry0, AllRefs(plans, order))
  {
    hide Outcome, ExecTags, HitRef, Lookup;
    if order != [] {
      var init, repo := order[..|order| - 1], order[|order| - 1];
      var before := ExecAll(env, ex, plans, init);
      var refs, more := AllRefs(plans, init), Refs(repo, plans[repo].purge);
      assert forall i :: 0 <= i < |refs| ==> refs[i] == (refs + more)[i];
      assert forall i :: 0 <= i < |more| ==> more[i] == (refs + more)[|refs| + i];
      ExecAllHits(env, registry0, ex, plans, init);
      ExecAllOutcome(env, registry0, ex, plans, init);
      ExecTagsHit(env, registry0, before, repo, plans[repo].purge);
      AllHitExtend(before.done, ExecAll(env, ex, plans, order).done, registry0, refs, more);
    }
  }

  lemma RequestsExist(plans: map<string, RepoPlan>, registry: Registry)
    requires PlansFrom(plans, registry) && Proper(registry)
    ensures AllExist(registry, Requests(plans))
  {
    hide PlansFrom, Proper, Requests, Lookup;
    forall i | 0 <= i < |Requests(plans)|
      ensures ':' !in Requests(plans)[i].1 && Lookup(registry, Requests(plans)[i].0, Requests(plans)[i].1).Some?
    {
      RequestExists(plans, registry, Requests(plans)[i]);
    }
  }

  /** After a real run whose calls were all served, every candidate's manifest has been deleted. */
  lemma EveryCandidateIsHit(env: Env, w: World, c: RunConfig, repos: seq<string>, now: int)
    requires Quiet(env) && Served(env) && Proper(w.registry) && !c.dryRun
    ensures forall ref :: ref in Requests(PlansOf(env, w, c, repos, now)) ==>
              HitRef(AfterDeletes(env, w, c, repos, now).done, w.registry, ref)
  {
    hide BeforeDeletes, PlansOf, ExecAll, SortedKeys, AllRefs, PlansFrom, HitRef, AllExist, Outcome;
    var start, plans := BeforeDeletes(env, w, c, repos, now), PlansOf(env, w, c, repos, now);
    QuietStart(env, w, c, repos, now);
    PlansNoColons(plans, w.registry);
    KeysInPlans(plans);
    StartOutcome(w.registry, start);
    RequestsExist(plans, w.registry);
    ExecAllHits(env, w.registry, start, plans, SortedKeys(plans.Keys));
  }

  // ---------- What a scan of a quiet registry finds ----------

  /** The dated tags of a repository, straight from its entries. */
  function FullDated(image: string -> ImageInfo, entries: seq<Tagged>): seq<TagData> {
    if entries == [] then [] else
      var last := entries[|entries| - 1];
      var created := image(last.digest).created;
      FullDated(image, entries[..|entries| - 1]) + (if created == 0 then [] else [TagData(last.tag, created)])
  }

  function RepoDated(image: string -> ImageInfo, registry: Registry, repo: string): seq<TagData> {
    if repo in registry then FullDated(image, registry[repo]) else []
  }

  lemma {:induction false} FullDatedMember(image: string -> ImageInfo, entries: seq<Tagged>, t: TagData)
      returns (e: Tagged)
    requires t in FullDated(image, entries)
    ensures e in entries && e.tag == t.name && image(e.digest).created == t.created
  {
    var init, last := entries[..|entries| - 1], entries[|entries| - 1];
    if t in FullDated(image, init) {
      e := FullDatedMember(image, init, t);
    } else {
      e := last;
    }
  }

  /** One scanned tag of a known entry. */
  lemma ScanOne(env: Env, sc: Scan, repo: string, e: Tagged)
    requires Quiet(env) && Proper(sc.world.registry) && repo in sc.world.registry && e in sc.world.registry[repo]
    ensures var r := ScanTag(env, sc, repo, e.tag);
            var found := if env.image(e.digest).created == 0 then [] else [TagData(e.tag, env.image(e.digest).created)];
            && (r.world.registry == sc.world.registry && r.world.cache == sc.world.cache)
            && (DatedOf(r.dated, repo) == DatedOf(sc.dated, repo) + found
                || (!Served(env) && DatedOf(r.dated, repo) == DatedOf(sc.dated, repo)))
            && (Served(env) ==> r.errors == sc.errors)
  {
    hide LastColon;
    assert ProperEntries(sc.world.registry[repo]);
    SplitRefOfRef(repo, e.tag);
    DigestOfMember(sc.world.registry[repo], e.tag, e.digest);
    hide SplitRef;
  }

  /** What one more scanned entry adds, given what the entries before it added. */
  lemma FoundGrows(before: seq<TagData>, init: seq<TagData>, found: seq<TagData>, more: seq<TagData>)
    requires multiset(found) <= multiset(before) + multiset(init)
    ensures multiset(found + more) <= multiset(before) + multiset(init + more)
    ensures multiset(found) <= multiset(before) + multiset(init + more)
    ensures found == before + init ==> found + more == before + (init + more)
  {
  }

  lemma TagsInit(entries: seq<Tagged>)
    requires entries != []
    ensures Tags(entries)[..|entries| - 1] == Tags(entries[..|entries| - 1])
    ensures Tags(entries)[|entries| - 1] == entries[|entries| - 1].tag
  {
  }

  lemma {:induction false} ScanTagsContent(env: Env, sc: Scan, repo: string, entries: seq<Tagged>)
    requires Quiet(env) && Proper(sc.world.registry) && repo in sc.world.registry
    requires forall e :: e in entries ==> e in sc.world.registry[repo]
    ensures var r := ScanTags(env, sc, repo, Tags(entries));
            && r.world.registry == sc.world.registry && r.world.cache == sc.world.cache
            && multiset(DatedOf(r.dated, repo))
              <= multiset(DatedOf(sc.dated, repo)) + multiset(FullDated(env.image, entries))
            && (Served(env) ==>
                  DatedOf(r.dated, repo) == DatedOf(sc.dated, repo) + FullDated(env.image, entries)
                  && r.errors == sc.errors)
  {
    hide ScanTag, Proper, Served, Quiet, Tags, DatedOf;
    if entries == [] {
      assert |Tags(entries)| == 0;
      assert DatedOf(sc.dated, repo) + [] == DatedOf(sc.dated, repo);
    } else {
      var init, last := entries[..|entries| - 1], entries[|entries| - 1];
      TagsInit(entries);
      assert forall e :: e in init ==> e in entries;
      ScanTagsContent(env, sc, repo, init);
      assert last in entries;
      var before := ScanTags(env, sc, repo, Tags(init));
      ScanOne(env, before, repo, last);
      var created := env.image(last.digest).created;
      FoundGrows(DatedOf(sc.dated, repo), FullDated(env.image, init), DatedOf(before.dated, repo),
                 if created == 0 then [] else [TagData(last.tag, created)]);
    }
  }

  lemma {:induction false} ScanTagsOthers(env: Env, sc: Scan, repo: string, tags: seq<string>, other: string)
    requires other != repo
    ensures DatedOf(ScanTags(env, sc, repo, tags).dated, other) == DatedOf(sc.dated, other)
  {
    hide GetInfo;
    if tags != [] {
      ScanTagsOthers(env, sc, repo, tags[..|tags| - 1], other);
    }
  }

  /** The cached list of a repository is the registry's list. */
  ghost predicate Synced(w: World, repo: string) {
    repo in w.registry && repo in w.cache && w.cache[repo] == Tags(w.registry[repo])
  }

  /** A list, `n` times over. */
  function Repeat<T>(s: seq<T>, n: nat): seq<T> {
    if n == 0 then [] else Repeat(s, n - 1) + s
  }

  /** The dated tags found, if the repository is named `n` times. */
  function TimesDated(image: string -> ImageInfo, registry: Registry, repo: string, n: nat): seq<TagData> {
    Repeat(RepoDated(image, registry, repo), n)
  }

  /** A repository named `n` times is scanned `n` times. */
  ghost predicate ScanFound(env: Env, r: Scan, repo: string, n: nat) {
    && multiset(DatedOf(r.dated, repo)) <= multiset(TimesDated(env.image, r.world.registry, repo, n))
    && (Served(env) ==> DatedOf(r.dated, repo) == TimesDated(env.image, r.world.registry, repo, n))
  }

  lemma QuietFetch(env: Env, w: World, repo: string)
    requires Quiet(env)
    ensures var (w', tags) := Fetch(env, w, repo);
            && w'.registry == w.registry
            && (tags.Some? ==>
                  repo in w.registry && tags.value == Tags(w.registry[repo]) && w'.cache == w.cache[repo := tags.value])
            && (tags.None? ==> w'.cache == w.cache && (Served(env) ==> repo !in w.registry))
  {
  }

  lemma ScanRepoFound(env: Env, before: Scan, repo: string, x: string, n: nat)
    requires Quiet(env) && Proper(before.world.registry) && ScanFound(env, before, x, n)
    ensures ScanRepo(env, before, repo).world.registry == before.world.registry
    ensures ScanFound(env, ScanRepo(env, before, repo), x, if x == repo then n + 1 else n)
  {
    var (w, tags) := Fetch(env, before.world, repo);
    QuietFetch(env, before.world, repo);
    var registry := before.world.registry;
    hide Fetch, ScanTags, FullDated, Proper, Tags, DatedOf, TimesDated, Quiet, Served;
    assert DatedOf(before.dated, x) + [] == DatedOf(before.dated, x);
    if x == repo {
      OnceMore(env.image, registry, x, n);
    }
    if tags.Some? {
      ScanTagsContent(env, before.(world := w), repo, registry[repo]);
      if x != repo {
        ScanTagsOthers(env, before.(world := w), repo, tags.value, x);
      }
    }
    FoundGrows([], TimesDated(env.image, registry, x, n), DatedOf(before.dated, x),
               RepoDated(env.image, registry, repo));
  }

  lemma OnceMore(image: string -> ImageInfo, registry: Registry, x: string, n: nat)
    ensures TimesDated(image, registry, x, n + 1) == TimesDated(image, registry, x, n) + RepoDated(image, registry, x)
  {
  }

  /** The dated tags found are those of the registry, once for each time the repository is named; all, when served. */
  lemma {:induction false} ScanAllFound(env: Env, w: World, catalog: seq<string>, x: string)
    requires Quiet(env) && Proper(w.registry)
    ensures ScanAll(env, Scan(w, map[], map[], []), catalog).world.registry == w.registry
    ensures ScanFound(env, ScanAll(env, Scan(w, map[], map[], []), catalog), x, multiset(catalog)[x])
  {
    hide ScanRepo, FullDated;
    if catalog != [] {
      var init, repo := catalog[..|catalog| - 1], catalog[|catalog| - 1];
      ScanAllFound(env, w, init, x);
      assert catalog == init + [repo];
      ScanRepoFound(env, ScanAll(env, Scan(w, map[], map[], []), init), repo, x, multiset(init)[x]);
    }
  }

  // ---------- A second run finds nothing ----------

  lemma WithinGrows(a: seq<TagData>, b: seq<TagData>, more: seq<TagData>)
    requires multiset(a) <= multiset(b)
    ensures multiset(a) <= multiset(b + more) && multiset(a + more) <= multiset(b + more)
  {
  }

  lemma FullDatedSnoc(image: string -> ImageInfo, entries: seq<Tagged>, last: Tagged)
    ensures FullDated(image, entries + [last]) == FullDated(image, entries) +
              (if image(last.digest).created == 0 then [] else [TagData(last.tag, image(last.digest).created)])
  {
  }

  lemma {:induction false} FullDatedSelect(image: string -> ImageInfo, entries: seq<Tagged>, p: Tagged -> bool)
    ensures multiset(FullDated(image, Select(entries, p))) <= multiset(FullDated(image, entries))
  {
    hide FullDated;
    if entries == [] {
      assert Select(entries, p) == entries;
    } else {
      var init, last := entries[..|entries| - 1], entries[|entries| - 1];
      var found := if image(last.digest).created == 0 then [] else [TagData(last.tag, image(last.digest).created)];
      FullDatedSelect(image, init, p);
      assert init + [last] == entries;
      FullDatedSnoc(image, init, last);
      FullDatedSnoc(image, Select(init, p), last);
      WithinGrows(FullDated(image, Select(init, p)), FullDated(image, init), found);
      if p(last) {
        assert Select(entries, p) == Select(init, p) + [last];
      } else {
        assert Select(entries, p) == Select(init, p);
      }
    }
  }

  lemma {:induction false} RepeatWithin<T>(s: seq<T>, t: seq<T>, n: nat)
    requires multiset(s) <= multiset(t)
    ensures multiset(Repeat(s, n)) <= multiset(Repeat(t, n))
  {
    if n > 0 {
      RepeatWithin(s, t, n - 1);
      assert multiset(Repeat(s, n)) == multiset(Repeat(s, n - 1)) + multiset(s);
      assert multiset(Repeat(t, n)) == multiset(Repeat(t, n - 1)) + multiset(t);
    }
  }

  lemma {:induction false} RepeatMember<T>(s: seq<T>, n: nat, x: T)
    requires x in Repeat(s, n)
    ensures x in s
  {
    if x in Repeat(s, n - 1) {
      RepeatMember(s, n - 1, x);
    }
  }

  /** A later listing that is part of the first one and holds no purged name is part of the kept tags. */
  lemma WithinKept(p: Policy, repo: string, now: int, first: seq<TagData>, second: seq<TagData>)
    requires multiset(second) <= multiset(first)
    requires forall t :: t in second ==> t.name !in Plan(p, repo, now, first).purge
    ensures multiset(second) <= multiset(Kept(p, repo, now, Sort(first, Newer)))
  {
    var s := Sort(first, Newer);
    hide Plan, Sort, Kept, Purged;
    SortedListing(first);
    KeptPlusPurged(p, repo, now, s);
    var _ := ClosedForm(p, repo, now, first);
    forall t | t in multiset(second) ensures t !in multiset(Purged(p, repo, now, s)) {
      PurgedHasName(Purged(p, repo, now, s), t);
    }
    DisjointWithin(multiset(second), multiset(Kept(p, repo, now, s)), multiset(Purged(p, repo, now, s)));
  }

  lemma {:induction false} AllRefsContain(plans: map<string, RepoPlan>, order: seq<string>, repo: string, tag: string)
    requires forall i :: 0 <= i < |order| ==> order[i] in plans
    requires repo in order && repo in plans && tag in plans[repo].purge
    ensures (repo, tag) in AllRefs(plans, order)
  {
    var init, last := order[..|order| - 1], order[|order| - 1];
    if last == repo {
      var i :| 0 <= i < |plans[repo].purge| && plans[repo].purge[i] == tag;
      assert Refs(repo, plans[repo].purge)[i] == (repo, tag);
    } else {
      AllRefsContain(plans, init, repo, tag);
    }
  }

  lemma RequestsContain(plans: map<string, RepoPlan>, repo: string, tag: string)
    requires repo in plans && tag in plans[repo].purge
    ensures (repo, tag) in Requests(plans)
  {
    KeysInPlans(plans);
    SortedKeysDistinct(plans.Keys);
    AllRefsContain(plans, SortedKeys(plans.Keys), repo, tag);
  }

  /** A tag whose manifest has been deleted has no entry left. */
  lemma HitIsGone(done: seq<(string, string)>, registry0: Registry, registry: Registry, repo: string, e: Tagged)
    requires Proper(registry0) && LeftBy(done, registry0, registry) && HitRef(done, registry0, (repo, e.tag))
    ensures repo in registry0 && e !in registry[repo]
  {
    if e in registry0[repo] {
      assert ProperEntries(registry0[repo]);
      DigestOfMember(registry0[repo], e.tag, e.digest);
    }
    SurvivorsAreUnhit(done, registry0, registry, repo, e);
  }

  lemma EmptyPlan(p: Policy, repo: string, now: int)
    ensures Plan(p, repo, now, []).purge == []
  {
  }

  lemma LeftDated(image: string -> ImageInfo, done: seq<(string, string)>, registry0: Registry, registry: Registry,
                  repo: string)
    requires LeftBy(done, registry0, registry)
    ensures multiset(RepoDated(image, registry, repo)) <= multiset(RepoDated(image, registry0, repo))
  {
    if repo in registry0 {
      FullDatedSelect(image, registry0[repo], NotHit(done, registry0[repo], repo));
    }
  }

  /** The second plan of one repository, after the manifest of every candidate of the first has been deleted. */
  lemma SecondPlanEmpty(p: Policy, now: int, image: string -> ImageInfo, registry0: Registry, registry: Registry,
                        done: seq<(string, string)>, repo: string, n: nat, first: seq<TagData>, second: seq<TagData>)
    requires Proper(registry0) && LeftBy(done, registry0, registry)
    requires first == TimesDated(image, registry0, repo, n)
    requires multiset(second) <= multiset(TimesDated(image, registry, repo, n))
    requires forall tag :: tag in Plan(p, repo, now, first).purge ==> HitRef(done, registry0, (repo, tag))
    ensures Plan(p, repo, now, second).purge == []
  {
    hide Plan, FullDated, HitRef, LeftBy, Proper;
    LeftDated(image, done, registry0, registry, repo);
    RepeatWithin(RepoDated(image, registry, repo), RepoDated(image, registry0, repo), n);
    forall t | t in second ensures t.name !in Plan(p, repo, now, first).purge {
      assert t in multiset(second);
      assert t in multiset(TimesDated(image, registry, repo, n));
      RepeatMember(RepoDated(image, registry, repo), n, t);
      var e := FullDatedMember(image, registry[repo], t);
      if t.name in Plan(p, repo, now, first).purge {
        HitIsGone(done, registry0, registry, repo, e);
      }
    }
    WithinKept(p, repo, now, first, second);
    NothingLeft(p, repo, now, first, second);
  }

  /**
   Idempotence. After a real run in which all calls were served, a second run at the same time, with any calls failing,
   has no candidate; candidates may share manifests, and repositories may be named repeatedly.
   */
  lemma SecondRunFindsNothing(env: Env, env2: Env, w: World, c: RunConfig, dryRun: bool, repos: seq<string>, now: int)
    requires Quiet(env) && Served(env) && Quiet(env2) && env2.image == env.image
    requires Proper(w.registry) && !c.dryRun && !c.keepFileMissing
    ensures Run(env2, Run(env, w, c, repos, now).0, c.(dryRun := dryRun), repos, now).1.candidates == 0
  {
    hide Plan, ScanAll, ExecPlans, LeftBy, Proper, Failures, Requests, TimesDated, Catalog, DistinctManifests, HitRef;
    var catalog, c2 := Catalog(c, repos), c.(dryRun := dryRun);
    var ex := AfterDeletes(env, w, c, repos, now);
    var plans := PlansOf(env, w, c, repos, now);
    RegistryAfterPurge(env, w, c, repos, now);
    EveryCandidateIsHit(env, w, c, repos, now);
    LeftByProper(ex.done, w.registry, ex.world.registry);
    SameCatalog(c, c2, repos);
    var plans2 := PlansOf(env2, ex.world, c2, repos, now);
    var dated, dated2 := ScanOf(env, w, c, repos).dated, ScanOf(env2, ex.world, c2, repos).dated;
    forall repo | repo in plans2 ensures plans2[repo].purge == [] {
      ScanAllFound(env, w, catalog, repo);
      ScanAllFound(env2, ex.world, catalog, repo);
      forall tag | tag in Plan(c.policy, repo, now, DatedOf(dated, repo)).purge
        ensures HitRef(ex.done, w.registry, (repo, tag))
      {
        if repo in dated {
          RequestsContain(plans, repo, tag);
        } else {
          EmptyPlan(c.policy, repo, now);
        }
      }
      SecondPlanEmpty(c.policy, now, env.image, w.registry, ex.world.registry, ex.done, repo, multiset(catalog)[repo],
                      DatedOf(dated, repo), dated2[repo]);
    }
    NoCandidatesIn(plans2, ScanOf(env2, ex.world, c2, repos).sizes);
  }

  lemma SameCatalog(c: RunConfig, c2: RunConfig, repos: seq<string>)
    requires c2.includeRepos == c.includeRepos && c2.excludeRepos == c.excludeRepos
    ensures Catalog(c2, repos) == Catalog(c, repos)
  {
  }

  lemma NoCandidatesIn(plans: map<string, RepoPlan>, sizes: map<string, int>)
    requires forall repo :: repo in plans ==> plans[repo].purge == []
    ensures TotalCandidates(Summaries(plans, sizes)) == 0
  {
    var results := Summaries(plans, sizes);
    SumZero(results.Keys, CandidatesIn(results));
  }
}

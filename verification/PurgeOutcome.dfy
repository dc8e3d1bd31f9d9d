/**
 What a real purge leaves in the registry, when the run is the registry's only user. Remote calls may still fail, except
 where `Served` is required.
 */
module PurgeOutcome {
  import opened PurgeAccounting
  import opened PurgeRun
  import opened RegistryClient
  import opened Retention
  import opened Selection
  import opened Sums
  import opened Text

  ghost predicate Quiet(env: Env) {
    forall n, registry :: env.drift(n, registry) == registry
  }

  ghost predicate Served(env: Env) {
    forall n :: !env.refuses(n)
  }

  ghost predicate DistinctTags(entries: seq<Tagged>) {
    forall i, j :: 0 <= i < j < |entries| ==> entries[i].tag != entries[j].tag
  }

  /**
   A tag names one manifest and contains no colon (section "Pulling manifests" of the OCI Distribution Specification).
   */
  ghost predicate ProperEntries(entries: seq<Tagged>) {
    DistinctTags(entries) && forall e :: e in entries ==> ':' !in e.tag
  }

  ghost predicate Proper(registry: Registry) {
    forall repo :: repo in registry ==> ProperEntries(registry[repo])
  }

  lemma {:induction false} DigestOfMember(entries: seq<Tagged>, tag: string, digest: string)
    requires DistinctTags(entries)
    ensures DigestOf(entries, tag) == Some(digest) <==> Tagged(tag, digest) in entries
  {
    if entries != [] {
      DigestOfMember(entries[1..], tag, digest);
      assert entries == [entries[0]] + entries[1..];
    }
  }

  lemma {:induction false} SelectKeepsProper(entries: seq<Tagged>, p: Tagged -> bool)
    requires ProperEntries(entries)
    ensures ProperEntries(Select(entries, p))
  {
    if entries != [] {
      var init, last := entries[..|entries| - 1], entries[|entries| - 1];
      SelectKeepsProper(init, p);
      var front := Select(init, p);
      forall i | 0 <= i < |front| ensures front[i].tag != last.tag && ':' !in front[i].tag {
        SelectMember(init, p, front[i]);
        var j :| 0 <= j < |init| && init[j] == front[i];
        assert entries[j] == init[j];
      }
    }
  }

  // ---------- Scanning a quiet registry ----------

  /** Every dated tag is a tag of its repository. */
  ghost predicate FromRegistry(dated: map<string, seq<TagData>>, registry: Registry) {
    forall repo :: repo in dated ==>
      repo in registry && forall t :: t in dated[repo] ==> t.name in Tags(registry[repo])
  }

  lemma QuietInfo(env: Env, w: World, imageRef: string)
    requires Quiet(env)
    ensures GetInfo(env, w, imageRef).0 == w.(calls := w.calls + 1)
  {
  }

  lemma {:induction false} QuietScanTags(env: Env, sc: Scan, repo: string, tags: seq<string>)
    requires Quiet(env) && FromRegistry(sc.dated, sc.world.registry)
    requires repo in sc.world.registry && forall t :: t in tags ==> t in Tags(sc.world.registry[repo])
    ensures var r := ScanTags(env, sc, repo, tags);
            && r.world.registry == sc.world.registry && r.world.cache == sc.world.cache
            && FromRegistry(r.dated, r.world.registry)
            && (forall x :: x != repo ==> DatedOf(r.dated, x) == DatedOf(sc.dated, x))
  {
    if tags != [] {
      var init, tag := tags[..|tags| - 1], tags[|tags| - 1];
      assert forall t :: t in init ==> t in tags;
      QuietScanTags(env, sc, repo, init);
      var before := ScanTags(env, sc, repo, init);
      QuietInfo(env, before.world, Ref(repo, tag));
      assert tag in tags;
      var info := GetInfo(env, before.world, Ref(repo, tag)).1;
      if info.Some? {
        FromRegistryAdd(before.dated, before.world.registry, repo, TagData(tag, info.value.created));
      }
      hide GetInfo, SplitRef, FromRegistry;
    }
  }

  lemma FromRegistryAdd(dated: map<string, seq<TagData>>, registry: Registry, repo: string, t: TagData)
    requires FromRegistry(dated, registry) && repo in registry && t.name in Tags(registry[repo])
    ensures FromRegistry(dated[repo := DatedOf(dated, repo) + [t]], registry)
  {
  }

  lemma {:induction false} QuietScanAll(env: Env, sc: Scan, catalog: seq<string>)
    requires Quiet(env) && FromRegistry(sc.dated, sc.world.registry)
    ensures var r := ScanAll(env, sc, catalog);
            r.world.registry == sc.world.registry && FromRegistry(r.dated, r.world.registry)
  {
    hide ScanTags;
    if catalog != [] {
      var init, repo := catalog[..|catalog| - 1], catalog[|catalog| - 1];
      QuietScanAll(env, sc, init);
      var before := ScanAll(env, sc, init);
      var (w, tags) := Fetch(env, before.world, repo);
      if tags.Some? {
        QuietScanTags(env, before.(world := w), repo, tags.value);
      }
    }
  }

  // ---------- Deleting from a quiet registry ----------

  /** A deletion succeeds exactly when both remote calls are served and the tag still exists. */
  lemma QuietDelete(env: Env, w: World, repo: string, tag: string)
    requires Quiet(env) && Proper(w.registry) && ':' !in tag
    ensures var (w', ok) := Delete(env, w, repo, tag);
            var digest := Lookup(w.registry, repo, tag);
            && (ok <==> !env.refuses(w.calls) && !env.refuses(w.calls + 1) && digest.Some?)
            && w'.registry == (if ok then WithoutDigest(w.registry, repo, digest.value) else w.registry)
            && w'.cache == (if ok then WithoutTag(w.cache, repo, tag) else w.cache)
  {
    hide WithoutDigest, WithoutTag, LastColon;
    SplitRefOfRef(repo, tag);
    hide SplitRef;
    if repo in w.registry {
      var digest := Lookup(w.registry, repo, tag);
      if digest.Some? {
        DigestOfMember(w.registry[repo], tag, digest.value);
      }
    }
  }

  /**
   In any environment: a deletion succeeds exactly when both calls are served, the tag can be resolved at the first, and
   at the second its repository exists and holds that manifest, tagged or not. Then all tags of the manifest are gone
   from the repository and one name from its cached list; a failed deletion removes nothing.
   */
  lemma DeleteOutcome(env: Env, w: World, repo: string, tag: string)
    requires ':' !in tag
    ensures var first := env.drift(w.calls, w.registry);
            var second := env.drift(w.calls + 1, first);
            var digest := Lookup(first, repo, tag);
            var (w', ok) := Delete(env, w, repo, tag);
            && (ok <==>
                  && !env.refuses(w.calls) && digest.Some? && !env.refuses(w.calls + 1) && repo in second
                  && ((exists e :: e in second[repo] && e.digest == digest.value) || env.holdsUntagged(w.calls + 1)))
            && (!ok ==> w'.cache == w.cache
                        && w'.registry == if env.refuses(w.calls) || digest.None? then first else second)
            && (ok ==>
                  && w'.registry.Keys == second.Keys
                  && (forall other :: other in second && other != repo ==> w'.registry[other] == second[other])
                  && (forall e :: e in w'.registry[repo] <==> e in second[repo] && e.digest != digest.value)
                  && w'.cache.Keys == w.cache.Keys
                  && (forall other :: other in w.cache && other != repo ==> w'.cache[other] == w.cache[other])
                  && (repo in w.cache ==> forall t :: t in w'.cache[repo] <==> t in w.cache[repo] && t != tag))
            && w'.deletes == w.deletes + [(repo, tag)]
  {
    SplitRefOfRef(repo, tag);
    hide SplitRef, Ref, Lookup, Select;
    if Delete(env, w, repo, tag).1 {
      var first := env.drift(w.calls, w.registry);
      var second := env.drift(w.calls + 1, first);
      var digest := Lookup(first, repo, tag).value;
      forall e
        ensures e in Select(second[repo], Not(HasDigest(digest))) <==> e in second[repo] && e.digest != digest
      {
        SelectMember(second[repo], Not(HasDigest(digest)), e);
      }
      if repo in w.cache {
        forall t ensures t in Select(w.cache[repo], Not(IsTag(tag))) <==> t in w.cache[repo] && t != tag {
          SelectMember(w.cache[repo], Not(IsTag(tag)), t);
        }
      }
    }
  }

  /** Some successful deletion was of a tag with this entry's digest. */
  ghost predicate Hit(done: seq<(string, string)>, entries: seq<Tagged>, repo: string, e: Tagged) {
    exists i :: 0 <= i < |done| && done[i].0 == repo && DigestOf(entries, done[i].1) == Some(e.digest)
  }

  ghost function NotHit(done: seq<(string, string)>, entries: seq<Tagged>, repo: string): Tagged -> bool {
    (e: Tagged) => !Hit(done, entries, repo, e)
  }

  /** What is left of `registry0` once the deletions in `done` have succeeded. */
  ghost predicate LeftBy(done: seq<(string, string)>, registry0: Registry, registry: Registry) {
    && registry.Keys == registry0.Keys
    && forall repo :: repo in registry0 ==>
         registry[repo] == Select(registry0[repo], NotHit(done, registry0[repo], repo))
  }

  /** No two successful deletions were of the same manifest. */
  ghost predicate DistinctManifests(done: seq<(string, string)>, registry: Registry) {
    forall i, j :: 0 <= i < j < |done| && done[i].0 == done[j].0 ==>
      Lookup(registry, done[i].0, done[i].1) != Lookup(registry, done[j].0, done[j].1)
  }

  lemma HitSnoc(done: seq<(string, string)>, entries: seq<Tagged>, repo: string, ref: (string, string), e: Tagged)
    ensures Hit(done + [ref], entries, repo, e) <==>
            Hit(done, entries, repo, e) || (ref.0 == repo && DigestOf(entries, ref.1) == Some(e.digest))
  {
    var longer := done + [ref];
    if Hit(done, entries, repo, e) {
      var i :| 0 <= i < |done| && done[i].0 == repo && DigestOf(entries, done[i].1) == Some(e.digest);
      assert longer[i] == done[i];
    }
    assert longer[|done|] == ref;
  }

  lemma NothingHit(registry: Registry)
    ensures LeftBy([], registry, registry)
  {
    forall repo | repo in registry
      ensures Select(registry[repo], NotHit([], registry[repo], repo)) == registry[repo]
    {
      SelectAll(registry[repo], NotHit([], registry[repo], repo));
    }
  }

  /** A tag that is still there has the digest it had at first, and no deletion has hit it. */
  lemma StillThere(done: seq<(string, string)>, registry0: Registry, registry: Registry, repo: string, tag: string)
    requires Proper(registry0) && LeftBy(done, registry0, registry)
    requires repo in registry0 && DigestOf(registry[repo], tag).Some?
    ensures DigestOf(registry0[repo], tag) == DigestOf(registry[repo], tag)
    ensures !Hit(done, registry0[repo], repo, Tagged(tag, DigestOf(registry[repo], tag).value))
  {
    var entries, p := registry0[repo], NotHit(done, registry0[repo], repo);
    var digest := DigestOf(registry[repo], tag).value;
    SelectKeepsProper(entries, p);
    DigestOfMember(registry[repo], tag, digest);
    SelectMember(entries, p, Tagged(tag, digest));
    DigestOfMember(entries, tag, digest);
  }

  lemma LeftByStep(done: seq<(string, string)>, registry0: Registry, registry: Registry, repo: string, tag: string)
    requires Proper(registry0) && LeftBy(done, registry0, registry)
    requires repo in registry0 && DigestOf(registry[repo], tag).Some?
    ensures LeftBy(done + [(repo, tag)], registry0, WithoutDigest(registry, repo, DigestOf(registry[repo], tag).value))
  {
    var digest := DigestOf(registry[repo], tag).value;
    var after := WithoutDigest(registry, repo, digest);
    StillThere(done, registry0, registry, repo, tag);
    forall x | x in registry0
      ensures after[x] == Select(registry0[x], NotHit(done + [(repo, tag)], registry0[x], x))
    {
      var entries := registry0[x];
      forall e ensures NotHit(done + [(repo, tag)], entries, x)(e) <==>
          NotHit(done, entries, x)(e) && !(x == repo && e.digest == digest)
      {
        HitSnoc(done, entries, x, (repo, tag), e);
      }
      if x == repo {
        SelectCompose(entries, NotHit(done, entries, x), Not(HasDigest(digest)),
                      NotHit(done + [(repo, tag)], entries, x));
      } else {
        SelectAgree(entries, NotHit(done, entries, x), NotHit(done + [(repo, tag)], entries, x));
      }
    }
  }

  lemma LeftByProper(done: seq<(string, string)>, registry0: Registry, registry: Registry)
    requires Proper(registry0) && LeftBy(done, registry0, registry)
    ensures Proper(registry)
  {
    forall repo | repo in registry ensures ProperEntries(registry[repo]) {
      SelectKeepsProper(registry0[repo], NotHit(done, registry0[repo], repo));
    }
  }

  lemma NotHitMeans(done: seq<(string, string)>, entries: seq<Tagged>, repo: string, tag: string, digest: string)
    requires !Hit(done, entries, repo, Tagged(tag, digest))
    ensures forall i :: 0 <= i < |done| && done[i].0 == repo ==> DigestOf(entries, done[i].1) != Some(digest)
  {
  }

  lemma DistinctManifestsStep(done: seq<(string, string)>, registry0: Registry, registry: Registry, repo: string,
                              tag: string)
    requires Proper(registry0) && LeftBy(done, registry0, registry) && DistinctManifests(done, registry0)
    requires repo in registry0 && DigestOf(registry[repo], tag).Some?
    ensures DistinctManifests(done + [(repo, tag)], registry0)
  {
    var digest := DigestOf(registry[repo], tag).value;
    StillThere(done, registry0, registry, repo, tag);
    var longer := done + [(repo, tag)];
    NotHitMeans(done, registry0[repo], repo, tag, digest);
    assert longer[|done|] == (repo, tag);
  }

  /** The invariant of the deletion phase. */
  ghost predicate Outcome(registry0: Registry, ex: Exec) {
    LeftBy(ex.done, registry0, ex.world.registry) && DistinctManifests(ex.done, registry0)
  }

  lemma ExecTagOutcome(env: Env, registry0: Registry, ex: Exec, repo: string, tag: string)
    requires Quiet(env) && Proper(registry0) && Outcome(registry0, ex) && repo in ex.repositories && ':' !in tag
    ensures Outcome(registry0, ExecTag(env, ex, repo, tag))
  {
    LeftByProper(ex.done, registry0, ex.world.registry);
    QuietDelete(env, ex.world, repo, tag);
    hide Delete, WithoutDigest, LeftBy, DistinctManifests;
    if Delete(env, ex.world, repo, tag).1 {
      RepositoriesLeft(ex.done, registry0, ex.world.registry);
      LeftByStep(ex.done, registry0, ex.world.registry, repo, tag);
      DistinctManifestsStep(ex.done, registry0, ex.world.registry, repo, tag);
    }
  }

  lemma RepositoriesLeft(done: seq<(string, string)>, registry0: Registry, registry: Registry)
    requires LeftBy(done, registry0, registry)
    ensures registry.Keys == registry0.Keys
  {
  }

  ghost predicate NoColons(tags: seq<string>) {
    forall i :: 0 <= i < |tags| ==> ':' !in tags[i]
  }

  lemma {:induction false} ExecTagsOutcome(env: Env, registry0: Registry, ex: Exec, repo: string, tags: seq<string>)
    requires Quiet(env) && Proper(registry0) && Outcome(registry0, ex) && repo in ex.repositories && NoColons(tags)
    ensures Outcome(registry0, ExecTags(env, ex, repo, tags))
  {
    hide Outcome, ExecTag;
    if tags != [] {
      var init := tags[..|tags| - 1];
      ExecTagsOutcome(env, registry0, ex, repo, init);
      ExecTagOutcome(env, registry0, ExecTags(env, ex, repo, init), repo, tags[|tags| - 1]);
    }
  }

  lemma {:induction false} ExecAllOutcome(env: Env, registry0: Registry, ex: Exec, plans: map<string, RepoPlan>,
                                          order: seq<string>)
    requires Quiet(env) && Proper(registry0) && Outcome(registry0, ex) && plans.Keys == ex.repositories.Keys
    requires forall i :: 0 <= i < |order| ==> order[i] in plans
    requires forall repo :: repo in plans ==> NoColons(plans[repo].purge)
    ensures Outcome(registry0, ExecAll(env, ex, plans, order))
  {
    hide Outcome, ExecTags;
    if order != [] {
      var init, repo := order[..|order| - 1], order[|order| - 1];
      ExecAllOutcome(env, registry0, ex, plans, init);
      ExecTagsOutcome(env, registry0, ExecAll(env, ex, plans, init), repo, plans[repo].purge);
    }
  }

  // ---------- The registry after a real purge ----------

  /** Successes are requested deletions, and without a new failure they are all of them, in order. */
  ghost predicate Progress(ex: Exec, r: Exec, refs: seq<(string, string)>) {
    && (forall ref :: ref in r.done ==> ref in ex.done || ref in refs)
    && |Failures(ex.errors)| <= |Failures(r.errors)|
    && (|Failures(ex.errors)| == |Failures(r.errors)| ==> r.done == ex.done + refs)
  }

  lemma ProgressNothing(ex: Exec)
    ensures Progress(ex, ex, [])
  {
  }

  lemma ProgressTransitive(a: Exec, b: Exec, c: Exec, refs: seq<(string, string)>, refs': seq<(string, string)>)
    requires Progress(a, b, refs) && Progress(b, c, refs')
    ensures Progress(a, c, refs + refs')
  {
  }

  lemma ExecTagProgress(env: Env, ex: Exec, repo: string, tag: string)
    requires repo in ex.repositories
    ensures Progress(ex, ExecTag(env, ex, repo, tag), [(repo, tag)])
  {
  }

  lemma {:induction false} ExecTagsProgress(env: Env, ex: Exec, repo: string, tags: seq<string>)
    requires repo in ex.repositories
    ensures Progress(ex, ExecTags(env, ex, repo, tags), Refs(repo, tags))
  {
    hide Progress, ExecTag;
    if tags == [] {
      ProgressNothing(ex);
    } else {
      var init, tag := tags[..|tags| - 1], tags[|tags| - 1];
      var before := ExecTags(env, ex, repo, init);
      ExecTagsProgress(env, ex, repo, init);
      ExecTagProgress(env, before, repo, tag);
      ProgressTransitive(ex, before, ExecTag(env, before, repo, tag), Refs(repo, init), [(repo, tag)]);
      assert Refs(repo, tags) == Refs(repo, init) + [(repo, tag)];
    }
  }

  lemma {:induction false} ExecAllProgress(env: Env, ex: Exec, plans: map<string, RepoPlan>, order: seq<string>)
    requires plans.Keys == ex.repositories.Keys && forall i :: 0 <= i < |order| ==> order[i] in plans
    ensures Progress(ex, ExecAll(env, ex, plans, order), AllRefs(plans, order))
  {
    hide Progress, ExecTags;
    if order == [] {
      ProgressNothing(ex);
    } else {
      var init, repo := order[..|order| - 1], order[|order| - 1];
      var before := ExecAll(env, ex, plans, init);
      ExecAllProgress(env, ex, plans, init);
      ExecTagsProgress(env, before, repo, plans[repo].purge);
      ProgressTransitive(ex, before, ExecAll(env, ex, plans, order), AllRefs(plans, init),
                         Refs(repo, plans[repo].purge));
    }
  }

  /** Every tag to be purged exists in the registry. */
  ghost predicate PlansFrom(plans: map<string, RepoPlan>, registry: Registry) {
    forall repo :: repo in plans ==>
      forall tag :: tag in plans[repo].purge ==> repo in registry && tag in Tags(registry[repo])
  }

  lemma PlansAreFromRegistry(p: Policy, now: int, dated: map<string, seq<TagData>>, registry: Registry)
    requires FromRegistry(dated, registry)
    ensures PlansFrom(Plans(p, now, dated), registry)
  {
    hide Plan;
    forall repo | repo in dated
      ensures forall tag :: tag in Plan(p, repo, now, dated[repo]).purge ==>
                repo in registry && tag in Tags(registry[repo])
    {
      forall tag | tag in Plan(p, repo, now, dated[repo]).purge ensures tag in Tags(registry[repo]) {
        var t := PurgedNameIsListed(p, repo, now, dated[repo], tag);
      }
    }
  }

  lemma PlansNoColons(plans: map<string, RepoPlan>, registry: Registry)
    requires PlansFrom(plans, registry) && Proper(registry)
    ensures forall repo :: repo in plans ==> NoColons(plans[repo].purge)
  {
    forall repo | repo in plans ensures NoColons(plans[repo].purge) {
      forall i | 0 <= i < |plans[repo].purge| ensures ':' !in plans[repo].purge[i] {
        var tag := plans[repo].purge[i];
        assert tag in plans[repo].purge;
        var j :| 0 <= j < |registry[repo]| && Tags(registry[repo])[j] == tag;
        assert registry[repo][j] in registry[repo];
      }
    }
  }

  lemma QuietStart(env: Env, w: World, c: RunConfig, repos: seq<string>, now: int)
    requires Quiet(env) && Proper(w.registry)
    ensures BeforeDeletes(env, w, c, repos, now).world.registry == w.registry
    ensures PlansFrom(PlansOf(env, w, c, repos, now), w.registry)
    ensures BeforeDeletes(env, w, c, repos, now).done == []
    ensures PlansOf(env, w, c, repos, now).Keys == BeforeDeletes(env, w, c, repos, now).repositories.Keys
  {
    hide ScanAll, Plan, Catalog;
    QuietScanAll(env, Scan(w, map[], map[], []), Catalog(c, repos));
    PlansAreFromRegistry(c.policy, now, ScanOf(env, w, c, repos).dated, w.registry);
  }

  /**
   After a real purge with any failures: each repository has lost exactly the tags that share a digest with a
   successfully deleted candidate, and the remaining ones are in their old order. No manifest is deleted twice.
   */
  lemma RegistryAfterPurge(env: Env, w: World, c: RunConfig, repos: seq<string>, now: int)
    requires Quiet(env) && Proper(w.registry) && !c.dryRun
    ensures var ex := AfterDeletes(env, w, c, repos, now);
            && LeftBy(ex.done, w.registry, ex.world.registry)
            && DistinctManifests(ex.done, w.registry)
            && (forall ref :: ref in ex.done ==> ref in Requests(PlansOf(env, w, c, repos, now)))
  {
    hide BeforeDeletes, PlansOf, LeftBy, ExecAll, SortedKeys, AllRefs, PlansFrom;
    var start, plans := BeforeDeletes(env, w, c, repos, now), PlansOf(env, w, c, repos, now);
    QuietStart(env, w, c, repos, now);
    NothingHit(w.registry);
    PlansNoColons(plans, w.registry);
    KeysInPlans(plans);
    ExecAllOutcome(env, w.registry, start, plans, SortedKeys(plans.Keys));
    ExecAllProgress(env, start, plans, SortedKeys(plans.Keys));
  }

  lemma SurvivorsAreUnhit(done: seq<(string, string)>, registry0: Registry, registry: Registry, repo: string, e: Tagged)
    requires LeftBy(done, registry0, registry) && repo in registry0
    ensures e in registry[repo] <==> e in registry0[repo] && !Hit(done, registry0[repo], repo, e)
  {
    SelectMember(registry0[repo], NotHit(done, registry0[repo], repo), e);
  }
}

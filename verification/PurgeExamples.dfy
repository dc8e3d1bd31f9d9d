/** Whole runs in which a purge does something unexpected, although every call is served. */
module PurgeExamples {
  import opened PurgeAccounting
  import opened PurgeCache
  import opened PurgeOrder
  import opened PurgeOutcome
  import opened PurgeRepeat
  import opened PurgeRun
  import opened RegistryClient
  import opened RepeatedScan
  import opened Retention
  import opened Selection
  import opened Sorting
  import opened Sums
  import opened Text

  /** What a served run asks to delete. */
  lemma ServedRequestsIff(env: Env, w: World, c: RunConfig, repos: seq<string>, now: int, repo: string, name: string)
    requires Quiet(env) && Served(env) && Proper(w.registry)
    ensures (repo, name) in Requests(PlansOf(env, w, c, repos, now)) <==>
            name in Plan(c.policy, repo, now,
                         TimesDated(env.image, w.registry, repo, multiset(Catalog(c, repos))[repo])).purge
  {
    hide PlansOf, Plan, Catalog, TimesDated, Requests, AllRefs, Proper;
    var plans := PlansOf(env, w, c, repos, now);
    ServedPlan(env, w, c, repos, now, repo);
    EmptyPlan(c.policy, repo, now);
    if (repo, name) in Requests(plans) {
      RequestIsPlanned(plans, (repo, name));
    }
    if repo in plans && name in plans[repo].purge {
      RequestsContain(plans, repo, name);
    }
  }

  lemma RequestIsPlanned(plans: map<string, RepoPlan>, ref: (string, string))
    requires ref in Requests(plans)
    ensures ref.0 in plans && ref.1 in plans[ref.0].purge
  {
    KeysInPlans(plans);
    RefsOfPlans(plans, SortedKeys(plans.Keys), ref);
  }

  /** Without a keep count exactly the candidates are purged. */
  lemma PurgedWithoutKeepCount(p: Policy, repo: string, now: int, listed: seq<TagData>, name: string)
    requires p.keepCount <= 0
    ensures name in Plan(p, repo, now, listed).purge <==>
            exists t :: t in listed && t.name == name && Candidate(p, repo, now, t)
  {
    hide *;
    if name in Plan(p, repo, now, listed).purge {
      var t := PurgedNameIsListed(p, repo, now, listed, name);
    }
    if t :| t in listed && t.name == name && Candidate(p, repo, now, t) {
      CandidateIsPurged(p, repo, now, listed, t);
    }
  }

  lemma CandidateIsPurged(p: Policy, repo: string, now: int, listed: seq<TagData>, t: TagData)
    requires p.keepCount <= 0 && t in listed && Candidate(p, repo, now, t)
    ensures t.name in Plan(p, repo, now, listed).purge
  {
    hide Sort, Select, Candidate, Names;
    var s := Sort(listed, Newer);
    SortedListing(listed);
    assert t in multiset(s);
    SelectMember(s, IsCandidate(p, repo, now), t);
    PurgedHasName(Candidates(p, repo, now, s), t);
  }

  /** A real run, alone on a registry that serves every call, over nine days old images. */
  ghost predicate Setting(env: Env, w: World, c: RunConfig, now: int) {
    && Quiet(env) && Served(env) && !c.dryRun && c.excludeRepos == "" && c.policy.keepDays == 1
    && c.policy.fromFile("app") == [] && env.image("d").created == now - 9 * DAY && now != 9 * DAY
  }

  lemma NineDaysOld(env: Env, w: World, c: RunConfig, now: int, name: string)
    requires Setting(env, w, c, now)
    ensures Candidate(c.policy, "app", now, TagData(name, env.image("d").created)) <==> !c.policy.matchesRegexp(name)
  {
    assert DaysOld(now, now - 9 * DAY) == 9;
  }

  // ---------- The include list `app,app` ----------

  lemma OneTagDated(env: Env, registry: Registry, tag: string)
    requires registry == map["app" := [Tagged(tag, "d")]] && env.image("d").created != 0
    ensures RepoDated(env.image, registry, "app") == [TagData(tag, env.image("d").created)]
  {
    var entries := [Tagged(tag, "d")];
    assert entries[..0] == [] && FullDated(env.image, []) == [];
    assert FullDated(env.image, entries) == [] + [TagData(tag, env.image("d").created)];
  }

  lemma OldTagOnly(registry: Registry, tag: string)
    requires registry == map["app" := [Tagged("old", "d")]]
    ensures Proper(registry) && (DigestOf(registry["app"], tag) == Some("d") <==> tag == "old")
  {
    assert ':' !in "old";
  }

  /** With one tag the run deletes it if and only if it plans to. */
  lemma OldTagSurvivesIff(env: Env, w: World, c: RunConfig, repos: seq<string>, now: int)
    requires Setting(env, w, c, now) && w.registry == map["app" := [Tagged("old", "d")]]
    ensures var after := AfterDeletes(env, w, c, repos, now).world.registry;
            "app" in after && (Tagged("old", "d") in after["app"] <==>
              "old" !in Plan(c.policy, "app", now,
                             Repeat([TagData("old", now - 9 * DAY)], multiset(Catalog(c, repos))["app"])).purge)
  {
    hide AfterDeletes, PlansOf, Plan, Requests, Catalog, Proper, DigestOf;
    var e := Tagged("old", "d");
    OldTagOnly(w.registry, "old");
    OneTagDated(env, w.registry, "old");
    ServedRequestsIff(env, w, c, repos, now, "app", "old");
    KeptTagSurvivesIff(env, w, c, repos, now, "app", e);
    forall tag ensures DigestOf(w.registry["app"], tag) == Some("d") <==> tag == "old" {
      OldTagOnly(w.registry, tag);
    }
  }

  lemma NamedOnceCatalog(c: RunConfig, repos: seq<string>)
    requires c.includeRepos == "app" && c.excludeRepos == ""
    ensures Catalog(c, repos) == ["app"]
  {
    assert ',' !in "app";
  }

  /**
   Keep count 1 and one old tag: a run over `app` keeps it, a run over `app,app` deletes it.
   */
  lemma NamedTwiceRun(env: Env, w: World, c: RunConfig, repos: seq<string>, now: int)
    requires Setting(env, w, c, now) && w.registry == map["app" := [Tagged("old", "d")]]
    requires c.policy.keepCount == 1 && !c.policy.matchesRegexp("old") && c.includeRepos == "app,app"
    ensures var once := AfterDeletes(env, w, c.(includeRepos := "app"), repos, now).world.registry;
            var twice := AfterDeletes(env, w, c, repos, now).world.registry;
            && "app" in once && Tagged("old", "d") in once["app"]
            && "app" in twice && Tagged("old", "d") !in twice["app"]
  {
    hide AfterDeletes, Plan, Catalog, Repeat;
    var c1, listed := c.(includeRepos := "app"), [TagData("old", now - 9 * DAY)];
    NamedTwiceExample(c, repos, now);
    NamedOnceCatalog(c1, repos);
    assert multiset(["app", "app"])["app"] == 2 && multiset(["app"])["app"] == 1;
    OldTagSurvivesIff(env, w, c, repos, now);
    OldTagSurvivesIff(env, w, c1, repos, now);
    RepeatOnce(listed);
  }

  lemma RepeatOnce<T>(s: seq<T>)
    ensures Repeat(s, 1) == s
  {
    assert Repeat(s, 1) == Repeat(s, 0) + s;
  }

  // ---------- A shared manifest ----------

  function TwoTags(): seq<Tagged> {
    [Tagged("latest", "d"), Tagged("1.0", "d")]
  }

  lemma TwoTagsDated(env: Env, registry: Registry)
    requires registry == map["app" := TwoTags()] && env.image("d").created != 0
    ensures var created := env.image("d").created;
            RepoDated(env.image, registry, "app") == [TagData("latest", created), TagData("1.0", created)]
  {
    assert TwoTags()[..1] == [Tagged("latest", "d")] && TwoTags()[..1][..0] == [];
  }

  lemma TwoTagsProper(registry: Registry)
    requires registry == map["app" := TwoTags()]
    ensures Proper(registry)
    ensures DigestOf(registry["app"], "latest") == Some("d") && DigestOf(registry["app"], "1.0") == Some("d")
  {
    assert ':' !in "latest" && ':' !in "1.0";
    assert TwoTags()[1..] == [Tagged("1.0", "d")];
  }

  /** Without a keep count the run asks to delete each of the two tags that is not protected. */
  lemma TwoTagsRequested(env: Env, w: World, c: RunConfig, repos: seq<string>, now: int, name: string)
    requires Setting(env, w, c, now) && w.registry == map["app" := TwoTags()]
    requires c.policy.keepCount <= 0 && c.includeRepos == "app" && name in ["latest", "1.0"]
    ensures ("app", name) in Requests(PlansOf(env, w, c, repos, now)) <==> !c.policy.matchesRegexp(name)
  {
    hide PlansOf, Plan, Requests, Catalog, Proper, Candidate, TwoTags;
    TwoTagsProper(w.registry);
    TwoTagsDated(env, w.registry);
    NamedOnceCatalog(c, repos);
    assert multiset(["app"])["app"] == 1;
    var listed := RepoDated(env.image, w.registry, "app");
    RepeatOnce(listed);
    ServedRequestsIff(env, w, c, repos, now, "app", name);
    PurgedWithoutKeepCount(c.policy, "app", now, listed, name);
    NineDaysOld(env, w, c, now, name);
    assert TagData(name, env.image("d").created) in listed;
  }

  /**
   The regexp protects `latest`, and the run does not ask to delete it. Deleting `1.0` of the same manifest takes it
   away all the same, and the cache still lists it.
   */
  lemma KeptTagLostRun(env: Env, w: World, c: RunConfig, repos: seq<string>, now: int)
    requires Setting(env, w, c, now) && w.registry == map["app" := TwoTags()]
    requires c.policy.keepCount <= 0 && c.includeRepos == "app"
    requires c.policy.matchesRegexp("latest") && !c.policy.matchesRegexp("1.0")
    ensures ("app", "latest") !in Requests(PlansOf(env, w, c, repos, now))
    ensures var after := AfterDeletes(env, w, c, repos, now).world;
            && "app" in after.registry && Tagged("latest", "d") !in after.registry["app"]
            && "app" in after.cache && "latest" in after.cache["app"]
  {
    hide AfterDeletes, PlansOf, Requests, Catalog, Proper, DigestOf, ListServed;
    TwoTagsRequested(env, w, c, repos, now, "latest");
    TwoTagsRequested(env, w, c, repos, now, "1.0");
    TwoTagsProper(w.registry);
    NamedOnceCatalog(c, repos);
    KeptTagSurvivesIff(env, w, c, repos, now, "app", Tagged("latest", "d"));
    StillCached(env, w, c, repos, now, "app", Tagged("latest", "d"));
  }

  /** A tag that no run asked to delete stays in the cached list of a scanned repository. */
  lemma StillCached(env: Env, w: World, c: RunConfig, repos: seq<string>, now: int, x: string, e: Tagged)
    requires Quiet(env) && Served(env) && Proper(w.registry) && !c.dryRun && x in w.registry && e in w.registry[x]
    requires x in Catalog(c, repos) && (x, e.tag) !in Requests(PlansOf(env, w, c, repos, now))
    ensures var cache := AfterDeletes(env, w, c, repos, now).world.cache; x in cache && e.tag in cache[x]
  {
    hide AfterDeletes, PlansOf, Requests, Catalog, Proper, ScanAll, LeftBy, DistinctManifests;
    assert ListServed(env, w, Catalog(c, repos), x);
    CacheAfterRun(env, w, c, repos, now, x);
    RegistryAfterPurge(env, w, c, repos, now);
    var ex, tags := AfterDeletes(env, w, c, repos, now), Tags(w.registry[x]);
    TagsMember(w.registry[x], e.tag);
    SelectMember(tags, NotDone(ex.done, x), e.tag);
  }

  /** Neither tag is protected: both are candidates, and one of the two deletions is reported as failed. */
  lemma FailedDeletionRun(env: Env, w: World, c: RunConfig, repos: seq<string>, now: int)
    requires Setting(env, w, c, now) && w.registry == map["app" := TwoTags()]
    requires c.policy.keepCount <= 0 && c.includeRepos == "app"
    requires !c.policy.matchesRegexp("latest") && !c.policy.matchesRegexp("1.0")
    ensures Failures(AfterDeletes(env, w, c, repos, now).errors) != []
  {
    hide AfterDeletes, PlansOf, Requests, Proper, DigestOf, Failures;
    TwoTagsRequested(env, w, c, repos, now, "latest");
    TwoTagsRequested(env, w, c, repos, now, "1.0");
    TwoTagsProper(w.registry);
    AllSucceedIffDistinct(env, w, c, repos, now);
    NotDistinct(w.registry, Requests(PlansOf(env, w, c, repos, now)), ("app", "latest"), ("app", "1.0"));
  }

  lemma NotDistinct(registry: Registry, refs: seq<(string, string)>, a: (string, string), b: (string, string))
    requires a in refs && b in refs && a != b && a.0 == b.0
    requires Lookup(registry, a.0, a.1) == Lookup(registry, b.0, b.1)
    ensures !DistinctManifests(refs, registry)
  {
    hide Lookup;
    var i :| 0 <= i < |refs| && refs[i] == a;
    var j :| 0 <= j < |refs| && refs[j] == b;
    assert Lookup(registry, refs[i].0, refs[i].1) == Lookup(registry, refs[j].0, refs[j].1);
  }

  // ---------- A tag that moves between the scan and its deletion ----------

  function TagAt(digest: string): Registry {
    map["app" := [Tagged("1.0", digest)]]
  }

  /** Every call is served. Before call 2 somebody pushes a new image under the tag. */
  function PushedMeanwhile(now: int): Env {
    Env(n => false, (n, registry) => if n == 2 then TagAt("new") else registry, n => false,
        digest => if digest == "old" then ImageInfo(now - 9 * DAY, 1) else ImageInfo(now, 1))
  }

  lemma AppRef()
    ensures SplitRef(Ref("app", "1.0")) == ("app", "1.0")
  {
    assert ':' !in "1.0";
    SplitRefOfRef("app", "1.0");
  }

  lemma OneTagLists(digest: string)
    ensures "app" in TagAt(digest)
    ensures Tags(TagAt(digest)["app"]) == ["1.0"] && Lookup(TagAt(digest), "app", "1.0") == Some(digest)
    ensures IsTagged(TagAt(digest)["app"], digest) && Select(TagAt(digest)["app"], Not(HasDigest(digest))) == []
  {
    assert TagAt(digest)["app"][0].digest == digest;
    SelectOne(Tagged("1.0", digest), Not(HasDigest(digest)));
  }

  lemma ScanBeforePush(w: World, now: int)
    requires w.registry == TagAt("old") && w.calls == 0 && now != 9 * DAY
    ensures var sc := ScanAll(PushedMeanwhile(now), Scan(w, map[], map[], []), ["app"]);
            && sc.dated == map["app" := [TagData("1.0", now - 9 * DAY)]] && sc.world.calls == 2
            && sc.world.registry == TagAt("old") && sc.errors == []
  {
    var env, start := PushedMeanwhile(now), Scan(w, map[], map[], []);
    AppRef();
    OneTagLists("old");
    hide SplitRef, Tags, Lookup, TagAt;
    var (w1, tags) := Fetch(env, w, "app");
    assert w1.registry == TagAt("old") && w1.calls == 1 && tags == Some(["1.0"]);
    var listed := start.(world := w1);
    assert ["app"][..0] == [] && ScanAll(env, start, []) == start;
    assert ["1.0"][..0] == [] && ScanTags(env, listed, "app", []) == listed;
    assert ScanTags(env, listed, "app", ["1.0"]) == ScanTag(env, listed, "app", "1.0");
    assert ScanAll(env, start, ["app"]) == ScanTag(env, listed, "app", "1.0");
    assert GetInfo(env, w1, Ref("app", "1.0")).1 == Some(ImageInfo(now - 9 * DAY, 1));
    assert [] + [TagData("1.0", now - 9 * DAY)] == [TagData("1.0", now - 9 * DAY)];
  }

  lemma DeleteAfterPush(w: World, now: int)
    requires w.registry == TagAt("old") && w.calls == 2
    ensures var (after, ok) := Delete(PushedMeanwhile(now), w, "app", "1.0"); ok && after.registry == map["app" := []]
  {
    AppRef();
    OneTagLists("new");
    hide SplitRef, Lookup, IsTagged, Select;
    assert "app" in TagAt("new");
  }

  lemma OneKey(x: string)
    ensures SortedKeys({x}) == [x]
  {
    SortedKeysDistinct({x});
    SortedKeysOf({x});
    hide SortedKeys;
    assert |multiset({x})| == 1;
    assert |SortedKeys({x})| == |multiset(SortedKeys({x}))|;
    assert SortedKeys({x})[0] in {x};
  }

  lemma OneRequest(env: Env, start: Exec, plans: map<string, RepoPlan>)
    requires plans.Keys == start.repositories.Keys == {"app"} && plans["app"].purge == ["1.0"]
    ensures ExecPlans(env, start, plans).world == Delete(env, start.world, "app", "1.0").0
  {
    hide Delete, SortedKeys;
    OneKey("app");
    assert ["app"][..0] == [] && ["1.0"][..0] == [];
    assert ExecTags(env, start, "app", []) == start;
    assert ExecAll(env, start, plans, []) == start;
    assert ExecAll(env, start, plans, ["app"]) == ExecTags(env, start, "app", ["1.0"]);
  }

  lemma YoungAndOld(p: Policy, now: int)
    requires p.keepDays == 1 && !p.matchesRegexp("1.0") && p.fromFile("app") == []
    ensures Candidate(p, "app", now, TagData("1.0", now - 9 * DAY))
    ensures !Candidate(p, "app", now, TagData("1.0", PushedMeanwhile(now).image("new").created))
  {
    assert PushedMeanwhile(now).image("new").created == now;
    assert DaysOld(now, now - 9 * DAY) == 9 && DaysOld(now, now) == 0;
  }

  lemma PlannedOnce(env: Env, w: World, c: RunConfig, repos: seq<string>, now: int, t: TagData)
    requires Catalog(c, repos) == ["app"] && Plan(c.policy, "app", now, [t]).purge == ["1.0"]
    requires ScanAll(env, Scan(w, map[], map[], []), ["app"]).dated == map["app" := [t]]
    ensures var start, plans := BeforeDeletes(env, w, c, repos, now), PlansOf(env, w, c, repos, now);
            && plans.Keys == start.repositories.Keys == {"app"} && plans["app"].purge == ["1.0"]
            && start.world == ScanAll(env, Scan(w, map[], map[], []), ["app"]).world
  {
    hide ScanAll, Plan, Catalog;
  }

  lemma RealRun(env: Env, w: World, c: RunConfig, repos: seq<string>, now: int)
    requires !c.dryRun
    ensures PlansOf(env, w, c, repos, now).Keys == BeforeDeletes(env, w, c, repos, now).repositories.Keys
    ensures AfterDeletes(env, w, c, repos, now) ==
            ExecPlans(env, BeforeDeletes(env, w, c, repos, now), PlansOf(env, w, c, repos, now))
  {
  }

  /**
   The scan sees a nine days old image under the tag; before the deletion resolves the tag, a new image is pushed under
   it. The run deletes the new image, which the policy keeps.
   */
  lemma MovedTagRun(w: World, c: RunConfig, repos: seq<string>, now: int)
    requires w.registry == TagAt("old") && w.calls == 0 && now != 9 * DAY && !c.dryRun
    requires c.includeRepos == "app" && c.excludeRepos == "" && c.policy.keepDays == 1 && c.policy.keepCount <= 0
    requires !c.policy.matchesRegexp("1.0") && c.policy.fromFile("app") == []
    ensures var env := PushedMeanwhile(now);
            && AfterDeletes(env, w, c, repos, now).world.registry == map["app" := []]
            && !Candidate(c.policy, "app", now, TagData("1.0", env.image("new").created))
  {
    var env, t := PushedMeanwhile(now), TagData("1.0", now - 9 * DAY);
    YoungAndOld(c.policy, now);
    ScanBeforePush(w, now);
    hide ScanAll, Plan, PushedMeanwhile, TagAt, Delete, ExecPlans, Candidate, Catalog;
    NamedOnceCatalog(c, repos);
    OneOldTag(c.policy, t, now);
    PlannedOnce(env, w, c, repos, now, t);
    OneRequest(env, BeforeDeletes(env, w, c, repos, now), PlansOf(env, w, c, repos, now));
    hide *;
    RealRun(env, w, c, repos, now);
    DeleteAfterPush(BeforeDeletes(env, w, c, repos, now).world, now);
  }
}

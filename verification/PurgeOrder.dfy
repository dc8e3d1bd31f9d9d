/** The order in which the registry lists its tags does not matter for what a run purges. */
module PurgeOrder {
  import opened PurgeAccounting
  import opened PurgeOutcome
  import opened PurgeRepeat
  import opened PurgeRun
  import opened PurgeSizes
  import opened RegistryClient
  import opened Retention
  import opened Selection
  import opened Text

  /** The same repositories with the same entries, listed in any order. */
  ghost predicate Permuted(a: Registry, b: Registry) {
    a.Keys == b.Keys && forall repo :: repo in a ==> multiset(a[repo]) == multiset(b[repo])
  }

  lemma {:induction false} FullDatedConcat(image: string -> ImageInfo, a: seq<Tagged>, b: seq<Tagged>)
    ensures FullDated(image, a + b) == FullDated(image, a) + FullDated(image, b)
  {
    if b == [] {
      assert a + b == a;
    } else {
      FullDatedConcat(image, a, b[..|b| - 1]);
      assert (a + b)[..|a + b| - 1] == a + b[..|b| - 1];
    }
  }

  function Without<T>(s: seq<T>, i: nat): seq<T>
    requires i < |s|
  {
    s[..i] + s[i + 1..]
  }

  lemma FullDatedRemove(image: string -> ImageInfo, s: seq<Tagged>, i: nat)
    requires i < |s|
    ensures multiset(s) == multiset(Without(s, i)) + multiset{s[i]}
    ensures multiset(FullDated(image, s))
            == multiset(FullDated(image, Without(s, i))) + multiset(FullDated(image, [s[i]]))
  {
    hide FullDated;
    var front, back := s[..i], s[i + 1..];
    assert s == front + ([s[i]] + back);
    FullDatedConcat(image, front, [s[i]] + back);
    FullDatedConcat(image, [s[i]], back);
    FullDatedConcat(image, front, back);
  }

  lemma CancelOne<T>(m: multiset<T>, n: multiset<T>, x: T)
    requires m + multiset{x} == n + multiset{x}
    ensures m == n
  {
    assert m == m + multiset{x} - multiset{x};
    assert n == n + multiset{x} - multiset{x};
  }

  lemma {:induction false} FullDatedPermuted(image: string -> ImageInfo, a: seq<Tagged>, b: seq<Tagged>)
    requires multiset(a) == multiset(b)
    ensures multiset(FullDated(image, a)) == multiset(FullDated(image, b))
    decreases |a|
  {
    SizeOf(a, b);
    hide FullDated, Without;
    if a == [] {
      assert b == [];
    } else {
      assert a[0] in multiset(b);
      var i :| 0 <= i < |b| && b[i] == a[0];
      FullDatedRemove(image, a, 0);
      FullDatedRemove(image, b, i);
      CancelOne(multiset(Without(a, 0)), multiset(Without(b, i)), a[0]);
      assert |Without(a, 0)| < |a| by {
        SizeOf(a, Without(a, 0) + [a[0]]);
      }
      FullDatedPermuted(image, Without(a, 0), Without(b, i));
    }
  }

  ghost predicate NoEmptyLists(dated: map<string, seq<TagData>>) {
    forall repo :: repo in dated ==> dated[repo] != []
  }

  lemma {:induction false} ScanTagsNonEmpty(env: Env, sc: Scan, repo: string, tags: seq<string>)
    requires NoEmptyLists(sc.dated)
    ensures NoEmptyLists(ScanTags(env, sc, repo, tags).dated)
  {
    hide GetInfo;
    if tags != [] {
      ScanTagsNonEmpty(env, sc, repo, tags[..|tags| - 1]);
    }
  }

  lemma {:induction false} ScanAllNonEmpty(env: Env, sc: Scan, catalog: seq<string>)
    requires NoEmptyLists(sc.dated)
    ensures NoEmptyLists(ScanAll(env, sc, catalog).dated)
  {
    hide Fetch, ScanTags;
    if catalog != [] {
      var init, repo := catalog[..|catalog| - 1], catalog[|catalog| - 1];
      ScanAllNonEmpty(env, sc, init);
      var before := ScanAll(env, sc, init);
      var (w, tags) := Fetch(env, before.world, repo);
      if tags.Some? {
        ScanTagsNonEmpty(env, before.(world := w), repo, tags.value);
      }
    }
  }

  /** What a served scan plans for a repository, straight from the registry. */
  lemma ServedPlan(env: Env, w: World, c: RunConfig, repos: seq<string>, now: int, repo: string)
    requires Quiet(env) && Served(env) && Proper(w.registry)
    ensures var dated := TimesDated(env.image, w.registry, repo, multiset(Catalog(c, repos))[repo]);
            var plans := PlansOf(env, w, c, repos, now);
            && (repo in plans <==> dated != [])
            && (repo in plans ==> plans[repo] == Plan(c.policy, repo, now, dated))
  {
    hide ScanAll, Plan, Catalog, TimesDated;
    ScanAllFound(env, w, Catalog(c, repos), repo);
    ScanAllNonEmpty(env, Scan(w, map[], map[], []), Catalog(c, repos));
  }

  lemma TimesDatedPermuted(image: string -> ImageInfo, a: Registry, b: Registry, repo: string, n: nat)
    requires Permuted(a, b)
    ensures multiset(TimesDated(image, a, repo, n)) == multiset(TimesDated(image, b, repo, n))
  {
    if repo in a {
      FullDatedPermuted(image, a[repo], b[repo]);
    }
    RepeatWithin(RepoDated(image, a, repo), RepoDated(image, b, repo), n);
    RepeatWithin(RepoDated(image, b, repo), RepoDated(image, a, repo), n);
  }

  lemma SamePlanMaps(env: Env, env2: Env, w: World, w2: World, c: RunConfig, repos: seq<string>, now: int)
    requires Quiet(env) && Served(env) && Quiet(env2) && Served(env2) && env2.image == env.image
    requires Proper(w.registry) && Proper(w2.registry) && Permuted(w.registry, w2.registry)
    ensures PlansOf(env, w, c, repos, now) == PlansOf(env2, w2, c, repos, now)
  {
    hide PlansOf, Plan, Catalog, TimesDated, Permuted, Proper;
    var plans, plans2 := PlansOf(env, w, c, repos, now), PlansOf(env2, w2, c, repos, now);
    forall repo ensures (repo in plans <==> repo in plans2) && (repo in plans ==> plans[repo] == plans2[repo]) {
      var n := multiset(Catalog(c, repos))[repo];
      var dated, dated2 := TimesDated(env.image, w.registry, repo, n), TimesDated(env.image, w2.registry, repo, n);
      ServedPlan(env, w, c, repos, now, repo);
      ServedPlan(env2, w2, c, repos, now, repo);
      TimesDatedPermuted(env.image, w.registry, w2.registry, repo, n);
      SizeOf(dated, dated2);
      OrderIndependent(c.policy, repo, now, dated, dated2);
    }
  }

  lemma LookupPermuted(a: Registry, b: Registry, repo: string, tag: string)
    requires Proper(a) && Proper(b) && Permuted(a, b)
    ensures Lookup(a, repo, tag) == Lookup(b, repo, tag)
  {
    if repo in a {
      assert ProperEntries(a[repo]) && ProperEntries(b[repo]);
      forall digest ensures DigestOf(a[repo], tag) == Some(digest) <==> DigestOf(b[repo], tag) == Some(digest) {
        DigestOfMember(a[repo], tag, digest);
        DigestOfMember(b[repo], tag, digest);
        assert Tagged(tag, digest) in a[repo] <==> Tagged(tag, digest) in multiset(a[repo]);
        assert Tagged(tag, digest) in b[repo] <==> Tagged(tag, digest) in multiset(b[repo]);
      }
      SameOption(DigestOf(a[repo], tag), DigestOf(b[repo], tag));
    }
  }

  lemma SameOption<T>(x: Option<T>, y: Option<T>)
    requires forall v :: x == Some(v) <==> y == Some(v)
    ensures x == y
  {
    if x.Some? {
      assert x == Some(x.value);
    }
    if y.Some? {
      assert y == Some(y.value);
    }
  }

  lemma {:induction false} ImageSizesPermuted(env: Env, env2: Env, a: Registry, b: Registry, repo: string,
                                              tags: seq<string>)
    requires env2.image == env.image && Proper(a) && Proper(b) && Permuted(a, b)
    ensures TotalImageSize(env, a, repo, tags) == TotalImageSize(env2, b, repo, tags)
  {
    hide Lookup, Permuted, Proper;
    if tags != [] {
      ImageSizesPermuted(env, env2, a, b, repo, tags[..|tags| - 1]);
      LookupPermuted(a, b, repo, tags[|tags| - 1]);
    }
  }

  lemma SameSummaries(env: Env, env2: Env, w: World, w2: World, c: RunConfig, repos: seq<string>, now: int)
    requires Quiet(env) && Served(env) && Quiet(env2) && Served(env2) && env2.image == env.image
    requires Proper(w.registry) && Proper(w2.registry) && Permuted(w.registry, w2.registry)
    ensures SamePlans(BeforeDeletes(env, w, c, repos, now).repositories,
            BeforeDeletes(env2, w2, c, repos, now).repositories)
  {
    hide ScanAll, Plans, Catalog, TotalSize, Permuted, Proper;
    SamePlanMaps(env, env2, w, w2, c, repos, now);
    var plans := PlansOf(env, w, c, repos, now);
    forall repo | repo in plans
      ensures BeforeDeletes(env, w, c, repos, now).repositories[repo].freed ==
              BeforeDeletes(env2, w2, c, repos, now).repositories[repo].freed
    {
      FreedIsImageSizes(env, w, c, repos, now, repo);
      FreedIsImageSizes(env2, w2, c, repos, now, repo);
      ImageSizesPermuted(env, env2, w.registry, w2.registry, repo, plans[repo].purge);
    }
  }

  /** Two served runs over registries that differ only in listing order report the same candidates, tags and bytes. */
  lemma ListingOrderIrrelevant(env: Env, env2: Env, w: World, w2: World, c: RunConfig, repos: seq<string>, now: int)
    requires Quiet(env) && Served(env) && Quiet(env2) && Served(env2) && env2.image == env.image
    requires Proper(w.registry) && Proper(w2.registry) && Permuted(w.registry, w2.registry)
    ensures var (_, r) := Run(env, w, c, repos, now);
            var (_, r2) := Run(env2, w2, c, repos, now);
            r.candidates == r2.candidates && r.freed == r2.freed && SamePlans(r.repositories, r2.repositories)
  {
    hide BeforeDeletes, AfterDeletes, TotalCandidates, FreedIn, Accounted, Permuted, Proper, Requests;
    if !c.keepFileMissing {
      SameSummaries(env, env2, w, w2, c, repos, now);
      SamePlansSameSums(BeforeDeletes(env, w, c, repos, now).repositories,
                        BeforeDeletes(env2, w2, c, repos, now).repositories);
      SamePlansAfter(env, w, c, repos, now);
      SamePlansAfter(env2, w2, c, repos, now);
    }
  }

  lemma SamePlansAfter(env: Env, w: World, c: RunConfig, repos: seq<string>, now: int)
    ensures SamePlans(BeforeDeletes(env, w, c, repos, now).repositories,
            AfterDeletes(env, w, c, repos, now).repositories)
  {
    hide BeforeDeletes, AfterDeletes, Requests, PlansOf, SamePlans, TotalDeleted, Failures;
    PhasesAccounted(env, w, c, repos, now);
  }
}

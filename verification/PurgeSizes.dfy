/** The byte estimate of a purge, traced back to the images. */
module PurgeSizes {
  import opened PurgeAccounting
  import opened PurgeOutcome
  import opened PurgeRepeat
  import opened PurgeRun
  import opened RegistryClient
  import opened Retention
  import opened Sorting

  /** The size of the image a tag points to. */
  function ImageSize(env: Env, registry: Registry, repo: string, tag: string): int {
    var digest := Lookup(registry, repo, tag);
    if digest.Some? then env.image(digest.value).size else 0
  }

  /** What is recorded under a reference is the size of the image behind it. */
  ghost predicate SizesRight(env: Env, registry: Registry, sizes: map<string, int>) {
    forall ref :: ref in sizes ==> var (repo, tag) := SplitRef(ref); sizes[ref] == ImageSize(env, registry, repo, tag)
  }

  ghost predicate SizesKnown(dated: map<string, seq<TagData>>, sizes: map<string, int>) {
    forall repo :: repo in dated ==> forall t :: t in dated[repo] ==> Ref(repo, t.name) in sizes
  }

  ghost predicate SizesInv(env: Env, registry: Registry, sc: Scan) {
    sc.world.registry == registry && SizesRight(env, registry, sc.sizes) && SizesKnown(sc.dated, sc.sizes)
  }

  lemma ScanTagSizes(env: Env, registry: Registry, sc: Scan, repo: string, tag: string)
    requires Quiet(env) && SizesInv(env, registry, sc)
    ensures SizesInv(env, registry, ScanTag(env, sc, repo, tag))
  {
    hide SplitRef, Lookup, Ref;
    var (w, info) := GetInfo(env, sc.world, Ref(repo, tag));
    QuietInfo(env, sc.world, Ref(repo, tag));
    var r := ScanTag(env, sc, repo, tag);
    if info.Some? {
      assert r.sizes == sc.sizes[Ref(repo, tag) := info.value.size];
      forall x | x in r.dated ensures forall t: TagData :: t in r.dated[x] ==> Ref(x, t.name) in r.sizes {
        forall t: TagData | t in r.dated[x] ensures Ref(x, t.name) in r.sizes {
          if x in sc.dated && t in sc.dated[x] {
            assert Ref(x, t.name) in sc.sizes;
          }
        }
      }
    }
  }

  lemma {:induction false} ScanTagsSizes(env: Env, registry: Registry, sc: Scan, repo: string, tags: seq<string>)
    requires Quiet(env) && SizesInv(env, registry, sc)
    ensures SizesInv(env, registry, ScanTags(env, sc, repo, tags))
  {
    hide ScanTag, SizesInv;
    if tags != [] {
      var init := tags[..|tags| - 1];
      ScanTagsSizes(env, registry, sc, repo, init);
      ScanTagSizes(env, registry, ScanTags(env, sc, repo, init), repo, tags[|tags| - 1]);
    }
  }

  lemma {:induction false} ScanAllSizes(env: Env, registry: Registry, sc: Scan, catalog: seq<string>)
    requires Quiet(env) && SizesInv(env, registry, sc)
    ensures SizesInv(env, registry, ScanAll(env, sc, catalog))
  {
    hide ScanTags, SizesRight, SizesKnown;
    if catalog != [] {
      var init, repo := catalog[..|catalog| - 1], catalog[|catalog| - 1];
      ScanAllSizes(env, registry, sc, init);
      var before := ScanAll(env, sc, init);
      var (w, tags) := Fetch(env, before.world, repo);
      if tags.Some? {
        ScanTagsSizes(env, registry, before.(world := w), repo, tags.value);
      }
    }
  }

  function TotalImageSize(env: Env, registry: Registry, repo: string, tags: seq<string>): int {
    if tags == [] then 0 else
      TotalImageSize(env, registry, repo, tags[..|tags| - 1]) + ImageSize(env, registry, repo, tags[|tags| - 1])
  }

  lemma {:induction false} TotalsAgree(env: Env, registry: Registry, repo: string, tags: seq<string>,
                                       sizes: map<string, int>)
    requires SizesRight(env, registry, sizes) && NoColons(tags)
    requires forall i :: 0 <= i < |tags| ==> Ref(repo, tags[i]) in sizes
    ensures TotalSize(repo, tags, sizes) == TotalImageSize(env, registry, repo, tags)
  {
    if tags != [] {
      TotalsAgree(env, registry, repo, tags[..|tags| - 1], sizes);
      SplitRefOfRef(repo, tags[|tags| - 1]);
      hide SplitRef, ImageSize;
    }
  }

  /** The sizes are filed under references, and no two candidates of a run share one. */
  lemma OneEntryPerCandidate(env: Env, w: World, c: RunConfig, repos: seq<string>, now: int,
                             a: (string, string), b: (string, string))
    requires Quiet(env) && Proper(w.registry)
    requires var requests := Requests(PlansOf(env, w, c, repos, now)); a in requests && b in requests
    ensures Ref(a.0, a.1) == Ref(b.0, b.1) ==> a == b
  {
    hide PlansOf, PlansFrom, Proper, Requests, Lookup, Ref;
    QuietStart(env, w, c, repos, now);
    RequestExists(PlansOf(env, w, c, repos, now), w.registry, a);
    RequestExists(PlansOf(env, w, c, repos, now), w.registry, b);
    if Ref(a.0, a.1) == Ref(b.0, b.1) {
      RefInjective(a.0, a.1, b.0, b.1);
    }
  }

  /** The bytes reported for a repository are the image sizes of its candidates, whatever calls failed. */
  lemma FreedIsImageSizes(env: Env, w: World, c: RunConfig, repos: seq<string>, now: int, repo: string)
    requires Quiet(env) && Proper(w.registry) && repo in PlansOf(env, w, c, repos, now)
    ensures var purge := PlansOf(env, w, c, repos, now)[repo].purge;
            BeforeDeletes(env, w, c, repos, now).repositories[repo].freed
              == TotalImageSize(env, w.registry, repo, purge)
  {
    hide Plan, ScanAll, Catalog, Proper, PlansFrom, Ref, Sort;
    var sc := ScanOf(env, w, c, repos);
    var plans := PlansOf(env, w, c, repos, now);
    ScanAllSizes(env, w.registry, Scan(w, map[], map[], []), Catalog(c, repos));
    QuietStart(env, w, c, repos, now);
    PlansNoColons(plans, w.registry);
    var purge := plans[repo].purge;
    forall i | 0 <= i < |purge| ensures Ref(repo, purge[i]) in sc.sizes {
      var t := PurgedNameIsListed(c.policy, repo, now, sc.dated[repo], purge[i]);
    }
    TotalsAgree(env, w.registry, repo, purge, sc.sizes);
  }
}

/** The repository listing of viewCatalog in web.go, and the in-place dedupe of registry/common.go it relies on. */
module CatalogView {
  import opened RepoTree
  import opened Sorting
  import opened Sums
  import opened Text

  // ---------- UniqueSortedSlice ----------

  predicate StrictlyIncreasing(s: seq<string>) {
    forall i, j :: 0 <= i < j < |s| ==> StringLess(s[i], s[j])
  }

  lemma {:induction false} DistinctMultiset(s: seq<string>)
    requires forall i, j :: 0 <= i < j < |s| ==> s[i] != s[j]
    ensures multiset(s) == multiset(Elements(s))
  {
    if s != [] {
      var init, last := s[..|s| - 1], s[|s| - 1];
      DistinctMultiset(init);
      assert s == init + [last];
      assert Elements(s) == Elements(init) + {last};
      assert last !in Elements(init);
    }
  }

  lemma IncreasingIsSorted(s: seq<string>)
    requires StrictlyIncreasing(s) && StrictTotal(StringLess)
    ensures Sorted(s, StringLess) && forall i, j :: 0 <= i < j < |s| ==> s[i] != s[j]
  {
    hide StringLess;
    forall i, j | 0 <= i < j < |s| ensures !StringLess(s[j], s[i]) && s[i] != s[j] {
      assert StringLess(s[i], s[j]);
    }
  }

  /** A strictly increasing sequence is the sorted listing of its element set. */
  lemma IncreasingIsSortedKeys(s: seq<string>)
    requires StrictlyIncreasing(s)
    ensures s == SortedKeys(Elements(s))
  {
    hide StringLess, SortedKeys, Elements, StrictTotal;
    StringLessStrictTotal();
    IncreasingIsSorted(s);
    DistinctMultiset(s);
    SortedKeysOf(Elements(s));
    SortedIsUnique(s, SortedKeys(Elements(s)), StringLess);
  }

  /**
   Sorts, then compacts the slice it is ranging over. The result is `slice[..j]`: strictly increasing, with the elements
   of the input.
   */
  method UniqueSortedSlice(slice: array<string>) returns (j: nat)
    modifies slice
    ensures j <= slice.Length
    ensures slice[..j] == SortedKeys(Elements(old(slice[..])))
    ensures StrictlyIncreasing(slice[..j]) && Elements(slice[..j]) == Elements(old(slice[..]))
  {
    hide StringLess, SortedKeys, Sort, StrictTotal, Elements;
    ghost var input := slice[..];
    StringLessStrictTotal();
    SortInPlace(slice, StringLess);
    ghost var sorted := slice[..];
    SameElements(input, sorted);
    var seen: set<string> := {};
    j := 0;
    ElementsSnoc([], "");
    assert sorted[..0] == slice[..0] == [];
    for i := 0 to slice.Length
      invariant j <= i
      invariant forall k :: i <= k < slice.Length ==> slice[k] == sorted[k]
      invariant seen == Elements(sorted[..i]) == Elements(slice[..j])
      invariant StrictlyIncreasing(slice[..j])
    {
      var item := slice[i];
      assert item == sorted[i] && sorted[..i + 1] == sorted[..i] + [item];
      ghost var kept := slice[..j];
      ElementsSnoc(sorted[..i], item);
      if item in seen {
        assert seen + {item} == seen;
        continue;
      }
      seen := seen + {item};
      KeepsIncreasing(sorted, i, kept);
      slice[j] := item;
      assert slice[..j + 1] == kept + [item];
      j := j + 1;
    }
    assert sorted[..slice.Length] == sorted;
    IncreasingIsSortedKeys(slice[..j]);
  }

  lemma ElementsSnoc(s: seq<string>, x: string)
    ensures Elements(s + [x]) == Elements(s) + {x}
    ensures Elements([]) == {}
  {
  }

  /** Appending the next sorted item to the distinct items before it. */
  lemma KeepsIncreasing(sorted: seq<string>, i: nat, kept: seq<string>)
    requires StrictTotal(StringLess) && Sorted(sorted, StringLess) && i < |sorted|
    requires StrictlyIncreasing(kept) && Elements(kept) == Elements(sorted[..i]) && sorted[i] !in Elements(kept)
    ensures StrictlyIncreasing(kept + [sorted[i]]) && Elements(kept + [sorted[i]]) == Elements(kept) + {sorted[i]}
  {
    hide StringLess;
    forall k | 0 <= k < |kept| ensures StringLess(kept[k], sorted[i]) {
      assert kept[k] in Elements(kept);
      BeforeInOrder(sorted, i, kept[k]);
    }
  }

  lemma SameElements(s: seq<string>, t: seq<string>)
    requires multiset(s) == multiset(t)
    ensures Elements(s) == Elements(t)
  {
    forall x ensures x in s <==> x in t {
      assert x in s <==> x in multiset(s);
      assert x in t <==> x in multiset(t);
    }
  }

  lemma BeforeInOrder(sorted: seq<string>, i: nat, x: string)
    requires StrictTotal(StringLess) && Sorted(sorted, StringLess) && i < |sorted|
    requires x in sorted[..i] && sorted[i] !in sorted[..i]
    ensures StringLess(x, sorted[i])
  {
  }

  // ---------- viewCatalog ----------

  /** A 404, an image page, a redirect to the root, or a listing of sub-repositories and perhaps tags. */
  datatype View = NotFound | ImagePage | Redirect | Listing(repos: seq<string>, showTags: bool)

  function TrimSlashes(s: string): string
    decreases |s|
  {
    if s == "" then ""
    else if s[0] == '/' then TrimSlashes(s[1..])
    else if s[|s| - 1] == '/' then TrimSlashes(s[..|s| - 1])
    else s
  }

  ghost function Page(catalog: seq<string>, param: string): View {
    var path := TrimSlashes(param);
    if path == "__event-log" then NotFound
    else if path != "" && ':' in path then ImagePage
    else Listing(SortedKeys(Children(Elements(catalog), path)), path != "" && path in catalog)
  }

  /** The answer to a request: the page, except that an image that cannot be read redirects. */
  ghost function Answer(catalog: seq<string>, readable: string -> bool, param: string): View {
    var view := Page(catalog, param);
    if view.ImagePage? && !readable(TrimSlashes(param)) then Redirect else view
  }

  method ListChildren(path: string, catalog: seq<string>) returns (repos: seq<string>, showTags: bool)
    ensures Elements(repos) == Children(Elements(catalog), path)
    ensures showTags == (path != "" && path in catalog)
  {
    repos, showTags := [], false;
    for i := 0 to |catalog|
      invariant Elements(repos) == Children(Elements(catalog[..i]), path)
      invariant showTags == (path != "" && path in catalog[..i])
    {
      var r := catalog[i];
      assert catalog[..i + 1] == catalog[..i] + [r];
      ghost var before := repos;
      if path == "" {
        repos := repos + [Split(r, '/')[0]];
      } else {
        if r == path {
          showTags := true;
        }
        if HasPrefix(r, path + "/") {
          repos := repos + [Split(r[|path| + 1..], '/')[0]];
        }
      }
      ChildrenAdd(Elements(catalog[..i]), path, r);
      assert Elements(catalog[..i + 1]) == Elements(catalog[..i]) + {r};
      if Below(r, path) {
        assert repos == before + [NextSegment(r, path)];
        assert Elements(repos) == Elements(before) + {NextSegment(r, path)};
      }
    }
    assert catalog[..|catalog|] == catalog;
  }

  lemma ChildrenAdd(paths: set<string>, path: string, r: string)
    ensures Children(paths + {r}, path) == Children(paths, path)
            + (if Below(r, path) then {NextSegment(r, path)} else {})
  {
  }

  /** `readable` tells which references GetImageInfo can resolve at the time of the request. */
  method ViewCatalog(param: string, catalog: seq<string>, readable: string -> bool) returns (view: View)
    ensures view == Answer(catalog, readable, param)
  {
    var path := TrimSlashes(param);
    if path == "__event-log" {
      return NotFound;
    }
    if path != "" && ':' in path {
      return if readable(path) then ImagePage else Redirect;
    }
    var names, showTags := ListChildren(path, catalog);
    var slice := new string[|names|](i requires 0 <= i < |names| => names[i]);
    assert slice[..] == names;
    var j := UniqueSortedSlice(slice);
    return Listing(slice[..j], showTags);
  }

  // ---------- What a request is answered ----------

  predicate Slashes(s: string) {
    forall k :: 0 <= k < |s| ==> s[k] == '/'
  }

  /** A path without slashes at its ends. */
  predicate Bare(path: string) {
    path != "" ==> path[0] != '/' && path[|path| - 1] != '/'
  }

  lemma {:induction false} TrimsAround(before: string, path: string, after: string)
    requires Slashes(before) && Slashes(after) && Bare(path)
    ensures TrimSlashes(before + path + after) == path
    decreases |before| + |after|
  {
    var s := before + path + after;
    if before != "" {
      assert s[1..] == before[1..] + path + after;
      TrimsAround(before[1..], path, after);
    } else if after != "" {
      if path == "" {
        assert s[1..] == before + path + after[1..];
        TrimsAround(before, path, after[1..]);
      } else {
        assert s[..|s| - 1] == before + path + after[..|after| - 1];
        TrimsAround(before, path, after[..|after| - 1]);
      }
    } else {
      assert s == path;
    }
  }

  /** The next part of some repository's name after the path. */
  ghost predicate NextPart(catalog: seq<string>, path: string, c: string) {
    if path == "" then exists repo :: repo in catalog && Split(repo, '/')[0] == c
    else exists rest :: path + "/" + rest in catalog && Split(rest, '/')[0] == c
  }

  lemma ChildIsNextPart(catalog: seq<string>, path: string, c: string)
    ensures c in Children(Elements(catalog), path) <==> NextPart(catalog, path, c)
  {
    if c in Children(Elements(catalog), path) {
      var repo :| repo in catalog && Below(repo, path) && NextSegment(repo, path) == c;
      assert path != "" ==> repo == path + "/" + repo[|path| + 1..];
    }
    if path != "" && NextPart(catalog, path, c) {
      var rest :| path + "/" + rest in catalog && Split(rest, '/')[0] == c;
      var repo := path + "/" + rest;
      assert repo in Elements(catalog) && Below(repo, path) && repo[|path| + 1..] == rest;
    }
    if path == "" && NextPart(catalog, path, c) {
      var repo :| repo in catalog && Split(repo, '/')[0] == c;
      assert repo in Elements(catalog) && Below(repo, path);
    }
  }

  lemma Twice(s: seq<string>, i: nat, j: nat)
    requires i < j < |s| && s[i] == s[j]
    ensures multiset(s)[s[i]] >= 2
  {
    assert s == s[..j] + s[j..];
    assert s[..j][i] in multiset(s[..j]) && s[j..][0] in multiset(s[j..]);
  }

  lemma SortedKeysIncrease(s: set<string>)
    ensures StrictlyIncreasing(SortedKeys(s))
  {
    SortedKeysOf(s);
    StringLessStrictTotal();
    var keys := SortedKeys(s);
    hide StringLess, SortedKeys;
    forall i, j | 0 <= i < j < |keys| ensures StringLess(keys[i], keys[j]) {
      assert multiset(s)[keys[i]] <= 1;
      if keys[i] == keys[j] {
        Twice(keys, i, j);
      }
    }
  }

  /**
   Slashes around a path do not matter. The event-log path is not found; a path with a colon is the page of that image,
   or a redirect if the image cannot be read; any other path, also the empty one, lists the next parts of the repository
   names below it, in order and each once, and shows tags if it is itself a repository.
   */
  lemma AnswerIs(catalog: seq<string>, readable: string -> bool, before: string, path: string, after: string)
    requires Slashes(before) && Slashes(after) && Bare(path)
    ensures var answer := Answer(catalog, readable, before + path + after);
            if path == "__event-log" then answer == NotFound
            else if ':' in path then answer == if readable(path) then ImagePage else Redirect
            else
              && answer.Listing? && StrictlyIncreasing(answer.repos)
              && (forall c :: c in answer.repos <==> NextPart(catalog, path, c))
              && (answer.showTags <==> path != "" && path in catalog)
  {
    TrimsAround(before, path, after);
    hide SortedKeys, TrimSlashes, Children, NextPart, Elements, StringLess;
    var children := Children(Elements(catalog), path);
    SortedKeysIncrease(children);
    forall c ensures c in SortedKeys(children) <==> NextPart(catalog, path, c) {
      SortedKeysMember(children, c);
      ChildIsNextPart(catalog, path, c);
    }
  }

  // ---------- Drill-down ----------

  /** A repository name as registries use them: no empty segment, no colon, and not the reserved event-log page. */
  predicate WellFormed(repo: string) {
    && (forall k :: 0 <= k < |Split(repo, '/')| ==> Split(repo, '/')[k] != "")
    && ':' !in repo && FirstSegment(repo) != "__event-log"
  }

  /** The path of a page reached by following the given segments from the root. */
  function PathOf(segments: seq<string>): string {
    if segments == [] then "" else Join(segments, '/')
  }

  ghost predicate Lists(catalog: seq<string>, param: string, child: string) {
    var view := Page(catalog, param);
    view.Listing? && child in view.repos
  }

  /** Each segment is listed on the page that the segments before it lead to. */
  ghost predicate Reachable(catalog: seq<string>, segments: seq<string>) {
    forall i :: 0 <= i < |segments| ==> Lists(catalog, PathOf(segments[..i]), segments[i])
  }

  ghost predicate OnTheWayTo(segments: seq<string>, catalog: seq<string>) {
    exists repo :: repo in catalog && segments <= Split(repo, '/')
  }

  lemma {:induction false} SplitConcat(init: seq<string>, rest: string)
    requires init != [] && forall k :: 0 <= k < |init| ==> '/' !in init[k]
    ensures Split(Join(init, '/') + "/" + rest, '/') == init + Split(rest, '/')
  {
    hide Split;
    if |init| == 1 {
      SplitFirst(init[0], rest, '/');
      assert init == [init[0]];
    } else {
      var tail := Join(init[1..], '/') + "/" + rest;
      SplitConcat(init[1..], rest);
      assert Join(init, '/') + "/" + rest == init[0] + ['/'] + tail;
      SplitFirst(init[0], tail, '/');
      assert [init[0]] + (init[1..] + Split(rest, '/')) == init + Split(rest, '/');
    }
  }

  lemma {:induction false} JoinConcat(init: seq<string>, rest: seq<string>)
    requires init != [] && rest != []
    ensures Join(init + rest, '/') == Join(init, '/') + "/" + Join(rest, '/')
  {
    if |init| == 1 {
      assert (init + rest)[1..] == rest;
    } else {
      assert (init + rest)[1..] == init[1..] + rest;
      JoinConcat(init[1..], rest);
    }
  }

  /**
   A repository is below a page, with a given next segment, exactly when its name continues the page's path with it.
   */
  lemma NextOnTheWay(repo: string, init: seq<string>, c: string)
    requires (forall k :: 0 <= k < |init| ==> '/' !in init[k]) && (init != [] ==> PathOf(init) != "")
    ensures (Below(repo, PathOf(init)) && NextSegment(repo, PathOf(init)) == c) <==> init + [c] <= Split(repo, '/')
  {
    var parts := Split(repo, '/');
    if init == [] {
      assert [c] <= parts <==> parts[0] == c;
    } else {
      var path := Join(init, '/');
      if Below(repo, path) {
        var rest := repo[|path| + 1..];
        assert repo == path + "/" + rest;
        SplitConcat(init, rest);
        assert parts[|init|] == NextSegment(repo, path);
      }
      if init + [c] <= parts {
        var rest := parts[|init|..];
        assert parts == init + rest;
        JoinConcat(init, rest);
        JoinSplit(repo, '/');
        assert repo == path + "/" + Join(rest, '/');
        assert Below(repo, path);
      }
    }
  }

  /** The segments of a page's path have no slashes or colons, are not empty, and do not start at the reserved page. */
  predicate GoodSegments(segments: seq<string>) {
    && (forall k :: 0 <= k < |segments| ==> segments[k] != "" && '/' !in segments[k] && ':' !in segments[k])
    && (segments != [] ==> segments[0] != "__event-log")
  }

  lemma {:induction false} JoinShape(segments: seq<string>)
    requires segments != []
    requires forall k :: 0 <= k < |segments| ==> segments[k] != "" && '/' !in segments[k] && ':' !in segments[k]
    ensures var path := Join(segments, '/');
            path != "" && path[0] != '/' && path[|path| - 1] != '/' && ':' !in path
  {
    if |segments| > 1 {
      JoinShape(segments[1..]);
      assert Join(segments, '/')[0] == segments[0][0];
    }
  }

  lemma TrimNothing(path: string)
    requires path != "" ==> path[0] != '/' && path[|path| - 1] != '/'
    ensures TrimSlashes(path) == path
  {
  }

  lemma NotReserved(segments: seq<string>)
    requires segments != [] && (forall k :: 0 <= k < |segments| ==> '/' !in segments[k])
    requires segments[0] != "__event-log"
    ensures Join(segments, '/') != "__event-log"
  {
    SplitJoin(segments, '/');
    hide Join;
    var reserved := "__event-log";
    assert '/' !in reserved;
    assert Split(reserved, '/') == [reserved];
  }

  /** Every such page is a listing: of its children, and of tags if it is itself a repository. */
  lemma GoodPage(catalog: seq<string>, segments: seq<string>)
    requires GoodSegments(segments)
    ensures var path := PathOf(segments);
            Page(catalog, path) == Listing(SortedKeys(Children(Elements(catalog), path)), path != "" && path in catalog)
  {
    hide SortedKeys, Children, Elements, Join, TrimSlashes;
    if segments != [] {
      JoinShape(segments);
      NotReserved(segments);
    }
    TrimNothing(PathOf(segments));
  }

  lemma PageLists(catalog: seq<string>, segments: seq<string>, c: string)
    requires GoodSegments(segments)
    ensures Lists(catalog, PathOf(segments), c) <==> OnTheWayTo(segments + [c], catalog)
  {
    hide SortedKeys, Page;
    var path := PathOf(segments);
    GoodPage(catalog, segments);
    SortedKeysMember(Children(Elements(catalog), path), c);
    if segments != [] {
      JoinShape(segments);
    }
    forall repo | repo in catalog
      ensures (Below(repo, path) && NextSegment(repo, path) == c) <==> segments + [c] <= Split(repo, '/')
    {
      NextOnTheWay(repo, segments, c);
    }
    if Lists(catalog, path, c) {
      var repo :| repo in Elements(catalog) && Below(repo, path) && NextSegment(repo, path) == c;
      assert repo in catalog;
    }
    if OnTheWayTo(segments + [c], catalog) {
      var repo :| repo in catalog && segments + [c] <= Split(repo, '/');
      assert repo in Elements(catalog);
    }
  }

  lemma {:induction false} SplitPieces(s: string, k: nat)
    requires k < |Split(s, '/')| && ':' !in s
    ensures ':' !in Split(s, '/')[k]
  {
    if s != "" {
      var rest := Split(s[1..], '/');
      if s[0] == '/' {
        if k > 0 {
          SplitPieces(s[1..], k - 1);
        }
      } else {
        SplitPieces(s[1..], k);
      }
    }
  }

  lemma OnTheWayIsGood(catalog: seq<string>, segments: seq<string>)
    requires (forall repo :: repo in catalog ==> WellFormed(repo)) && OnTheWayTo(segments, catalog)
    ensures GoodSegments(segments)
  {
    var repo :| repo in catalog && segments <= Split(repo, '/');
    forall k | 0 <= k < |segments| ensures segments[k] != "" && '/' !in segments[k] && ':' !in segments[k] {
      assert segments[k] == Split(repo, '/')[k];
      SplitPieces(repo, k);
    }
  }

  /**
   Drill-down, soundness and completeness: following listed entries from the root leads along exactly the paths towards
   the catalog's repositories.
   */
  lemma {:induction false} DrillDown(catalog: seq<string>, segments: seq<string>)
    requires forall repo :: repo in catalog ==> WellFormed(repo)
    requires segments != []
    ensures Reachable(catalog, segments) <==> OnTheWayTo(segments, catalog)
  {
    hide Lists, WellFormed, PathOf, GoodSegments;
    var init, c := segments[..|segments| - 1], segments[|segments| - 1];
    assert segments == init + [c];
    assert Reachable(catalog, segments) <==> Reachable(catalog, init) && Lists(catalog, PathOf(init), c) by {
      assert forall i :: 0 <= i < |init| ==> init[..i] == segments[..i] && init[i] == segments[i];
    }
    if init == [] {
      EmptyIsGood();
      PageLists(catalog, init, c);
    } else {
      DrillDown(catalog, init);
      if OnTheWayTo(segments, catalog) {
        var repo :| repo in catalog && segments <= Split(repo, '/');
        assert init <= Split(repo, '/');
      }
      if OnTheWayTo(init, catalog) {
        OnTheWayIsGood(catalog, init);
        PageLists(catalog, init, c);
      }
    }
  }

  lemma EmptyIsGood()
    ensures GoodSegments([])
  {
  }

  /** In particular every repository of the catalog is reached, and its page shows tags; no other reached page does. */
  lemma TagsShownAtRepositories(catalog: seq<string>, segments: seq<string>)
    requires forall repo :: repo in catalog ==> WellFormed(repo)
    requires segments != [] && Reachable(catalog, segments)
    ensures Page(catalog, PathOf(segments)).Listing?
    ensures Page(catalog, PathOf(segments)).showTags <==> PathOf(segments) in catalog
  {
    DrillDown(catalog, segments);
    OnTheWayIsGood(catalog, segments);
    GoodPage(catalog, segments);
    JoinShape(segments);
  }

  lemma EveryRepositoryIsReached(catalog: seq<string>, repo: string)
    requires forall r :: r in catalog ==> WellFormed(r)
    requires repo in catalog
    ensures Reachable(catalog, Split(repo, '/')) && PathOf(Split(repo, '/')) == repo
    ensures Page(catalog, repo).Listing? && Page(catalog, repo).showTags
  {
    var segments := Split(repo, '/');
    JoinSplit(repo, '/');
    assert OnTheWayTo(segments, catalog);
    DrillDown(catalog, segments);
    TagsShownAtRepositories(catalog, segments);
  }

  // ---------- Counts on the pages ----------

  ghost function GetCount(counts: map<string, int>): string -> int {
    (k: string) => Get(counts, k)
  }

  /** Distinct children have distinct paths, so a sum over the one is a sum over the other. */
  lemma {:induction false} SumOverPaths(children: set<string>, path: string, f: string -> int, g: string -> int)
    requires forall c :: c in children ==> g(c) == f(SubPath(path, c))
    ensures Sum(children, g) == Sum(set c | c in children :: SubPath(path, c), f)
    decreases children
  {
    var paths := set c | c in children :: SubPath(path, c);
    if children == {} {
      assert paths == {};
    } else {
      var c :| c in children;
      var rest := set d | d in children - {c} :: SubPath(path, d);
      SumOverPaths(children - {c}, path, f, g);
      SumRemove(children, g, c);
      SumRemove(paths, f, SubPath(path, c));
      forall d | d in children && SubPath(path, d) == SubPath(path, c) ensures d == c {
        SubPathInjective(path, c, d);
      }
      assert paths - {SubPath(path, c)} == rest;
    }
  }

  lemma SumOfMore(keys: set<string>, more: set<string>, f: string -> int)
    requires keys <= more && forall k :: k in more - keys ==> f(k) == 0
    ensures Sum(keys, f) == Sum(more, f)
  {
    SumUnion(keys, more - keys, f);
    SumZero(more - keys, f);
    assert keys + (more - keys) == more;
  }

  lemma SortedKeysMultiplicity(s: set<string>, x: string)
    ensures multiset(SortedKeys(s))[x] == if x in s then 1 else 0
  {
    SortedKeysOf(s);
  }

  /** The entries of the map that SubRepoTagCounts returns for a page add up like the subtree counts of its children. */
  lemma MapCountsAddUp(cache: Cache, path: string, children: set<string>, counts: map<string, int>)
    requires Counted(cache, path, SortedKeys(children), counts)
    ensures Sum(counts.Keys, GetCount(counts)) == Sum(children, ChildCount(cache, path))
  {
    hide TagCount, SubPath, SortedKeys, Sum;
    var paths := set c | c in children :: SubPath(path, c);
    forall c | c in children ensures ChildCount(cache, path)(c) == GetCount(counts)(SubPath(path, c)) {
      assert CountedName(cache, path, SortedKeys(children), counts, c);
      SortedKeysMultiplicity(children, c);
    }
    forall k | k in counts ensures k in paths {
      var r :| r in SortedKeys(children) && SubPath(path, r) == k;
      SortedKeysMember(children, r);
    }
    SumOverPaths(children, path, GetCount(counts), ChildCount(cache, path));
    SumOfMore(counts.Keys, paths, GetCount(counts));
  }

  /**
   When every cached repository is in the catalog, the counts that a page receives from SubRepoTagCounts add up: to the
   page's own count less its tags, and at the root to the total.
   */
  lemma ShownCountsAddUp(cache: Cache, catalog: seq<string>, path: string, counts: map<string, int>)
    requires cache.Keys <= Elements(catalog)
    requires Counted(cache, path, SortedKeys(Children(Elements(catalog), path)), counts)
    ensures Sum(counts.Keys, GetCount(counts)) ==
              if path == "" then TotalCount(cache) else TagCount(cache, path) - CountOf(cache)(path)
  {
    hide Counted, SortedKeys, Sum;
    var shown := Children(Elements(catalog), path);
    assert Children(cache.Keys, path) <= shown;
    MapCountsAddUp(cache, path, shown, counts);
    if path == "" {
      RootConservation(cache, shown);
    } else {
      TreeConservation(cache, path, shown);
    }
  }
}

/** Tag counts over the tree of repository paths: SubRepoTagCounts and GetTotalTagCount of registry/client.go. */
module RepoTree {
  import opened Sums
  import opened Text

  type Cache = map<string, seq<string>>

  /** `sub` itself or a path below it; a longer last segment does not count as below. */
  predicate Under(path: string, sub: string) {
    path == sub || HasPrefix(path, sub + "/")
  }

  function SubPath(repoPath: string, r: string): string {
    if repoPath == "" then r else repoPath + "/" + r
  }

  function CountOf(cache: Cache): string -> int {
    (k: string) => if k in cache then |cache[k]| else 0
  }

  ghost function KeysUnder(cache: Cache, sub: string): set<string> {
    set k | k in cache && Under(k, sub)
  }

  /** The number of tags cached at or below a path. */
  ghost function TagCount(cache: Cache, sub: string): int {
    Sum(KeysUnder(cache, sub), CountOf(cache))
  }

  ghost function TotalCount(cache: Cache): int {
    Sum(cache.Keys, CountOf(cache))
  }

  method GetTotalTagCount(cache: Cache) returns (total: int)
    ensures total == TotalCount(cache)
  {
    total := 0;
    var rest := cache.Keys;
    while rest != {}
      invariant rest <= cache.Keys && total + Sum(rest, CountOf(cache)) == TotalCount(cache)
      decreases rest
    {
      var k :| k in rest;
      SumRemove(rest, CountOf(cache), k);
      total, rest := total + |cache[k]|, rest - {k};
    }
  }

  function Get(counts: map<string, int>, k: string): int {
    if k in counts then counts[k] else 0
  }

  lemma NoSum(cache: Cache)
    ensures Sum({}, CountOf(cache)) == 0
  {
  }

  /** The inner loop over the cache, in arbitrary order. */
  method AddMatching(cache: Cache, subRepo: string, counts0: map<string, int>) returns (counts: map<string, int>)
    ensures counts == if KeysUnder(cache, subRepo) == {} then counts0
                      else counts0[subRepo := Get(counts0, subRepo) + TagCount(cache, subRepo)]
  {
    hide Sum;
    counts := counts0;
    NoSum(cache);
    var rest := cache.Keys;
    ghost var seen: set<string> := {};
    while rest != {}
      invariant rest <= cache.Keys
      invariant seen == set k | k in cache && k !in rest && Under(k, subRepo)
      invariant counts == if seen == {} then counts0
                          else counts0[subRepo := Get(counts0, subRepo) + Sum(seen, CountOf(cache))]
      decreases rest
    {
      var k :| k in rest;
      if k == subRepo || HasPrefix(k, subRepo + "/") {
        SumAdd(seen, CountOf(cache), k);
        counts := counts[subRepo := Get(counts, subRepo) + |cache[k]|];
        seen := seen + {k};
      }
      rest := rest - {k};
    }
    assert seen == KeysUnder(cache, subRepo);
  }

  /** A listed name appears in the result when something is cached at or below it; repeated names count repeatedly. */
  ghost predicate CountedName(cache: Cache, repoPath: string, repos: seq<string>, counts: map<string, int>, r: string) {
    var sub := SubPath(repoPath, r);
    && (sub in counts <==> r in repos && KeysUnder(cache, sub) != {})
    && Get(counts, sub) == multiset(repos)[r] * TagCount(cache, sub)
  }

  /** Nothing but listed names appears. */
  ghost predicate OnlyListed(repoPath: string, repos: seq<string>, counts: map<string, int>) {
    forall k :: k in counts ==> exists r :: r in repos && SubPath(repoPath, r) == k
  }

  ghost predicate Counted(cache: Cache, repoPath: string, repos: seq<string>, counts: map<string, int>) {
    OnlyListed(repoPath, repos, counts) && forall r :: CountedName(cache, repoPath, repos, counts, r)
  }

  lemma SubPathInjective(repoPath: string, r: string, s: string)
    requires SubPath(repoPath, r) == SubPath(repoPath, s)
    ensures r == s
  {
    if repoPath != "" {
      assert r == SubPath(repoPath, r)[|repoPath| + 1..];
      assert s == SubPath(repoPath, s)[|repoPath| + 1..];
    }
  }

  /** What the inner loop does to the counts. */
  ghost predicate Added(cache: Cache, sub: string, counts0: map<string, int>, counts: map<string, int>) {
    counts == if KeysUnder(cache, sub) == {} then counts0
              else counts0[sub := Get(counts0, sub) + TagCount(cache, sub)]
  }

  lemma CountedSame(cache: Cache, repoPath: string, repos: seq<string>, r: string, counts0: map<string, int>,
                    counts: map<string, int>)
    requires CountedName(cache, repoPath, repos, counts0, r) && Added(cache, SubPath(repoPath, r), counts0, counts)
    ensures CountedName(cache, repoPath, repos + [r], counts, r)
  {
  }

  lemma CountedOther(cache: Cache, repoPath: string, repos: seq<string>, r: string, counts0: map<string, int>,
                     counts: map<string, int>, s: string)
    requires CountedName(cache, repoPath, repos, counts0, s) && Added(cache, SubPath(repoPath, r), counts0, counts)
             && s != r
    ensures CountedName(cache, repoPath, repos + [r], counts, s)
  {
    hide KeysUnder, TagCount, SubPath;
    if SubPath(repoPath, r) == SubPath(repoPath, s) {
      SubPathInjective(repoPath, r, s);
    }
    assert multiset(repos + [r])[s] == multiset(repos)[s];
  }

  lemma OnlyListedStep(cache: Cache, repoPath: string, repos: seq<string>, r: string, counts0: map<string, int>,
                       counts: map<string, int>)
    requires OnlyListed(repoPath, repos, counts0) && Added(cache, SubPath(repoPath, r), counts0, counts)
    ensures OnlyListed(repoPath, repos + [r], counts)
  {
    hide SubPath, KeysUnder, TagCount;
    forall k | k in counts ensures exists x :: x in repos + [r] && SubPath(repoPath, x) == k {
      if k in counts0 {
        var x :| x in repos && SubPath(repoPath, x) == k;
        assert x in repos + [r];
      } else {
        assert r in repos + [r];
      }
    }
  }

  lemma CountedStep(cache: Cache, repoPath: string, repos: seq<string>, r: string, counts0: map<string, int>,
                    counts: map<string, int>)
    requires Counted(cache, repoPath, repos, counts0) && Added(cache, SubPath(repoPath, r), counts0, counts)
    ensures Counted(cache, repoPath, repos + [r], counts)
  {
    OnlyListedStep(cache, repoPath, repos, r, counts0, counts);
    hide CountedName, Added, OnlyListed;
    forall s ensures CountedName(cache, repoPath, repos + [r], counts, s) {
      if s == r {
        CountedSame(cache, repoPath, repos, r, counts0, counts);
      } else {
        CountedOther(cache, repoPath, repos, r, counts0, counts, s);
      }
    }
  }

  method SubRepoTagCounts(cache: Cache, repoPath: string, repos: seq<string>) returns (counts: map<string, int>)
    ensures Counted(cache, repoPath, repos, counts)
  {
    counts := map[];
    for i := 0 to |repos|
      invariant Counted(cache, repoPath, repos[..i], counts)
    {
      assert repos[..i + 1] == repos[..i] + [repos[i]];
      var subRepo := SubPath(repoPath, repos[i]);
      var counts' := AddMatching(cache, subRepo, counts);
      CountedStep(cache, repoPath, repos[..i], repos[i], counts, counts');
      counts := counts';
    }
    assert repos[..|repos|] == repos;
  }

  // ---------- Counts as numbers of list entries ----------

  /** The positions in the cached lists of the given repositories. */
  ghost function Entries(cache: Cache, keys: set<string>): set<(string, int)> {
    set k, i | k in keys && k in cache && 0 <= i < |cache[k]| :: (k, i)
  }

  lemma {:induction false} RowSize(k: string, n: nat)
    ensures |set i | 0 <= i < n :: (k, i)| == n
  {
    var row := set i | 0 <= i < n :: (k, i);
    if n > 0 {
      RowSize(k, n - 1);
      assert row == (set i | 0 <= i < n - 1 :: (k, i)) + {(k, n - 1)};
    } else {
      assert row == {};
    }
  }

  lemma EntriesStep(cache: Cache, keys: set<string>, k: string)
    requires k in keys && keys <= cache.Keys
    ensures |Entries(cache, keys)| == |Entries(cache, keys - {k})| + |cache[k]|
  {
    var rest, row := Entries(cache, keys - {k}), set i | 0 <= i < |cache[k]| :: (k, i);
    RowSize(k, |cache[k]|);
    assert Entries(cache, keys) == rest + row;
    assert rest !! row;
  }

  lemma {:induction false} SumIsEntries(cache: Cache, keys: set<string>)
    requires keys <= cache.Keys
    ensures Sum(keys, CountOf(cache)) == |Entries(cache, keys)|
    decreases keys
  {
    if keys == {} {
      assert Entries(cache, keys) == {};
    } else {
      var k :| k in keys;
      SumRemove(keys, CountOf(cache), k);
      SumIsEntries(cache, keys - {k});
      hide Entries, Sum;
      EntriesStep(cache, keys, k);
    }
  }

  /** A path's count is the number of entries in the lists at it or below it, the total that in all lists. */
  lemma CountsAreEntries(cache: Cache, sub: string)
    ensures TagCount(cache, sub) ==
            |set k, i | k in cache && (k == sub || sub + "/" <= k) && 0 <= i < |cache[k]| :: (k, i)|
    ensures TotalCount(cache) == |set k, i | k in cache && 0 <= i < |cache[k]| :: (k, i)|
  {
    SumIsEntries(cache, KeysUnder(cache, sub));
    SumIsEntries(cache, cache.Keys);
    assert Entries(cache, KeysUnder(cache, sub)) ==
           set k, i | k in cache && (k == sub || sub + "/" <= k) && 0 <= i < |cache[k]| :: (k, i);
    assert Entries(cache, cache.Keys) == set k, i | k in cache && 0 <= i < |cache[k]| :: (k, i);
  }

  // ---------- Path segments ----------

  function FirstSegment(path: string): (c: string)
    ensures '/' !in c
  {
    Split(path, '/')[0]
  }

  /** A path begins with its first segment, followed by nothing or by a slash. */
  lemma {:induction false} SplitHead(s: string)
    ensures s == FirstSegment(s) || HasPrefix(s, FirstSegment(s) + "/")
  {
    if s != "" && s[0] != '/' {
      SplitHead(s[1..]);
      assert [s[0]] + s[1..] == s;
      assert FirstSegment(s) == [s[0]] + FirstSegment(s[1..]);
    }
  }

  lemma FirstSegmentIs(s: string, c: string)
    requires '/' !in c
    ensures FirstSegment(s) == c <==> s == c || HasPrefix(s, c + "/")
  {
    if s == c {
      assert Split(s, '/') == [s];
    } else if HasPrefix(s, c + "/") {
      SplitFirst(c, s[|c| + 1..], '/');
      assert s == c + ['/'] + s[|c| + 1..];
    } else {
      SplitHead(s);
    }
  }

  /** `k` lies strictly below the path; everything lies below the root. */
  predicate Below(k: string, path: string) {
    path == "" || HasPrefix(k, path + "/")
  }

  /** The next segment of `k` after the path. */
  function NextSegment(k: string, path: string): (c: string)
    requires Below(k, path)
    ensures '/' !in c
  {
    if path == "" then FirstSegment(k) else FirstSegment(k[|path| + 1..])
  }

  /** Below `path` and next in segment `c` is the same as at or below that child path. */
  lemma NextSegmentIs(k: string, path: string, c: string)
    requires '/' !in c
    ensures (Below(k, path) && NextSegment(k, path) == c) <==> Under(k, SubPath(path, c))
  {
    if path == "" {
      FirstSegmentIs(k, c);
    } else {
      var child := path + "/" + c;
      if HasPrefix(k, path + "/") {
        var rest := k[|path| + 1..];
        assert k == path + "/" + rest;
        FirstSegmentIs(rest, c);
        assert rest == c <==> k == child;
        assert HasPrefix(rest, c + "/") <==> HasPrefix(k, child + "/") by {
          assert child + "/" == path + "/" + (c + "/");
        }
      } else {
        assert path + "/" <= child <= child + "/";
      }
    }
  }

  // ---------- Conservation ----------

  /** The distinct next segments of the given paths below a path. */
  function Children(paths: set<string>, path: string): set<string> {
    set k | k in paths && Below(k, path) :: NextSegment(k, path)
  }

  ghost function Class(keys: set<string>, g: string -> string, c: string): set<string> {
    set k | k in keys && g(k) == c
  }

  ghost function ClassSum(keys: set<string>, f: string -> int, g: string -> string): string -> int {
    (c: string) => Sum(Class(keys, g, c), f)
  }

  /** A sum may be taken class by class. */
  lemma {:induction false} SumByClass(keys: set<string>, classes: set<string>, f: string -> int, g: string -> string)
    requires forall k :: k in keys ==> g(k) in classes
    ensures Sum(keys, f) == Sum(classes, ClassSum(keys, f, g))
    decreases classes
  {
    if classes == {} {
      assert keys == {};
    } else {
      var c :| c in classes;
      var own := Class(keys, g, c);
      var rest := keys - own;
      SumByClass(rest, classes - {c}, f, g);
      SumUnion(own, rest, f);
      assert own + rest == keys;
      forall d | d in classes - {c} ensures ClassSum(rest, f, g)(d) == ClassSum(keys, f, g)(d) {
        assert Class(rest, g, d) == Class(keys, g, d);
      }
      SumAgree(classes - {c}, ClassSum(rest, f, g), ClassSum(keys, f, g));
      SumRemove(classes, ClassSum(keys, f, g), c);
    }
  }

  ghost function ChildCount(cache: Cache, path: string): string -> int {
    (c: string) => TagCount(cache, SubPath(path, c))
  }

  ghost function KeysBelow(cache: Cache, path: string): set<string> {
    set k | k in cache && Below(k, path)
  }

  ghost function Segmenter(path: string): string -> string {
    (k: string) => if Below(k, path) then NextSegment(k, path) else ""
  }

  /** Whatever set of child names covers the cached paths, the counts below a path add up. */
  lemma CountsBelow(cache: Cache, path: string, children: set<string>)
    requires Children(cache.Keys, path) <= children && forall c :: c in children ==> '/' !in c
    ensures Sum(KeysBelow(cache, path), CountOf(cache)) == Sum(children, ChildCount(cache, path))
  {
    var keys, g := KeysBelow(cache, path), Segmenter(path);
    forall k | k in keys ensures g(k) in children {
      assert g(k) in Children(cache.Keys, path);
    }
    SumByClass(keys, children, CountOf(cache), g);
    forall c | c in children ensures ClassSum(keys, CountOf(cache), g)(c) == ChildCount(cache, path)(c) {
      forall k ensures k in Class(keys, g, c) <==> k in KeysUnder(cache, SubPath(path, c)) {
        NextSegmentIs(k, path, c);
      }
      assert Class(keys, g, c) == KeysUnder(cache, SubPath(path, c));
    }
    SumAgree(children, ClassSum(keys, CountOf(cache), g), ChildCount(cache, path));
  }

  /**
   Conservation at a path: its count is what is cached at the path itself plus the counts of its children, for any
   duplicate-free list of children that covers the cached paths.
   */
  lemma TreeConservation(cache: Cache, path: string, children: set<string>)
    requires path != "" && Children(cache.Keys, path) <= children && forall c :: c in children ==> '/' !in c
    ensures TagCount(cache, path) == CountOf(cache)(path) + Sum(children, ChildCount(cache, path))
  {
    hide Sum, Children;
    var own := if path in cache then {path} else {};
    CountsBelow(cache, path, children);
    assert KeysUnder(cache, path) == own + KeysBelow(cache, path);
    assert path !in KeysBelow(cache, path) by {
      assert |path + "/"| > |path|;
    }
    SumUnion(own, KeysBelow(cache, path), CountOf(cache));
    if path in cache {
      SumRemove(own, CountOf(cache), path);
      assert own - {path} == {};
    }
    NoSum(cache);
  }

  /** Conservation at the root: the counts of the top-level entries add up to the total. */
  lemma RootConservation(cache: Cache, children: set<string>)
    requires Children(cache.Keys, "") <= children && forall c :: c in children ==> '/' !in c
    ensures TotalCount(cache) == Sum(children, ChildCount(cache, ""))
  {
    CountsBelow(cache, "", children);
    assert KeysBelow(cache, "") == cache.Keys;
  }
}

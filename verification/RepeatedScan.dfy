/**
 A repository that is named more than once, as in the include list `app,app`. Its tags are scanned and counted once for
 each time, so the copies use up the keep count.
 */
module RepeatedScan {
  import opened PurgeAccounting
  import opened PurgeOutcome
  import opened PurgeRepeat
  import opened PurgeRun
  import opened RegistryClient
  import opened Retention
  import opened Selection
  import opened Sorting
  import opened Text

  // ---------- Arithmetic ----------

  lemma TimesMonotone(n: nat, a: int, b: int)
    requires a <= b
    ensures n * a <= n * b
  {
  }

  lemma TimesNext(n: nat, a: int)
    ensures n * (a + 1) == n * a + n
  {
  }

  lemma QuotientUnique(n: nat, q: int, r: int, q': int, r': int)
    requires 0 <= r < n && 0 <= r' < n && n * q + r == n * q' + r'
    ensures q == q'
  {
    TimesNext(n, q);
    TimesNext(n, q');
    if q < q' {
      TimesMonotone(n, q + 1, q');
    } else if q' < q {
      TimesMonotone(n, q' + 1, q);
    }
  }

  lemma QuotientIs(n: nat, q: int, r: int)
    requires 0 <= r < n
    ensures (n * q + r) / n == q
  {
    var m := n * q + r;
    QuotientUnique(n, q, r, m / n, m % n);
  }

  lemma Euclid(m: nat, n: nat) returns (q: nat, r: nat)
    requires n > 0
    ensures q == m / n && r < n && m == n * q + r
  {
    q, r := m / n, m % n;
  }

  /** Sparing some of `n` copies each. */
  lemma SparedQuotient(n: nat, a: nat, u: nat, s: nat, k: int, an: int, un: int, sn: int) returns (kn: nat)
    requires n > 0 && a <= u && an == n * a && un == n * u && sn == n * s
    ensures kn == Max(an, Min(un, k - sn + un)) && kn <= un && kn / n == Max(a, Min(u, k / n - s + u))
  {
    var z, r := k / n - s + u, k % n;
    assert k - sn + un == n * z + r by {
      assert k == n * (k / n) + r;
      Distribute(n, k / n, s, u);
    }
    TimesNext(n, z);
    TimesMonotone(n, a, u);
    TimesMonotone(n, 0, a);
    QuotientIs(n, u, 0);
    QuotientIs(n, a, 0);
    QuotientIs(n, z, r);
    if z >= u {
      TimesMonotone(n, u, z);
    } else {
      TimesMonotone(n, z + 1, u);
      if z >= a {
        TimesMonotone(n, a, z);
      } else {
        TimesMonotone(n, z + 1, a);
      }
    }
    kn := Max(an, Min(un, k - sn + un));
  }

  lemma Distribute(n: nat, q: int, s: int, u: int)
    ensures n * (q - s + u) == n * q - n * s + n * u
  {
  }

  // ---------- Copies ----------

  /** Every element `n` times in a row. */
  function Stretch<T>(s: seq<T>, n: nat): seq<T> {
    if s == [] then [] else Repeat([s[0]], n) + Stretch(s[1..], n)
  }

  lemma {:induction false} CopiesSize<T>(x: T, n: nat)
    ensures |Repeat([x], n)| == n && forall i :: 0 <= i < n ==> Repeat([x], n)[i] == x
  {
    if n > 0 {
      CopiesSize(x, n - 1);
    }
  }

  lemma {:induction false} StretchSize<T>(s: seq<T>, n: nat)
    ensures |Stretch(s, n)| == n * |s|
  {
    if s != [] {
      CopiesSize(s[0], n);
      StretchSize(s[1..], n);
      TimesNext(n, |s| - 1);
    }
  }

  lemma {:induction false} StretchMember<T>(s: seq<T>, n: nat, x: T)
    requires n > 0
    ensures x in Stretch(s, n) <==> x in s
  {
    if s != [] {
      CopiesSize(s[0], n);
      StretchMember(s[1..], n, x);
      assert Repeat([s[0]], n)[0] == s[0];
    }
  }

  lemma {:induction false} RepeatConcat<T>(s: seq<T>, t: seq<T>, n: nat)
    ensures multiset(Repeat(s + t, n)) == multiset(Repeat(s, n)) + multiset(Repeat(t, n))
  {
    if n > 0 {
      RepeatConcat(s, t, n - 1);
    }
  }

  lemma {:induction false} StretchMultiset<T>(s: seq<T>, n: nat)
    ensures multiset(Stretch(s, n)) == multiset(Repeat(s, n))
  {
    if s == [] {
      RepeatNothing<T>(n);
    } else {
      StretchMultiset(s[1..], n);
      RepeatConcat([s[0]], s[1..], n);
      assert [s[0]] + s[1..] == s;
    }
  }

  lemma {:induction false} RepeatNothing<T>(n: nat)
    ensures Repeat<T>([], n) == []
  {
    if n > 0 {
      RepeatNothing<T>(n - 1);
    }
  }

  lemma {:induction false} RepeatMultiset<T>(s: seq<T>, t: seq<T>, n: nat)
    requires multiset(s) == multiset(t)
    ensures multiset(Repeat(s, n)) == multiset(Repeat(t, n))
  {
    if n > 0 {
      RepeatMultiset(s, t, n - 1);
    }
  }

  lemma {:induction false} StretchSorted<T(!new)>(s: seq<T>, n: nat, less: (T, T) -> bool)
    requires StrictTotal(less) && Sorted(s, less) && n > 0
    ensures Sorted(Stretch(s, n), less)
  {
    if s != [] {
      var copies, rest := Repeat([s[0]], n), Stretch(s[1..], n);
      StretchSorted(s[1..], n, less);
      CopiesSize(s[0], n);
      forall i | 0 <= i < |rest| ensures !less(rest[i], s[0]) {
        StretchMember(s[1..], n, rest[i]);
      }
    }
  }

  /** Sorting brings the copies of each tag together. */
  lemma SortRepeated(listed: seq<TagData>, n: nat)
    requires n > 0
    ensures Sort(Repeat(listed, n), Newer) == Stretch(Sort(listed, Newer), n)
  {
    hide Sort, Sorted, Repeat, Stretch, Newer, StrictTotal;
    NewerStrictTotal();
    SortedListing(listed);
    SortedListing(Repeat(listed, n));
    StretchSorted(Sort(listed, Newer), n, Newer);
    StretchMultiset(Sort(listed, Newer), n);
    RepeatMultiset(listed, Sort(listed, Newer), n);
    SortedIsUnique(Sort(Repeat(listed, n), Newer), Stretch(Sort(listed, Newer), n), Newer);
  }

  lemma {:induction false} SelectCopies<T>(x: T, n: nat, p: T -> bool)
    ensures Select(Repeat([x], n), p) == if p(x) then Repeat([x], n) else []
  {
    if n > 0 {
      SelectCopies(x, n - 1, p);
    }
  }

  lemma StretchCons<T>(x: T, t: seq<T>, n: nat)
    ensures Stretch([x] + t, n) == Repeat([x], n) + Stretch(t, n)
  {
    assert ([x] + t)[1..] == t;
  }

  lemma SelectStretchCons<T>(x: T, t: seq<T>, n: nat, p: T -> bool)
    requires Select(Stretch(t, n), p) == Stretch(Select(t, p), n)
    ensures Select(Stretch([x] + t, n), p) == Stretch(Select([x] + t, p), n)
  {
    hide *;
    StretchCons(x, t, n);
    SelectCopies(x, n, p);
    SelectConcat(Repeat([x], n), Stretch(t, n), p);
    SelectConcat([x], t, p);
    SelectOne(x, p);
    if p(x) {
      StretchCons(x, Select(t, p), n);
    } else {
      assert [] + Select(t, p) == Select(t, p);
      assert [] + Stretch(Select(t, p), n) == Stretch(Select(t, p), n);
    }
  }

  lemma {:induction false} SelectStretch<T>(s: seq<T>, n: nat, p: T -> bool)
    ensures Select(Stretch(s, n), p) == Stretch(Select(s, p), n)
  {
    if s != [] {
      SelectStretch(s[1..], n, p);
      SelectStretchCons(s[0], s[1..], n, p);
      assert s == [s[0]] + s[1..];
    }
  }

  /** Of `n` copies each, dropping the first `n * q + r` keeps every element but the first `q`. */
  lemma {:induction false} StretchFrom<T>(u: seq<T>, n: nat, m: nat, q: nat, r: nat, x: T)
    requires r < n && m == n * q + r && m <= |Stretch(u, n)| && q <= |u|
    ensures x in Stretch(u, n)[m..] <==> x in u[q..]
    decreases q
  {
    if u != [] {
      var copies, rest := Repeat([u[0]], n), Stretch(u[1..], n);
      CopiesSize(u[0], n);
      if q == 0 {
        assert Stretch(u, n)[m..] == copies[m..] + rest;
        assert copies[m..][0] == u[0];
        StretchMember(u[1..], n, x);
      } else {
        TimesNext(n, q - 1);
        TimesMonotone(n, 0, q - 1);
        assert Stretch(u, n)[m..] == rest[m - n..];
        StretchFrom(u[1..], n, m - n, q - 1, r, x);
        assert u[1..][q - 1..] == u[q..];
      }
    }
  }

  lemma StretchDrop<T>(u: seq<T>, n: nat, m: nat, x: T)
    requires n > 0 && m <= |Stretch(u, n)| && m / n <= |u|
    ensures x in Stretch(u, n)[m..] <==> x in u[m / n..]
  {
    hide *;
    var q, r := Euclid(m, n);
    StretchFrom(u, n, m, q, r, x);
  }

  // ---------- The plan of a repository that is named n times ----------

  /** The same policy with the keep count shared out among the copies. */
  function Shared(p: Policy, n: nat): Policy
    requires n > 0
  {
    p.(keepCount := p.keepCount / n)
  }

  lemma SharedParts(p: Policy, repo: string, now: int, s: seq<TagData>, n: nat)
    requires n > 0
    ensures Unprotected(Shared(p, n), repo, s) == Unprotected(p, repo, s)
    ensures YoungCount(Shared(p, n), repo, now, s) == YoungCount(p, repo, now, s)
  {
    SelectAgree(s, IsProtected(p, repo), IsProtected(Shared(p, n), repo));
    SelectAgree(Unprotected(p, repo, s), IsOld(p, now), IsOld(Shared(p, n), now));
  }

  lemma StretchedParts(p: Policy, repo: string, now: int, s: seq<TagData>, n: nat)
    ensures Unprotected(p, repo, Stretch(s, n)) == Stretch(Unprotected(p, repo, s), n)
    ensures YoungCount(p, repo, now, Stretch(s, n)) == n * YoungCount(p, repo, now, s)
  {
    var u := Unprotected(p, repo, s);
    SelectStretch(s, n, Not(IsProtected(p, repo)));
    SelectStretch(u, n, Not(IsOld(p, now)));
    StretchSize(Select(u, Not(IsOld(p, now))), n);
  }

  lemma SparedOfCopies(p: Policy, repo: string, now: int, s: seq<TagData>, n: nat) returns (kn: nat)
    requires n > 0
    ensures kn == Spared(p, repo, now, Stretch(s, n)) && kn / n == Spared(Shared(p, n), repo, now, s)
  {
    assert Shared(p, n).keepCount == p.keepCount / n;
    hide *;
    var copies, u, a := Stretch(s, n), Unprotected(p, repo, s), YoungCount(p, repo, now, s);
    SparedBySize(p, repo, now, copies);
    SparedBySize(Shared(p, n), repo, now, s);
    SharedParts(p, repo, now, s, n);
    StretchedParts(p, repo, now, s, n);
    StretchSize(s, n);
    StretchSize(u, n);
    kn := SparedQuotient(n, a, |u|, |s|, p.keepCount, YoungCount(p, repo, now, copies), |Unprotected(p, repo, copies)|,
                         |copies|);
  }

  lemma PurgedOfCopies(p: Policy, repo: string, now: int, s: seq<TagData>, n: nat, t: TagData)
    requires n > 0
    ensures t in Purged(p, repo, now, Stretch(s, n)) <==> t in Purged(Shared(p, n), repo, now, s)
  {
    hide *;
    var kn := SparedOfCopies(p, repo, now, s, n);
    SharedParts(p, repo, now, s, n);
    StretchedParts(p, repo, now, s, n);
    PurgedIs(p, repo, now, Stretch(s, n));
    PurgedIs(Shared(p, n), repo, now, s);
    StretchDrop(Unprotected(p, repo, s), n, kn, t);
  }

  /** A repository named `n` times is purged as if `n` were to share the keep count. */
  lemma RepeatedPlan(p: Policy, repo: string, now: int, listed: seq<TagData>, n: nat, name: string)
    requires n > 0
    ensures name in Plan(p, repo, now, Repeat(listed, n)).purge <==> name in Plan(Shared(p, n), repo, now, listed).purge
  {
    hide *;
    var s := Sort(listed, Newer);
    PurgeNames(p, repo, now, Repeat(listed, n), name);
    PurgeNames(Shared(p, n), repo, now, listed, name);
    SortRepeated(listed, n);
    forall t ensures t in Purged(p, repo, now, Stretch(s, n)) <==> t in Purged(Shared(p, n), repo, now, s) {
      PurgedOfCopies(p, repo, now, s, n, t);
    }
  }

  // ---------- When the copies cost a tag ----------

  /** Different suffixes of a list without repeated names do not have the same names. */
  lemma SuffixNames(u: seq<TagData>, k: nat, k': nat) returns (t: TagData)
    requires k < k' <= |u| && NamedOnce(u)
    ensures t in u[k..] && forall t' :: t' in u[k'..] ==> t'.name != t.name
  {
    t := u[k];
    assert t in u[k..] by {
      assert u[k..][0] == t;
    }
    forall t' | t' in u[k'..] ensures t'.name != t.name {
      var i :| k' <= i < |u| && u[i] == t';
      if t'.name == t.name {
        assert u[i] in u && u[k] in u;
        Occurrences(u, k, i);
      }
    }
  }

  lemma QuotientBounds(k: int, n: nat)
    requires n > 0
    ensures k >= 0 ==> 0 <= k / n <= k
    ensures k < 0 ==> k / n < 0
  {
    var q, r := k / n, k % n;
    assert k == n * q + r;
    if q >= 0 {
      TimesMonotone(n, 0, q);
      TimesMonotone(q, 1, n);
      Commutes(n, q);
    } else {
      TimesMonotone(n, q, -1);
    }
  }

  lemma Commutes(a: int, b: int)
    ensures a * b == b * a
  {
  }

  /** Sharing the keep count spares fewer tags exactly when the whole of it spared old ones and a share spares less. */
  lemma SharedSparesFewerIff(p: Policy, repo: string, now: int, s: seq<TagData>, n: nat)
    requires n > 0
    ensures Spared(Shared(p, n), repo, now, s) <= Spared(p, repo, now, s)
    ensures Spared(Shared(p, n), repo, now, s) < Spared(p, repo, now, s) <==> SharingCosts(p, repo, now, s, n)
  {
    QuotientBounds(p.keepCount, n);
    SharedParts(p, repo, now, s, n);
    SelectAgree(s, IsProtected(p, repo), IsProtected(Shared(p, n), repo));
    hide Select, YoungCount;
  }

  /** Topping up goes beyond the young tags, and with a share of the keep count not as far. */
  predicate SharingCosts(p: Policy, repo: string, now: int, s: seq<TagData>, n: nat)
    requires n > 0
  {
    var reach := Min(|Unprotected(p, repo, s)|, p.keepCount - |ProtectedTags(p, repo, s)|);
    YoungCount(p, repo, now, s) < reach && p.keepCount / n - |ProtectedTags(p, repo, s)| < reach
  }

  /**
   Naming the repository `n` times keeps every tag on the purge list. It adds one if and only if the keep count had
   rescued an old tag, and a share of the keep count rescues fewer.
   */
  lemma RepeatedScanCostsIff(p: Policy, repo: string, now: int, listed: seq<TagData>, n: nat)
    requires n > 0 && NamedOnce(listed)
    ensures var s := Sort(listed, Newer);
            (exists name ::
               name in Plan(p, repo, now, Repeat(listed, n)).purge && name !in Plan(p, repo, now, listed).purge)
            <==> SharingCosts(p, repo, now, s, n)
    ensures forall name :: name in Plan(p, repo, now, listed).purge ==>
              name in Plan(p, repo, now, Repeat(listed, n)).purge
  {
    hide *;
    var s := Sort(listed, Newer);
    SharedSparesFewerIff(p, repo, now, s, n);
    var u, k, k' := Unprotected(p, repo, s), Spared(p, repo, now, s), Spared(Shared(p, n), repo, now, s);
    UnprotectedNamedOnce(p, repo, listed);
    SharedParts(p, repo, now, s, n);
    PurgedIs(p, repo, now, s);
    PurgedIs(Shared(p, n), repo, now, s);
    forall name
      ensures name in Plan(p, repo, now, Repeat(listed, n)).purge <==> exists t :: t in u[k'..] && t.name == name
    {
      RepeatedPlan(p, repo, now, listed, n, name);
      PurgeNames(Shared(p, n), repo, now, listed, name);
    }
    forall name ensures name in Plan(p, repo, now, listed).purge <==> exists t :: t in u[k..] && t.name == name {
      PurgeNames(p, repo, now, listed, name);
    }
    if k' < k {
      var t := SuffixNames(u, k', k);
      assert t.name in Plan(p, repo, now, Repeat(listed, n)).purge;
      assert t.name !in Plan(p, repo, now, listed).purge;
    }
    forall t | t in u[k..] ensures t in u[k'..] {
      var i :| k <= i < |u| && u[i] == t;
      assert u[k'..][i - k'] == t;
    }
  }

  // ---------- In a run ----------

  /** In a served run, each repository is purged as if the times it is named were to share the keep count. */
  lemma RepeatedRepository(env: Env, w: World, c: RunConfig, repos: seq<string>, now: int, repo: string, name: string)
    requires Quiet(env) && Served(env) && Proper(w.registry) && repo in PlansOf(env, w, c, repos, now)
    ensures var n := multiset(Catalog(c, repos))[repo];
            n > 0 && (name in PlansOf(env, w, c, repos, now)[repo].purge <==>
              name in Plan(Shared(c.policy, n), repo, now, RepoDated(env.image, w.registry, repo)).purge)
  {
    hide ScanAll, Plan, Catalog;
    var catalog, start := Catalog(c, repos), Scan(w, map[], map[], []);
    ScanAllFound(env, w, catalog, repo);
    ScanAllFrame(env, start, catalog);
    RepeatedPlan(c.policy, repo, now, RepoDated(env.image, w.registry, repo), multiset(catalog)[repo], name);
  }

  /** One unprotected old tag is purged exactly when the keep count is not positive. */
  lemma OneOldTag(p: Policy, t: TagData, now: int)
    requires Candidate(p, "app", now, t)
    ensures Plan(p, "app", now, [t]).purge == if p.keepCount <= 0 then [t.name] else []
  {
    assert Sort([t], Newer) == [t];
    SelectOne(t, IsCandidate(p, "app", now));
    SelectOne(t, Not(IsCandidate(p, "app", now)));
    hide Candidate, Sort, Select, Names, Newer;
    TopUpOne(t, p.keepCount);
  }

  lemma TopUpOne(t: TagData, keepCount: int)
    ensures TopUp(RepoPlan(Names([]), Names([t])), keepCount).purge == if keepCount <= 0 then [t.name] else []
  {
    assert Names([t]) == [t.name];
  }

  lemma NamedTwice(c: RunConfig, repos: seq<string>)
    requires c.includeRepos == "app,app" && c.excludeRepos == ""
    ensures Catalog(c, repos) == ["app", "app"]
  {
    var head, tail := "app", "app";
    hide Split;
    SplitFirst(head, tail, ',');
    assert head + [','] + tail == "app,app";
  }

  /**
   One old tag and keepCount 1. Named once, the repository keeps its tag; with the include list `app,app` one copy of
   the tag is kept, the other one purged, and the tag is deleted.
   */
  lemma NamedTwiceExample(c: RunConfig, repos: seq<string>, now: int)
    requires c.includeRepos == "app,app" && c.excludeRepos == "" && c.policy.keepDays == 1 && c.policy.keepCount == 1
    requires !c.policy.matchesRegexp("old") && c.policy.fromFile("app") == []
    ensures Catalog(c, repos) == ["app", "app"]
    ensures var listed := [TagData("old", now - 9 * DAY)];
            && "old" !in Plan(c.policy, "app", now, listed).purge
            && "old" in Plan(c.policy, "app", now, Repeat(listed, 2)).purge
  {
    hide Plan, Split, Repeat, Catalog;
    NamedTwice(c, repos);
    var p, t := c.policy, TagData("old", now - 9 * DAY);
    assert DaysOld(now, t.created) == 9;
    OneOldTag(p, t, now);
    OneOldTag(Shared(p, 2), t, now);
    RepeatedPlan(p, "app", now, [t], 2, "old");
  }
}

/** The retention decision of registry/tasks.go for the dated, readable tags of one repository. */
module Retention {
  import opened Selection
  import opened Sorting
  import opened Text

  /** `created` is in nanoseconds, on the same time line as `now`. */
  datatype TagData = TagData(name: string, created: int)

  /** `matchesRegexp` is constantly false when no regexp is set; `fromFile` lists the tags the keep-file names. */
  datatype Policy = Policy(keepDays: int, keepCount: int, matchesRegexp: string -> bool,
                           fromFile: string -> seq<string>)

  datatype RepoPlan = RepoPlan(keep: seq<string>, purge: seq<string>)

  /** timeSlice.Less: newest first, equal dates by name in reverse. */
  predicate Newer(p: TagData, q: TagData) {
    if p.created == q.created then StringLess(q.name, p.name) else p.created > q.created
  }

  /** `Less` orders any two different tags one way or the other, so sorting has a unique result. */
  lemma NewerStrictTotal()
    ensures StrictTotal(Newer)
  {
    StringLessStrictTotal();
    forall x, y, z | Newer(x, y) && Newer(y, z) ensures Newer(x, z) {
      if x.created == y.created == z.created {
        StringLessTransitive(z.name, y.name, x.name);
      }
    }
  }

  // ---------- Age ----------

  const DAY := 24 * 3_600_000_000_000

  /** Division truncating towards zero. */
  function Truncate(n: int, d: int): int
    requires d > 0
  {
    if n >= 0 then n / d else -(-n / d)
  }

  /** time.Time.Sub saturates at the 64-bit range. */
  function Sub(t: int, u: int): int {
    if t - u > MAX_INT64 then MAX_INT64 else if t - u < MIN_INT64 then MIN_INT64 else t - u
  }

  function DaysOld(now: int, created: int): int {
    Truncate(Sub(now, created), DAY)
  }

  lemma DaysOldMonotone(now: int, created: int, now': int, created': int)
    requires now - created <= now' - created'
    ensures DaysOld(now, created) <= DaysOld(now', created')
  {
  }

  predicate Old(p: Policy, now: int, t: TagData) {
    DaysOld(now, t.created) > p.keepDays
  }

  predicate Protected(p: Policy, repo: string, t: TagData) {
    p.matchesRegexp(t.name) || t.name in p.fromFile(repo)
  }

  // ---------- Splitting and topping up ----------

  function Names(tags: seq<TagData>): (names: seq<string>)
    ensures |names| == |tags|
  {
    seq(|tags|, i requires 0 <= i < |tags| => tags[i].name)
  }

  function Min(a: int, b: int): int {
    if a < b then a else b
  }

  function Max(a: int, b: int): int {
    if a < b then b else a
  }

  predicate Candidate(p: Policy, repo: string, now: int, t: TagData) {
    Old(p, now, t) && !Protected(p, repo, t)
  }

  function IsOld(p: Policy, now: int): TagData -> bool {
    (t: TagData) => Old(p, now, t)
  }

  function IsProtected(p: Policy, repo: string): TagData -> bool {
    (t: TagData) => Protected(p, repo, t)
  }

  function IsCandidate(p: Policy, repo: string, now: int): TagData -> bool {
    (t: TagData) => Candidate(p, repo, now, t)
  }

  function Candidates(p: Policy, repo: string, now: int, tags: seq<TagData>): seq<TagData> {
    Select(tags, IsCandidate(p, repo, now))
  }

  function NonCandidates(p: Policy, repo: string, now: int, tags: seq<TagData>): seq<TagData> {
    Select(tags, Not(IsCandidate(p, repo, now)))
  }

  function TopUp(plan: RepoPlan, keepCount: int): RepoPlan {
    if |plan.keep| < keepCount then
      var take := Min(keepCount - |plan.keep|, |plan.purge|);
      RepoPlan(plan.keep + plan.purge[..take], plan.purge[take..])
    else plan
  }

  function Plan(p: Policy, repo: string, now: int, listed: seq<TagData>): RepoPlan {
    var sorted := Sort(listed, Newer);
    TopUp(RepoPlan(Names(NonCandidates(p, repo, now, sorted)), Names(Candidates(p, repo, now, sorted))), p.keepCount)
  }

  /** The filter loop over the sorted tags. */
  method FilterTags(p: Policy, repo: string, now: int, tags: array<TagData>) returns (plan: RepoPlan)
    ensures plan.keep == Names(NonCandidates(p, repo, now, tags[..]))
    ensures plan.purge == Names(Candidates(p, repo, now, tags[..]))
  {
    var tagsFromFile := p.fromFile(repo);
    var keepTags: seq<string>, purgeTags: seq<string> := [], [];
    for i := 0 to tags.Length
      invariant keepTags == Names(NonCandidates(p, repo, now, tags[..i]))
      invariant purgeTags == Names(Candidates(p, repo, now, tags[..i]))
    {
      assert tags[..i + 1][..i] == tags[..i];
      var tag := tags[i];
      var daysOld := DaysOld(now, tag.created);
      var matchByRegexp := p.matchesRegexp(tag.name);
      var inFile := ItemInSlice(tag.name, tagsFromFile);
      if daysOld > p.keepDays && !matchByRegexp && !inFile {
        purgeTags := purgeTags + [tag.name];
      } else {
        keepTags := keepTags + [tag.name];
      }
    }
    assert tags[..tags.Length] == tags[..];
    plan := RepoPlan(keepTags, purgeTags);
  }

  /** Sort in place, filter, top up: the loop body of RunPurgeOldTags for one repository. */
  method PlanRepo(p: Policy, repo: string, now: int, listed: seq<TagData>) returns (plan: RepoPlan)
    ensures plan == Plan(p, repo, now, listed)
  {
    NewerStrictTotal();
    var tags := new TagData[|listed|](i requires 0 <= i < |listed| => listed[i]);
    assert tags[..] == listed;
    SortInPlace(tags, Newer);
    plan := FilterTags(p, repo, now, tags);
    if |plan.keep| < p.keepCount {
      var takeFromPurge := p.keepCount - |plan.keep|;
      if |plan.purge| < takeFromPurge {
        takeFromPurge := |plan.purge|;
      }
      plan := RepoPlan(plan.keep + plan.purge[..takeFromPurge], plan.purge[takeFromPurge..]);
    }
  }

  // ---------- The closed form ----------
  // Below, `s` is the sorted listing of a repository: all its tags, newest first.

  function ProtectedTags(p: Policy, repo: string, s: seq<TagData>): seq<TagData> {
    Select(s, IsProtected(p, repo))
  }

  /** The tags that neither the regexp nor the file protects, newest first. */
  function Unprotected(p: Policy, repo: string, s: seq<TagData>): seq<TagData> {
    Select(s, Not(IsProtected(p, repo)))
  }

  /** How many unprotected tags are too young to be purged. */
  function YoungCount(p: Policy, repo: string, now: int, s: seq<TagData>): (a: nat)
    ensures a <= |Unprotected(p, repo, s)|
  {
    SelectPartition(Unprotected(p, repo, s), IsOld(p, now));
    |Select(Unprotected(p, repo, s), Not(IsOld(p, now)))|
  }

  /** How many unprotected tags are kept: the young ones, or more if the keep count asks for more. */
  function Spared(p: Policy, repo: string, now: int, s: seq<TagData>): (k: nat)
    ensures k <= |Unprotected(p, repo, s)|
  {
    Max(YoungCount(p, repo, now, s),
        Min(|Unprotected(p, repo, s)|, p.keepCount - |ProtectedTags(p, repo, s)|))
  }

  function Purged(p: Policy, repo: string, now: int, s: seq<TagData>): seq<TagData> {
    Unprotected(p, repo, s)[Spared(p, repo, now, s)..]
  }

  function Kept(p: Policy, repo: string, now: int, s: seq<TagData>): seq<TagData> {
    ProtectedTags(p, repo, s) + Unprotected(p, repo, s)[..Spared(p, repo, now, s)]
  }

  /** Among unprotected tags in order, the old ones are a suffix. */
  lemma YoungIsPrefix(p: Policy, repo: string, now: int, s: seq<TagData>)
    requires Sorted(s, Newer)
    ensures Select(Unprotected(p, repo, s), IsOld(p, now)) == Unprotected(p, repo, s)[YoungCount(p, repo, now, s)..]
  {
    var u := Unprotected(p, repo, s);
    SelectSorted(s, Not(IsProtected(p, repo)), Newer);
    forall i, j | 0 <= i < j < |u| && Old(p, now, u[i]) ensures Old(p, now, u[j]) {
      assert !Newer(u[j], u[i]);
      DaysOldMonotone(now, u[i].created, now, u[j].created);
    }
    SelectSuffix(u, IsOld(p, now));
  }

  lemma CandidatesAreOldUnprotected(p: Policy, repo: string, now: int, s: seq<TagData>)
    requires Sorted(s, Newer)
    ensures Candidates(p, repo, now, s) == Unprotected(p, repo, s)[YoungCount(p, repo, now, s)..]
  {
    YoungIsPrefix(p, repo, now, s);
    SelectCompose(s, Not(IsProtected(p, repo)), IsOld(p, now), IsCandidate(p, repo, now));
  }

  /** The filter loop keeps the protected and the young tags. */
  lemma FilterKeeps(p: Policy, repo: string, now: int, s: seq<TagData>)
    requires Sorted(s, Newer)
    ensures multiset(NonCandidates(p, repo, now, s)) ==
            multiset(ProtectedTags(p, repo, s)) + multiset(Unprotected(p, repo, s)[..YoungCount(p, repo, now, s)])
  {
    var u, a := Unprotected(p, repo, s), YoungCount(p, repo, now, s);
    CandidatesAreOldUnprotected(p, repo, now, s);
    SelectPartition(s, IsCandidate(p, repo, now));
    SelectPartition(s, IsProtected(p, repo));
    CancelSuffix(NonCandidates(p, repo, now, s), ProtectedTags(p, repo, s), u, a);
  }

  /** Topping up moves a prefix of the purge list to the end of the keep list. */
  lemma TopUpSlices(keep: seq<TagData>, u: seq<TagData>, a: nat, k: int, keepCount: int)
    requires a <= |u| && k == Max(a, Min(|u|, keepCount - (|keep| - a)))
    ensures a <= k <= |u|
    ensures TopUp(RepoPlan(Names(keep), Names(u[a..])), keepCount) == RepoPlan(Names(keep + u[a..k]), Names(u[k..]))
  {
  }

  lemma ClosedFormSorted(p: Policy, repo: string, now: int, s: seq<TagData>) returns (kept: seq<TagData>)
    requires Sorted(s, Newer)
    ensures TopUp(RepoPlan(Names(NonCandidates(p, repo, now, s)), Names(Candidates(p, repo, now, s))), p.keepCount) ==
            RepoPlan(Names(kept), Names(Purged(p, repo, now, s)))
    ensures multiset(kept) == multiset(Kept(p, repo, now, s))
  {
    hide Select, Names, TopUp, Sorted, Unprotected, ProtectedTags, Candidates, NonCandidates, YoungCount;
    var u, a, k := Unprotected(p, repo, s), YoungCount(p, repo, now, s), Spared(p, repo, now, s);
    var keep := NonCandidates(p, repo, now, s);
    FilterKeeps(p, repo, now, s);
    CandidatesAreOldUnprotected(p, repo, now, s);
    SizeOf(keep, ProtectedTags(p, repo, s) + u[..a]);
    TopUpSlices(keep, u, a, k, p.keepCount);
    kept := keep + u[a..k];
    assert u[..a] + u[a..k] == u[..k];
  }

  lemma SortedListing(listed: seq<TagData>)
    ensures var s := Sort(listed, Newer); Sorted(s, Newer) && multiset(s) == multiset(listed) && |s| == |listed|
  {
    NewerStrictTotal();
    SortIsSorted(listed, Newer);
    SizeOf(Sort(listed, Newer), listed);
  }

  lemma KeptSize(p: Policy, repo: string, now: int, s: seq<TagData>)
    ensures |Kept(p, repo, now, s)| ==
            Max(|ProtectedTags(p, repo, s)| + YoungCount(p, repo, now, s), Min(p.keepCount, |s|))
  {
    SelectPartition(s, IsProtected(p, repo));
  }

  /**
   Closed form: the purge list is the unprotected tags, newest first, after the first
   max(young, min(|unprotected|, keepCount - |protected|)); every other tag is kept, and at least keepCount are kept
   unless there are fewer.
   */
  lemma ClosedForm(p: Policy, repo: string, now: int, listed: seq<TagData>) returns (kept: seq<TagData>)
    ensures var s := Sort(listed, Newer);
            && Sorted(s, Newer) && multiset(s) == multiset(listed)
            && Plan(p, repo, now, listed) == RepoPlan(Names(kept), Names(Purged(p, repo, now, s)))
            && multiset(kept) == multiset(Kept(p, repo, now, s))
            && |kept| == Max(|ProtectedTags(p, repo, s)| + YoungCount(p, repo, now, s), Min(p.keepCount, |listed|))
  {
    hide Sort, Sorted, Names, TopUp, NonCandidates, Candidates, Unprotected, ProtectedTags, Kept, Purged, YoungCount;
    var s := Sort(listed, Newer);
    SortedListing(listed);
    kept := ClosedFormSorted(p, repo, now, s);
    SizeOf(kept, Kept(p, repo, now, s));
    KeptSize(p, repo, now, s);
  }

  // ---------- What the closed form gives ----------

  /**
   Every purged tag is listed, unprotected and older than keepDays; no purged tag is newer than an unprotected kept one.
   */
  lemma PurgeIsSafe(p: Policy, repo: string, now: int, s: seq<TagData>)
    requires Sorted(s, Newer)
    ensures forall t :: t in Purged(p, repo, now, s) ==> t in s && Candidate(p, repo, now, t)
    ensures forall t, u :: t in Purged(p, repo, now, s) && u in Unprotected(p, repo, s)[..Spared(p, repo, now, s)]
              ==> !Newer(t, u)
  {
    var u, a, k := Unprotected(p, repo, s), YoungCount(p, repo, now, s), Spared(p, repo, now, s);
    forall t | t in Purged(p, repo, now, s) ensures t in s && Candidate(p, repo, now, t) {
      CandidatesAreOldUnprotected(p, repo, now, s);
      assert t in u[a..];
      SelectMember(s, IsCandidate(p, repo, now), t);
    }
    SelectSorted(s, Not(IsProtected(p, repo)), Newer);
  }

  /** Every name in the purge list is that of a listed candidate. */
  lemma PurgedNameIsListed(p: Policy, repo: string, now: int, listed: seq<TagData>, name: string) returns (t: TagData)
    requires name in Plan(p, repo, now, listed).purge
    ensures t in listed && t.name == name && Candidate(p, repo, now, t)
    ensures t in Purged(p, repo, now, Sort(listed, Newer))
  {
    hide *;
    var s := Sort(listed, Newer);
    var _ := ClosedForm(p, repo, now, listed);
    t := NameOf(Purged(p, repo, now, s), name);
    PurgeIsSafe(p, repo, now, s);
    assert t in multiset(s);
  }

  lemma NameOf(tags: seq<TagData>, name: string) returns (t: TagData)
    requires name in Names(tags)
    ensures t in tags && t.name == name
  {
    var i :| 0 <= i < |tags| && Names(tags)[i] == name;
    t := tags[i];
  }

  lemma PurgedHasName(tags: seq<TagData>, t: TagData)
    ensures t in tags ==> t.name in Names(tags)
  {
    if t in tags {
      var i :| 0 <= i < |tags| && tags[i] == t;
      assert Names(tags)[i] == t.name;
    }
  }

  /** The names on the purge list are those of the purged tags. */
  lemma PurgeNames(p: Policy, repo: string, now: int, listed: seq<TagData>, name: string)
    ensures name in Plan(p, repo, now, listed).purge <==>
            exists t :: t in Purged(p, repo, now, Sort(listed, Newer)) && t.name == name
  {
    hide *;
    var _ := ClosedForm(p, repo, now, listed);
    var purged := Purged(p, repo, now, Sort(listed, Newer));
    if name in Names(purged) {
      var t := NameOf(purged, name);
    }
    if t :| t in purged && t.name == name {
      PurgedHasName(purged, t);
    }
  }

  /** The listing names no tag twice. */
  ghost predicate NamedOnce(listed: seq<TagData>) {
    forall t :: multiset(listed)[t] <= 1 && forall u :: t in listed && u in listed && t.name == u.name ==> t == u
  }

  lemma Occurrences<T>(s: seq<T>, i: nat, j: nat)
    requires i < j < |s| && s[i] == s[j]
    ensures multiset(s)[s[i]] >= 2
  {
    assert s == s[..j] + s[j..];
    assert s[i] in s[..j] && s[j] in s[j..] by {
      assert s[..j][i] == s[i] && s[j..][0] == s[j];
    }
  }

  lemma UnprotectedNamedOnce(p: Policy, repo: string, listed: seq<TagData>)
    requires NamedOnce(listed)
    ensures NamedOnce(Unprotected(p, repo, Sort(listed, Newer)))
  {
    var s := Sort(listed, Newer);
    SortedListing(listed);
    forall t ensures multiset(Unprotected(p, repo, s))[t] <= 1 && (t in Unprotected(p, repo, s) ==> t in listed) {
      SelectMultiset(s, Not(IsProtected(p, repo)), t);
      assert multiset(listed)[t] <= 1;
      assert t in Unprotected(p, repo, s) ==> multiset(s)[t] > 0;
    }
  }

  /** The plan depends on which tags the registry lists, not on their order. */
  lemma OrderIndependent(p: Policy, repo: string, now: int, listed: seq<TagData>, listed': seq<TagData>)
    requires multiset(listed) == multiset(listed')
    ensures Plan(p, repo, now, listed) == Plan(p, repo, now, listed')
  {
    SortedListing(listed);
    SortedListing(listed');
    NewerStrictTotal();
    SortedIsUnique(Sort(listed, Newer), Sort(listed', Newer), Newer);
  }

  /** A policy that keeps no more days and no more tags, with the same protections. */
  predicate Stricter(p': Policy, p: Policy) {
    p'.keepDays <= p.keepDays && p'.keepCount <= p.keepCount
  }

  lemma YoungCountShrinks(p: Policy, p': Policy, repo: string, now: int, now': int, s: seq<TagData>)
    requires Stricter(p', p) && now <= now' && Unprotected(p, repo, s) == Unprotected(p', repo, s)
    ensures YoungCount(p', repo, now', s) <= YoungCount(p, repo, now, s)
  {
    var u := Unprotected(p, repo, s);
    forall t | t in u && !Old(p', now', t) ensures !Old(p, now, t) {
      DaysOldMonotone(now, t.created, now', t.created);
    }
    SelectFewer(u, Not(IsOld(p', now')), Not(IsOld(p, now)));
  }

  /**
   Monotonicity for a fixed listing: later, or with fewer days or tags to keep, the purge list only grows, at the front.
   */
  lemma PurgeMonotone(p: Policy, keepDays: int, keepCount: int, repo: string, now: int, now': int, listed: seq<TagData>)
      returns (n: nat)
    requires keepDays <= p.keepDays && keepCount <= p.keepCount && now <= now'
    ensures var later := Plan(p.(keepDays := keepDays, keepCount := keepCount), repo, now', listed).purge;
            n <= |later| && Plan(p, repo, now, listed).purge == later[n..]
  {
    hide Plan, Purged, Kept, Unprotected, ProtectedTags, Sort, Sorted, Names;
    var p' := p.(keepDays := keepDays, keepCount := keepCount);
    var s := Sort(listed, Newer);
    var _ := ClosedForm(p, repo, now, listed);
    var _ := ClosedForm(p', repo, now', listed);
    n := PurgedGrows(p, p', repo, now, now', s);
    NamesFrom(Purged(p', repo, now', s), n);
  }

  lemma NamesFrom(tags: seq<TagData>, n: nat)
    requires n <= |tags|
    ensures Names(tags)[n..] == Names(tags[n..])
  {
  }

  lemma PurgedGrows(p: Policy, p': Policy, repo: string, now: int, now': int, s: seq<TagData>) returns (n: nat)
    requires Stricter(p', p) && now <= now' && p'.matchesRegexp == p.matchesRegexp && p'.fromFile == p.fromFile
    ensures n <= |Purged(p', repo, now', s)| && Purged(p, repo, now, s) == Purged(p', repo, now', s)[n..]
  {
    SelectAgree(s, IsProtected(p, repo), IsProtected(p', repo));
    YoungCountShrinks(p, p', repo, now, now', s);
    n := Spared(p, repo, now, s) - Spared(p', repo, now', s);
  }

  // ---------- Planning again ----------

  /** Whatever part of the kept tags is listed later, at the same time and with the same policy, nothing is purged. */
  lemma NothingLeftSorted(p: Policy, repo: string, now: int, s: seq<TagData>, t: seq<TagData>)
    requires Sorted(s, Newer) && Sorted(t, Newer) && multiset(t) <= multiset(Kept(p, repo, now, s))
    ensures Purged(p, repo, now, t) == []
  {
    var u, a, k := Unprotected(p, repo, s), YoungCount(p, repo, now, s), Spared(p, repo, now, s);
    var prot := ProtectedTags(p, repo, s);
    forall x ensures x in prot ==> Protected(p, repo, x) {
      SelectMember(s, IsProtected(p, repo), x);
    }
    forall x ensures x in u ==> !Protected(p, repo, x) {
      SelectMember(s, Not(IsProtected(p, repo)), x);
    }
    SelectWithin(t, prot, u[..k], IsProtected(p, repo));
    SelectWithin(t, u[..k], prot, Not(IsProtected(p, repo)));
    var u' := Unprotected(p, repo, t);
    if k == a {
      forall x | x in u' ensures !Old(p, now, x) {
        assert x in multiset(u[..a]);
        SparedAreYoung(p, repo, now, s, x);
      }
      SelectAll(u', Not(IsOld(p, now)));
    }
  }

  lemma SparedAreYoung(p: Policy, repo: string, now: int, s: seq<TagData>, x: TagData)
    requires Sorted(s, Newer) && x in Unprotected(p, repo, s)[..YoungCount(p, repo, now, s)]
    ensures !Old(p, now, x)
  {
    var u, a := Unprotected(p, repo, s), YoungCount(p, repo, now, s);
    YoungIsPrefix(p, repo, now, s);
    PrefixRejected(u, IsOld(p, now), a, x);
  }

  lemma KeptPlusPurged(p: Policy, repo: string, now: int, s: seq<TagData>)
    ensures multiset(Kept(p, repo, now, s)) + multiset(Purged(p, repo, now, s)) == multiset(s)
  {
    var u, k := Unprotected(p, repo, s), Spared(p, repo, now, s);
    assert u == u[..k] + u[k..];
    SelectPartition(s, IsProtected(p, repo));
  }

  lemma NothingLeft(p: Policy, repo: string, now: int, listed: seq<TagData>, later: seq<TagData>)
    requires multiset(later) <= multiset(Kept(p, repo, now, Sort(listed, Newer)))
    ensures Plan(p, repo, now, later).purge == []
  {
    SortedListing(listed);
    SortedListing(later);
    NothingLeftSorted(p, repo, now, Sort(listed, Newer), Sort(later, Newer));
    var _ := ClosedForm(p, repo, now, later);
  }

  // ---------- Protecting more ----------

  /** Only the protections differ, and every listed tag protected before still is. */
  ghost predicate ProtectsMore(p': Policy, p: Policy, repo: string, s: seq<TagData>) {
    && p'.keepDays == p.keepDays && p'.keepCount == p.keepCount
    && forall t :: t in s && Protected(p, repo, t) ==> Protected(p', repo, t)
  }

  /** The old unprotected tags that the keep count rescues from the purge. */
  function Rescued(p: Policy, repo: string, now: int, s: seq<TagData>): seq<TagData> {
    Unprotected(p, repo, s)[YoungCount(p, repo, now, s)..Spared(p, repo, now, s)]
  }

  /** Those of the given tags that no protection covers. */
  function Exposed(p: Policy, repo: string, tags: seq<TagData>): (r: seq<TagData>)
    ensures |r| <= |tags|
    ensures |r| == |tags| ==> r == tags
  {
    SelectSize(tags, Not(IsProtected(p, repo)));
    Select(tags, Not(IsProtected(p, repo)))
  }

  /** Rescued tags that lose their place: as many as protection took off the purge list, the oldest first. */
  function Displaced(p: Policy, p': Policy, repo: string, now: int, s: seq<TagData>): seq<TagData> {
    var rescued, purged := Exposed(p', repo, Rescued(p, repo, now, s)), Purged(p, repo, now, s);
    rescued[|rescued| - Min(|rescued|, |purged| - |Exposed(p', repo, purged)|)..]
  }

  lemma ExposedHalves(p: Policy, repo: string, u: seq<TagData>, a: nat)
    requires a <= |u|
    ensures Exposed(p, repo, u) == Exposed(p, repo, u[..a]) + Exposed(p, repo, u[a..])
  {
    hide Select;
    assert u == u[..a] + u[a..];
    SelectConcat(u[..a], u[a..], Not(IsProtected(p, repo)));
  }

  lemma ExposedSlices(p: Policy, repo: string, u: seq<TagData>, a: nat, k: nat)
    requires a <= k <= |u|
    ensures Exposed(p, repo, u) == Exposed(p, repo, u[..a]) + Exposed(p, repo, u[a..k]) + Exposed(p, repo, u[k..])
  {
    hide Exposed;
    ExposedHalves(p, repo, u, a);
    ExposedHalves(p, repo, u[a..], k - a);
    assert u[a..][..k - a] == u[a..k] && u[a..][k - a..] == u[k..];
  }

  lemma UnprotectedNarrows(p: Policy, p': Policy, repo: string, s: seq<TagData>)
    requires ProtectsMore(p', p, repo, s)
    ensures Unprotected(p', repo, s) == Exposed(p', repo, Unprotected(p, repo, s))
  {
    SelectCompose(s, Not(IsProtected(p, repo)), Not(IsProtected(p', repo)), Not(IsProtected(p', repo)));
  }

  lemma YoungNarrows(p: Policy, p': Policy, repo: string, now: int, s: seq<TagData>)
    requires Sorted(s, Newer) && ProtectsMore(p', p, repo, s)
    ensures YoungCount(p', repo, now, s) == |Exposed(p', repo, Unprotected(p, repo, s)[..YoungCount(p, repo, now, s)])|
  {
    var u, a := Unprotected(p, repo, s), YoungCount(p, repo, now, s);
    UnprotectedNarrows(p, p', repo, s);
    YoungIsPrefix(p, repo, now, s);
    YoungIsPrefix(p', repo, now, s);
    OldExposed(u, IsOld(p, now), IsOld(p', now), Not(IsProtected(p', repo)));
    hide Select, Sorted, Unprotected, YoungCount, IsOld, IsProtected;
    ExposedHalves(p', repo, u, a);
  }

  lemma OldExposed(u: seq<TagData>, old0: TagData -> bool, old1: TagData -> bool, q: TagData -> bool)
    requires forall t :: old0(t) == old1(t)
    ensures Select(Select(u, q), old1) == Select(Select(u, old0), q)
  {
    var both := (t: TagData) => old0(t) && q(t);
    SelectCompose(u, q, old1, both);
    SelectCompose(u, old0, q, both);
  }

  /**
   Of `n` unprotected tags, `a` were young and `k` spared; the three lists are what stays unprotected of the parts, and
   `k'` of it is spared.
   */
  lemma Respared(young: seq<TagData>, rescued: seq<TagData>, purged: seq<TagData>, a: nat, k: nat, n: nat, slots: int,
                 slots': int, u: seq<TagData>, k': nat)
    requires |young| <= a <= k <= n && |rescued| <= k - a && |purged| <= n - k && k == Max(a, Min(n, slots))
    requires u == young + rescued + purged && slots' == slots - n + |u| && k' == Max(|young|, Min(|u|, slots'))
    ensures k' <= |u| && u[k'..] == rescued[|rescued| - Min(|rescued|, n - k - |purged|)..] + purged
  {
    assert k' == |young| + |rescued| - Min(|rescued|, n - k - |purged|);
  }

  lemma SparedBySize(p: Policy, repo: string, now: int, s: seq<TagData>)
    ensures Spared(p, repo, now, s) == Max(YoungCount(p, repo, now, s),
              Min(|Unprotected(p, repo, s)|, p.keepCount - |s| + |Unprotected(p, repo, s)|))
    ensures YoungCount(p, repo, now, s) <= Spared(p, repo, now, s)
  {
    SelectPartition(s, IsProtected(p, repo));
  }

  lemma PurgedIs(p: Policy, repo: string, now: int, s: seq<TagData>)
    ensures Purged(p, repo, now, s) == Unprotected(p, repo, s)[Spared(p, repo, now, s)..]
  {
  }

  lemma DisplacedIs(p: Policy, p': Policy, repo: string, now: int, s: seq<TagData>)
    ensures var u, a, k := Unprotected(p, repo, s), YoungCount(p, repo, now, s), Spared(p, repo, now, s);
            var rescued := Exposed(p', repo, u[a..k]);
            Displaced(p, p', repo, now, s) ==
              rescued[|rescued| - Min(|rescued|, |u| - k - |Exposed(p', repo, u[k..])|)..]
  {
  }

  lemma PurgedUnderMore(p: Policy, p': Policy, repo: string, now: int, s: seq<TagData>)
    requires Sorted(s, Newer) && ProtectsMore(p', p, repo, s)
    ensures Purged(p', repo, now, s) == Displaced(p, p', repo, now, s) + Exposed(p', repo, Purged(p, repo, now, s))
  {
    assert p'.keepCount == p.keepCount;
    hide *;
    var u, a, k := Unprotected(p, repo, s), YoungCount(p, repo, now, s), Spared(p, repo, now, s);
    PurgedIs(p, repo, now, s);
    PurgedIs(p', repo, now, s);
    DisplacedIs(p, p', repo, now, s);
    SparedBySize(p, repo, now, s);
    SparedBySize(p', repo, now, s);
    UnprotectedNarrows(p, p', repo, s);
    YoungNarrows(p, p', repo, now, s);
    ExposedSlices(p', repo, u, a, k);
    Respared(Exposed(p', repo, u[..a]), Exposed(p', repo, u[a..k]), Exposed(p', repo, u[k..]), a, k, |u|,
             p.keepCount - |s| + |u|, p'.keepCount - |s| + |Unprotected(p', repo, s)|, Unprotected(p', repo, s),
             Spared(p', repo, now, s));
  }

  /**
   Protecting more tags takes them off the purge list, but each one that was on it uses up a place of the keep count:
   the purge list is what it was less the newly protected, preceded by as many rescued tags as were taken off, as far as
   there are any.
   */
  lemma ProtectionEffect(p: Policy, p': Policy, repo: string, now: int, listed: seq<TagData>)
    requires ProtectsMore(p', p, repo, Sort(listed, Newer))
    ensures var s := Sort(listed, Newer);
            Plan(p', repo, now, listed).purge ==
              Names(Displaced(p, p', repo, now, s) + Exposed(p', repo, Purged(p, repo, now, s)))
  {
    hide Plan, Sort, Sorted, Purged, Kept, Displaced, Exposed, ProtectsMore;
    SortedListing(listed);
    PurgedUnderMore(p, p', repo, now, Sort(listed, Newer));
    var _ := ClosedForm(p', repo, now, listed);
  }

  /**
   So protection adds nothing to the purge list if and only if it takes nothing off it, or the keep count has rescued no
   tag that stays unprotected.
   */
  lemma ProtectionAddsNothingIff(p: Policy, p': Policy, repo: string, now: int, s: seq<TagData>)
    requires Sorted(s, Newer) && ProtectsMore(p', p, repo, s)
    ensures var purged, rescued := Purged(p, repo, now, s), Rescued(p, repo, now, s);
            Purged(p', repo, now, s) == Exposed(p', repo, purged)
            <==> Exposed(p', repo, purged) == purged || Exposed(p', repo, rescued) == []
  {
    hide Sorted, Purged, Rescued, ProtectsMore;
    PurgedUnderMore(p, p', repo, now, s);
    assert |Displaced(p, p', repo, now, s)| == 0 <==> Displaced(p, p', repo, now, s) == [];
  }

  /**
   With two old tags and keepCount 1 the newer one survives; protecting the older one uses up the slot, and the newer
   one is purged instead.
   */
  lemma ProtectionCanAddToPurge(p: Policy, p': Policy, now: int)
    requires p.keepDays == 1 && p.keepCount == 1 && p' == p.(matchesRegexp := p'.matchesRegexp)
    requires !p.matchesRegexp("new") && !p.matchesRegexp("old") && !p'.matchesRegexp("new") && p'.matchesRegexp("old")
    requires p.fromFile("app") == []
    ensures var listed := [TagData("new", now - 5 * DAY), TagData("old", now - 9 * DAY)];
            Plan(p, "app", now, listed).purge == ["old"] && Plan(p', "app", now, listed).purge == ["new"]
  {
    var newer, older := TagData("new", now - 5 * DAY), TagData("old", now - 9 * DAY);
    var listed := [newer, older];
    assert listed[1..] == [older] && Sort([older], Newer) == [older];
    assert Sort(listed, Newer) == listed;
    assert DaysOld(now, newer.created) == 5 && DaysOld(now, older.created) == 9;
    assert IsCandidate(p, "app", now)(newer) && IsCandidate(p, "app", now)(older);
    assert IsCandidate(p', "app", now)(newer) && !IsCandidate(p', "app", now)(older);
    SelectTwo(newer, older, IsCandidate(p, "app", now));
    SelectTwo(newer, older, IsCandidate(p', "app", now));
    assert Names([newer]) == ["new"] && Names([older]) == ["old"] && Names(listed) == ["new", "old"];
    assert ["new", "old"][1..] == ["old"];
  }
}

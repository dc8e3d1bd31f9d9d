/**
 The purge decision for a single tag, in the terms of the configuration: its age in nanoseconds, its protection, and how
 many tags the keep count has already been spent on.
 */
module RetentionRules {
  import opened Retention
  import opened Selection
  import opened Sorting

  // ---------- Age ----------

  /** The time since creation, limited to 64 bits. */
  function Age(now: int, created: int): int {
    if now - created > 0x7FFF_FFFF_FFFF_FFFF then 0x7FFF_FFFF_FFFF_FFFF
    else if now - created < -0x8000_0000_0000_0000 then -0x8000_0000_0000_0000
    else now - created
  }

  /** More than `keepDays` whole days, of 86 400 seconds each. */
  predicate LongAgo(keepDays: int, now: int, created: int) {
    if keepDays >= 0 then Age(now, created) >= (keepDays + 1) * 86_400_000_000_000
    else Age(now, created) > keepDays * 86_400_000_000_000
  }

  /** A tag is old from the nanosecond on at which its age reaches `keepDays + 1` days. */
  lemma OldIff(p: Policy, now: int, t: TagData)
    ensures Old(p, now, t) <==> LongAgo(p.keepDays, now, t.created)
  {
    DaysAbove(Age(now, t.created), p.keepDays);
  }

  lemma DaysAbove(age: int, days: int)
    ensures Truncate(age, DAY) > days <==>
            if days >= 0 then age >= (days + 1) * 86_400_000_000_000 else age > days * 86_400_000_000_000
  {
    if age >= 0 {
      assert age == age / DAY * DAY + age % DAY;
    } else {
      assert -age == -age / DAY * DAY + -age % DAY;
    }
  }

  /** With keep_days 1 a tag is kept through its second day. */
  lemma ThirtyHoursExample(p: Policy, now: int, t: TagData)
    requires p.keepDays == 1
    ensures t.created == now - 30 * 3_600_000_000_000 ==> !Old(p, now, t)
    ensures t.created == now - 48 * 3_600_000_000_000 + 1 ==> !Old(p, now, t)
    ensures t.created == now - 48 * 3_600_000_000_000 ==> Old(p, now, t)
  {
    OldIff(p, now, t);
  }

  // ---------- One tag ----------

  /** Listed before another: created later, or at the same instant with the greater name. */
  predicate ComesBefore(u: TagData, t: TagData) {
    u.created > t.created || (u.created == t.created && StringLess(t.name, u.name))
  }

  predicate IsProtectedTag(p: Policy, repo: string, t: TagData) {
    p.matchesRegexp(t.name) || t.name in p.fromFile(repo)
  }

  /** The unprotected tags listed before `t`. */
  function Ahead(p: Policy, repo: string, t: TagData): TagData -> bool {
    (u: TagData) => !IsProtectedTag(p, repo, u) && ComesBefore(u, t)
  }

  function ProtectedOnes(p: Policy, repo: string): TagData -> bool {
    (u: TagData) => IsProtectedTag(p, repo, u)
  }

  function NewerThan(t: TagData): TagData -> bool {
    (u: TagData) => Newer(u, t)
  }

  /** The number of tags that pass a test does not depend on their order. */
  lemma SelectedSize(s: seq<TagData>, t: seq<TagData>, p: TagData -> bool, q: TagData -> bool)
    requires multiset(s) == multiset(t) && forall x :: p(x) == q(x)
    ensures |Select(s, p)| == |Select(t, q)|
  {
    forall x ensures multiset(Select(s, p))[x] == multiset(Select(t, q))[x] {
      SelectMultiset(s, p, x);
      SelectMultiset(t, q, x);
    }
    SizeOf(Select(s, p), Select(t, q));
  }

  lemma NewerIffEarlier(u: seq<TagData>, i: nat, j: nat)
    requires i < |u| && j < |u| && Sorted(u, Newer) && NamedOnce(u)
    ensures Newer(u[j], u[i]) <==> j < i
  {
    NewerStrictTotal();
    hide Newer;
    if j < i {
      if u[j] == u[i] {
        Occurrences(u, j, i);
      }
      assert !Newer(u[i], u[j]);
    } else if i < j {
      assert !Newer(u[j], u[i]);
    }
  }

  /** In a sorted list without repetitions a tag comes after as many tags as are newer. */
  lemma RankInSorted(u: seq<TagData>, i: nat)
    requires i < |u| && Sorted(u, Newer) && NamedOnce(u)
    ensures |Select(u, NewerThan(u[i]))| == i
  {
    hide Newer, Sorted, NamedOnce, Select;
    forall j | 0 <= j < |u| ensures NewerThan(u[i])(u[j]) <==> j < i {
      NewerIffEarlier(u, i, j);
    }
    SelectPrefix(u, i, NewerThan(u[i]));
  }

  /** Being in a suffix is a matter of position, for a list without repetitions. */
  lemma InSuffixIff(u: seq<TagData>, i: nat, k: nat)
    requires i < |u| && k <= |u| && NamedOnce(u)
    ensures u[i] in u[k..] <==> i >= k
  {
    if i >= k {
      assert u[k..][i - k] == u[i];
    } else if u[i] in u[k..] {
      var j :| k <= j < |u| && u[j] == u[i];
      Occurrences(u, i, j);
    }
  }

  lemma OldFrom(p: Policy, repo: string, now: int, s: seq<TagData>, i: nat)
    requires Sorted(s, Newer) && i < |Unprotected(p, repo, s)|
    ensures Old(p, now, Unprotected(p, repo, s)[i]) <==> i >= YoungCount(p, repo, now, s)
  {
    var u, a := Unprotected(p, repo, s), YoungCount(p, repo, now, s);
    YoungIsPrefix(p, repo, now, s);
    if i >= a {
      assert u[a..][i - a] == u[i];
      SelectMember(u, IsOld(p, now), u[i]);
    } else {
      assert u[..a][i] == u[i];
      SparedAreYoung(p, repo, now, s, u[i]);
    }
  }

  lemma NameInPurge(p: Policy, repo: string, now: int, listed: seq<TagData>, t: TagData)
    requires NamedOnce(listed) && t in listed
    ensures t.name in Plan(p, repo, now, listed).purge <==> t in Purged(p, repo, now, Sort(listed, Newer))
  {
    hide Plan, Purged, Sort;
    var s := Sort(listed, Newer);
    PurgeNames(p, repo, now, listed, t.name);
    if x :| x in Purged(p, repo, now, s) && x.name == t.name {
      SortedListing(listed);
      PurgeIsSafe(p, repo, now, s);
      assert x in multiset(s);
    }
  }

  /** Whatever the listing, also with repeated names: a purged name is that of an old unprotected tag. */
  lemma PurgedAreLongAgo(p: Policy, repo: string, now: int, listed: seq<TagData>, name: string) returns (t: TagData)
    requires name in Plan(p, repo, now, listed).purge
    ensures t in listed && t.name == name && !IsProtectedTag(p, repo, t) && LongAgo(p.keepDays, now, t.created)
  {
    hide Plan, Purged, Sort, LongAgo, Old;
    var s := Sort(listed, Newer);
    PurgeNames(p, repo, now, listed, name);
    t :| t in Purged(p, repo, now, s) && t.name == name;
    SortedListing(listed);
    PurgeIsSafe(p, repo, now, s);
    assert t in multiset(s);
    OldIff(p, now, t);
  }

  /** Position in the unprotected tags decides. */
  lemma PurgedFrom(p: Policy, repo: string, now: int, s: seq<TagData>, i: nat)
    requires Sorted(s, Newer) && NamedOnce(Unprotected(p, repo, s)) && i < |Unprotected(p, repo, s)|
    ensures Unprotected(p, repo, s)[i] in Purged(p, repo, now, s) <==>
            Old(p, now, Unprotected(p, repo, s)[i]) && |ProtectedTags(p, repo, s)| + i >= p.keepCount
  {
    OldFrom(p, repo, now, s, i);
    InSuffixIff(Unprotected(p, repo, s), i, Spared(p, repo, now, s));
    hide Old, Unprotected, ProtectedTags, YoungCount, NamedOnce;
  }

  /**
   The rule for one tag: it is purged if and only if it is not protected, it is more than `keepDays` days old, and the
   protected tags and the unprotected ones before it already make up the keep count.
   */
  lemma PurgedIff(p: Policy, repo: string, now: int, listed: seq<TagData>, t: TagData)
    requires NamedOnce(listed) && t in listed
    ensures t.name in Plan(p, repo, now, listed).purge <==>
            && !IsProtectedTag(p, repo, t) && LongAgo(p.keepDays, now, t.created)
            && |Select(listed, ProtectedOnes(p, repo))| + |Select(listed, Ahead(p, repo, t))| >= p.keepCount
  {
    hide Plan, Sort, Sorted, Old, Select;
    var s := Sort(listed, Newer);
    var u := Unprotected(p, repo, s);
    SortedListing(listed);
    NameInPurge(p, repo, now, listed, t);
    assert t in multiset(s);
    SelectMember(s, Not(IsProtected(p, repo)), t);
    if IsProtectedTag(p, repo, t) {
      PurgeIsSafe(p, repo, now, s);
    } else {
      UnprotectedNamedOnce(p, repo, listed);
      var i :| 0 <= i < |u| && u[i] == t;
      AheadIs(p, repo, listed, t, i);
      SelectedSize(s, listed, IsProtected(p, repo), ProtectedOnes(p, repo));
      PurgedFrom(p, repo, now, s, i);
      OldIff(p, now, t);
    }
  }

  lemma UnprotectedSorted(p: Policy, repo: string, listed: seq<TagData>)
    requires NamedOnce(listed)
    ensures var u := Unprotected(p, repo, Sort(listed, Newer)); Sorted(u, Newer) && NamedOnce(u)
  {
    hide Sort, Sorted, Select, NamedOnce, Newer;
    SortedListing(listed);
    UnprotectedNamedOnce(p, repo, listed);
    SelectSorted(Sort(listed, Newer), Not(IsProtected(p, repo)), Newer);
  }

  lemma AheadSelected(p: Policy, repo: string, s: seq<TagData>, t: TagData)
    ensures Select(Unprotected(p, repo, s), NewerThan(t)) == Select(s, Ahead(p, repo, t))
  {
    SelectCompose(s, Not(IsProtected(p, repo)), NewerThan(t), Ahead(p, repo, t));
  }

  lemma AheadIs(p: Policy, repo: string, listed: seq<TagData>, t: TagData, i: nat)
    requires NamedOnce(listed) && i < |Unprotected(p, repo, Sort(listed, Newer))|
    requires Unprotected(p, repo, Sort(listed, Newer))[i] == t
    ensures |Select(listed, Ahead(p, repo, t))| == i
  {
    hide *;
    var s := Sort(listed, Newer);
    SortedListing(listed);
    UnprotectedSorted(p, repo, listed);
    RankInSorted(Unprotected(p, repo, s), i);
    AheadSelected(p, repo, s, t);
    SelectedSize(s, listed, Ahead(p, repo, t), Ahead(p, repo, t));
  }

  /** Every listed tag is kept or purged, and not both. */
  lemma KeptIff(p: Policy, repo: string, now: int, listed: seq<TagData>, t: TagData)
    requires NamedOnce(listed) && t in listed
    ensures t.name in Plan(p, repo, now, listed).keep <==> t.name !in Plan(p, repo, now, listed).purge
  {
    hide *;
    var s := Sort(listed, Newer);
    var kept := ClosedForm(p, repo, now, listed);
    KeptPlusPurged(p, repo, now, s);
    NameInPurge(p, repo, now, listed, t);
    OneSide(listed, kept, Purged(p, repo, now, s), t);
  }

  lemma OneSide(listed: seq<TagData>, kept: seq<TagData>, purged: seq<TagData>, t: TagData)
    requires NamedOnce(listed) && t in listed && multiset(kept) + multiset(purged) == multiset(listed)
    ensures t.name in Names(kept) <==> t !in purged
  {
    assert multiset(listed)[t] == multiset(kept)[t] + multiset(purged)[t];
    assert t in multiset(listed) && multiset(listed)[t] <= 1;
    if t.name in Names(kept) {
      var x := NameOf(kept, t.name);
      assert x in multiset(kept) && x in multiset(listed);
    }
    PurgedHasName(kept, t);
  }

  /** The purge list runs from the tag listed first to the one listed last. */
  lemma PurgeInOrder(p: Policy, repo: string, now: int, listed: seq<TagData>, i: nat, j: nat)
      returns (t: TagData, u: TagData)
    requires NamedOnce(listed) && i < j < |Plan(p, repo, now, listed).purge|
    ensures t in listed && u in listed && ComesBefore(t, u)
    ensures t.name == Plan(p, repo, now, listed).purge[i] && u.name == Plan(p, repo, now, listed).purge[j]
  {
    var s := Sort(listed, Newer);
    var purged := Purged(p, repo, now, s);
    assert forall k :: 0 <= k < |purged| ==> Names(purged)[k] == purged[k].name;
    hide *;
    var _ := ClosedForm(p, repo, now, listed);
    t, u := purged[i], purged[j];
    PurgedIsListed(p, repo, now, listed, t);
    PurgedIsListed(p, repo, now, listed, u);
    PurgedSorted(p, repo, now, listed, i, j);
    NewerIsBefore(t, u);
  }

  lemma NewerIsBefore(t: TagData, u: TagData)
    ensures Newer(t, u) <==> ComesBefore(t, u)
  {
  }

  lemma PurgedIsListed(p: Policy, repo: string, now: int, listed: seq<TagData>, t: TagData)
    requires t in Purged(p, repo, now, Sort(listed, Newer))
    ensures t in listed
  {
    hide *;
    var s := Sort(listed, Newer);
    SortedListing(listed);
    PurgeIsSafe(p, repo, now, s);
    assert t in multiset(s);
  }

  lemma PurgedSorted(p: Policy, repo: string, now: int, listed: seq<TagData>, i: nat, j: nat)
    requires NamedOnce(listed) && i < j < |Purged(p, repo, now, Sort(listed, Newer))|
    ensures Newer(Purged(p, repo, now, Sort(listed, Newer))[i], Purged(p, repo, now, Sort(listed, Newer))[j])
  {
    hide *;
    var s := Sort(listed, Newer);
    var u, k := Unprotected(p, repo, s), Spared(p, repo, now, s);
    UnprotectedSorted(p, repo, listed);
    PurgedIs(p, repo, now, s);
    NewerIffEarlier(u, k + j, k + i);
  }

  /** Of two old tags with one date, keep_count 1 keeps the one with the greater name. */
  lemma SameDateExample(p: Policy, now: int)
    requires p.keepDays == 1 && p.keepCount == 1 && p.fromFile("app") == []
    requires !p.matchesRegexp("1.9") && !p.matchesRegexp("1.10")
    ensures var created := now - 72 * 3_600_000_000_000;
            var plan := Plan(p, "app", now, [TagData("1.10", created), TagData("1.9", created)]);
            "1.10" in plan.purge && "1.9" !in plan.purge
  {
    var created := now - 72 * 3_600_000_000_000;
    var ten, nine := TagData("1.10", created), TagData("1.9", created);
    TwoUnprotected(p, ten, nine);
    assert LongAgo(1, now, created);
    hide Plan, Select, NamedOnce;
    PurgedIff(p, "app", now, [ten, nine], ten);
    PurgedIff(p, "app", now, [ten, nine], nine);
  }

  lemma TwoUnprotected(p: Policy, ten: TagData, nine: TagData)
    requires !IsProtectedTag(p, "app", ten) && !IsProtectedTag(p, "app", nine) && ten.created == nine.created
    requires ten.name == "1.10" && nine.name == "1.9"
    ensures var listed := [ten, nine];
            && NamedOnce(listed) && ten in listed && nine in listed && |Select(listed, ProtectedOnes(p, "app"))| == 0
            && |Select(listed, Ahead(p, "app", ten))| == 1 && |Select(listed, Ahead(p, "app", nine))| == 0
  {
    NumbersAsStrings();
    hide StringLess, Select;
    SelectTwo(ten, nine, Ahead(p, "app", ten));
    SelectTwo(ten, nine, Ahead(p, "app", nine));
    SelectTwo(ten, nine, ProtectedOnes(p, "app"));
  }

  lemma NumbersAsStrings()
    ensures StringLess("1.10", "1.9") && !StringLess("1.9", "1.10")
    ensures !StringLess("1.9", "1.9") && !StringLess("1.10", "1.10")
  {
    StringLessIff("1.10", "1.9");
    assert "1.10"[..2] == "1.9"[..2];
    StringLessIrreflexive("1.9");
    StringLessIrreflexive("1.10");
    StringLessStrictTotal();
  }
}

/**
 When the cache ends up exact. In a run of the protocol that nobody else disturbs, a cached list differs from the
 registry's exactly when a deletion falls between the listing and the writing of that list.
 */
module CacheWindow {
  import opened CacheProtocol
  import opened PurgeCache
  import opened PurgeOutcome
  import opened RegistryClient
  import opened Selection
  import opened Sets

  // ---------- Reading the log ----------

  /** Not deleted so far. */
  function Remains(log: seq<Event>, repo: string): string -> bool {
    (tag: string) => Removed(repo, tag) !in log
  }

  function EntryRemains(log: seq<Event>, repo: string): Tagged -> bool {
    (e: Tagged) => Removed(repo, e.tag) !in log
  }

  ghost predicate LastWrite(log: seq<Event>, repo: string, at: nat) {
    && at < |log| && log[at].Wrote? && log[at].repo == repo
    && forall j :: at < j < |log| && log[j].Wrote? ==> log[j].repo != repo
  }

  ghost predicate FilteredAfter(log: seq<Event>, at: nat, repo: string, tag: string) {
    exists j :: at < j < |log| && log[j].Filtered? && log[j].repo == repo && log[j].tag == tag
  }

  ghost predicate RemovedAfter(log: seq<Event>, at: nat, repo: string, tag: string) {
    exists i :: at < i < |log| && log[i] == Removed(repo, tag)
  }

  ghost function Unfiltered(log: seq<Event>, at: nat, repo: string): string -> bool {
    (tag: string) => !FilteredAfter(log, at, repo, tag)
  }

  // ---------- The invariant of undisturbed runs ----------

  /** An event is consistent with the events before it. */
  ghost predicate EventFits(registry0: Registry, before: seq<Event>, e: Event) {
    match e
    case Took(repo, tags) => repo in registry0 && tags == Select(Tags(registry0[repo]), Remains(before, repo))
    case Wrote(repo, at) => at < |before| && before[at].Took? && before[at].repo == repo
    case Removed(repo, tag) => repo in registry0 && tag in Tags(registry0[repo])
    case Filtered(repo, tag, at) => at < |before| && before[at] == Removed(repo, tag)
  }

  ghost predicate LogFits(registry0: Registry, log: seq<Event>) {
    forall i :: 0 <= i < |log| ==> EventFits(registry0, log[..i], log[i])
  }

  ghost predicate RegistryFits(registry0: Registry, log: seq<Event>, registry: Registry) {
    && registry.Keys == registry0.Keys
    && forall repo :: repo in registry0 ==> registry[repo] == Select(registry0[repo], EntryRemains(log, repo))
  }

  ghost predicate PendingFits(registry0: Registry, log: seq<Event>, p: Pending) {
    && Remembered(log, p)
    && (p.Resolved? ==> p.repo in registry0 && Tagged(p.tag, p.digest) in registry0[p.repo])
  }

  /** The last list written, less what has been filtered since. */
  ghost predicate CachedSince(log: seq<Event>, cache: map<string, seq<string>>, repo: string, at: nat)
    requires LastWrite(log, repo, at)
  {
    var listedAt := log[at].listedAt;
    && listedAt < at && log[listedAt].Took? && repo in cache
    && cache[repo] == Select(log[listedAt].tags, Unfiltered(log, at, repo))
  }

  ghost predicate CacheFits(log: seq<Event>, cache: map<string, seq<string>>) {
    && (forall repo :: repo in cache ==> exists at :: LastWrite(log, repo, at))
    && (forall repo, at :: LastWrite(log, repo, at) ==> CachedSince(log, cache, repo, at))
  }

  /** The remote deletion at `i` has been followed by its filtering, or that is still to come. */
  ghost predicate MatchedAt(s: State, i: nat)
    requires i < |s.log| && s.log[i].Removed?
  {
    || (exists j :: i < j < |s.log| && s.log[j] == Filtered(s.log[i].repo, s.log[i].tag, i))
    || (exists id :: id in s.pending && s.pending[id] == Deleted(s.log[i].repo, s.log[i].tag, i))
  }

  ghost predicate Matched(s: State) {
    forall i :: 0 <= i < |s.log| && s.log[i].Removed? ==> MatchedAt(s, i)
  }

  ghost predicate CalmInv(registry0: Registry, s: State) {
    && LogFits(registry0, s.log) && RegistryFits(registry0, s.log, s.registry) && CacheFits(s.log, s.cache)
    && (forall id :: id in s.pending ==> PendingFits(registry0, s.log, s.pending[id]))
    && Matched(s)
  }

  // ---------- One more event ----------

  lemma LastWriteSnoc(log: seq<Event>, e: Event, repo: string, at: nat)
    ensures LastWrite(log + [e], repo, at) <==>
            if e.Wrote? && e.repo == repo then at == |log| else LastWrite(log, repo, at)
  {
    var longer := log + [e];
    assert longer[|log|] == e;
    if at < |log| {
      assert longer[at] == log[at];
      assert forall j :: at < j < |log| ==> longer[j] == log[j];
    }
  }

  lemma FilteredAfterSnoc(log: seq<Event>, e: Event, at: nat, repo: string, tag: string)
    requires at < |log|
    ensures FilteredAfter(log + [e], at, repo, tag) <==>
            FilteredAfter(log, at, repo, tag) || (e.Filtered? && e.repo == repo && e.tag == tag)
  {
    var longer := log + [e];
    assert longer[|log|] == e;
    if FilteredAfter(log, at, repo, tag) {
      var j :| at < j < |log| && log[j].Filtered? && log[j].repo == repo && log[j].tag == tag;
      assert longer[j] == log[j];
    }
  }

  lemma LogFitsSnoc(registry0: Registry, log: seq<Event>, e: Event)
    requires LogFits(registry0, log) && EventFits(registry0, log, e)
    ensures LogFits(registry0, log + [e])
  {
    hide EventFits;
    var longer := log + [e];
    forall i | 0 <= i < |longer| ensures EventFits(registry0, longer[..i], longer[i]) {
      assert longer[..i] == log[..i];
      assert i == |log| ==> log[..i] == log;
    }
  }

  /** What an event does to the cache. */
  ghost function Effect(log: seq<Event>, cache: map<string, seq<string>>, e: Event): map<string, seq<string>> {
    if e.Wrote? && e.listedAt < |log| && log[e.listedAt].Took? then cache[e.repo := log[e.listedAt].tags]
    else if e.Filtered? then WithoutTag(cache, e.repo, e.tag)
    else cache
  }

  lemma CachedSinceSnoc(log: seq<Event>, cache: map<string, seq<string>>, e: Event, repo: string, at: nat)
    requires LastWrite(log, repo, at) && CachedSince(log, cache, repo, at) && !(e.Wrote? && e.repo == repo)
    ensures LastWrite(log + [e], repo, at) && CachedSince(log + [e], Effect(log, cache, e), repo, at)
  {
    var longer, tags := log + [e], log[log[at].listedAt].tags;
    LastWriteSnoc(log, e, repo, at);
    assert longer[at] == log[at] && longer[log[at].listedAt] == log[log[at].listedAt];
    forall tag ensures FilteredAfter(longer, at, repo, tag) <==>
        FilteredAfter(log, at, repo, tag) || (e.Filtered? && e.repo == repo && e.tag == tag)
    {
      FilteredAfterSnoc(log, e, at, repo, tag);
    }
    hide FilteredAfter, Select;
    if e.Filtered? && e.repo == repo {
      SelectCompose(tags, Unfiltered(log, at, repo), Not(IsTag(e.tag)), Unfiltered(longer, at, repo));
    } else {
      SelectAgree(tags, Unfiltered(log, at, repo), Unfiltered(longer, at, repo));
    }
  }

  lemma CacheFitsSnoc(registry0: Registry, log: seq<Event>, cache: map<string, seq<string>>, e: Event)
    requires CacheFits(log, cache) && EventFits(registry0, log, e)
    ensures CacheFits(log + [e], Effect(log, cache, e))
  {
    var longer, after := log + [e], Effect(log, cache, e);
    forall repo, at | LastWrite(longer, repo, at) ensures CachedSince(longer, after, repo, at) {
      LastWriteSnoc(log, e, repo, at);
      if e.Wrote? && e.repo == repo {
        JustWritten(log, cache, e);
      } else {
        CachedSinceSnoc(log, cache, e, repo, at);
      }
    }
    hide LastWrite, CachedSince;
    forall repo | repo in after ensures exists at :: LastWrite(longer, repo, at) {
      if e.Wrote? && e.repo == repo {
        LastWriteSnoc(log, e, repo, |log|);
      } else {
        assert repo in cache;
        var at :| LastWrite(log, repo, at);
        LastWriteSnoc(log, e, repo, at);
      }
    }
  }

  lemma JustWritten(log: seq<Event>, cache: map<string, seq<string>>, e: Event)
    requires e.Wrote? && e.listedAt < |log| && log[e.listedAt].Took?
    ensures LastWrite(log + [e], e.repo, |log|)
    ensures CachedSince(log + [e], Effect(log, cache, e), e.repo, |log|)
  {
    LastWriteSnoc(log, e, e.repo, |log|);
    SelectAll(log[e.listedAt].tags, Unfiltered(log + [e], |log|, e.repo));
  }

  lemma RegistryFitsSnoc(registry0: Registry, log: seq<Event>, registry: Registry, e: Event)
    requires RegistryFits(registry0, log, registry) && !e.Removed?
    ensures RegistryFits(registry0, log + [e], registry)
  {
    forall repo | repo in registry0 ensures registry[repo] == Select(registry0[repo], EntryRemains(log + [e], repo)) {
      SelectAgree(registry0[repo], EntryRemains(log, repo), EntryRemains(log + [e], repo));
    }
  }

  lemma RegistryFitsRemoval(registry0: Registry, log: seq<Event>, registry: Registry, repo: string, tag: string,
                            digest: string)
    requires Plain(registry0) && RegistryFits(registry0, log, registry)
    requires repo in registry0 && Tagged(tag, digest) in registry0[repo]
    ensures RegistryFits(registry0, log + [Removed(repo, tag)], WithoutDigest(registry, repo, digest))
  {
    var longer, after := log + [Removed(repo, tag)], WithoutDigest(registry, repo, digest);
    forall x | x in registry0 ensures after[x] == Select(registry0[x], EntryRemains(longer, x)) {
      if x == repo {
        forall e | e in registry0[x] ensures e.digest == digest <==> e.tag == tag {
          assert ProperEntries(registry0[x]) && UniqueDigests(registry0[x]);
          SameTagSameEntry(registry0[x], Tagged(tag, digest), e);
        }
        SelectCompose(registry0[x], EntryRemains(log, x), Not(HasDigest(digest)), EntryRemains(longer, x));
      } else {
        SelectAgree(registry0[x], EntryRemains(log, x), EntryRemains(longer, x));
      }
    }
  }

  // ---------- One more step ----------

  /** A deletion stays pending until its filtering is logged. */
  lemma DeletedStays(s: State, s': State, id: nat)
    requires CalmStep(s, s') && id in s.pending && s.pending[id].Deleted?
    ensures (id in s'.pending && s'.pending[id] == s.pending[id]) || FilterCache(s, s', id)
  {
    hide WithoutDigest, WithoutTag, Lookup;
  }

  lemma NewRemoval(s: State, s': State, i: nat)
    requires CalmStep(s, s') && |s.log| <= i < |s'.log| && s'.log[i].Removed?
    ensures MatchedAt(s', i)
  {
    hide WithoutDigest, WithoutTag, Lookup;
    var id :| DeleteRemote(s, s', id);
    assert s'.pending[id] == Deleted(s'.log[i].repo, s'.log[i].tag, i);
  }

  lemma MatchedStep(s: State, s': State)
    requires Matched(s) && CalmStep(s, s')
    ensures Matched(s')
  {
    hide WithoutTag;
    var more := LogGrows(s, s');
    forall i | 0 <= i < |s'.log| && s'.log[i].Removed? ensures MatchedAt(s', i) {
      if i >= |s.log| {
        NewRemoval(s, s', i);
      } else {
        hide CalmStep;
        assert s'.log[i] == s.log[i] && MatchedAt(s, i);
        var filtered := Filtered(s.log[i].repo, s.log[i].tag, i);
        if j :| i < j < |s.log| && s.log[j] == filtered {
          assert s'.log[j] == filtered;
        } else {
          var id :| id in s.pending && s.pending[id] == Deleted(s.log[i].repo, s.log[i].tag, i);
          DeletedStays(s, s', id);
          if FilterCache(s, s', id) {
            assert s'.log[|s.log|] == filtered;
          }
        }
      }
    }
  }

  /** One more event, and the operations that remain pending. */
  lemma Appends(registry0: Registry, s: State, s': State, e: Event)
    requires CalmInv(registry0, s) && CalmStep(s, s') && EventFits(registry0, s.log, e)
    requires s'.log == s.log + [e] && s'.cache == Effect(s.log, s.cache, e)
    requires RegistryFits(registry0, s'.log, s'.registry)
    requires forall id :: id in s'.pending ==>
               (id in s.pending && s'.pending[id] == s.pending[id]) || PendingFits(registry0, s'.log, s'.pending[id])
    ensures CalmInv(registry0, s')
  {
    hide CalmStep, Matched, LogFits, CacheFits, RegistryFits, EventFits;
    LogFitsSnoc(registry0, s.log, e);
    CacheFitsSnoc(registry0, s.log, s.cache, e);
    MatchedStep(s, s');
    forall id | id in s'.pending ensures PendingFits(registry0, s'.log, s'.pending[id]) {
      if id in s.pending && s'.pending[id] == s.pending[id] {
        assert PendingFits(registry0, s.log, s.pending[id]);
      }
    }
  }

  lemma ListKeeps(registry0: Registry, s: State, s': State, id: nat, repo: string)
    requires CalmInv(registry0, s) && List(s, s', id, repo)
    ensures CalmInv(registry0, s')
  {
    var e := Took(repo, Tags(s.registry[repo]));
    TagsSelect(registry0[repo], EntryRemains(s.log, repo), Remains(s.log, repo));
    RegistryFitsSnoc(registry0, s.log, s.registry, e);
    hide Tags, LogFits, CacheFits, RegistryFits, Matched;
    Appends(registry0, s, s', e);
  }

  lemma WriteKeeps(registry0: Registry, s: State, s': State, id: nat)
    requires CalmInv(registry0, s) && WriteCache(s, s', id)
    ensures CalmInv(registry0, s')
  {
    hide LogFits, CacheFits, RegistryFits, Matched;
    var p := s.pending[id];
    assert PendingFits(registry0, s.log, p);
    RegistryFitsSnoc(registry0, s.log, s.registry, Wrote(p.repo, p.at));
    Appends(registry0, s, s', Wrote(p.repo, p.at));
  }

  lemma DeleteKeeps(registry0: Registry, s: State, s': State, id: nat)
    requires Plain(registry0) && CalmInv(registry0, s) && DeleteRemote(s, s', id)
    ensures CalmInv(registry0, s')
  {
    hide LogFits, CacheFits, RegistryFits, Matched, Plain, WithoutDigest, Tags;
    var p := s.pending[id];
    assert PendingFits(registry0, s.log, p);
    TagsMember(registry0[p.repo], p.tag);
    RegistryFitsRemoval(registry0, s.log, s.registry, p.repo, p.tag, p.digest);
    Appends(registry0, s, s', Removed(p.repo, p.tag));
  }

  lemma FilterKeeps(registry0: Registry, s: State, s': State, id: nat)
    requires CalmInv(registry0, s) && FilterCache(s, s', id)
    ensures CalmInv(registry0, s')
  {
    hide LogFits, CacheFits, RegistryFits, Matched, WithoutTag;
    var p := s.pending[id];
    assert PendingFits(registry0, s.log, p);
    RegistryFitsSnoc(registry0, s.log, s.registry, Filtered(p.repo, p.tag, p.at));
    Appends(registry0, s, s', Filtered(p.repo, p.tag, p.at));
  }

  lemma ResolvedEntry(registry0: Registry, s: State, repo: string, tag: string)
    requires Plain(registry0) && RegistryFits(registry0, s.log, s.registry) && Lookup(s.registry, repo, tag).Some?
    ensures repo in registry0 && Tagged(tag, Lookup(s.registry, repo, tag).value) in registry0[repo]
  {
    var e := Tagged(tag, Lookup(s.registry, repo, tag).value);
    assert ProperEntries(registry0[repo]);
    SelectKeepsProper(registry0[repo], EntryRemains(s.log, repo));
    DigestOfMember(s.registry[repo], tag, e.digest);
    SelectMember(registry0[repo], EntryRemains(s.log, repo), e);
  }

  /** A step that logs nothing: a tag is resolved, or its deletion fails. */
  lemma UnloggedKeeps(registry0: Registry, s: State, s': State, id: nat, repo: string, tag: string)
    requires Plain(registry0) && CalmInv(registry0, s) && CalmStep(s, s')
    requires Resolve(s, s', id, repo, tag) || GiveUp(s, s', id)
    ensures CalmInv(registry0, s')
  {
    hide CalmStep, LogFits, CacheFits, RegistryFits, Matched, Plain, Lookup;
    MatchedStep(s, s');
    if Resolve(s, s', id, repo, tag) {
      ResolvedEntry(registry0, s, repo, tag);
    }
    forall x | x in s'.pending ensures PendingFits(registry0, s'.log, s'.pending[x]) {
      if x in s.pending {
        assert PendingFits(registry0, s.log, s.pending[x]);
      }
    }
  }

  lemma CalmStepKeeps(registry0: Registry, s: State, s': State)
    requires Plain(registry0) && CalmInv(registry0, s) && CalmStep(s, s')
    ensures CalmInv(registry0, s')
  {
    hide CalmInv, Plain, List, WriteCache, Resolve, DeleteRemote, FilterCache, GiveUp;
    if id, repo :| List(s, s', id, repo) {
      ListKeeps(registry0, s, s', id, repo);
    } else if id :| WriteCache(s, s', id) {
      WriteKeeps(registry0, s, s', id);
    } else if id :| DeleteRemote(s, s', id) {
      DeleteKeeps(registry0, s, s', id);
    } else if id :| FilterCache(s, s', id) {
      FilterKeeps(registry0, s, s', id);
    } else if id :| GiveUp(s, s', id) {
      UnloggedKeeps(registry0, s, s', id, "", "");
    } else {
      var id, repo, tag :| Resolve(s, s', id, repo, tag);
      UnloggedKeeps(registry0, s, s', id, repo, tag);
    }
  }

  lemma InitCalm(s: State)
    requires Init(s)
    ensures CalmInv(s.registry, s)
  {
    forall repo | repo in s.registry ensures s.registry[repo] == Select(s.registry[repo], EntryRemains([], repo)) {
      SelectAll(s.registry[repo], EntryRemains([], repo));
    }
  }

  lemma {:induction false} CalmRunKeepsInv(trace: seq<State>)
    requires IsCalmRun(trace) && Plain(trace[0].registry)
    ensures CalmInv(trace[0].registry, trace[|trace| - 1])
  {
    hide CalmInv, CalmStep, Plain;
    if |trace| == 1 {
      InitCalm(trace[0]);
    } else {
      var init := trace[..|trace| - 1];
      CalmRunKeepsInv(init);
      CalmStepKeeps(trace[0].registry, init[|init| - 1], trace[|trace| - 1]);
    }
  }

  // ---------- When the cached list is the registry's ----------

  /** A listed tag that was deleted after its listing, and not filtered after the write. */
  ghost predicate Stale(log: seq<Event>, listedAt: nat, writtenAt: nat, repo: string, tag: string)
    requires listedAt < |log| && log[listedAt].Took?
  {
    tag in log[listedAt].tags && RemovedAfter(log, listedAt, repo, tag) && !FilteredAfter(log, writtenAt, repo, tag)
  }

  /** For a listed tag, a deletion anywhere in the log is one after the listing. */
  lemma ListedIsLater(registry0: Registry, log: seq<Event>, at: nat, tag: string)
    requires LogFits(registry0, log) && at < |log| && log[at].Took? && tag in log[at].tags
    ensures Removed(log[at].repo, tag) in log <==> RemovedAfter(log, at, log[at].repo, tag)
  {
    var repo := log[at].repo;
    assert EventFits(registry0, log[..at], log[at]);
    SelectMember(Tags(registry0[repo]), Remains(log[..at], repo), tag);
    if Removed(repo, tag) in log {
      forall k | 0 <= k < at ensures log[k] != Removed(repo, tag) {
        assert log[k] in log[..at];
      }
    }
  }

  /** What was filtered had been deleted. */
  lemma FilteredWasRemoved(registry0: Registry, log: seq<Event>, at: nat, repo: string, tag: string)
    requires LogFits(registry0, log) && FilteredAfter(log, at, repo, tag)
    ensures Removed(repo, tag) in log
  {
    var j :| at < j < |log| && log[j].Filtered? && log[j].repo == repo && log[j].tag == tag;
    assert EventFits(registry0, log[..j], log[j]);
    assert log[..j][log[j].removedAt] in log;
  }

  /** The registry's list is what remains of any earlier list. */
  lemma RegistryFromList(registry0: Registry, log: seq<Event>, registry: Registry, at: nat)
    requires LogFits(registry0, log) && RegistryFits(registry0, log, registry) && at < |log| && log[at].Took?
    ensures log[at].repo in registry && Tags(registry[log[at].repo]) == Select(log[at].tags, Remains(log, log[at].repo))
  {
    var repo := log[at].repo;
    assert EventFits(registry0, log[..at], log[at]);
    TagsSelect(registry0[repo], EntryRemains(log, repo), Remains(log, repo));
    forall tag ensures Removed(repo, tag) in log[..at] ==> Removed(repo, tag) in log {
    }
    SelectCompose(Tags(registry0[repo]), Remains(log[..at], repo), Remains(log, repo), Remains(log, repo));
  }

  lemma SelectionsAgreeIff(s: seq<string>, p: string -> bool, q: string -> bool)
    ensures Select(s, p) == Select(s, q) <==> forall x :: x in s ==> p(x) == q(x)
  {
    if forall x :: x in s ==> p(x) == q(x) {
      SelectAgree(s, p, q);
    } else {
      var x :| x in s && p(x) != q(x);
      SelectMember(s, p, x);
      SelectMember(s, q, x);
    }
  }

  /**
   In every run that nobody else disturbs, from a registry without shared digests: a cached list is the registry's
   current list if and only if every tag of the list last written that was deleted after the listing has been filtered
   after the write.
   */
  lemma CachedExactIff(trace: seq<State>, repo: string, writtenAt: nat)
    requires IsCalmRun(trace) && Plain(trace[0].registry)
    requires LastWrite(trace[|trace| - 1].log, repo, writtenAt)
    ensures var s := trace[|trace| - 1];
            var listedAt := s.log[writtenAt].listedAt;
            && listedAt < writtenAt && s.log[listedAt].Took? && repo in s.cache && repo in s.registry
            && (s.cache[repo] == Tags(s.registry[repo])
                <==> !exists tag :: Stale(s.log, listedAt, writtenAt, repo, tag))
  {
    var registry0, s := trace[0].registry, trace[|trace| - 1];
    hide IsCalmRun, Plain, Matched, Select, Tags;
    CalmRunKeepsInv(trace);
    assert CachedSince(s.log, s.cache, repo, writtenAt);
    var listedAt := s.log[writtenAt].listedAt;
    assert EventFits(registry0, s.log[..writtenAt], s.log[writtenAt]);
    var tags := s.log[listedAt].tags;
    RegistryFromList(registry0, s.log, s.registry, listedAt);
    SelectionsAgreeIff(tags, Unfiltered(s.log, writtenAt, repo), Remains(s.log, repo));
    hide LogFits, RegistryFits, CacheFits, FilteredAfter, RemovedAfter;
    forall tag | tag in tags
      ensures Unfiltered(s.log, writtenAt, repo)(tag) == Remains(s.log, repo)(tag)
              <==> !Stale(s.log, listedAt, writtenAt, repo, tag)
    {
      ListedIsLater(registry0, s.log, listedAt, tag);
      if FilteredAfter(s.log, writtenAt, repo, tag) {
        FilteredWasRemoved(registry0, s.log, writtenAt, repo, tag);
      }
    }
  }

  /** A deletion of the tag, from the remote deletion to the filtering, between the listing and the write. */
  ghost predicate DeletedBetween(log: seq<Event>, listedAt: nat, writtenAt: nat, repo: string, tag: string)
    requires writtenAt <= |log|
  {
    exists i, j :: listedAt < i < j < writtenAt && log[i] == Removed(repo, tag) && log[j] == Filtered(repo, tag, i)
  }

  lemma StaleAtRest(s: State, listedAt: nat, writtenAt: nat, repo: string, tag: string)
    requires Matched(s) && s.pending == map[] && LastWrite(s.log, repo, writtenAt)
    requires listedAt < |s.log| && s.log[listedAt].Took?
    ensures Stale(s.log, listedAt, writtenAt, repo, tag) <==>
              tag in s.log[listedAt].tags && DeletedBetween(s.log, listedAt, writtenAt, repo, tag)
              && !FilteredAfter(s.log, writtenAt, repo, tag)
  {
    if Stale(s.log, listedAt, writtenAt, repo, tag) {
      var i :| listedAt < i < |s.log| && s.log[i] == Removed(repo, tag);
      assert MatchedAt(s, i);
      var j :| i < j < |s.log| && s.log[j] == Filtered(repo, tag, i);
      assert j < writtenAt;
    }
  }

  /**
   Once no operation is pending, the cached list is wrong if and only if a listed tag was deleted wholly between the
   listing and the write of that list, and no repeated deletion of it has filtered the cache since.
   */
  lemma AtRestExactIff(trace: seq<State>, repo: string, writtenAt: nat)
    requires IsCalmRun(trace) && Plain(trace[0].registry) && trace[|trace| - 1].pending == map[]
    requires LastWrite(trace[|trace| - 1].log, repo, writtenAt)
    ensures var s := trace[|trace| - 1];
            var listedAt := s.log[writtenAt].listedAt;
            && listedAt < writtenAt && s.log[listedAt].Took? && repo in s.cache && repo in s.registry
            && (s.cache[repo] != Tags(s.registry[repo]) <==>
                  exists tag :: tag in s.log[listedAt].tags && DeletedBetween(s.log, listedAt, writtenAt, repo, tag)
                    && !FilteredAfter(s.log, writtenAt, repo, tag))
  {
    var s := trace[|trace| - 1];
    CachedExactIff(trace, repo, writtenAt);
    CalmRunKeepsInv(trace);
    hide IsCalmRun, Plain, Matched, Stale, DeletedBetween, FilteredAfter, Tags;
    var listedAt := s.log[writtenAt].listedAt;
    forall tag
      ensures Stale(s.log, listedAt, writtenAt, repo, tag) <==>
                tag in s.log[listedAt].tags && DeletedBetween(s.log, listedAt, writtenAt, repo, tag)
                && !FilteredAfter(s.log, writtenAt, repo, tag)
    {
      StaleAtRest(s, listedAt, writtenAt, repo, tag);
    }
  }

  // ---------- Operations one at a time ----------

  ghost predicate OneAtATime(trace: seq<State>) {
    forall i :: 0 <= i < |trace| ==> |trace[i].pending| <= 1
  }

  /** Nothing is logged between a listing and its write. */
  ghost predicate Prompt(s: State) {
    && (forall id :: id in s.pending && s.pending[id].Listed? ==> s.pending[id].at + 1 == |s.log|)
    && (forall i :: 0 <= i < |s.log| && s.log[i].Wrote? ==> s.log[i].listedAt + 1 == i)
  }

  lemma OnlyKey<T>(m: map<nat, T>, a: nat, b: nat)
    requires |m| <= 1 && a in m && b in m
    ensures a == b
  {
    assert a != b ==> |{a, b}| == 2;
    SubsetSize({a, b}, m.Keys);
  }

  lemma StepIsPrompt(s: State, s': State)
    requires Prompt(s) && CalmStep(s, s') && |s.pending| <= 1 && |s'.pending| <= 1
    ensures Prompt(s')
  {
    hide WithoutDigest, WithoutTag, Lookup;
    NewWriteIsPrompt(s, s');
    var more := LogGrows(s, s');
    hide CalmStep;
    forall id | id in s'.pending && s'.pending[id].Listed? ensures s'.pending[id].at + 1 == |s'.log| {
      ListedIsLast(s, s', id);
    }
    forall i | 0 <= i < |s'.log| && s'.log[i].Wrote? ensures s'.log[i].listedAt + 1 == i {
      if i < |s.log| {
        assert s'.log[i] == s.log[i];
      }
    }
  }

  lemma NewWriteIsPrompt(s: State, s': State)
    requires Prompt(s) && CalmStep(s, s')
    ensures forall i :: |s.log| <= i < |s'.log| && s'.log[i].Wrote? ==> s'.log[i].listedAt + 1 == i
  {
    hide WithoutDigest, WithoutTag, Lookup;
  }

  lemma ListedIsLast(s: State, s': State, id: nat)
    requires Prompt(s) && CalmStep(s, s') && |s.pending| <= 1 && |s'.pending| <= 1
    requires id in s'.pending && s'.pending[id].Listed?
    ensures s'.pending[id].at + 1 == |s'.log|
  {
    hide WithoutDigest, WithoutTag, Lookup;
    forall other | other in s.pending && id in s.pending ensures other == id {
      OnlyKey(s.pending, other, id);
    }
    forall other | other in s'.pending ensures other == id {
      OnlyKey(s'.pending, other, id);
    }
  }

  lemma {:induction false} RunIsPrompt(trace: seq<State>)
    requires IsCalmRun(trace) && OneAtATime(trace)
    ensures Prompt(trace[|trace| - 1])
  {
    hide CalmStep;
    if |trace| > 1 {
      var init := trace[..|trace| - 1];
      RunIsPrompt(init);
      StepIsPrompt(init[|init| - 1], trace[|trace| - 1]);
    }
  }

  /** When operations run one at a time, every cached list is the registry's whenever none is pending. */
  lemma OneAtATimeIsExact(trace: seq<State>, repo: string)
    requires IsCalmRun(trace) && Plain(trace[0].registry) && OneAtATime(trace) && trace[|trace| - 1].pending == map[]
    requires repo in trace[|trace| - 1].cache
    ensures var s := trace[|trace| - 1]; repo in s.registry && s.cache[repo] == Tags(s.registry[repo])
  {
    var s := trace[|trace| - 1];
    CalmRunKeepsInv(trace);
    RunIsPrompt(trace);
    hide IsCalmRun, Plain, OneAtATime, Tags;
    var writtenAt :| LastWrite(s.log, repo, writtenAt);
    AtRestExactIff(trace, repo, writtenAt);
  }
}

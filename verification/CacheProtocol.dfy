/**
 The tag cache under concurrency. A fetch lists remotely and later writes the cache under the lock; a deletion resolves
 the tag, deletes remotely, and later filters the cache under the lock. Other steps may run in between.
 */
module CacheProtocol {
  import opened PurgeCache
  import opened PurgeOutcome
  import opened PurgeRepeat
  import opened RegistryClient
  import opened Selection

  datatype Pending =
    | Listed(repo: string, tags: seq<string>, at: nat)              // listed, cache not yet written
    | Resolved(repo: string, tag: string, digest: string)           // digest known, not yet deleted
    | Deleted(repo: string, tag: string, at: nat)                   // deleted remotely, cache not yet filtered

  /** What has happened: a list response, its cache write, a remote deletion, its cache filtering. */
  datatype Event =
    | Took(repo: string, tags: seq<string>)
    | Wrote(repo: string, listedAt: nat)
    | Removed(repo: string, tag: string)
    | Filtered(repo: string, tag: string, removedAt: nat)

  /** `log` records the run so far; the program keeps no such record. Positions in it serve as times. */
  datatype State = State(
    registry: Registry, cache: map<string, seq<string>>, pending: map<nat, Pending>, log: seq<Event>)

  ghost predicate Init(s: State) {
    s.cache == map[] && s.pending == map[] && s.log == []
  }

  /** Someone else changes the registry. */
  ghost predicate Drift(s: State, s': State) {
    s' == s.(registry := s'.registry)
  }

  ghost predicate List(s: State, s': State, id: nat, repo: string) {
    && id !in s.pending && repo in s.registry
    && var tags := Tags(s.registry[repo]);
       s' == s.(pending := s.pending[id := Listed(repo, tags, |s.log|)], log := s.log + [Took(repo, tags)])
  }

  ghost predicate WriteCache(s: State, s': State, id: nat) {
    && id in s.pending && s.pending[id].Listed?
    && var p := s.pending[id];
       s' == s.(cache := s.cache[p.repo := p.tags], pending := s.pending - {id}, log := s.log + [Wrote(p.repo, p.at)])
  }

  ghost predicate Resolve(s: State, s': State, id: nat, repo: string, tag: string) {
    && id !in s.pending && Lookup(s.registry, repo, tag).Some?
    && s' == s.(pending := s.pending[id := Resolved(repo, tag, Lookup(s.registry, repo, tag).value)])
  }

  /** The registry accepts the deletion, perhaps of a manifest that has lost its tag in the meantime. */
  ghost predicate DeleteRemote(s: State, s': State, id: nat) {
    && id in s.pending && s.pending[id].Resolved? && s.pending[id].repo in s.registry
    && var p := s.pending[id];
       s' == s.(registry := WithoutDigest(s.registry, p.repo, p.digest),
                pending := s.pending[id := Deleted(p.repo, p.tag, |s.log|)], log := s.log + [Removed(p.repo, p.tag)])
  }

  ghost predicate FilterCache(s: State, s': State, id: nat) {
    && id in s.pending && s.pending[id].Deleted?
    && var p := s.pending[id];
       s' == s.(cache := WithoutTag(s.cache, p.repo, p.tag), pending := s.pending - {id},
                log := s.log + [Filtered(p.repo, p.tag, p.at)])
  }

  /** A remote deletion fails. */
  ghost predicate GiveUp(s: State, s': State, id: nat) {
    id in s.pending && s.pending[id].Resolved? && s' == s.(pending := s.pending - {id})
  }

  /** A step of the client's own operations. */
  ghost predicate CalmStep(s: State, s': State) {
    || (exists id, repo :: List(s, s', id, repo))
    || (exists id :: WriteCache(s, s', id))
    || (exists id, repo, tag :: Resolve(s, s', id, repo, tag))
    || (exists id :: DeleteRemote(s, s', id))
    || (exists id :: FilterCache(s, s', id))
    || (exists id :: GiveUp(s, s', id))
  }

  ghost predicate Step(s: State, s': State) {
    Drift(s, s') || CalmStep(s, s')
  }

  ghost predicate IsRun(trace: seq<State>) {
    trace != [] && Init(trace[0]) && forall i :: 0 < i < |trace| ==> Step(trace[i - 1], trace[i])
  }

  /** Nobody else changes the registry. */
  ghost predicate IsCalmRun(trace: seq<State>) {
    trace != [] && Init(trace[0]) && forall i :: 0 < i < |trace| ==> CalmStep(trace[i - 1], trace[i])
  }

  // ---------- Every cached list comes from a list response ----------

  function NotAmong(gone: set<string>): string -> bool {
    (tag: string) => tag !in gone
  }

  /** A response for the repository, less some tags whose deletion has succeeded, in the response's order. */
  ghost predicate Derived(log: seq<Event>, repo: string, tags: seq<string>, response: nat, gone: set<string>) {
    && response < |log| && log[response].Took? && log[response].repo == repo
    && (forall tag :: tag in gone ==> Removed(repo, tag) in log)
    && tags == Select(log[response].tags, NotAmong(gone))
  }

  ghost predicate HasOrigin(log: seq<Event>, repo: string, tags: seq<string>) {
    exists response: nat, gone: set<string> :: Derived(log, repo, tags, response, gone)
  }

  /** What a pending operation remembers did happen. */
  ghost predicate Remembered(log: seq<Event>, p: Pending) {
    && (p.Listed? ==> p.at < |log| && log[p.at] == Took(p.repo, p.tags))
    && (p.Deleted? ==> p.at < |log| && log[p.at] == Removed(p.repo, p.tag))
  }

  ghost predicate CacheInv(s: State) {
    && (forall repo :: repo in s.cache ==> HasOrigin(s.log, repo, s.cache[repo]))
    && (forall id :: id in s.pending ==> Remembered(s.log, s.pending[id]))
  }

  /** Origins persist: events are only ever added. */
  lemma OriginPersists(log: seq<Event>, more: seq<Event>, repo: string, tags: seq<string>)
    requires HasOrigin(log, repo, tags)
    ensures HasOrigin(log + more, repo, tags)
  {
    var response: nat, gone: set<string> :| Derived(log, repo, tags, response, gone);
    assert Derived(log + more, repo, tags, response, gone);
  }

  lemma WriteHasOrigin(log: seq<Event>, p: Pending)
    requires p.Listed? && Remembered(log, p)
    ensures HasOrigin(log, p.repo, p.tags)
  {
    SelectAll(p.tags, NotAmong({}));
    assert Derived(log, p.repo, p.tags, p.at, {});
  }

  lemma FilterHasOrigin(log: seq<Event>, repo: string, tag: string, tags: seq<string>)
    requires HasOrigin(log, repo, tags) && Removed(repo, tag) in log
    ensures HasOrigin(log, repo, Select(tags, Not(IsTag(tag))))
  {
    var response: nat, gone: set<string> :| Derived(log, repo, tags, response, gone);
    SelectCompose(log[response].tags, NotAmong(gone), Not(IsTag(tag)), NotAmong(gone + {tag}));
    assert Derived(log, repo, Select(tags, Not(IsTag(tag))), response, gone + {tag});
  }

  /** The events that a step adds to the log. */
  lemma LogGrows(s: State, s': State) returns (more: seq<Event>)
    requires Step(s, s')
    ensures s'.log == s.log + more
  {
    more := s'.log[|s.log|..];
  }

  lemma StepKeepsCacheInv(s: State, s': State)
    requires CacheInv(s) && Step(s, s')
    ensures CacheInv(s')
  {
    hide HasOrigin, WithoutDigest, Lookup, Remembered;
    var more := LogGrows(s, s');
    forall repo | repo in s'.cache ensures HasOrigin(s'.log, repo, s'.cache[repo]) {
      if repo in s.cache && s'.cache[repo] == s.cache[repo] {
        OriginPersists(s.log, more, repo, s.cache[repo]);
      } else if id :| WriteCache(s, s', id) {
        WriteHasOrigin(s.log, s.pending[id]);
        OriginPersists(s.log, more, repo, s'.cache[repo]);
      } else {
        var id :| FilterCache(s, s', id);
        assert Removed(repo, s.pending[id].tag) in s.log by {
          RememberedRemoval(s.log, s.pending[id]);
        }
        FilterHasOrigin(s.log, repo, s.pending[id].tag, s.cache[repo]);
        OriginPersists(s.log, more, repo, s'.cache[repo]);
      }
    }
    PendingPersists(s, s');
  }

  lemma RememberedRemoval(log: seq<Event>, p: Pending)
    requires p.Deleted? && Remembered(log, p)
    ensures Removed(p.repo, p.tag) in log
  {
  }

  lemma StillRemembered(log: seq<Event>, more: seq<Event>, p: Pending)
    requires Remembered(log, p)
    ensures Remembered(log + more, p)
  {
  }

  lemma NewlyRemembered(s: State, s': State, id: nat)
    requires Step(s, s') && id in s'.pending && (id in s.pending ==> s.pending[id] != s'.pending[id])
    ensures Remembered(s'.log, s'.pending[id])
  {
    hide WithoutDigest, WithoutTag, Lookup;
  }

  lemma PendingPersists(s: State, s': State)
    requires Step(s, s') && forall id :: id in s.pending ==> Remembered(s.log, s.pending[id])
    ensures forall id :: id in s'.pending ==> Remembered(s'.log, s'.pending[id])
  {
    hide Step, Remembered;
    var more := LogGrows(s, s');
    forall id | id in s'.pending ensures Remembered(s'.log, s'.pending[id]) {
      if id in s.pending && s.pending[id] == s'.pending[id] {
        StillRemembered(s.log, more, s.pending[id]);
      } else {
        NewlyRemembered(s, s', id);
      }
    }
  }

  /**
   In every run, whatever the interleaving and whatever others do to the registry, a cached list is some earlier list
   response for that repository without tags that have been deleted, in the response's order.
   */
  lemma {:induction false} CacheComesFromLists(trace: seq<State>)
    requires IsRun(trace)
    ensures CacheInv(trace[|trace| - 1])
  {
    hide CacheInv, Step;
    if |trace| == 1 {
      EmptyCacheInv(trace[0]);
    } else {
      var init := trace[..|trace| - 1];
      assert IsRun(init);
      CacheComesFromLists(init);
      StepKeepsCacheInv(init[|init| - 1], trace[|trace| - 1]);
    }
  }

  lemma EmptyCacheInv(s: State)
    requires Init(s)
    ensures CacheInv(s)
  {
  }

  // ---------- Interleaving can leave a deleted tag in the cache ----------

  lemma Extend(trace: seq<State>, s: State, s': State, id: nat, repo: string, tag: string) returns (longer: seq<State>)
    requires IsCalmRun(trace) && trace[|trace| - 1] == s
    requires List(s, s', id, repo) || Resolve(s, s', id, repo, tag) || DeleteRemote(s, s', id) || FilterCache(s, s', id)
             || WriteCache(s, s', id)
    ensures IsCalmRun(longer) && longer[|longer| - 1] == s' && longer[0] == trace[0]
  {
    hide List, Resolve, DeleteRemote, FilterCache, WriteCache, GiveUp;
    assert CalmStep(s, s');
    hide CalmStep;
    longer := trace + [s'];
    forall i | 0 < i < |longer| ensures CalmStep(longer[i - 1], longer[i]) {
      if i < |trace| {
        assert longer[i - 1] == trace[i - 1] && longer[i] == trace[i];
      }
    }
  }

  /**
   With nobody else at work, no shared digest and all operations finished, the cache can still list a deleted tag: a
   fetch lists, a deletion runs to its end, and the fetch writes its old list.
   */
  lemma StaleListExample() returns (trace: seq<State>)
    ensures IsCalmRun(trace) && Plain(trace[0].registry)
    ensures var s := trace[|trace| - 1];
            s.pending == map[] && s.registry == map["app" := []] && s.cache == map["app" := ["1.0"]]
  {
    hide IsCalmRun, Init, Select;
    var full, gone: Registry := map["app" := [Tagged("1.0", "d")]], map["app" := []];
    var tags := ["1.0"];
    var listed, deleted := Listed("app", tags, 0), Deleted("app", "1.0", 1);
    var took, removed, filtered := Took("app", tags), Removed("app", "1.0"), Filtered("app", "1.0", 1);
    var s0 := State(full, map[], map[], []);
    var s1 := State(full, map[], map[0 := listed], [took]);
    var s2 := s1.(pending := map[0 := listed, 1 := Resolved("app", "1.0", "d")]);
    var s3 := s2.(registry := gone, pending := map[0 := listed, 1 := deleted], log := [took, removed]);
    var s4 := s3.(pending := map[0 := listed], log := [took, removed, filtered]);
    var s5 := s4.(pending := map[], cache := map["app" := tags], log := [took, removed, filtered, Wrote("app", 0)]);
    assert Plain(full) by {
      assert ':' !in "1.0";
    }
    hide Plain, CalmStep, WriteCache, FilterCache;
    trace := [s0];
    StartIsRun(s0);
    assert List(s0, s1, 0, "app") by {
      assert Tags(full["app"]) == tags;
    }
    trace := Extend(trace, s0, s1, 0, "app", "");
    hide List;
    assert Resolve(s1, s2, 1, "app", "1.0");
    trace := Extend(trace, s1, s2, 1, "app", "1.0");
    hide Resolve;
    SelectOne(Tagged("1.0", "d"), Not(HasDigest("d")));
    assert DeleteRemote(s2, s3, 1);
    trace := Extend(trace, s2, s3, 1, "", "");
    hide DeleteRemote;
    Filters(s3, s4, 1);
    trace := Extend(trace, s3, s4, 1, "", "");
    Writes(s4, s5, 0);
    trace := Extend(trace, s4, s5, 0, "", "");
  }

  lemma Filters(s: State, s': State, id: nat)
    requires id in s.pending && s.pending[id].Deleted? && s.pending[id].repo !in s.cache
             && s'.pending == s.pending - {id}
    requires s'.log == s.log + [Filtered(s.pending[id].repo, s.pending[id].tag, s.pending[id].at)]
    requires s'.registry == s.registry && s'.cache == s.cache
    ensures FilterCache(s, s', id)
  {
  }

  lemma Writes(s: State, s': State, id: nat)
    requires id in s.pending && s.pending[id].Listed? && s'.pending == s.pending - {id}
    requires s'.log == s.log + [Wrote(s.pending[id].repo, s.pending[id].at)]
    requires s'.registry == s.registry && s'.cache == s.cache[s.pending[id].repo := s.pending[id].tags]
    ensures WriteCache(s, s', id)
  {
  }

  lemma StartIsRun(s: State)
    requires Init(s)
    ensures IsCalmRun([s])
  {
  }

  // ---------- Atomic operations keep the cache exact ----------

  /** One complete client operation. */
  datatype Operation = FetchTags(repo: string) | ReadInfo(imageRef: string) | DeleteOne(repo: string, tag: string)

  function Apply(env: Env, w: World, op: Operation): World {
    match op
    case FetchTags(repo) => Fetch(env, w, repo).0
    case ReadInfo(imageRef) => GetInfo(env, w, imageRef).0
    case DeleteOne(repo, tag) => Delete(env, w, repo, tag).0
  }

  function ApplyAll(env: Env, w: World, ops: seq<Operation>): World {
    if ops == [] then w else Apply(env, ApplyAll(env, w, ops[..|ops| - 1]), ops[|ops| - 1])
  }

  // ---------- Whole operations are runs of the protocol ----------

  /** The protocol can go from the first state to the last. */
  ghost predicate IsPath(trace: seq<State>) {
    trace != [] && forall i :: 0 < i < |trace| ==> Step(trace[i - 1], trace[i])
  }

  lemma Onward(trace: seq<State>, s': State) returns (longer: seq<State>)
    requires IsPath(trace) && Step(trace[|trace| - 1], s')
    ensures IsPath(longer) && longer[0] == trace[0] && longer[|longer| - 1] == s'
  {
    hide Step;
    longer := trace + [s'];
    forall i | 0 < i < |longer| ensures Step(longer[i - 1], longer[i]) {
      if i < |trace| {
        assert longer[i - 1] == trace[i - 1] && longer[i] == trace[i];
      }
    }
  }

  /** Others change the registry before a call. */
  lemma Drifts(trace: seq<State>, registry: Registry) returns (longer: seq<State>)
    requires IsPath(trace)
    ensures IsPath(longer) && longer[0] == trace[0]
    ensures longer[|longer| - 1] == trace[|trace| - 1].(registry := registry)
  {
    hide CalmStep;
    assert Drift(trace[|trace| - 1], trace[|trace| - 1].(registry := registry));
    longer := Onward(trace, trace[|trace| - 1].(registry := registry));
  }

  /** The protocol ends with the registry and the cache of `w` and the operations of `s` in flight. */
  ghost predicate Leads(s: State, trace: seq<State>, w: World) {
    && IsPath(trace) && trace[0] == s
    && var last := trace[|trace| - 1];
       last.registry == w.registry && last.cache == w.cache && last.pending == s.pending
  }

  lemma FetchIsPath(env: Env, w: World, repo: string, s: State, id: nat) returns (trace: seq<State>)
    requires s.registry == w.registry && s.cache == w.cache && id !in s.pending
    ensures Leads(s, trace, Fetch(env, w, repo).0)
  {
    hide Step, IsPath, Tags;
    var w1 := Call(env, w);
    SingleIsPath(s);
    trace := Drifts([s], w1.registry);
    if !env.refuses(w.calls) && repo in w1.registry {
      var s1 := s.(registry := w1.registry);
      var tags := Tags(w1.registry[repo]);
      var s2 := s1.(pending := s.pending[id := Listed(repo, tags, |s.log|)], log := s.log + [Took(repo, tags)]);
      var s3 := s2.(cache := s2.cache[repo := tags], pending := s2.pending - {id},
                    log := s2.log + [Wrote(repo, |s.log|)]);
      assert s3.pending == s.pending;
      OwnStep(s1, s2, id, repo, "");
      OwnStep(s2, s3, id, repo, "");
      trace := Onward(trace, s2);
      trace := Onward(trace, s3);
    }
  }

  lemma SingleIsPath(s: State)
    ensures IsPath([s])
  {
  }

  lemma OwnStep(s: State, s': State, id: nat, repo: string, tag: string)
    requires List(s, s', id, repo) || Resolve(s, s', id, repo, tag) || DeleteRemote(s, s', id) || FilterCache(s, s', id)
             || WriteCache(s, s', id) || GiveUp(s, s', id)
    ensures Step(s, s')
  {
    hide List, Resolve, DeleteRemote, FilterCache, WriteCache, GiveUp;
  }

  /** From a resolved tag to the end of its deletion. */
  lemma RemovalIsPath(trace: seq<State>, id: nat) returns (longer: seq<State>)
    requires IsPath(trace) && id in trace[|trace| - 1].pending
    requires var s := trace[|trace| - 1]; s.pending[id].Resolved? && s.pending[id].repo in s.registry
    ensures IsPath(longer) && longer[0] == trace[0]
    ensures var s, last := trace[|trace| - 1], longer[|longer| - 1];
            var p := s.pending[id];
            && last.registry == WithoutDigest(s.registry, p.repo, p.digest)
            && last.cache == WithoutTag(s.cache, p.repo, p.tag) && last.pending == s.pending - {id}
  {
    var s := trace[|trace| - 1];
    hide Step, IsPath, WithoutDigest, WithoutTag;
    var p := s.pending[id];
    var s1 := s.(registry := WithoutDigest(s.registry, p.repo, p.digest),
                 pending := s.pending[id := Deleted(p.repo, p.tag, |s.log|)], log := s.log + [Removed(p.repo, p.tag)]);
    var s2 := s1.(cache := WithoutTag(s1.cache, p.repo, p.tag), pending := s1.pending - {id},
                  log := s1.log + [Filtered(p.repo, p.tag, |s.log|)]);
    assert s2.pending == s.pending - {id};
    OwnStep(s, s1, id, "", "");
    OwnStep(s1, s2, id, "", "");
    longer := Onward(trace, s1);
    longer := Onward(longer, s2);
  }

  /** How a deletion can end. */
  lemma DeleteCases(env: Env, w: World, repo: string, tag: string)
    requires ':' !in tag
    ensures var first := Call(env, w);
            var second := Call(env, first);
            var found := Lookup(first.registry, repo, tag);
            var (w', ok) := Delete(env, w, repo, tag);
            if env.refuses(w.calls) || found.None? then w'.registry == first.registry && w'.cache == w.cache
            else if !ok then w'.registry == second.registry && w'.cache == w.cache
            else
              && repo in second.registry && w'.cache == WithoutTag(w.cache, repo, tag)
              && w'.registry == WithoutDigest(second.registry, repo, found.value)
  {
    SplitRefOfRef(repo, tag);
    hide SplitRef, Ref, Lookup, WithoutDigest, WithoutTag, IsTagged;
  }

  lemma ResolvedIsPath(s: State, first: Registry, second: Registry, id: nat, repo: string, tag: string)
      returns (trace: seq<State>)
    requires id !in s.pending && Lookup(first, repo, tag).Some?
    ensures IsPath(trace) && trace[0] == s
    ensures var last := trace[|trace| - 1];
            && last.registry == second && last.cache == s.cache
            && last.pending == s.pending[id := Resolved(repo, tag, Lookup(first, repo, tag).value)]
  {
    hide Step, IsPath, Lookup;
    var s1 := s.(registry := first);
    var s2 := s1.(pending := s.pending[id := Resolved(repo, tag, Lookup(first, repo, tag).value)]);
    SingleIsPath(s);
    trace := Drifts([s], first);
    OwnStep(s1, s2, id, repo, tag);
    trace := Onward(trace, s2);
    trace := Drifts(trace, second);
  }

  lemma AbandonedIsPath(trace: seq<State>, id: nat) returns (longer: seq<State>)
    requires IsPath(trace) && id in trace[|trace| - 1].pending && trace[|trace| - 1].pending[id].Resolved?
    ensures IsPath(longer) && longer[0] == trace[0]
    ensures var last := trace[|trace| - 1]; longer[|longer| - 1] == last.(pending := last.pending - {id})
  {
    var s := trace[|trace| - 1];
    hide Step, IsPath;
    OwnStep(s, s.(pending := s.pending - {id}), id, "", "");
    longer := Onward(trace, s.(pending := s.pending - {id}));
  }

  lemma DeleteIsPath(env: Env, w: World, repo: string, tag: string, s: State, id: nat) returns (trace: seq<State>)
    requires s.registry == w.registry && s.cache == w.cache && id !in s.pending && ':' !in tag
    ensures Leads(s, trace, Delete(env, w, repo, tag).0)
  {
    DeleteCases(env, w, repo, tag);
    hide Delete, Step, IsPath, Lookup, WithoutDigest, WithoutTag;
    var first := Call(env, w).registry;
    var second := Call(env, Call(env, w)).registry;
    if env.refuses(w.calls) || Lookup(first, repo, tag).None? {
      SingleIsPath(s);
      trace := Drifts([s], first);
    } else {
      trace := ResolvedIsPath(s, first, second, id, repo, tag);
      var pending := trace[|trace| - 1].pending;
      assert pending - {id} == s.pending;
      if Delete(env, w, repo, tag).1 {
        trace := RemovalIsPath(trace, id);
      } else {
        trace := AbandonedIsPath(trace, id);
      }
    }
  }

  /**
   Each whole operation, whether it succeeds or fails and whatever others do before its calls, is a run of the protocol
   from any state with the same registry and cache, and other operations may be in flight.
   */
  lemma OperationIsPath(env: Env, w: World, op: Operation, s: State, id: nat) returns (trace: seq<State>)
    requires s.registry == w.registry && s.cache == w.cache && id !in s.pending
    requires op.DeleteOne? ==> ':' !in op.tag
    ensures Leads(s, trace, Apply(env, w, op))
  {
    hide Step, IsPath, Fetch, Delete;
    match op
    case FetchTags(repo) =>
      trace := FetchIsPath(env, w, repo, s, id);
    case ReadInfo(imageRef) =>
      SingleIsPath(s);
      trace := Drifts([s], Call(env, w).registry);
    case DeleteOne(repo, tag) =>
      trace := DeleteIsPath(env, w, repo, tag, s, id);
  }

  /** Proper tags, and no manifest has two of them. */
  ghost predicate Plain(registry: Registry) {
    Proper(registry) && forall repo :: repo in registry ==> UniqueDigests(registry[repo])
  }

  ghost predicate CacheExact(w: World) {
    Plain(w.registry) && forall repo :: repo in w.cache ==> Synced(w, repo)
  }

  lemma DeleteKeepsPlain(env: Env, w: World, repo: string, tag: string)
    requires Quiet(env) && Plain(w.registry) && ':' !in tag
    ensures Plain(Delete(env, w, repo, tag).0.registry)
  {
    QuietDelete(env, w, repo, tag);
    if Delete(env, w, repo, tag).1 {
      hide Delete;
      var digest := Lookup(w.registry, repo, tag).value;
      SelectKeepsProper(w.registry[repo], Not(HasDigest(digest)));
      forall e ensures e in Select(w.registry[repo], Not(HasDigest(digest))) ==> e in w.registry[repo] {
        SelectMember(w.registry[repo], Not(HasDigest(digest)), e);
      }
    }
  }

  lemma ApplyKeepsExact(env: Env, w: World, op: Operation)
    requires Quiet(env) && CacheExact(w) && (op.DeleteOne? ==> ':' !in op.tag)
    ensures CacheExact(Apply(env, w, op))
  {
    match op
    case FetchTags(repo) =>
      hide Plain;
    case ReadInfo(imageRef) =>
      hide Plain, SplitRef, Lookup;
    case DeleteOne(repo, tag) =>
      DeleteKeepsPlain(env, w, repo, tag);
      QuietDelete(env, w, repo, tag);
      var w' := Delete(env, w, repo, tag).0;
      forall x | x in w'.cache ensures Synced(w', x) {
        assert x in w.cache;
        DeleteKeepsExact(env, w, repo, tag, x);
      }
  }

  /**
   When the client's operations do not overlap, nobody else changes the registry and no manifest has two tags, every
   cached list is the registry's current list, whichever calls fail.
   */
  lemma {:induction false} AtomicCacheIsExact(env: Env, w: World, ops: seq<Operation>)
    requires Quiet(env) && Plain(w.registry) && w.cache == map[]
    requires forall i :: 0 <= i < |ops| && ops[i].DeleteOne? ==> ':' !in ops[i].tag
    ensures CacheExact(ApplyAll(env, w, ops))
  {
    hide Apply, Plain;
    if ops != [] {
      var init := ops[..|ops| - 1];
      AtomicCacheIsExact(env, w, init);
      ApplyKeepsExact(env, ApplyAll(env, w, init), ops[|ops| - 1]);
    }
  }

  /** After a served pass of RefreshTags every listed repository that exists is cached exactly. */
  lemma {:induction false} RefreshMakesExact(env: Env, w: World, repos: seq<string>, x: string)
    requires Quiet(env) && Served(env) && x in repos && x in w.registry
    ensures FetchAll(env, w, repos).registry == w.registry && Synced(FetchAll(env, w, repos), x)
  {
    hide Fetch;
    var init, last := repos[..|repos| - 1], repos[|repos| - 1];
    RefreshKeepsRegistry(env, w, init);
    QuietFetch(env, FetchAll(env, w, init), last);
    if last != x {
      RefreshMakesExact(env, w, init, x);
    }
  }

  lemma {:induction false} RefreshKeepsRegistry(env: Env, w: World, repos: seq<string>)
    requires Quiet(env)
    ensures FetchAll(env, w, repos).registry == w.registry
  {
    hide Fetch;
    if repos != [] {
      RefreshKeepsRegistry(env, w, repos[..|repos| - 1]);
      QuietFetch(env, FetchAll(env, w, repos[..|repos| - 1]), repos[|repos| - 1]);
    }
  }
}

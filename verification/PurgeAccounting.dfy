/** The bookkeeping of a purge run, for every pattern of failures and every interference by other registry users. */
module PurgeAccounting {
  import opened PurgeRun
  import opened RegistryClient
  import opened Retention
  import opened Selection
  import opened Sums
  import opened Text

  // ---------- The scan makes no deletion and finds only catalog repositories ----------

  ghost predicate OnlyFrom(dated: map<string, seq<TagData>>, catalog: seq<string>) {
    forall repo :: repo in dated ==> repo in catalog
  }

  ghost predicate NoDeleteErrors(errors: seq<RunError>) {
    forall i :: 0 <= i < |errors| ==> !errors[i].DeleteError?
  }

  lemma {:induction false} ScanTagsFrame(env: Env, sc: Scan, repo: string, tags: seq<string>)
    ensures var r := ScanTags(env, sc, repo, tags);
            && r.world.deletes == sc.world.deletes && r.dated.Keys <= sc.dated.Keys + {repo}
            && (NoDeleteErrors(sc.errors) ==> NoDeleteErrors(r.errors))
  {
    if tags != [] {
      ScanTagsFrame(env, sc, repo, tags[..|tags| - 1]);
    }
  }

  lemma {:induction false} ScanAllFrame(env: Env, sc: Scan, catalog: seq<string>)
    requires sc.dated == map[] && NoDeleteErrors(sc.errors)
    ensures var r := ScanAll(env, sc, catalog);
            r.world.deletes == sc.world.deletes && OnlyFrom(r.dated, catalog) && NoDeleteErrors(r.errors)
  {
    if catalog != [] {
      var init, repo := catalog[..|catalog| - 1], catalog[|catalog| - 1];
      var before := ScanAll(env, sc, init);
      ScanAllFrame(env, sc, init);
      var (w, tags) := Fetch(env, before.world, repo);
      if tags.Some? {
        ScanTagsFrame(env, before.(world := w), repo, tags.value);
      }
      assert catalog == init + [repo];
    }
  }

  // ---------- Deletions ----------

  /** The references that a purge list asks to delete, in order. */
  function Refs(repo: string, tags: seq<string>): (refs: seq<(string, string)>)
    ensures |refs| == |tags|
  {
    seq(|tags|, i requires 0 <= i < |tags| => (repo, tags[i]))
  }

  function AllRefs(plans: map<string, RepoPlan>, order: seq<string>): seq<(string, string)>
    requires forall i :: 0 <= i < |order| ==> order[i] in plans
  {
    if order == [] then [] else
      AllRefs(plans, order[..|order| - 1]) + Refs(order[|order| - 1], plans[order[|order| - 1]].purge)
  }

  function IsDeleteError(): RunError -> bool {
    (e: RunError) => e.DeleteError?
  }

  /** The deletions of `errors` that failed. */
  function Failures(errors: seq<RunError>): seq<RunError> {
    Select(errors, IsDeleteError())
  }

  /** The counts of one repository result that deletions do not touch. */
  predicate SamePlan(a: RepoResult, b: RepoResult) {
    a.candidates == b.candidates && a.freed == b.freed && a.tags == b.tags
  }

  ghost predicate SamePlans(a: map<string, RepoResult>, b: map<string, RepoResult>) {
    a.Keys == b.Keys && forall repo :: repo in a ==> SamePlan(a[repo], b[repo])
  }

  ghost function TotalDeleted(results: map<string, RepoResult>): int {
    Sum(results.Keys, DeletedIn(results))
  }

  /** What a stretch of deletions adds: one request each, and either a success that is counted or an error. */
  ghost predicate Accounted(ex: Exec, r: Exec, refs: seq<(string, string)>) {
    && r.world.deletes == ex.world.deletes + refs
    && SamePlans(ex.repositories, r.repositories)
    && ex.errors <= r.errors && ex.done <= r.done
    && |r.done| + |Failures(r.errors)| == |ex.done| + |Failures(ex.errors)| + |refs|
    && TotalDeleted(r.repositories) - |r.done| == TotalDeleted(ex.repositories) - |ex.done|
  }

  lemma DeletedGrows(results: map<string, RepoResult>, repo: string)
    requires repo in results
    ensures var r := results[repo];
            TotalDeleted(results[repo := r.(deleted := r.deleted + 1)]) == TotalDeleted(results) + 1
  {
    var r := results[repo];
    var after := results[repo := r.(deleted := r.deleted + 1)];
    assert after.Keys == results.Keys;
    SumRemove(results.Keys, DeletedIn(results), repo);
    SumRemove(after.Keys, DeletedIn(after), repo);
    SumAgree(results.Keys - {repo}, DeletedIn(results), DeletedIn(after));
  }

  lemma DeleteLogs(env: Env, w: World, repo: string, tag: string)
    ensures Delete(env, w, repo, tag).0.deletes == w.deletes + [(repo, tag)]
  {
  }

  lemma FailuresSnoc(errors: seq<RunError>, e: RunError)
    requires e.DeleteError?
    ensures |Failures(errors + [e])| == |Failures(errors)| + 1
  {
  }

  lemma ExecTagAccounted(env: Env, ex: Exec, repo: string, tag: string)
    requires repo in ex.repositories
    ensures Accounted(ex, ExecTag(env, ex, repo, tag), [(repo, tag)])
  {
    hide Delete, Failures, TotalDeleted;
    DeleteLogs(env, ex.world, repo, tag);
    DeletedGrows(ex.repositories, repo);
    FailuresSnoc(ex.errors, DeleteError(repo, tag));
  }

  lemma AccountedTransitive(a: Exec, b: Exec, c: Exec, refs: seq<(string, string)>, refs': seq<(string, string)>)
    requires Accounted(a, b, refs) && Accounted(b, c, refs')
    ensures Accounted(a, c, refs + refs')
  {
  }

  lemma AccountedNothing(ex: Exec)
    ensures Accounted(ex, ex, [])
  {
  }

  lemma {:induction false} ExecTagsAccounted(env: Env, ex: Exec, repo: string, tags: seq<string>)
    requires repo in ex.repositories
    ensures Accounted(ex, ExecTags(env, ex, repo, tags), Refs(repo, tags))
  {
    hide Accounted, Delete;
    if tags == [] {
      AccountedNothing(ex);
    } else {
      var init, tag := tags[..|tags| - 1], tags[|tags| - 1];
      var before := ExecTags(env, ex, repo, init);
      ExecTagsAccounted(env, ex, repo, init);
      ExecTagAccounted(env, before, repo, tag);
      AccountedTransitive(ex, before, ExecTag(env, before, repo, tag), Refs(repo, init), [(repo, tag)]);
      assert Refs(repo, tags) == Refs(repo, init) + [(repo, tag)];
    }
  }

  lemma {:induction false} ExecAllAccounted(env: Env, ex: Exec, plans: map<string, RepoPlan>, order: seq<string>)
    requires plans.Keys == ex.repositories.Keys && forall i :: 0 <= i < |order| ==> order[i] in plans
    ensures Accounted(ex, ExecAll(env, ex, plans, order), AllRefs(plans, order))
  {
    hide Accounted, Delete;
    if order == [] {
      AccountedNothing(ex);
    } else {
      var init, repo := order[..|order| - 1], order[|order| - 1];
      var before := ExecAll(env, ex, plans, init);
      ExecAllAccounted(env, ex, plans, init);
      ExecTagsAccounted(env, before, repo, plans[repo].purge);
      AccountedTransitive(ex, before, ExecAll(env, ex, plans, order), AllRefs(plans, init),
                          Refs(repo, plans[repo].purge));
    }
  }

  // ---------- The run ----------

  function PurgeCount(plans: map<string, RepoPlan>): string -> int {
    (repo: string) => if repo in plans then |plans[repo].purge| else 0
  }

  lemma {:induction false} RefCount(plans: map<string, RepoPlan>, order: seq<string>)
    requires Distinct(order) && forall i :: 0 <= i < |order| ==> order[i] in plans
    ensures |AllRefs(plans, order)| == Sum(Elements(order), PurgeCount(plans))
  {
    if order == [] {
      assert Elements(order) == {};
    } else {
      var init, repo := order[..|order| - 1], order[|order| - 1];
      RefCount(plans, init);
      assert order == init + [repo];
      assert Elements(order) == Elements(init) + {repo};
      SumAdd(Elements(init), PurgeCount(plans), repo);
    }
  }

  lemma KeysInPlans(plans: map<string, RepoPlan>)
    ensures forall i :: 0 <= i < |SortedKeys(plans.Keys)| ==> SortedKeys(plans.Keys)[i] in plans
  {
    SortedKeysDistinct(plans.Keys);
  }

  /** The deletion requests of a whole plan, in the order they are made. */
  ghost function Requests(plans: map<string, RepoPlan>): seq<(string, string)> {
    KeysInPlans(plans);
    AllRefs(plans, SortedKeys(plans.Keys))
  }

  lemma RequestCount(plans: map<string, RepoPlan>, sizes: map<string, int>)
    ensures |Requests(plans)| == TotalCandidates(Summaries(plans, sizes))
  {
    hide AllRefs, SortedKeys, Sum, TotalSize;
    var order := SortedKeys(plans.Keys);
    SortedKeysDistinct(plans.Keys);
    KeysInPlans(plans);
    RefCount(plans, order);
    assert Elements(order) == plans.Keys == Summaries(plans, sizes).Keys;
    SumAgree(plans.Keys, PurgeCount(plans), CandidatesIn(Summaries(plans, sizes)));
  }

  lemma {:induction false} RefsOfPlans(plans: map<string, RepoPlan>, order: seq<string>, ref: (string, string))
    requires forall i :: 0 <= i < |order| ==> order[i] in plans
    requires ref in AllRefs(plans, order)
    ensures ref.0 in plans && ref.1 in plans[ref.0].purge && ref.0 in order
  {
    var init, repo := order[..|order| - 1], order[|order| - 1];
    if ref in AllRefs(plans, init) {
      RefsOfPlans(plans, init, ref);
    }
  }

  lemma NothingDeletedYet(plans: map<string, RepoPlan>, sizes: map<string, int>)
    ensures TotalDeleted(Summaries(plans, sizes)) == 0
  {
    assert Summaries(plans, sizes).Keys == plans.Keys;
    SumZero(plans.Keys, DeletedIn(Summaries(plans, sizes)));
  }

  lemma NoFailures(errors: seq<RunError>)
    requires NoDeleteErrors(errors)
    ensures Failures(errors) == []
  {
    if Failures(errors) != [] {
      SelectMember(errors, IsDeleteError(), Failures(errors)[0]);
    }
  }

  lemma SamePlansSameSums(a: map<string, RepoResult>, b: map<string, RepoResult>)
    requires SamePlans(a, b)
    ensures TotalCandidates(a) == TotalCandidates(b) && Sum(a.Keys, FreedIn(a)) == Sum(b.Keys, FreedIn(b))
  {
    SumAgree(a.Keys, CandidatesIn(a), CandidatesIn(b));
    SumAgree(a.Keys, FreedIn(a), FreedIn(b));
  }

  /** The deletion phase as a whole, starting from what the scan and the planning produced. */
  lemma PhasesAccounted(env: Env, w: World, c: RunConfig, repos: seq<string>, now: int)
    ensures var start, ex := BeforeDeletes(env, w, c, repos, now), AfterDeletes(env, w, c, repos, now);
            var refs := if c.dryRun then [] else Requests(PlansOf(env, w, c, repos, now));
            && Accounted(start, ex, refs) && start.world.deletes == w.deletes && NoDeleteErrors(start.errors)
            && TotalDeleted(start.repositories) == 0 && start.done == []
  {
    hide Accounted, ScanAll, Plans, TotalDeleted;
    var start := BeforeDeletes(env, w, c, repos, now);
    var plans := PlansOf(env, w, c, repos, now);
    ScanAllFrame(env, Scan(w, map[], map[], []), Catalog(c, repos));
    NothingDeletedYet(plans, ScanOf(env, w, c, repos).sizes);
    AccountedNothing(start);
    if !c.dryRun {
      KeysInPlans(plans);
      assert plans.Keys == start.repositories.Keys;
      ExecAllAccounted(env, start, plans, SortedKeys(plans.Keys));
    }
  }

  /**
   The books balance over every pattern of failures: totals are the sums of the per-repository results, a real run
   deletes or reports every candidate, and success means that there is no error.
   */
  lemma RunAccounting(env: Env, w: World, c: RunConfig, repos: seq<string>, now: int)
    ensures var r := Run(env, w, c, repos, now).1;
            && (r.success <==> r.errors == [])
            && r.candidates == TotalCandidates(r.repositories)
            && r.freed == Sum(r.repositories.Keys, FreedIn(r.repositories))
            && r.deleted == TotalDeleted(r.repositories)
            && (!c.dryRun && !c.keepFileMissing ==> r.deleted + |Failures(r.errors)| == r.candidates)
            && (c.dryRun ==> r.deleted == 0 && Failures(r.errors) == [])
            && r.dryRun == c.dryRun && r.repoCount == if c.keepFileMissing then 0 else |Catalog(c, repos)|
  {
    hide ScanAll, Plans, Failures, ExecPlans, Catalog;
    if !c.keepFileMissing {
      var start, ex := BeforeDeletes(env, w, c, repos, now), AfterDeletes(env, w, c, repos, now);
      PhasesAccounted(env, w, c, repos, now);
      SamePlansSameSums(start.repositories, ex.repositories);
      NoFailures(start.errors);
      RequestCount(PlansOf(env, w, c, repos, now), ScanOf(env, w, c, repos).sizes);
    } else {
      NoFailures([KeepFileError]);
      assert TotalCandidates(map[]) == 0 && TotalDeleted(map[]) == 0;
    }
  }

  /**
   When the configured keep-file cannot be read the run does nothing: no remote call, no change of registry, cache or
   request log, and a result of one error, whatever else is configured.
   */
  lemma MissingKeepFile(env: Env, w: World, c: RunConfig, repos: seq<string>, now: int)
    requires c.keepFileMissing
    ensures var (after, r) := Run(env, w, c, repos, now);
            && after == w && !r.success && r.errors == [KeepFileError] && r.repositories == map[]
            && r.repoCount == 0 && r.candidates == 0 && r.deleted == 0 && r.freed == 0 && r.dryRun == c.dryRun
  {
  }

  /** Included by name or by the catalog, and not excluded. */
  ghost predicate Selected(c: RunConfig, repos: seq<string>, repo: string) {
    && (if c.includeRepos == "" then repo in repos else repo in Split(c.includeRepos, ','))
    && (c.excludeRepos == "" || repo !in Split(c.excludeRepos, ','))
  }

  lemma CatalogMember(c: RunConfig, repos: seq<string>, repo: string)
    ensures repo in Catalog(c, repos) <==> Selected(c, repos, repo)
  {
    hide Split;
    if c.excludeRepos != "" {
      var included := if c.includeRepos != "" then Split(c.includeRepos, ',') else repos;
      SelectMember(included, NotIn(Split(c.excludeRepos, ',')), repo);
    }
  }

  /** A repository is worked on as often as it is named. */
  lemma CatalogOccurrences(c: RunConfig, repos: seq<string>, repo: string)
    ensures multiset(Catalog(c, repos))[repo] ==
            if c.excludeRepos != "" && repo in Split(c.excludeRepos, ',') then 0
            else multiset(if c.includeRepos != "" then Split(c.includeRepos, ',') else repos)[repo]
  {
    if c.excludeRepos != "" {
      var included := if c.includeRepos != "" then Split(c.includeRepos, ',') else repos;
      SelectMultiset(included, NotIn(Split(c.excludeRepos, ',')), repo);
    }
    hide Split, Select;
  }

  /**
   The run asks for exactly the planned deletions, in order, or for none in a dry run; every one of them is a purge
   candidate of a selected repository, and the result reports the plan.
   */
  lemma DeleteTargets(env: Env, w: World, c: RunConfig, repos: seq<string>, now: int)
    requires !c.keepFileMissing
    ensures var (w', r) := Run(env, w, c, repos, now);
            var plans := PlansOf(env, w, c, repos, now);
            && w'.deletes == w.deletes + (if c.dryRun then [] else Requests(plans))
            && (forall ref :: ref in Requests(plans) ==>
                  Selected(c, repos, ref.0) && ref.0 in plans && ref.1 in plans[ref.0].purge)
            && r.repositories.Keys == plans.Keys
            && (forall repo :: repo in plans ==>
                  && r.repositories[repo].tags == plans[repo].purge
                  && r.repositories[repo].candidates == |plans[repo].purge|
                  && SamePlan(r.repositories[repo], Planned(repo, plans[repo], ScanOf(env, w, c, repos).sizes)))
  {
    var plans := PlansOf(env, w, c, repos, now);
    forall ref | ref in Requests(plans)
      ensures Selected(c, repos, ref.0) && ref.0 in plans && ref.1 in plans[ref.0].purge
    {
      RequestTarget(env, w, c, repos, now, ref);
    }
    hide ScanAll, Plan, Failures, ExecPlans, Catalog, Requests, Selected, TotalDeleted;
    PhasesAccounted(env, w, c, repos, now);
  }

  lemma RequestTarget(env: Env, w: World, c: RunConfig, repos: seq<string>, now: int, ref: (string, string))
    requires ref in Requests(PlansOf(env, w, c, repos, now))
    ensures var plans := PlansOf(env, w, c, repos, now);
            Selected(c, repos, ref.0) && ref.0 in plans && ref.1 in plans[ref.0].purge
  {
    hide ScanAll, Plan, Catalog, Selected, AllRefs;
    var plans := PlansOf(env, w, c, repos, now);
    KeysInPlans(plans);
    RefsOfPlans(plans, SortedKeys(plans.Keys), ref);
    ScanAllFrame(env, Scan(w, map[], map[], []), Catalog(c, repos));
    CatalogMember(c, repos, ref.0);
  }

  lemma PlansIgnoreDryRun(env: Env, w: World, c: RunConfig, repos: seq<string>, now: int)
    ensures var dry, actual := c.(dryRun := true), c.(dryRun := false);
            && Catalog(dry, repos) == Catalog(actual, repos)
            && BeforeDeletes(env, w, dry, repos, now) == BeforeDeletes(env, w, actual, repos, now)
            && AfterDeletes(env, w, dry, repos, now) == BeforeDeletes(env, w, dry, repos, now)
  {
    hide ScanAll, Plan, ExecPlans;
  }

  /**
   With the same responses a dry run reports the candidates, bytes and scan errors of a real run, and deletes nothing.
   */
  lemma DryRunAgrees(env: Env, w: World, c: RunConfig, repos: seq<string>, now: int)
    requires !c.keepFileMissing
    ensures var (dryW, dry) := Run(env, w, c.(dryRun := true), repos, now);
            var (actualW, actual) := Run(env, w, c.(dryRun := false), repos, now);
            && dry.candidates == actual.candidates && dry.freed == actual.freed && dry.repoCount == actual.repoCount
            && SamePlans(dry.repositories, actual.repositories)
            && dry.errors <= actual.errors
            && dryW.deletes == w.deletes && dry.deleted == 0
  {
    PlansIgnoreDryRun(env, w, c, repos, now);
    PhasesAccounted(env, w, c.(dryRun := true), repos, now);
    PhasesAccounted(env, w, c.(dryRun := false), repos, now);
    hide BeforeDeletes, AfterDeletes, Catalog, Failures, Requests, TotalDeleted, TotalCandidates, Sum, PlansOf;
  }
}

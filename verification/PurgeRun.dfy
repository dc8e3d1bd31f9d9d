/** RunPurgeOldTags of registry/tasks.go: choose repositories, scan their tags, plan, account, delete. */
module PurgeRun {
  import opened RegistryClient
  import opened Retention
  import opened Selection
  import opened Sums
  import opened Text

  datatype RunError = KeepFileError | InfoError(repo: string, tag: string) | DeleteError(repo: string, tag: string)

  datatype RepoResult = RepoResult(candidates: nat, deleted: nat, freed: int, tags: seq<string>)

  datatype RunResult = RunResult(
    success: bool, dryRun: bool, repoCount: nat, candidates: int, deleted: nat, freed: int, errors: seq<RunError>,
    repositories: map<string, RepoResult>)

  /** `keepFileMissing`: a keep-file is configured but cannot be read. */
  datatype RunConfig = RunConfig(
    policy: Policy, dryRun: bool, includeRepos: string, excludeRepos: string, keepFileMissing: bool)

  // ---------- Choosing repositories ----------

  function NotIn(excluded: seq<string>): string -> bool {
    (repo: string) => repo !in excluded
  }

  /** The repositories to work on; `repos` is what the registry's catalog lists. */
  function Catalog(c: RunConfig, repos: seq<string>): seq<string> {
    var included := if c.includeRepos != "" then Split(c.includeRepos, ',') else repos;
    if c.excludeRepos != "" then Select(included, NotIn(Split(c.excludeRepos, ','))) else included
  }

  method ChooseCatalog(c: RunConfig, repos: seq<string>) returns (catalog: seq<string>)
    ensures catalog == Catalog(c, repos)
  {
    catalog := if c.includeRepos != "" then Split(c.includeRepos, ',') else repos;
    if c.excludeRepos != "" {
      var excluded := Split(c.excludeRepos, ',');
      var tmpCatalog: seq<string> := [];
      for i := 0 to |catalog|
        invariant tmpCatalog == Select(catalog[..i], NotIn(excluded))
      {
        assert catalog[..i + 1][..i] == catalog[..i];
        var found := ItemInSlice(catalog[i], excluded);
        if !found {
          tmpCatalog := tmpCatalog + [catalog[i]];
        }
      }
      assert catalog[..|catalog|] == catalog;
      catalog := tmpCatalog;
    }
  }

  // ---------- Scanning ----------

  /** What the scan has collected: dated tags and image sizes, and the client's state. */
  datatype Scan = Scan(world: World, dated: map<string, seq<TagData>>, sizes: map<string, int>, errors: seq<RunError>)

  function DatedOf(dated: map<string, seq<TagData>>, repo: string): seq<TagData> {
    if repo in dated then dated[repo] else []
  }

  function ScanTag(env: Env, sc: Scan, repo: string, tag: string): Scan {
    var (w, info) := GetInfo(env, sc.world, Ref(repo, tag));
    if info.None? then sc.(world := w, errors := sc.errors + [InfoError(repo, tag)])
    else
      var sized := sc.(world := w, sizes := sc.sizes[Ref(repo, tag) := info.value.size]);
      if info.value.created == 0 then sized
      else sized.(dated := sc.dated[repo := DatedOf(sc.dated, repo) + [TagData(tag, info.value.created)]])
  }

  function ScanTags(env: Env, sc: Scan, repo: string, tags: seq<string>): Scan {
    if tags == [] then sc else ScanTag(env, ScanTags(env, sc, repo, tags[..|tags| - 1]), repo, tags[|tags| - 1])
  }

  function ScanRepo(env: Env, sc: Scan, repo: string): Scan {
    var (w, tags) := Fetch(env, sc.world, repo);
    if tags.None? then sc.(world := w) else ScanTags(env, sc.(world := w), repo, tags.value)
  }

  function ScanAll(env: Env, sc: Scan, catalog: seq<string>): Scan {
    if catalog == [] then sc else ScanRepo(env, ScanAll(env, sc, catalog[..|catalog| - 1]), catalog[|catalog| - 1])
  }

  /** The result under construction agrees with a list of errors. */
  predicate Consistent(result: RunResult) {
    result.success <==> result.errors == []
  }

  function AddError(result: RunResult, error: RunError): RunResult {
    result.(success := false, errors := result.errors + [error])
  }

  method ScanTagsOf(client: Client, ghost start: Scan, repo: string, tags: seq<string>,
                    dated0: map<string, seq<TagData>>, sizes0: map<string, int>, result0: RunResult)
      returns (dated: map<string, seq<TagData>>, sizes: map<string, int>, result: RunResult)
    requires start == Scan(client.State(), dated0, sizes0, result0.errors) && Consistent(result0)
    modifies client
    ensures Scan(client.State(), dated, sizes, result.errors) == ScanTags(client.env, start, repo, tags)
    ensures result == result0.(success := result.success, errors := result.errors) && Consistent(result)
  {
    dated, sizes, result := dated0, sizes0, result0;
    for i := 0 to |tags|
      invariant Scan(client.State(), dated, sizes, result.errors) == ScanTags(client.env, start, repo, tags[..i])
      invariant result == result0.(success := result.success, errors := result.errors) && Consistent(result)
    {
      assert tags[..i + 1][..i] == tags[..i];
      var tag := tags[i];
      var imageRef := repo + ":" + tag;
      var imageInfo := client.GetImageInfo(imageRef);
      if imageInfo.None? {
        result := AddError(result, InfoError(repo, tag));
        continue;
      }
      sizes := sizes[imageRef := imageInfo.value.size];
      if imageInfo.value.created == 0 {
        continue;
      }
      var before := if repo in dated then dated[repo] else [];
      dated := dated[repo := before + [TagData(tag, imageInfo.value.created)]];
    }
    assert tags[..|tags|] == tags;
  }

  method ScanCatalog(client: Client, catalog: seq<string>, result0: RunResult)
      returns (dated: map<string, seq<TagData>>, sizes: map<string, int>, result: RunResult)
    requires result0.success && result0.errors == []
    modifies client
    ensures Scan(client.State(), dated, sizes, result.errors) ==
            ScanAll(client.env, Scan(old(client.State()), map[], map[], []), catalog)
    ensures result == result0.(success := result.success, errors := result.errors) && Consistent(result)
  {
    dated, sizes, result := map[], map[], result0;
    ghost var start := Scan(client.State(), map[], map[], []);
    for i := 0 to |catalog|
      invariant Scan(client.State(), dated, sizes, result.errors) == ScanAll(client.env, start, catalog[..i])
      invariant result == result0.(success := result.success, errors := result.errors) && Consistent(result)
    {
      assert catalog[..i + 1][..i] == catalog[..i];
      var repo := catalog[i];
      var tags := client.FetchAndCacheTagsForRepo(repo);
      if tags.None? || |tags.value| == 0 {
        continue;
      }
      ghost var sc := Scan(client.State(), dated, sizes, result.errors);
      dated, sizes, result := ScanTagsOf(client, sc, repo, tags.value, dated, sizes, result);
    }
    assert catalog[..|catalog|] == catalog;
  }

  // ---------- Planning and accounting ----------

  function Plans(p: Policy, now: int, dated: map<string, seq<TagData>>): map<string, RepoPlan> {
    map repo | repo in dated :: Plan(p, repo, now, dated[repo])
  }

  /** The recorded sizes of the given tags of a repository. */
  function TotalSize(repo: string, tags: seq<string>, sizes: map<string, int>): int {
    if tags == [] then 0 else
      var ref := Ref(repo, tags[|tags| - 1]);
      TotalSize(repo, tags[..|tags| - 1], sizes) + (if ref in sizes then sizes[ref] else 0)
  }

  function Planned(repo: string, plan: RepoPlan, sizes: map<string, int>): RepoResult {
    RepoResult(|plan.purge|, 0, TotalSize(repo, plan.purge, sizes), plan.purge)
  }

  function Summaries(plans: map<string, RepoPlan>, sizes: map<string, int>): map<string, RepoResult> {
    map repo | repo in plans :: Planned(repo, plans[repo], sizes)
  }

  function CandidatesIn(results: map<string, RepoResult>): string -> int {
    (repo: string) => if repo in results then results[repo].candidates else 0
  }

  function FreedIn(results: map<string, RepoResult>): string -> int {
    (repo: string) => if repo in results then results[repo].freed else 0
  }

  function DeletedIn(results: map<string, RepoResult>): string -> int {
    (repo: string) => if repo in results then results[repo].deleted else 0
  }

  method SizeOfPurge(repo: string, purge: seq<string>, sizes: map<string, int>) returns (total: int)
    ensures total == TotalSize(repo, purge, sizes)
  {
    total := 0;
    for i := 0 to |purge|
      invariant total == TotalSize(repo, purge[..i], sizes)
    {
      assert purge[..i + 1][..i] == purge[..i];
      var ref := repo + ":" + purge[i];
      total := total + (if ref in sizes then sizes[ref] else 0);
    }
    assert purge[..|purge|] == purge;
  }

  lemma SortedKeysDistinct(s: set<string>)
    ensures Distinct(SortedKeys(s)) && forall k :: k in SortedKeys(s) <==> k in s
  {
    var keys := SortedKeys(s);
    SortedKeysOf(s);
    forall k ensures k in keys <==> k in s {
      SortedKeysMember(s, k);
    }
    forall i, j | 0 <= i < j < |keys| ensures keys[i] != keys[j] {
      OccursOnce(keys, s, j);
      assert keys[i] in keys[..j];
    }
  }

  lemma OccursOnce(keys: seq<string>, s: set<string>, i: nat)
    requires i < |keys| && multiset(keys) == multiset(s)
    ensures keys[i] !in keys[..i]
  {
    var x := keys[i];
    assert keys == keys[..i] + keys[i..];
    assert x in keys[i..] by {
      assert keys[i..][0] == x;
    }
    assert multiset(keys)[x] == multiset(keys[..i])[x] + multiset(keys[i..])[x];
    assert multiset(s)[x] <= 1;
    assert x in multiset(keys[i..]);
  }

  method PlanOne(p: Policy, now: int, dated: map<string, seq<TagData>>, sizes: map<string, int>, repo: string)
      returns (plan: RepoPlan, summary: RepoResult)
    requires repo in dated
    ensures plan == Plans(p, now, dated)[repo] && summary == Summaries(Plans(p, now, dated), sizes)[repo]
    ensures summary.candidates == |plan.purge|
  {
    plan := PlanRepo(p, repo, now, dated[repo]);
    var freed := SizeOfPurge(repo, plan.purge, sizes);
    summary := RepoResult(|plan.purge|, 0, freed, plan.purge);
  }

  /** `m` is the part of `full` for the first `i` keys. */
  ghost predicate Covers<T>(m: map<string, T>, full: map<string, T>, keys: seq<string>, i: nat)
    requires i <= |keys|
  {
    (forall k :: k in m <==> k in keys[..i]) && (forall k :: k in m ==> k in full && m[k] == full[k])
  }

  lemma CoversExtend<T>(m: map<string, T>, full: map<string, T>, keys: seq<string>, i: nat, v: T)
    requires i < |keys| && Covers(m, full, keys, i) && keys[i] in full && full[keys[i]] == v && keys[i] !in keys[..i]
    ensures keys[i] !in m && Covers(m[keys[i] := v], full, keys, i + 1)
  {
  }

  lemma CoversAll<T>(m: map<string, T>, full: map<string, T>, keys: seq<string>)
    requires Covers(m, full, keys, |keys|) && forall k :: k in keys <==> k in full
    ensures m == full
  {
  }

  lemma CoversNone<T>(full: map<string, T>, keys: seq<string>)
    ensures Covers(map[], full, keys, 0)
  {
  }

  predicate Distinct<T(==)>(s: seq<T>) {
    forall i, j :: 0 <= i < j < |s| ==> s[i] != s[j]
  }

  /** The sum of the candidate counts of the repositories planned so far. */
  ghost function TotalCandidates(results: map<string, RepoResult>): int {
    Sum(results.Keys, CandidatesIn(results))
  }

  lemma CandidatesGrow(results: map<string, RepoResult>, repo: string, r: RepoResult)
    requires repo !in results
    ensures TotalCandidates(results[repo := r]) == TotalCandidates(results) + r.candidates
  {
    var after := results[repo := r];
    assert after.Keys == results.Keys + {repo};
    SumAgree(results.Keys, CandidatesIn(results), CandidatesIn(after));
    SumAdd(results.Keys, CandidatesIn(after), repo);
  }

  lemma PlanKeys(p: Policy, now: int, dated: map<string, seq<TagData>>, sizes: map<string, int>)
    ensures Plans(p, now, dated).Keys == Summaries(Plans(p, now, dated), sizes).Keys == dated.Keys
  {
  }

  lemma NoCandidates()
    ensures TotalCandidates(map[]) == 0
  {
  }

  /** The loop over the scanned repositories; the candidate total is accumulated on the way. */
  method PlanInOrder(p: Policy, now: int, dated: map<string, seq<TagData>>, sizes: map<string, int>, keys: seq<string>)
      returns (plans: map<string, RepoPlan>, results: map<string, RepoResult>, total: int)
    requires forall i, j :: 0 <= i < j < |keys| ==> keys[i] != keys[j]
    requires forall k :: k in keys <==> k in dated
    ensures plans == Plans(p, now, dated) && results == Summaries(plans, sizes)
    ensures total == TotalCandidates(results)
  {
    hide *;
    ghost var allPlans := Plans(p, now, dated);
    ghost var allResults := Summaries(allPlans, sizes);
    PlanKeys(p, now, dated, sizes);
    plans, results, total := map[], map[], 0;
    NoCandidates();
    CoversNone(allPlans, keys);
    CoversNone(allResults, keys);
    for i := 0 to |keys|
      invariant Covers(plans, allPlans, keys, i)
      invariant Covers(results, allResults, keys, i)
      invariant total == TotalCandidates(results)
    {
      var repo := keys[i];
      var plan, summary := PlanOne(p, now, dated, sizes, repo);
      CoversExtend(plans, allPlans, keys, i, plan);
      CoversExtend(results, allResults, keys, i, summary);
      CandidatesGrow(results, repo, summary);
      plans := plans[repo := plan];
      results := results[repo := summary];
      total := total + |plan.purge|;
    }
    CoversAll(plans, allPlans, keys);
    CoversAll(results, allResults, keys);
  }

  /** The repositories are planned in key order. */
  method PlanAll(p: Policy, now: int, dated: map<string, seq<TagData>>, sizes: map<string, int>)
      returns (plans: map<string, RepoPlan>, results: map<string, RepoResult>, total: int)
    ensures plans == Plans(p, now, dated) && results == Summaries(plans, sizes)
    ensures total == TotalCandidates(results)
  {
    var keys := SortedMapKeys(dated.Keys);
    SortedKeysDistinct(dated.Keys);
    plans, results, total := PlanInOrder(p, now, dated, sizes, keys);
  }

  /** The bytes are added up in the arbitrary order of a map iteration. */
  method TotalFreed(results: map<string, RepoResult>) returns (freed: int)
    ensures freed == Sum(results.Keys, FreedIn(results))
  {
    freed := 0;
    var rest := results.Keys;
    while rest != {}
      invariant rest <= results.Keys
      invariant freed + Sum(rest, FreedIn(results)) == Sum(results.Keys, FreedIn(results))
      decreases rest
    {
      var repo :| repo in rest;
      SumRemove(rest, FreedIn(results), repo);
      freed, rest := freed + results[repo].freed, rest - {repo};
    }
  }

  // ---------- Deleting ----------

  /** `done` lists the successful deletions in order; the program keeps only their number. */
  datatype Exec = Exec(
    world: World, done: seq<(string, string)>, errors: seq<RunError>, repositories: map<string, RepoResult>)

  function ExecTag(env: Env, ex: Exec, repo: string, tag: string): (r: Exec)
    requires repo in ex.repositories
    ensures r.repositories.Keys == ex.repositories.Keys
  {
    var (w, ok) := Delete(env, ex.world, repo, tag);
    if !ok then ex.(world := w, errors := ex.errors + [DeleteError(repo, tag)])
    else
      var result := ex.repositories[repo];
      ex.(world := w, done := ex.done + [(repo, tag)],
          repositories := ex.repositories[repo := result.(deleted := result.deleted + 1)])
  }

  function ExecTags(env: Env, ex: Exec, repo: string, tags: seq<string>): (r: Exec)
    requires repo in ex.repositories
    ensures r.repositories.Keys == ex.repositories.Keys
  {
    if tags == [] then ex else ExecTag(env, ExecTags(env, ex, repo, tags[..|tags| - 1]), repo, tags[|tags| - 1])
  }

  /** Repositories are taken in key order; one with an empty purge list is passed over without effect. */
  function ExecAll(env: Env, ex: Exec, plans: map<string, RepoPlan>, order: seq<string>): (r: Exec)
    requires plans.Keys == ex.repositories.Keys
    requires forall i :: 0 <= i < |order| ==> order[i] in plans
    ensures r.repositories.Keys == ex.repositories.Keys
  {
    if order == [] then ex else
      var repo := order[|order| - 1];
      ExecTags(env, ExecAll(env, ex, plans, order[..|order| - 1]), repo, plans[repo].purge)
  }

  lemma ExecTagsExtend(env: Env, ex: Exec, repo: string, tags: seq<string>, i: nat)
    requires repo in ex.repositories && i < |tags|
    ensures ExecTags(env, ex, repo, tags[..i + 1]) == ExecTag(env, ExecTags(env, ex, repo, tags[..i]), repo, tags[i])
  {
    assert tags[..i + 1][..i] == tags[..i];
  }

  /** The result under construction, as the part of `Exec` it holds. */
  ghost predicate Tracks(result: RunResult, ex: Exec) {
    && result.errors == ex.errors && result.deleted == |ex.done| && Consistent(result)
  }

  /** Everything but the fields that deletions touch. */
  predicate SameTotals(result: RunResult, result0: RunResult) {
    result == result0.(success := result.success, errors := result.errors, deleted := result.deleted,
                       repositories := result.repositories)
  }

  /** The body of the delete loop. */
  method DeleteOne(client: Client, repo: string, tag: string, ghost start: Exec, result0: RunResult,
                   repoResult0: RepoResult)
      returns (ghost ex: Exec, result: RunResult, repoResult: RepoResult)
    requires start.world == client.State() && repo in start.repositories && start.repositories[repo] == repoResult0
    requires Tracks(result0, start)
    modifies client
    ensures ex == ExecTag(client.env, start, repo, tag)
    ensures ex.world == client.State() && ex.repositories == start.repositories[repo := repoResult]
    ensures Tracks(result, ex) && SameTotals(result, result0) && result.repositories == result0.repositories
  {
    result, repoResult := result0, repoResult0;
    ex := ExecTag(client.env, start, repo, tag);
    var ok := client.DeleteTag(repo, tag);
    if !ok {
      result := AddError(result, DeleteError(repo, tag));
      assert start.repositories[repo := repoResult] == start.repositories;
      return;
    }
    result := result.(deleted := result.deleted + 1);
    repoResult := repoResult.(deleted := repoResult.deleted + 1);
  }

  method DeleteTagsOf(client: Client, repo: string, purge: seq<string>, ghost start: Exec, result0: RunResult)
      returns (ghost ex: Exec, result: RunResult)
    requires repo in result0.repositories
    requires start.world == client.State() && start.repositories == result0.repositories && Tracks(result0, start)
    modifies client
    ensures ex == ExecTags(client.env, start, repo, purge)
    ensures ex.world == client.State() && ex.repositories == result.repositories && Tracks(result, ex)
    ensures SameTotals(result, result0)
  {
    hide Delete;
    result := result0;
    ex := start;
    var repoResult := result.repositories[repo];
    for i := 0 to |purge|
      invariant ex == ExecTags(client.env, start, repo, purge[..i])
      invariant ex.world == client.State() && ex.repositories == result0.repositories[repo := repoResult]
      invariant Tracks(result, ex) && SameTotals(result, result0) && result.repositories == result0.repositories
    {
      ExecTagsExtend(client.env, start, repo, purge, i);
      ghost var repositories := ex.repositories;
      ex, result, repoResult := DeleteOne(client, repo, purge[i], ex, result, repoResult);
      assert repositories[repo := repoResult] == result0.repositories[repo := repoResult];
    }
    assert purge[..|purge|] == purge;
    result := result.(repositories := result.repositories[repo := repoResult]);
  }

  method DeletePlanned(client: Client, dryRun: bool, plans: map<string, RepoPlan>, ghost start: Exec,
                       result0: RunResult)
      returns (ghost ex: Exec, result: RunResult)
    requires plans.Keys == result0.repositories.Keys
    requires start.world == client.State() && start.repositories == result0.repositories && Tracks(result0, start)
    modifies client
    ensures ex == if dryRun then start else ExecPlans(client.env, start, plans)
    ensures ex.world == client.State() && ex.repositories == result.repositories && Tracks(result, ex)
    ensures SameTotals(result, result0)
  {
    result := result0;
    ex := start;
    var keys := SortedMapKeys(plans.Keys);
    forall i | 0 <= i < |keys| ensures keys[i] in plans {
      SortedKeysMember(plans.Keys, keys[i]);
    }
    for i := 0 to |keys|
      invariant plans.Keys == result.repositories.Keys
      invariant ex == if dryRun then start else ExecAll(client.env, start, plans, keys[..i])
      invariant ex.world == client.State() && ex.repositories == result.repositories && Tracks(result, ex)
      invariant SameTotals(result, result0)
    {
      ExecAllExtend(client.env, start, plans, keys, i);
      var repo := keys[i];
      if |plans[repo].purge| == 0 || dryRun {
        continue;
      }
      ex, result := DeleteTagsOf(client, repo, plans[repo].purge, ex, result);
    }
    assert keys[..|keys|] == keys;
  }

  lemma ExecAllExtend(env: Env, ex: Exec, plans: map<string, RepoPlan>, order: seq<string>, i: nat)
    requires plans.Keys == ex.repositories.Keys && i < |order|
    requires forall i :: 0 <= i < |order| ==> order[i] in plans
    ensures ExecAll(env, ex, plans, order[..i + 1]) ==
            ExecTags(env, ExecAll(env, ex, plans, order[..i]), order[i], plans[order[i]].purge)
  {
    assert order[..i + 1][..i] == order[..i];
  }

  ghost function ExecPlans(env: Env, ex: Exec, plans: map<string, RepoPlan>): Exec
    requires plans.Keys == ex.repositories.Keys
  {
    var order := SortedKeys(plans.Keys);
    assert forall i :: 0 <= i < |order| ==> order[i] in plans by {
      forall i | 0 <= i < |order| ensures order[i] in plans {
        SortedKeysMember(plans.Keys, order[i]);
      }
    }
    ExecAll(env, ex, plans, order)
  }

  // ---------- The whole run ----------

  function ScanOf(env: Env, w: World, c: RunConfig, repos: seq<string>): Scan {
    ScanAll(env, Scan(w, map[], map[], []), Catalog(c, repos))
  }

  function PlansOf(env: Env, w: World, c: RunConfig, repos: seq<string>, now: int): map<string, RepoPlan> {
    Plans(c.policy, now, ScanOf(env, w, c, repos).dated)
  }

  /** The state of the run once it has planned, and after it has deleted. */
  function BeforeDeletes(env: Env, w: World, c: RunConfig, repos: seq<string>, now: int): Exec {
    var sc := ScanOf(env, w, c, repos);
    Exec(sc.world, [], sc.errors, Summaries(PlansOf(env, w, c, repos, now), sc.sizes))
  }

  ghost function AfterDeletes(env: Env, w: World, c: RunConfig, repos: seq<string>, now: int): Exec {
    if c.dryRun then BeforeDeletes(env, w, c, repos, now)
    else ExecPlans(env, BeforeDeletes(env, w, c, repos, now), PlansOf(env, w, c, repos, now))
  }

  ghost function Run(env: Env, w: World, c: RunConfig, repos: seq<string>, now: int): (World, RunResult) {
    if c.keepFileMissing then (w, RunResult(false, c.dryRun, 0, 0, 0, 0, [KeepFileError], map[]))
    else
      var planned := BeforeDeletes(env, w, c, repos, now).repositories;
      var ex := AfterDeletes(env, w, c, repos, now);
      (ex.world,
       RunResult(ex.errors == [], c.dryRun, |Catalog(c, repos)|, TotalCandidates(planned), |ex.done|,
                 Sum(planned.Keys, FreedIn(planned)), ex.errors, ex.repositories))
  }

  /** RunPurgeOldTags. `repos` is the catalog and `now` the clock reading of the run. */
  method RunPurgeOldTags(client: Client, c: RunConfig, repos: seq<string>, now: int) returns (result: RunResult)
    modifies client
    ensures (client.State(), result) == Run(client.env, old(client.State()), c, repos, now)
  {
    result := RunResult(true, c.dryRun, 0, 0, 0, 0, [], map[]);
    if c.keepFileMissing {
      assert [] + [KeepFileError] == [KeepFileError];
      return AddError(result, KeepFileError);
    }
    var catalog := ChooseCatalog(c, repos);
    result := result.(repoCount := |catalog|);
    var dated, sizes;
    dated, sizes, result := ScanCatalog(client, catalog, result);
    var plans, repositories, candidates := PlanAll(c.policy, now, dated, sizes);
    var freed := TotalFreed(repositories);
    result := result.(repositories := repositories, candidates := candidates, freed := freed);
    ghost var ex := Exec(client.State(), [], result.errors, repositories);
    ex, result := DeletePlanned(client, c.dryRun, plans, ex, result);
  }
}

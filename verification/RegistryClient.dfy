/** The registry client of registry/client.go: its cache, and the remote registry as the client sees it. */
module RegistryClient {
  import opened Selection
  import opened Text

  /** A tag of a repository and the digest of the manifest it points to. */
  datatype Tagged = Tagged(tag: string, digest: string)

  /** The remote registry: for each repository its tags in listing order. */
  type Registry = map<string, seq<Tagged>>

  /** `created` counts from the zero time, so 0 is Go's zero time: an image index, or a manifest without a date. */
  datatype ImageInfo = ImageInfo(created: int, size: int)

  /**
   Everything outside the client. Remote calls are numbered: call `n` fails if `refuses(n)`, and just before it other
   users of the registry apply `drift(n)`. `holdsUntagged(n)` tells whether the registry still has the manifest that
   call `n` asks to delete when no tag points to it any more. A digest determines its image.
   */
  datatype Env = Env(
    refuses: nat -> bool, drift: (nat, Registry) -> Registry, holdsUntagged: nat -> bool, image: string -> ImageInfo)

  /** The remote registry, the tag cache, the number of remote calls so far and the DeleteTag requests so far. */
  datatype World = World(
    registry: Registry, cache: map<string, seq<string>>, calls: nat, deletes: seq<(string, string)>)

  function Tags(entries: seq<Tagged>): (tags: seq<string>)
    ensures |tags| == |entries|
  {
    seq(|entries|, i requires 0 <= i < |entries| => entries[i].tag)
  }

  function DigestOf(entries: seq<Tagged>, tag: string): Option<string> {
    if entries == [] then None
    else if entries[0].tag == tag then Some(entries[0].digest)
    else DigestOf(entries[1..], tag)
  }

  function Lookup(registry: Registry, repo: string, tag: string): Option<string> {
    if repo in registry then DigestOf(registry[repo], tag) else None
  }

  /** How many characters of a reference come before its last colon; all of them if there is none. */
  function LastColon(ref: string): (k: nat)
    ensures k <= |ref|
    ensures if ':' in ref then k < |ref| && ref[k] == ':' && ':' !in ref[k + 1..] else k == |ref|
  {
    if ':' !in ref then |ref|
    else if ref[|ref| - 1] == ':' then |ref| - 1
    else
      assert ref == ref[..|ref| - 1] + [ref[|ref| - 1]];
      LastColon(ref[..|ref| - 1])
  }

  /** The repository and the tag of `repo:tag`; the tag is what follows the last colon. */
  function SplitRef(ref: string): (string, string) {
    var k := LastColon(ref);
    if k == |ref| then (ref, "latest") else (ref[..k], ref[k + 1..])
  }

  function Ref(repo: string, tag: string): string {
    repo + ":" + tag
  }

  /** A reference determines its repository and its tag, because tags contain no colon. */
  lemma SplitRefOfRef(repo: string, tag: string)
    requires ':' !in tag
    ensures SplitRef(Ref(repo, tag)) == (repo, tag)
  {
    var ref := Ref(repo, tag);
    assert ref[|repo|] == ':' && ref[|repo| + 1..] == tag;
    LastColonUnique(ref, |repo|);
    assert ref[..|repo|] == repo;
  }

  /** Without a tag a reference means the tag `latest`. */
  lemma SplitBareRef(repo: string)
    requires ':' !in repo
    ensures SplitRef(repo) == (repo, "latest")
  {
  }

  lemma {:induction false} LastColonUnique(ref: string, i: nat)
    requires i < |ref| && ref[i] == ':' && ':' !in ref[i + 1..]
    ensures LastColon(ref) == i
  {
  }

  lemma RefInjective(repo: string, tag: string, repo': string, tag': string)
    requires ':' !in tag && ':' !in tag' && Ref(repo, tag) == Ref(repo', tag')
    ensures repo == repo' && tag == tag'
  {
    SplitRefOfRef(repo, tag);
    SplitRefOfRef(repo', tag');
  }

  // ---------- The operations, on values ----------

  /** The state in which call number `w.calls` is served. */
  function Call(env: Env, w: World): World {
    w.(registry := env.drift(w.calls, w.registry), calls := w.calls + 1)
  }

  /** FetchAndCacheTagsForRepo; `None` stands for Go's nil. */
  function Fetch(env: Env, w: World, repo: string): (World, Option<seq<string>>) {
    var w1 := Call(env, w);
    if env.refuses(w.calls) || repo !in w1.registry then (w1, None)
    else
      var tags := Tags(w1.registry[repo]);
      (w1.(cache := w1.cache[repo := tags]), Some(tags))
  }

  /** GetImageInfo, as far as the purge uses it. */
  function GetInfo(env: Env, w: World, imageRef: string): (World, Option<ImageInfo>) {
    var w1 := Call(env, w);
    var (repo, tag) := SplitRef(imageRef);
    var digest := Lookup(w1.registry, repo, tag);
    (w1, if env.refuses(w.calls) || digest.None? then None else Some(env.image(digest.value)))
  }

  /** One pass of RefreshTags over the catalog. */
  function FetchAll(env: Env, w: World, repos: seq<string>): World {
    if repos == [] then w else Fetch(env, FetchAll(env, w, repos[..|repos| - 1]), repos[|repos| - 1]).0
  }

  function HasDigest(digest: string): Tagged -> bool {
    (e: Tagged) => e.digest == digest
  }

  function IsTag(tag: string): string -> bool {
    (t: string) => t == tag
  }

  predicate IsTagged(entries: seq<Tagged>, digest: string) {
    exists e :: e in entries && e.digest == digest
  }

  /** Deleting by digest removes every tag of the repository that points to it. */
  function WithoutDigest(registry: Registry, repo: string, digest: string): Registry
    requires repo in registry
  {
    registry[repo := Select(registry[repo], Not(HasDigest(digest)))]
  }

  function WithoutTag(cache: map<string, seq<string>>, repo: string, tag: string): map<string, seq<string>> {
    if repo in cache then cache[repo := Select(cache[repo], Not(IsTag(tag)))] else cache
  }

  /** DeleteTag: resolve the tag to a digest, delete by digest, then filter the cached list by name. */
  function Delete(env: Env, w: World, repo: string, tag: string): (World, bool) {
    var w0 := w.(deletes := w.deletes + [(repo, tag)]);
    var w1 := Call(env, w0);
    var (remoteRepo, remoteTag) := SplitRef(Ref(repo, tag));
    var digest := Lookup(w1.registry, remoteRepo, remoteTag);
    if env.refuses(w0.calls) || digest.None? then (w1, false)
    else
      var w2 := Call(env, w1);
      if env.refuses(w1.calls) || remoteRepo !in w2.registry
         || (!IsTagged(w2.registry[remoteRepo], digest.value) && !env.holdsUntagged(w1.calls)) then (w2, false)
      else
        var registry := WithoutDigest(w2.registry, remoteRepo, digest.value);
        (w2.(registry := registry, cache := WithoutTag(w2.cache, repo, tag)), true)
  }

  // ---------- The operations, as methods of the client ----------

  class Client {
    const env: Env
    var registry: Registry                       // the remote end
    var calls: nat                               // remote calls made so far
    var deletes: seq<(string, string)>           // DeleteTag requests so far
    var tagsCache: map<string, seq<string>>

    function State(): World
      reads this
    {
      World(registry, tagsCache, calls, deletes)
    }

    constructor (env: Env, registry: Registry)
      ensures this.env == env && State() == World(registry, map[], 0, [])
    {
      this.env, this.registry, this.calls, this.deletes, this.tagsCache := env, registry, 0, [], map[];
    }

    method RemoteCall() returns (served: bool)
      modifies this
      ensures State() == Call(env, old(State())) && served == !env.refuses(old(calls))
    {
      registry := env.drift(calls, registry);
      served := !env.refuses(calls);
      calls := calls + 1;
    }

    method FetchAndCacheTagsForRepo(repo: string) returns (tags: Option<seq<string>>)
      modifies this
      ensures (State(), tags) == Fetch(env, old(State()), repo)
    {
      var served := RemoteCall();
      if !served || repo !in registry {
        return None;
      }
      var listed := Tags(registry[repo]);
      tagsCache := tagsCache[repo := listed];
      return Some(listed);
    }

    method GetImageInfo(imageRef: string) returns (info: Option<ImageInfo>)
      modifies this
      ensures (State(), info) == GetInfo(env, old(State()), imageRef)
    {
      var served := RemoteCall();
      var (repo, tag) := SplitRef(imageRef);
      var digest := Lookup(registry, repo, tag);
      if !served || digest.None? {
        return None;
      }
      return Some(env.image(digest.value));
    }

    method DeleteTag(repoPath: string, tag: string) returns (ok: bool)
      modifies this
      ensures (State(), ok) == Delete(env, old(State()), repoPath, tag)
    {
      deletes := deletes + [(repoPath, tag)];
      var imageRef := repoPath + ":" + tag;
      var (repo, name) := SplitRef(imageRef);
      var served := RemoteCall();
      var digest := Lookup(registry, repo, name);
      if !served || digest.None? {
        return false;
      }
      served := RemoteCall();
      if !served || repo !in registry || (!IsTagged(registry[repo], digest.value) && !env.holdsUntagged(calls - 1)) {
        return false;
      }
      registry := WithoutDigest(registry, repo, digest.value);
      if repoPath in tagsCache {
        var cachedTags := tagsCache[repoPath];
        var updatedTags := FilterOut(cachedTags, tag);
        tagsCache := tagsCache[repoPath := updatedTags];
      }
      return true;
    }

    method RefreshTagsOnce(repos: seq<string>)
      modifies this
      ensures State() == FetchAll(env, old(State()), repos)
    {
      for i := 0 to |repos|
        invariant State() == FetchAll(env, old(State()), repos[..i])
      {
        assert repos[..i + 1][..i] == repos[..i];
        var _ := FetchAndCacheTagsForRepo(repos[i]);
      }
      assert repos[..|repos|] == repos;
    }

    /** ListTags; the two configuration values are parameters. The flag says whether the list is a cached one. */
    method ListTags(repo: string, maxCount: int, asyncRefreshInterval: int) returns (tags: seq<string>, cached: bool)
      modifies this
      ensures var w := old(State());
              var online := asyncRefreshInterval == 0
                || (maxCount > 0 && repo in w.cache && |w.cache[repo]| <= maxCount);
              && (online ==> State() == Fetch(env, w, repo).0 && cached == Fetch(env, w, repo).1.Some?)
              && (!online ==> State() == w && cached == (repo in w.cache))
              && (cached ==> repo in tagsCache && tags == tagsCache[repo])
              && (!cached ==> tags == [])
    {
      var found := repo in tagsCache;
      var cachedTags := if found then tagsCache[repo] else [];
      var tagCount := |cachedTags|;
      if asyncRefreshInterval == 0 || (maxCount > 0 && found && tagCount <= maxCount) {
        var fetched := FetchAndCacheTagsForRepo(repo);
        if fetched.Some? {
          return fetched.value, true;
        }
        return [], false;
      }
      if found {
        return cachedTags, true;
      }
      return [], false;
    }
  }

  /** The loop of DeleteTag over a cached list. */
  method FilterOut(cachedTags: seq<string>, tag: string) returns (updatedTags: seq<string>)
    ensures updatedTags == Select(cachedTags, Not(IsTag(tag)))
  {
    updatedTags := [];
    for i := 0 to |cachedTags|
      invariant updatedTags == Select(cachedTags[..i], Not(IsTag(tag)))
    {
      assert cachedTags[..i + 1][..i] == cachedTags[..i];
      if cachedTags[i] != tag {
        updatedTags := updatedTags + [cachedTags[i]];
      }
    }
    assert cachedTags[..|cachedTags|] == cachedTags;
  }
}

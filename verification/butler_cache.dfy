/**
  ButlerCache: the server's cache of repositories, their archives and the
  file lists of archives. A lookup answers from the cache where it can and
  calls borg (through BorgCommands) where it cannot. The two caches are
  maps; the borg commands a lookup issues are logged in `invoked`, so that
  hits and misses can be told apart.
*/
module ButlerCache {
  import opened Wrappers
  import opened Text
  import opened BorgJson
  import opened Data
  import opened Commands
  import opened BorgCommands

  /** An entry of the repository cache: a stored repository, or one that
      cannot be read back (a deserialisation failure). A missing key is a
      cache without the entry; the cache holds no null values. */
  datatype CacheEntry = Stored(repository: Repository) | Unreadable

  /** The key of a cached file list: repository and archive name. */
  datatype FileListKey = FileListKey(repo: string, archive: string)

  /** The configured repositories (their ids are learnt from borg), the
      repository cache, the file-list cache and the borg commands issued so
      far. */
  datatype Cache = Cache(
    configs: seq<RepoConfig>,
    repos: map<string, CacheEntry>,
    fileLists: map<FileListKey, seq<FilesystemItem>>,
    invoked: seq<BorgCommand>)

  /** The file-list cache never holds an empty list. */
  predicate Valid(c: Cache) {
    forall k :: k in c.fileLists ==> c.fileLists[k] != []
  }

  // ---------------------------------------------------------------------
  // Repositories
  // ---------------------------------------------------------------------

  /** A configuration answers to its repository location and to its id. */
  predicate ConfigMatches(rc: RepoConfig, key: string) {
    rc.repo == key || rc.id == Some(key)
  }

  /** Configuration.getRepoConfig: the first configuration that answers to
      the key. */
  function FindConfig(configs: seq<RepoConfig>, key: string): (r: Option<nat>)
    ensures r.Some? ==> r.value < |configs| && ConfigMatches(configs[r.value], key)
                        && forall j :: 0 <= j < r.value ==> !ConfigMatches(configs[j], key)
    ensures r.None? ==> forall j :: 0 <= j < |configs| ==> !ConfigMatches(configs[j], key)
  {
    FindConfigFrom(configs, key, 0)
  }

  function FindConfigFrom(configs: seq<RepoConfig>, key: string, i: nat): (r: Option<nat>)
    requires i <= |configs|
    requires forall j :: 0 <= j < i ==> !ConfigMatches(configs[j], key)
    ensures r.Some? ==> i <= r.value < |configs| && ConfigMatches(configs[r.value], key)
                        && forall j :: 0 <= j < r.value ==> !ConfigMatches(configs[j], key)
    ensures r.None? ==> forall j :: 0 <= j < |configs| ==> !ConfigMatches(configs[j], key)
    decreases |configs| - i
  {
    if i == |configs| then None
    else if ConfigMatches(configs[i], key) then Some(i)
    else FindConfigFrom(configs, key, i + 1)
  }

  /** The repository the cache holds under `key`, if it can be read. */
  function Cached(c: Cache, key: string): Option<Repository> {
    if key in c.repos && c.repos[key].Stored? then Some(c.repos[key].repository) else None
  }

  /** A usable entry: present, readable, not null and with a location. */
  predicate IsHit(c: Cache, key: string) {
    Cached(c, key).Some? && Cached(c, key).value.location.Some?
  }

  /** getRepository(repoConfig), for the configuration at index `i`. A hit
      is returned without calling borg. Anything else (no entry, an
      unreadable one, one without a location) calls `borg info`; a
      repository found is stored and teaches the configuration its id,
      while no repository leaves both caches as they were. */
  function GetRepositoryAt(c: Cache, i: nat, borg: Borg): (r: (Cache, Option<Repository>))
    requires i < |c.configs|
    ensures var rc := c.configs[i];
            && (IsHit(c, rc.repo) ==> r.1 == Cached(c, rc.repo) && r.0.repos == c.repos && r.0.invoked == c.invoked)
            && (!IsHit(c, rc.repo) ==>
                  && r.1 == RepositoryInfo(borg, rc).content
                  && r.0.repos == (if r.1.Some? then c.repos[rc.repo := Stored(r.1.value)] else c.repos)
                  && r.0.invoked == c.invoked + [InfoCommand(rc)])
            && r.0.configs == c.configs[i := if r.1.Some? then rc.(id := r.1.value.id) else rc]
            && r.0.fileLists == c.fileLists
  {
    LookupAt(c, i, InfoOf(borg))
  }

  /** What borg info answers for each configuration. */
  function InfoOf(borg: Borg): RepoConfig -> Option<Repository> {
    rc => RepositoryInfo(borg, rc).content
  }

  /** The lookup of configuration `i` when borg info answers as `info`
      does. */
  function LookupAt(c: Cache, i: nat, info: RepoConfig -> Option<Repository>): (r: (Cache, Option<Repository>))
    requires i < |c.configs|
    ensures var rc := c.configs[i];
            && r.1 == Answer(c, rc, info(rc))
            && (IsHit(c, rc.repo) ==> r.0.repos == c.repos && r.0.invoked == c.invoked)
            && (!IsHit(c, rc.repo) ==>
                  && r.0.repos == (if r.1.Some? then c.repos[rc.repo := Stored(r.1.value)] else c.repos)
                  && r.0.invoked == c.invoked + [InfoCommand(rc)])
            && r.0.configs == c.configs[i := if r.1.Some? then rc.(id := r.1.value.id) else rc]
            && r.0.fileLists == c.fileLists
  {
    var rc := c.configs[i];
    if IsHit(c, rc.repo) then
      var repo := Cached(c, rc.repo).value;
      (c.(configs := c.configs[i := rc.(id := repo.id)]), Some(repo))
    else
      var c1 := c.(invoked := c.invoked + [InfoCommand(rc)]);
      match info(rc)
      case None => (c1, None)
      case Some(repo) =>
        (c1.(repos := c.repos[rc.repo := Stored(repo)], configs := c.configs[i := rc.(id := repo.id)]), Some(repo))
  }

  /** The answer of a lookup of `rc` in `c` when borg info would answer
      `fetched`: the cached repository on a hit, `fetched` otherwise. */
  function Answer(c: Cache, rc: RepoConfig, fetched: Option<Repository>): Option<Repository> {
    if IsHit(c, rc.repo) then Cached(c, rc.repo) else fetched
  }

  /** The same lookup as written: the result of `borg info` is put into
      the cache even when it is null, which the cache rejects with an
      exception (None here). */
  function GetRepositoryAtAsWritten(c: Cache, i: nat, borg: Borg): (r: Option<(Cache, Option<Repository>)>)
    requires i < |c.configs|
    ensures r.None? <==> !IsHit(c, c.configs[i].repo) && RepositoryInfo(borg, c.configs[i]).content.None?
    ensures r.Some? ==> r.value == GetRepositoryAt(c, i, borg)
  {
    var rc := c.configs[i];
    if !IsHit(c, rc.repo) && RepositoryInfo(borg, rc).content.None? then None
    else Some(GetRepositoryAt(c, i, borg))
  }

  /** The input that shows it: with a blank borg executable and nothing
      cached, info yields no repository, and the lookup as written fails
      on storing it, while the corrected lookup answers none and caches
      nothing. */
  lemma GetRepositoryAtBlankExecutable(c: Cache, i: nat, borg: Borg)
    requires i < |c.configs| && c.configs[i].repo !in c.repos
    requires borg.executable.Some? && IsBlank(borg.executable.value)
    ensures GetRepositoryAtAsWritten(c, i, borg).None?
    ensures GetRepositoryAt(c, i, borg) == (c.(invoked := c.invoked + [InfoCommand(c.configs[i])]), None)
  {
    FillErrorStringBlankExecutable(borg, c.configs[i]);
  }

  /** A cached repository that was stored without a location is fetched
      again, as is one that cannot be read back. */
  lemma LocationlessEntryIsRefetched(c: Cache, i: nat, borg: Borg)
    requires i < |c.configs|
    requires var key := c.configs[i].repo;
             key in c.repos && (c.repos[key].Unreadable? || c.repos[key].repository.location.None?)
    ensures GetRepositoryAt(c, i, borg).0.invoked == c.invoked + [InfoCommand(c.configs[i])]
  {
  }

  /** A lookup that returned a repository with a location leaves it in the
      cache: the next lookup is a hit with the same answer, and borg is not
      called again. */
  lemma FetchThenHit(c: Cache, i: nat, borg: Borg)
    requires i < |c.configs|
    ensures var (c1, r1) := GetRepositoryAt(c, i, borg);
            r1.Some? && r1.value.location.Some? ==>
              var (c2, r2) := GetRepositoryAt(c1, i, borg);
              c2.invoked == c1.invoked && r2 == r1
  {
    var key := c.configs[i].repo;
    var (c1, r1) := GetRepositoryAt(c, i, borg);
    assert c1.configs[i].repo == key;
    if r1.Some? && r1.value.location.Some? {
      if IsHit(c, key) {
        assert c1.repos == c.repos;
      } else {
        assert c1.repos[key] == Stored(r1.value);
      }
      assert Cached(c1, key) == r1;
    }
  }

  /** No two configurations share a repository location. */
  predicate DistinctRepos(configs: seq<RepoConfig>) {
    forall a, b :: 0 <= a < b < |configs| ==> configs[a].repo != configs[b].repo
  }

  /** The repositories found, in order, skipping the lookups that found none. */
  function Present(found: seq<Option<Repository>>): (r: seq<Repository>)
    ensures |r| <= |found|
    ensures forall k :: 0 <= k < |found| && found[k].Some? ==> found[k].value in r
  {
    if found == [] then []
    else if found[0].Some? then [found[0].value] + Present(found[1..])
    else Present(found[1..])
  }

  /** What looking up configurations `i` onwards, each in the cache `c` as
      it stands, would answer. */
  function Lookups(c: Cache, i: nat, info: RepoConfig -> Option<Repository>): (r: seq<Option<Repository>>)
    requires i <= |c.configs|
    ensures |r| == |c.configs| - i
    decreases |c.configs| - i
  {
    if i == |c.configs| then [] else [Answer(c, c.configs[i], info(c.configs[i]))] + Lookups(c, i + 1, info)
  }

  /** Two caches that agree on the configurations from `j` on and on what
      they hold for those configurations' repositories answer the same
      lookups from `j` on. */
  lemma {:induction false} LookupsAgree(c: Cache, c': Cache, j: nat, info: RepoConfig -> Option<Repository>)
    requires j <= |c.configs| == |c'.configs|
    requires forall k :: j <= k < |c.configs| ==> c'.configs[k] == c.configs[k]
    requires forall k :: j <= k < |c.configs| ==> Cached(c', c.configs[k].repo) == Cached(c, c.configs[k].repo)
    ensures Lookups(c', j, info) == Lookups(c, j, info)
    decreases |c.configs| - j
  {
    if j < |c.configs| {
      LookupsAgree(c, c', j + 1, info);
    }
  }

  /** getAllRepositories, from configuration `i` on: the repository of each
      configuration in order, skipping those without one. Each
      configuration costs at most one `borg info` and may learn its id;
      nothing else about the configurations changes. */
  function AllRepositoriesFrom(c: Cache, i: nat, info: RepoConfig -> Option<Repository>): (r: (Cache, seq<Repository>))
    requires i <= |c.configs|
    ensures |r.0.configs| == |c.configs| && r.0.fileLists == c.fileLists
    ensures r.0.configs[..i] == c.configs[..i]
    ensures forall j :: i <= j < |c.configs| ==> r.0.configs[j] == c.configs[j].(id := r.0.configs[j].id)
    ensures |r.1| <= |c.configs| - i
    ensures |c.invoked| <= |r.0.invoked| <= |c.invoked| + (|c.configs| - i)
    ensures r.0.invoked[..|c.invoked|] == c.invoked
    decreases |c.configs| - i
  {
    if i == |c.configs| then (c, [])
    else
      var (c1, repo) := LookupAt(c, i, info);
      var (c2, rest) := AllRepositoriesFrom(c1, i + 1, info);
      LookupKeepsConfigs(c, i, info);
      assert c2.configs[..i] == c2.configs[..i + 1][..i];
      assert c2.invoked[..|c.invoked|] == c2.invoked[..|c1.invoked|][..|c.invoked|];
      if repo.Some? then (c2, [repo.value] + rest) else (c2, rest)
  }

  /** When every configuration from `i` on is cached, getAllRepositories
      does not call borg, leaves the repository cache as it was and
      answers the cached repositories, one per configuration, in order. */
  lemma {:induction false} AllRepositoriesOnHits(c: Cache, i: nat, info: RepoConfig -> Option<Repository>)
    requires i <= |c.configs|
    requires forall j :: i <= j < |c.configs| ==> IsHit(c, c.configs[j].repo)
    ensures var (c2, all) := AllRepositoriesFrom(c, i, info);
            && c2.invoked == c.invoked && c2.repos == c.repos
            && |all| == |c.configs| - i
            && forall k :: 0 <= k < |all| ==> Some(all[k]) == Cached(c, c.configs[i + k].repo)
    decreases |c.configs| - i
  {
    if i < |c.configs| {
      var (c1, repo) := LookupAt(c, i, info);
      LookupOnHits(c, i, info);
      AllRepositoriesOnHits(c1, i + 1, info);
      var (c2, rest) := AllRepositoriesFrom(c1, i + 1, info);
      assert AllRepositoriesFrom(c, i, info) == (c2, [repo.value] + rest);
      LookupKeepsConfigs(c, i, info);
      CachedInOrder(c, c1, i, repo.value, rest);
    }
  }

  /** The cached repository of configuration `i`, followed by the cached
      repositories of the later configurations in an equal repository
      cache, are the cached repositories from `i` on. */
  lemma CachedInOrder(c: Cache, c1: Cache, i: nat, first: Repository, rest: seq<Repository>)
    requires i < |c.configs| == |c1.configs| && c1.repos == c.repos
    requires forall j :: 0 <= j < |c.configs| ==> c1.configs[j].repo == c.configs[j].repo
    requires Some(first) == Cached(c, c.configs[i].repo)
    requires |rest| == |c.configs| - i - 1
    requires forall k :: 0 <= k < |rest| ==> Some(rest[k]) == Cached(c1, c1.configs[i + 1 + k].repo)
    ensures forall k :: 0 <= k < |rest| + 1 ==> Some(([first] + rest)[k]) == Cached(c, c.configs[i + k].repo)
  {
    forall k | 0 <= k < |rest| + 1 ensures Some(([first] + rest)[k]) == Cached(c, c.configs[i + k].repo) {
      if k > 0 {
        assert ([first] + rest)[k] == rest[k - 1];
        assert c1.configs[i + 1 + (k - 1)].repo == c.configs[i + k].repo;
      }
    }
  }

  /** With distinct repositories, getAllRepositories from `i` on answers
      what each configuration's own lookup in the starting cache answers,
      in order, skipping those without a repository. */
  lemma {:induction false} AllRepositoriesDistinct(c: Cache, i: nat, info: RepoConfig -> Option<Repository>)
    requires i <= |c.configs| && DistinctRepos(c.configs)
    ensures AllRepositoriesFrom(c, i, info).1 == Present(Lookups(c, i, info))
    decreases |c.configs| - i
  {
    if i < |c.configs| {
      var (c1, repo) := LookupAt(c, i, info);
      LookupOnDistinct(c, i, info);
      AllRepositoriesDistinct(c1, i + 1, info);
      assert Lookups(c, i, info) == [repo] + Lookups(c, i + 1, info);
    }
  }

  /** One lookup changes only the id of the configuration looked up. */
  lemma LookupKeepsConfigs(c: Cache, i: nat, info: RepoConfig -> Option<Repository>)
    requires i < |c.configs|
    ensures var c1 := LookupAt(c, i, info).0;
            && (forall j :: 0 <= j < |c.configs| ==> c1.configs[j].repo == c.configs[j].repo)
            && (forall j :: 0 <= j < |c.configs| && j != i ==> c1.configs[j] == c.configs[j])
  {
  }

  /** When every configuration from `i` on is cached, the first lookup
      answers from the cache and changes nothing the later ones depend
      on. */
  lemma LookupOnHits(c: Cache, i: nat, info: RepoConfig -> Option<Repository>)
    requires i < |c.configs|
    requires forall j :: i <= j < |c.configs| ==> IsHit(c, c.configs[j].repo)
    ensures var (c1, repo) := LookupAt(c, i, info);
            && c1.repos == c.repos && c1.invoked == c.invoked
            && repo == Cached(c, c.configs[i].repo) && repo.Some?
            && (forall j :: i < j < |c.configs| ==> IsHit(c1, c1.configs[j].repo))
            && Lookups(c1, i + 1, info) == Lookups(c, i + 1, info)
  {
    var (c1, repo) := LookupAt(c, i, info);
    assert IsHit(c, c.configs[i].repo);
    LookupKeepsConfigs(c, i, info);
    LookupsAgree(c, c1, i + 1, info);
  }

  /** With distinct repositories, the first lookup changes nothing the
      later ones depend on. */
  lemma LookupOnDistinct(c: Cache, i: nat, info: RepoConfig -> Option<Repository>)
    requires i < |c.configs| && DistinctRepos(c.configs)
    ensures var c1 := LookupAt(c, i, info).0;
            DistinctRepos(c1.configs) && Lookups(c1, i + 1, info) == Lookups(c, i + 1, info)
  {
    var c1 := LookupAt(c, i, info).0;
    var key := c.configs[i].repo;
    LookupKeepsConfigs(c, i, info);
    forall k | i + 1 <= k < |c.configs| ensures Cached(c1, c.configs[k].repo) == Cached(c, c.configs[k].repo) {
      assert c.configs[k].repo != key;
    }
    LookupsAgree(c, c1, i + 1, info);
  }

  /** getAllRepositories: the repositories of all configurations; with
      distinct repositories, each configuration's own lookup, in order.
      AllRepositoriesOnHits says what it answers when all are cached. */
  function AllRepositories(c: Cache, borg: Borg): (r: (Cache, seq<Repository>))
    ensures r == AllRepositoriesFrom(c, 0, InfoOf(borg))
    ensures |r.0.configs| == |c.configs| && r.0.fileLists == c.fileLists
    ensures forall j :: 0 <= j < |c.configs| ==> r.0.configs[j] == c.configs[j].(id := r.0.configs[j].id)
    ensures |r.1| <= |c.configs|
    ensures |c.invoked| <= |r.0.invoked| <= |c.invoked| + |c.configs| && r.0.invoked[..|c.invoked|] == c.invoked
    ensures DistinctRepos(c.configs) ==> r.1 == Present(Lookups(c, 0, InfoOf(borg)))
  {
    if DistinctRepos(c.configs) then
      AllRepositoriesDistinct(c, 0, InfoOf(borg)); AllRepositoriesFrom(c, 0, InfoOf(borg))
    else AllRepositoriesFrom(c, 0, InfoOf(borg))
  }

  /** A repository answers to its name and to its id. */
  predicate RepoMatches(r: Repository, key: string) {
    r.name == Some(key) || r.id == Some(key)
  }

  /** The index of the first repository that answers to the key. */
  function FindRepository(rs: seq<Repository>, key: string): (r: Option<nat>)
    ensures r.Some? ==> r.value < |rs| && RepoMatches(rs[r.value], key)
                        && forall j :: 0 <= j < r.value ==> !RepoMatches(rs[j], key)
    ensures r.None? ==> forall j :: 0 <= j < |rs| ==> !RepoMatches(rs[j], key)
  {
    FindRepositoryFrom(rs, key, 0)
  }

  function FindRepositoryFrom(rs: seq<Repository>, key: string, i: nat): (r: Option<nat>)
    requires i <= |rs|
    requires forall j :: 0 <= j < i ==> !RepoMatches(rs[j], key)
    ensures r.Some? ==> i <= r.value < |rs| && RepoMatches(rs[r.value], key)
                        && forall j :: 0 <= j < r.value ==> !RepoMatches(rs[j], key)
    ensures r.None? ==> forall j :: 0 <= j < |rs| ==> !RepoMatches(rs[j], key)
    decreases |rs| - i
  {
    if i == |rs| then None
    else if RepoMatches(rs[i], key) then Some(i)
    else FindRepositoryFrom(rs, key, i + 1)
  }

  /** ButlerCache.getRepository(idOrName): the repository of the first
      configuration that answers to the key; without one, the first of all
      configured repositories whose name or id is the key, or none. */
  function GetRepository(c: Cache, key: string, borg: Borg): (r: (Cache, Option<Repository>))
    ensures FindConfig(c.configs, key).Some? ==> r == GetRepositoryAt(c, FindConfig(c.configs, key).value, borg)
    ensures FindConfig(c.configs, key).None? ==>
              var all := AllRepositories(c, borg).1;
              var k := FindRepository(all, key);
              && r.0 == AllRepositories(c, borg).0
              && (r.1.Some? <==> k.Some?)
              && (r.1.Some? ==> r.1.value == all[k.value] && RepoMatches(r.1.value, key))
    ensures |r.0.configs| == |c.configs| && r.0.fileLists == c.fileLists
  {
    match FindConfig(c.configs, key)
    case Some(i) => GetRepositoryAt(c, i, borg)
    case None =>
      var (c1, all) := AllRepositories(c, borg);
      match FindRepository(all, key)
      case None => (c1, None)
      case Some(k) => (c1, Some(all[k]))
  }

  /** ButlerCache.getRepositoryArchives: no repository, no archives; a
      repository whose archives are loaded is returned without calling
      borg; otherwise `borg list` adds them, and the updated repository is
      what the cache holds afterwards. */
  function GetRepositoryArchives(c: Cache, key: string, borg: Borg): (r: (Cache, Option<Repository>))
    ensures var (c1, g) := GetRepository(c, key, borg);
            && (g.None? ==> r == (c1, None))
            && (g.Some? && g.value.archivesLoaded ==> r == (c1, g))
            && (r.0.invoked == c1.invoked || exists rc :: r.0.invoked == c1.invoked + [ListCommand(rc)])
            && (r.1.Some? ==> && g.Some? && r.1.value.id == g.value.id && r.1.value.name == g.value.name
                              && |g.value.archives| <= |r.1.value.archives|
                              && r.1.value.archives[..|g.value.archives|] == g.value.archives)
    ensures r.0.configs == GetRepository(c, key, borg).0.configs && r.0.fileLists == c.fileLists
  {
    var (c1, g) := GetRepository(c, key, borg);
    LoadArchives(c1, g, borg)
  }

  /** The part of getRepositoryArchives after the repository lookup, for the
      cache `c1` and the repository `g` it gave. */
  function LoadArchives(c1: Cache, g: Option<Repository>, borg: Borg): (r: (Cache, Option<Repository>))
    ensures g.None? ==> r == (c1, None)
    ensures g.Some? && g.value.archivesLoaded ==> r == (c1, g)
    ensures r.0.invoked == c1.invoked || exists rc :: r.0.invoked == c1.invoked + [ListCommand(rc)]
    ensures r.1.Some? ==> && g.Some? && r.1.value.id == g.value.id && r.1.value.name == g.value.name
                          && |g.value.archives| <= |r.1.value.archives|
                          && r.1.value.archives[..|g.value.archives|] == g.value.archives
    ensures r.0.configs == c1.configs && r.0.fileLists == c1.fileLists
  {
    if g.None? then (c1, None)
    else if g.value.archivesLoaded then (c1, g)
    else
      match (if g.value.name.Some? then FindConfig(c1.configs, g.value.name.value) else None)
      case None => (c1, g)
      case Some(i) =>
        var rc := c1.configs[i];
        var repo := ListArchives(borg, rc, g.value, RunCommand(borg, ListCommand(rc)));
        (c1.(repos := c1.repos[rc.repo := Stored(repo)], invoked := c1.invoked + [ListCommand(rc)]), Some(repo))
  }

  // ---------------------------------------------------------------------
  // Archives
  // ---------------------------------------------------------------------

  /** An archive answers to its name and to its id. */
  predicate ArchiveMatches(a: Archive, key: string) {
    a.name == Some(key) || a.id == Some(key)
  }

  /** The index of the first archive that answers to the key. */
  function FindArchive(archives: seq<Archive>, key: string): (r: Option<nat>)
    ensures r.Some? ==> r.value < |archives| && ArchiveMatches(archives[r.value], key)
                        && forall j :: 0 <= j < r.value ==> !ArchiveMatches(archives[j], key)
    ensures r.None? ==> forall j :: 0 <= j < |archives| ==> !ArchiveMatches(archives[j], key)
  {
    FindArchiveFrom(archives, key, 0)
  }

  function FindArchiveFrom(archives: seq<Archive>, key: string, i: nat): (r: Option<nat>)
    requires i <= |archives|
    requires forall j :: 0 <= j < i ==> !ArchiveMatches(archives[j], key)
    ensures r.Some? ==> i <= r.value < |archives| && ArchiveMatches(archives[r.value], key)
                        && forall j :: 0 <= j < r.value ==> !ArchiveMatches(archives[j], key)
    ensures r.None? ==> forall j :: 0 <= j < |archives| ==> !ArchiveMatches(archives[j], key)
    decreases |archives| - i
  {
    if i == |archives| then None
    else if ArchiveMatches(archives[i], key) then Some(i)
    else FindArchiveFrom(archives, key, i + 1)
  }

  /** getArchive(repoConfig, archiveIdOrName, forceReload): the first
      archive of the repository that answers to the key, or none. Its
      details are fetched with `borg info` exactly when a reload is forced
      or it has none yet; the updated archive then replaces it in the
      cached repository. */
  function GetArchiveOf(c: Cache, rc: RepoConfig, key: string, force: bool, borg: Borg): (r: (Cache, Option<Archive>))
    ensures var (c1, repo) := GetRepositoryArchives(c, rc.repo, borg);
            && (repo.None? ==> r == (c1, None))
            && (repo.Some? ==>
                  var found := FindArchive(repo.value.archives, key);
                  && (found.None? ==> r == (c1, None))
                  && (found.Some? ==>
                        var a := repo.value.archives[found.value];
                        && r.1.Some? && ArchiveMatches(r.1.value, key)
                        && (!force && HasInfoData(a) ==> r == (c1, Some(a)))
                        && (force || !HasInfoData(a) ==>
                              && r.0.invoked == c1.invoked + [ArchiveInfoCommand(rc, a)]
                              && r.1.value == ArchiveInfo(borg, rc, repo.value, a).1
                              && Cached(r.0, rc.repo).Some?
                              && Cached(r.0, rc.repo).value.archives == repo.value.archives[found.value := r.1.value])))
    ensures r.0.fileLists == c.fileLists
  {
    var (c1, repo) := GetRepositoryArchives(c, rc.repo, borg);
    if repo.None? then (c1, None)
    else
      match FindArchive(repo.value.archives, key)
      case None => (c1, None)
      case Some(k) =>
        var a := repo.value.archives[k];
        if !force && HasInfoData(a) then (c1, Some(a))
        else
          var (c2, a1) := RefreshArchive(c1, rc, repo.value, k, borg);
          (c2, Some(a1))
  }

  /** Fetches the details of archive `k` of the repository and writes the
      updated repository back into the cache. */
  function RefreshArchive(c: Cache, rc: RepoConfig, repo: Repository, k: nat, borg: Borg): (r: (Cache, Archive))
    requires k < |repo.archives|
    ensures r.0.invoked == c.invoked + [ArchiveInfoCommand(rc, repo.archives[k])]
    ensures r.1 == ArchiveInfo(borg, rc, repo, repo.archives[k]).1
    ensures r.1.name == repo.archives[k].name && r.1.id == repo.archives[k].id
    ensures Cached(r.0, rc.repo).Some? && Cached(r.0, rc.repo).value.archives == repo.archives[k := r.1]
    ensures r.0.fileLists == c.fileLists
  {
    var a := repo.archives[k];
    var (repo1, a1) := ArchiveInfo(borg, rc, repo, a);
    var repo2 := repo1.(archives := repo1.archives[k := a1]);
    (c.(repos := c.repos[rc.repo := Stored(repo2)], invoked := c.invoked + [ArchiveInfoCommand(rc, a)]), a1)
  }

  /** getArchive(repoIdOrName, archiveIdOrName, forceReload): nothing for
      a repository that is not configured. */
  function GetArchive(c: Cache, repoKey: string, key: string, force: bool, borg: Borg): (r: (Cache, Option<Archive>))
    ensures FindConfig(c.configs, repoKey).None? ==> r == (c, None)
    ensures FindConfig(c.configs, repoKey).Some? ==>
              r == GetArchiveOf(c, c.configs[FindConfig(c.configs, repoKey).value], key, force, borg)
    ensures r.1.Some? ==> ArchiveMatches(r.1.value, key)
  {
    match FindConfig(c.configs, repoKey)
    case None => (c, None)
    case Some(i) => GetArchiveOf(c, c.configs[i], key, force, borg)
  }

  /** A forced reload of an archive that is found always asks borg, even
      for an archive whose details are known. */
  lemma ForcedReloadAsksBorg(c: Cache, rc: RepoConfig, key: string, borg: Borg)
    ensures var (c1, repo) := GetRepositoryArchives(c, rc.repo, borg);
            repo.Some? && FindArchive(repo.value.archives, key).Some? ==>
              |GetArchiveOf(c, rc, key, true, borg).0.invoked| == |c1.invoked| + 1
  {
  }

  // ---------------------------------------------------------------------
  // File lists
  // ---------------------------------------------------------------------

  /** getArchiveContent(repoConfig, archive): nothing for a missing archive
      or one without a (non-blank) name; a cached list is returned without
      calling borg; otherwise the archive is listed, and a non-empty list
      is cached and returned while an empty or failed one yields nothing. */
  function GetArchiveContent(c: Cache, rc: RepoConfig, archive: Option<Archive>, borg: Borg): (r: (Cache, Option<seq<FilesystemItem>>))
    requires Valid(c)
    ensures Valid(r.0)
    ensures r.1.Some? ==> r.1.value != []
    ensures archive.None? || archive.value.name.None? || IsBlank(archive.value.name.value) ==> r == (c, None)
    ensures archive.Some? && archive.value.name.Some? && !IsBlank(archive.value.name.value) ==>
              var key := FileListKey(rc.repo, archive.value.name.value);
              && (key in c.fileLists ==> r == (c, Some(c.fileLists[key])))
              && (key !in c.fileLists ==>
                    var items := ListArchiveContent(borg, rc, archive.value);
                    var saved := items.Some? && items.value != [];
                    && r.0.invoked == c.invoked + [ListContentCommand(rc, archive.value)]
                    && r.0.repos == c.repos && r.0.configs == c.configs
                    && (key in r.0.fileLists <==> saved)
                    && r.0.fileLists == (if saved then c.fileLists[key := items.value] else c.fileLists)
                    && r.1 == (if saved then items else None))
  {
    if archive.None? || archive.value.name.None? || IsBlank(archive.value.name.value) then (c, None)
    else
      var key := FileListKey(rc.repo, archive.value.name.value);
      if key in c.fileLists then (c, Some(c.fileLists[key]))
      else SaveListing(c, key, ListContentCommand(rc, archive.value), ListArchiveContent(borg, rc, archive.value))
  }

  /** Records the listing call and caches the items it returned under
      `key`, unless there are none. */
  function SaveListing(c: Cache, key: FileListKey, cmd: BorgCommand, items: Option<seq<FilesystemItem>>)
    : (r: (Cache, Option<seq<FilesystemItem>>))
    requires Valid(c) && key !in c.fileLists
    ensures Valid(r.0)
    ensures var saved := items.Some? && items.value != [];
            && r.0.invoked == c.invoked + [cmd]
            && r.0.repos == c.repos && r.0.configs == c.configs
            && (key in r.0.fileLists <==> saved)
            && r.0.fileLists == (if saved then c.fileLists[key := items.value] else c.fileLists)
            && r.1 == (if saved then items else None)
  {
    var c1 := c.(invoked := c.invoked + [cmd]);
    if items.Some? && items.value != [] then (c1.(fileLists := c.fileLists[key := items.value]), items)
    else (c1, None)
  }

  /** After a listing was cached, the same archive is answered from the
      cache: borg is asked once. */
  lemma ContentCachedAfterListing(c: Cache, rc: RepoConfig, archive: Archive, borg: Borg)
    requires Valid(c) && archive.name.Some? && !IsBlank(archive.name.value)
    requires GetArchiveContent(c, rc, Some(archive), borg).1.Some?
    ensures var (c1, r1) := GetArchiveContent(c, rc, Some(archive), borg);
            GetArchiveContent(c1, rc, Some(archive), borg) == (c1, r1)
  {
  }

  // ---------------------------------------------------------------------
  // Clearing
  // ---------------------------------------------------------------------

  /** clearAllCaches: both caches are emptied; the configurations stay. */
  function ClearAllCaches(c: Cache): (r: Cache)
    ensures Valid(r)
    ensures forall key :: !IsHit(r, key)
    ensures forall key: FileListKey :: key !in r.fileLists
    ensures r.configs == c.configs && r.invoked == c.invoked
  {
    c.(repos := map[], fileLists := map[])
  }

  /** After clearing, every repository lookup goes to borg. */
  lemma ClearedRepositoryLookupCallsBorg(c: Cache, i: nat, borg: Borg)
    requires i < |c.configs|
    ensures GetRepositoryAt(ClearAllCaches(c), i, borg).0.invoked == c.invoked + [InfoCommand(c.configs[i])]
  {
    assert !IsHit(ClearAllCaches(c), c.configs[i].repo);
  }

  /** After clearing, every file-list lookup of a named archive goes to
      borg. */
  lemma ClearedContentLookupCallsBorg(c: Cache, rc: RepoConfig, archive: Archive, borg: Borg)
    requires archive.name.Some? && !IsBlank(archive.name.value)
    ensures GetArchiveContent(ClearAllCaches(c), rc, Some(archive), borg).0.invoked
            == c.invoked + [ListContentCommand(rc, archive)]
  {
  }
}

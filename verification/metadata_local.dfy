/** Metadata lookup from the files already on disk: a `repo:tag` name is
    resolved to its repository through the registry and to its
    descriptor through that repository's version list, and a
    descriptor's blob records are read from its descriptor file. */
module MetadataLocal {
  import opened Wrappers
  import opened Bytes
  import opened Types
  import Env
  import Parsing
  import RapidStore
  import Seqs

  // ---------------------------------------------------------------------
  // Repository names
  // ---------------------------------------------------------------------

  /** The text before the first `:`, or the whole name when there is
      none. Splitting always yields at least one part, so this never
      fails, not even on the empty name. */
  function Basename(fullname: string): (b: string)
    ensures ':' !in b
    ensures b <= fullname
    ensures |b| < |fullname| ==> fullname[|b|] == ':'
  {
    if |fullname| == 0 || fullname[0] == ':' then []
    else [fullname[0]] + Basename(fullname[1..])
  }

  /** Putting a repository name in front of a tag and taking the
      basename gives the name back. */
  lemma {:induction false} BasenameOfTagged(repo: string, tag: string)
    requires ':' !in repo
    ensures Basename(repo + ":" + tag) == repo
    ensures Basename(repo) == repo
    decreases |repo|
  {
    if |repo| > 0 {
      assert (repo + ":" + tag)[1..] == repo[1..] + ":" + tag;
      BasenameOfTagged(repo[1..], tag);
      assert repo == [repo[0]] + repo[1..];
    }
  }

  // ---------------------------------------------------------------------
  // Repositories in the registry
  // ---------------------------------------------------------------------

  /** `repo_registry.into_iter().find(|r| r.name == name)`. */
  function FindRepo(repos: seq<Repo>, name: string): Option<Repo> {
    match Seqs.FirstIndex(repos, (r: Repo) => r.name == name, 0)
    case None => None
    case Some(i) => Some(repos[i])
  }

  /** The repository found is the first with exactly that name; none is
      found only when no entry has it. */
  lemma FindRepoIsFirst(repos: seq<Repo>, name: string)
    ensures FindRepo(repos, name).None? <==> forall j :: 0 <= j < |repos| ==> repos[j].name != name
    ensures FindRepo(repos, name).Some? ==>
      exists k :: 0 <= k < |repos| && repos[k] == FindRepo(repos, name).value && repos[k].name == name
        && forall j :: 0 <= j < k ==> repos[j].name != name
  {
  }

  function ParseRegistry(codecs: Env.Codecs, disk: Env.Disk, root: Path): Result<seq<Repo>, Failure> {
    Parsing.ParseReposFromFile(codecs, disk, RapidStore.GetRegistryPath(root))
  }

  /** `query_repo`: a registry that cannot be read becomes `CorruptFile`;
      a malformed registry line is a panic inside the parser and stays
      one. */
  function QueryRepo(codecs: Env.Codecs, disk: Env.Disk, root: Path, basename: string): (r: Result<Option<Repo>, Failure>)
    ensures ParseRegistry(codecs, disk, root).Ok? ==> r == Ok(FindRepo(ParseRegistry(codecs, disk, root).value, basename))
    ensures ParseRegistry(codecs, disk, root).Err? ==>
      r.Err? && (r.error.Panic? <==> ParseRegistry(codecs, disk, root).error.Panic?)
    ensures r.Err? && !r.error.Panic? ==> r.error == CorruptFile
  {
    match ParseRegistry(codecs, disk, root)
    case Err(e) => if e.Panic? then Err(e) else Err(CorruptFile)
    case Ok(repos) => Ok(FindRepo(repos, basename))
  }

  // ---------------------------------------------------------------------
  // Descriptors
  // ---------------------------------------------------------------------

  /** `query_sdp`: `find_sdp` with its error turned into `CorruptFile`. */
  function QuerySdp(codecs: Env.Codecs, disk: Env.Disk, root: Path, repo: Repo, fullname: string): (r: Result<Option<Sdp>, Failure>)
    ensures RapidStore.FindSdp(codecs, disk, root, repo, fullname).Ok? ==> r == RapidStore.FindSdp(codecs, disk, root, repo, fullname)
    ensures RapidStore.FindSdp(codecs, disk, root, repo, fullname).Err? ==> r == Err(CorruptFile)
  {
    match RapidStore.FindSdp(codecs, disk, root, repo, fullname)
    case Err(_) => Err(CorruptFile)
    case Ok(found) => Ok(found)
  }

  /** `query_metadata`: the repository named before the first `:`, then
      the descriptor whose full name or alias is the whole name. */
  function QueryMetadata(codecs: Env.Codecs, disk: Env.Disk, root: Path, fullname: string): (r: Result<Option<(Repo, Sdp)>, Failure>)
    ensures r.Err? ==> r.error == CorruptFile || r.error.Panic?
    ensures r.Ok? && r.value.Some? ==>
      r.value.value.0.name == Basename(fullname) && RapidStore.NameMatches(r.value.value.1, fullname)
  {
    var repo :- QueryRepo(codecs, disk, root, Basename(fullname));
    match repo
    case None => Ok(None)
    case Some(repo) =>
      var sdp :- QuerySdp(codecs, disk, root, repo, fullname);
      match sdp
      case None => Ok(None)
      case Some(sdp) => Ok(Some((repo, sdp)))
  }

  /** What `query_metadata` answers, in terms of the registry and the
      version list: no repository with the basename gives `Ok(None)`; a
      repository found is the first with that name, and the descriptor is
      the first entry of its version list named by the whole name. */
  lemma QueryMetadataResolves(codecs: Env.Codecs, disk: Env.Disk, root: Path, fullname: string)
    ensures var r := QueryMetadata(codecs, disk, root, fullname);
      var reg := ParseRegistry(codecs, disk, root);
      && (reg.Err? ==> r.Err? && (r.error == CorruptFile || r.error.Panic?))
      && (reg.Ok? && FindRepo(reg.value, Basename(fullname)).None? ==> r == Ok(None))
      && (reg.Ok? && FindRepo(reg.value, Basename(fullname)).Some? ==>
            var repo := FindRepo(reg.value, Basename(fullname)).value;
            var found := RapidStore.FindSdp(codecs, disk, root, repo, fullname);
            && (found.Err? ==> r == Err(CorruptFile))
            && (found.Ok? && found.value.None? ==> r == Ok(None))
            && (found.Ok? && found.value.Some? ==> r == Ok(Some((repo, found.value.value)))))
    ensures var r := QueryMetadata(codecs, disk, root, fullname);
      r.Ok? && r.value.Some? ==>
        r.value.value.0.name == Basename(fullname) && RapidStore.NameMatches(r.value.value.1, fullname)
  {
    var reg := ParseRegistry(codecs, disk, root);
    if reg.Ok? && FindRepo(reg.value, Basename(fullname)).Some? {
      FindRepoIsFirst(reg.value, Basename(fullname));
    }
  }

  /** An unknown repository is answered from the registry alone: no other
      file is read, so changing any other file changes nothing. */
  lemma UnknownRepoReadsOnlyRegistry(codecs: Env.Codecs, disk: Env.Disk, root: Path, fullname: string, p: Path, contents: seq<byte>)
    requires p != RapidStore.GetRegistryPath(root)
    requires ParseRegistry(codecs, disk, root).Ok?
    requires FindRepo(ParseRegistry(codecs, disk, root).value, Basename(fullname)).None?
    ensures QueryMetadata(codecs, disk[p := contents], root, fullname) == QueryMetadata(codecs, disk, root, fullname) == Ok(None)
  {
    var reg := RapidStore.GetRegistryPath(root);
    assert disk[p := contents][reg] == disk[reg] by {
      assert reg in disk[p := contents] <==> reg in disk;
    }
    assert ParseRegistry(codecs, disk[p := contents], root) == ParseRegistry(codecs, disk, root);
  }

  // ---------------------------------------------------------------------
  // Blob records
  // ---------------------------------------------------------------------

  /** `query_sdp_files`: the descriptor file must exist (an `assert`) and
      must decode (an `expect`); either failure aborts. */
  function QuerySdpFiles(codecs: Env.Codecs, disk: Env.Disk, root: Path, sdp: Sdp): (r: Result<seq<SdpPackage>, Failure>)
    ensures r.Ok? <==>
      RapidStore.GetSdpPath(root, sdp) in disk && Parsing.LoadSdpPackagesFromFile(codecs, disk, RapidStore.GetSdpPath(root, sdp)).Ok?
    ensures r.Ok? ==> r == Parsing.LoadSdpPackagesFromFile(codecs, disk, RapidStore.GetSdpPath(root, sdp))
    ensures r.Err? ==> r.error.Panic?
  {
    var path := RapidStore.GetSdpPath(root, sdp);
    if path !in disk then Err(Panic("assertion failed: dest_sdp.exists()"))
    else match Parsing.LoadSdpPackagesFromFile(codecs, disk, path)
      case Err(_) => Err(Panic("Failed to load SDP Package from file"))
      case Ok(ps) => Ok(ps)
  }

  /** A descriptor file holding the compressed encoding of well-formed
      records gives exactly those records back. */
  lemma QuerySdpFilesRoundTrip(codecs: Env.Codecs, disk: Env.Disk, root: Path, sdp: Sdp, ps: seq<SdpPackage>)
    requires Parsing.AllWellFormed(ps)
    requires RapidStore.GetSdpPath(root, sdp) in disk
    requires codecs.gunzip(disk[RapidStore.GetSdpPath(root, sdp)]) == Some(Parsing.Encode(ps))
    ensures QuerySdpFiles(codecs, disk, root, sdp) == Ok(ps)
  {
    Parsing.DecodeEncode(ps);
  }
}

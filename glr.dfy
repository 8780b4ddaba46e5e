/**
 * The glr struct's operations: looking up the project, uploading local files
 * as assets, deleting an existing release and creating the new one, plus the
 * free function that lists the local files to upload.
 */
module Glr {
  import opened Wrappers
  import opened Service

  const DefaultGitLabEndpoint: string := "https://gitlab.com"
  const DefaultGitLabAPIEndpoint: string := DefaultGitLabEndpoint + "/api/v4"

  /** http.StatusOK */
  const StatusOK: int := 200

  /** The fields of the glr struct the workflow reads; the client is passed on its own. */
  datatype Config = Config(baseURL: string, projectPath: string, tag: string, title: string, description: string)

  /** An asset of the release: display name and URL. */
  datatype Asset = Asset(name: string, url: string)

  // ---------------------------------------------------------------- getProject

  datatype Project = Project(id: int, name: string)

  /** What GetProject came back with: a transport error, or a response with its status code. */
  datatype ProjectReply = CallFailed | Responded(status: int, project: Project)

  /** getProject: the project, unless the call failed or the status is anything but 200. */
  function GetProject(reply: ProjectReply): (r: Option<Project>)
    ensures r.Some? <==> reply.Responded? && reply.status == StatusOK
    ensures r.Some? ==> r.value == reply.project
  {
    match reply
    case CallFailed => None
    case Responded(status, project) => if status != StatusOK then None else Some(project)
  }

  // --------------------------------------------------------------- uploadFiles

  /** What UploadFile answers for one file: an error, or the file's Alt text and URL fragment. */
  datatype UploadReply = UploadFailed | Uploaded(alt: string, url: string)

  /**
   * The outcome uploadFiles must produce: no list at all if any upload
   * fails, otherwise one asset per file, in the files' order, named by the
   * server's Alt text and addressed as baseURL/projectPath + fragment.
   */
  function UploadAll(c: Config, files: seq<string>, reply: string -> UploadReply): (r: Option<seq<Asset>>)
    ensures r.None? <==> exists i :: 0 <= i < |files| && reply(files[i]).UploadFailed?
    ensures r.Some? ==> |r.value| == |files|
    ensures r.Some? ==> forall i :: 0 <= i < |files| ==>
      reply(files[i]).Uploaded? &&
      r.value[i] == Asset(reply(files[i]).alt, c.baseURL + "/" + c.projectPath + reply(files[i]).url)
    decreases |files|
  {
    if files == [] then Some([])
    else
      var tail := UploadAll(c, files[1..], reply);
      assert forall i :: 0 < i < |files| ==> files[i] == files[1..][i - 1];
      match reply(files[0])
      case UploadFailed => None
      case Uploaded(alt, url) =>
        if tail.None? then
          assert exists i :: 0 <= i < |files[1..]| && reply(files[1..][i]).UploadFailed?;
          None
        else Some([Asset(alt, c.baseURL + "/" + c.projectPath + url)] + tail.value)
  }

  /**
   * uploadFiles: every file is uploaded (the source runs them concurrently)
   * and each result goes into its own pre-allocated slot; the slots are
   * returned only if no upload failed.
   */
  method UploadFiles(c: Config, files: seq<string>, reply: string -> UploadReply) returns (r: Option<seq<Asset>>)
    ensures r == UploadAll(c, files, reply)
  {
    var assets := new Asset[|files|](_ => Asset("", ""));
    var failed := false;
    for i := 0 to |files|
      invariant failed <==> exists j :: 0 <= j < i && reply(files[j]).UploadFailed?
      invariant forall j :: 0 <= j < i && reply(files[j]).Uploaded? ==>
        assets[j] == Asset(reply(files[j]).alt, c.baseURL + "/" + c.projectPath + reply(files[j]).url)
    {
      match reply(files[i])
      case UploadFailed =>
        failed := true;
      case Uploaded(alt, url) =>
        assets[i] := Asset(alt, c.baseURL + "/" + c.projectPath + url);
    }
    if failed {
      r := None;
    } else {
      var expected := UploadAll(c, files, reply);
      assert assets[..] == expected.value;
      r := Some(assets[..]);
    }
  }

  // ------------------------------------------------------------- deleteRelease

  /** Index of the first link whose deletion the server rejects, or |links| when none is. */
  function FirstRejected(tag: string, links: seq<Link>, faults: set<Request>): (k: nat)
    ensures k <= |links|
    ensures forall j :: 0 <= j < k ==> RemoveLink(tag, links[j].id) !in faults
    ensures k < |links| ==> RemoveLink(tag, links[k].id) in faults
    decreases |links|
  {
    if links == [] || RemoveLink(tag, links[0].id) in faults then 0
    else 1 + FirstRejected(tag, links[1..], faults)
  }

  /**
   * What deleteRelease must leave behind. If the release cannot be fetched,
   * nothing changes. Otherwise its links are deleted in order; the first
   * rejected deletion stops everything, leaving that link and the ones after
   * it (and the release) in place; only when every link is gone is the
   * release itself deleted. Nothing is rolled back.
   */
  function ReplaceOutcome(s: Store, faults: set<Request>, tag: string): (r: (bool, Store))
    requires WellFormed(s)
    ensures WellFormed(r.1) && r.1.nextLinkId == s.nextLinkId
    ensures r.1.releases - {tag} == s.releases - {tag}
    ensures tag !in s.releases || Fetch(tag) in faults ==> r == (false, s)
    ensures r.0 <==>
      && tag in s.releases && Fetch(tag) !in faults
      && FirstRejected(tag, s.releases[tag].links, faults) == |s.releases[tag].links|
      && RemoveRelease(tag) !in faults
    ensures r.0 ==> tag !in r.1.releases
    ensures !r.0 ==> (tag in r.1.releases <==> tag in s.releases)
  {
    if tag !in s.releases || Fetch(tag) in faults then (false, s)
    else
      var rel := s.releases[tag];
      var k := FirstRejected(tag, rel.links, faults);
      if k == |rel.links| && RemoveRelease(tag) !in faults then
        (true, Store(s.releases - {tag}, s.nextLinkId))
      else
        var left := rel.(links := rel.links[k..]);
        var s' := Store(s.releases[tag := left], s.nextLinkId);
        assert forall l :: l in left.links ==> l in rel.links;
        assert s'.releases - {tag} == s.releases - {tag};
        (false, s')
  }

  /**
   * Whichever deletion is rejected, a link's or the release's own, the
   * release keeps exactly the links from the first rejected one on (none
   * when only the release deletion failed). ReplaceRejectedAt below is the
   * whole-store form of the link case, stated at a given index for the loop
   * in DeleteRelease.
   */
  lemma ReplaceStopsAtFirstRejection(s: Store, faults: set<Request>, tag: string)
    requires WellFormed(s) && tag in s.releases && Fetch(tag) !in faults
    requires !ReplaceOutcome(s, faults, tag).0
    ensures var rel := s.releases[tag];
      ReplaceOutcome(s, faults, tag).1.releases[tag] == rel.(links := rel.links[FirstRejected(tag, rel.links, faults)..])
  {
  }

  /** Once every link is deleted, the outcome is that of deleting the emptied release. */
  lemma ReplaceAfterAllLinks(s: Store, faults: set<Request>, tag: string)
    requires WellFormed(s) && tag in s.releases && Fetch(tag) !in faults
    requires FirstRejected(tag, s.releases[tag].links, faults) == |s.releases[tag].links|
    ensures var emptied := s.releases[tag := s.releases[tag].(links := [])];
      ReplaceOutcome(s, faults, tag) ==
        if RemoveRelease(tag) !in faults then (true, Store(emptied - {tag}, s.nextLinkId))
        else (false, Store(emptied, s.nextLinkId))
  {
    var emptied := s.releases[tag := s.releases[tag].(links := [])];
    assert emptied - {tag} == s.releases - {tag};
  }

  /** A rejected deletion of link i ends the replacement with the links from i on and every other release as it was. */
  lemma ReplaceRejectedAt(s: Store, faults: set<Request>, tag: string, i: nat)
    requires WellFormed(s) && tag in s.releases && Fetch(tag) !in faults
    requires i < |s.releases[tag].links| && FirstRejected(tag, s.releases[tag].links, faults) == i
    ensures var rel := s.releases[tag];
      ReplaceOutcome(s, faults, tag) == (false, Store(s.releases[tag := rel.(links := rel.links[i..])], s.nextLinkId))
  {
  }

  /** Deleting the first remaining link of a release whose IDs are unique leaves the links after it. */
  lemma RemovedFirstLink(releases: map<string, Release>, tag: string, rel: Release, links: seq<Link>, i: nat)
    requires i < |links| && DistinctIds(links[i..])
    ensures var before := releases[tag := rel.(links := links[i..])];
      before[tag := before[tag].(links := Without(before[tag].links, links[i].id))]
        == releases[tag := rel.(links := links[i + 1..])]
  {
    WithoutFirst(links[i..]);
    assert links[i..][0].id == links[i].id;
    assert links[i..][1..] == links[i + 1..];
  }

  /**
   * deleteRelease: fetch the release, delete its links one by one in order,
   * then delete the release; the first failure returns at once.
   */
  method DeleteRelease(c: Config, svc: Gitlab) returns (ok: bool)
    requires svc.Valid()
    modifies svc
    ensures svc.Valid()
    ensures (ok, svc.State()) == ReplaceOutcome(old(svc.State()), svc.faults, c.tag)
  {
    var rel := svc.GetRelease(c.tag);
    if rel.None? {
      return false;
    }
    var links := rel.value.links;
    assert old(svc.releases)[c.tag := rel.value.(links := links[0..])] == old(svc.releases);
    for i := 0 to |links|
      invariant svc.Valid()
      invariant i <= FirstRejected(c.tag, links, svc.faults)
      invariant svc.State() == Store(old(svc.releases)[c.tag := rel.value.(links := links[i..])], old(svc.nextLinkId))
    {
      assert DistinctIds(svc.releases[c.tag].links);
      RemovedFirstLink(old(svc.releases), c.tag, rel.value, links, i);
      ok := svc.DeleteReleaseLink(c.tag, links[i].id);
      if !ok {
        assert FirstRejected(c.tag, links, svc.faults) == i;
        ReplaceRejectedAt(old(svc.State()), svc.faults, c.tag, i);
        return;
      }
    }
    assert links[|links|..] == [];
    ReplaceAfterAllLinks(old(svc.State()), svc.faults, c.tag);
    ok := svc.DeleteRelease(c.tag);
  }

  // ------------------------------------------------------------- createRelease

  /** The create-release links for `assets`: name and URL copied, order kept. */
  function LinksOf(assets: seq<Asset>): seq<NewLink> {
    seq(|assets|, i requires 0 <= i < |assets| => NewLink(assets[i].name, assets[i].url))
  }

  /** The loop of createRelease that turns assets into release links. */
  method AssetLinks(assets: seq<Asset>) returns (links: seq<NewLink>)
    ensures |links| == |assets|
    ensures forall i :: 0 <= i < |assets| ==> links[i].name == assets[i].name && links[i].url == assets[i].url
  {
    links := [];
    for i := 0 to |assets|
      invariant |links| == i
      invariant forall j :: 0 <= j < i ==> links[j] == NewLink(assets[j].name, assets[j].url)
    {
      links := links + [NewLink(assets[i].name, assets[i].url)];
    }
  }

  /** createRelease: one create-release request carrying the title, tag, description and every asset as a link. */
  method CreateRelease(c: Config, svc: Gitlab, assets: seq<Asset>) returns (ok: bool)
    requires svc.Valid()
    modifies svc
    ensures svc.Valid()
    ensures (ok, svc.State()) == CreateOutcome(old(svc.State()), svc.faults, c.tag, c.title, c.description, LinksOf(assets))
  {
    var links := AssetLinks(assets);
    assert links == LinksOf(assets);
    ok := svc.CreateRelease(c.tag, c.title, c.description, links);
  }

  /**
   * Replace then publish: once the old release is gone, the new one holds
   * exactly the new links, and none of the old release's links survives.
   */
  lemma ReplaceThenCreate(s: Store, faults: set<Request>, tag: string, title: string, description: string, links: seq<NewLink>)
    requires WellFormed(s) && ReplaceOutcome(s, faults, tag).0
    ensures var created := CreateOutcome(ReplaceOutcome(s, faults, tag).1, faults, tag, title, description, links);
      && (created.0 <==> Publish(tag) !in faults)
      && (created.0 ==> created.1.releases[tag] == Release(title, description, Numbered(links, s.nextLinkId)))
      && (created.0 ==> forall l :: l in s.releases[tag].links ==> l !in created.1.releases[tag].links)
  {
    var cleared := ReplaceOutcome(s, faults, tag).1;
    var created := CreateOutcome(cleared, faults, tag, title, description, links);
    if created.0 {
      forall l | l in s.releases[tag].links ensures l !in created.1.releases[tag].links {
        assert l.id < s.nextLinkId;
      }
    }
  }

  // ------------------------------------------------------------ getLocalAssets

  /** One entry filepath.Walk visits: its path as Walk reports it, and whether it is a directory. */
  datatype WalkEntry = WalkEntry(path: string, isDir: bool)

  /** What filepath.Abs and os.Stat say about the root: an error, a directory or a file. */
  datatype RootStat = StatFailed | IsDirectory | IsFile

  /** strings.HasPrefix(p, ".") */
  predicate HasDotPrefix(p: string) { |p| > 0 && p[0] == '.' }

  /** The walk callback keeps an entry that is not a directory and whose whole path does not start with '.'. */
  predicate Collected(e: WalkEntry) { !e.isDir && !HasDotPrefix(e.path) }

  /** The paths the walk callback appends, in walk order. */
  function CollectedPaths(walk: seq<WalkEntry>): seq<string> {
    if walk == [] then []
    else CollectedPaths(walk[..|walk| - 1]) + (if Collected(walk[|walk| - 1]) then [walk[|walk| - 1].path] else [])
  }

  /** What getLocalAssets returns for a root, what Stat says of it, and the entries a walk of it visits. */
  function LocalAssets(root: string, stat: RootStat, walk: seq<WalkEntry>): Option<seq<string>> {
    match stat
    case StatFailed => None
    case IsFile => Some([root])
    case IsDirectory => Some(CollectedPaths(walk))
  }

  /** getLocalAssets over a given walk: the callback appends each collected path. */
  method GetLocalAssets(root: string, stat: RootStat, walk: seq<WalkEntry>) returns (r: Option<seq<string>>)
    ensures r == LocalAssets(root, stat, walk)
  {
    if stat.StatFailed? {
      return None;
    }
    var artifacts: seq<string> := [];
    if stat.IsDirectory? {
      for i := 0 to |walk|
        invariant artifacts == CollectedPaths(walk[..i])
      {
        assert walk[..i + 1][..i] == walk[..i];
        if !walk[i].isDir && !HasDotPrefix(walk[i].path) {
          artifacts := artifacts + [walk[i].path];
        }
      }
      assert walk[..|walk|] == walk;
    } else {
      artifacts := [root];
    }
    r := Some(artifacts);
  }

  /** A path is collected exactly when some walked entry with that path is a non-directory without a leading '.'. */
  lemma {:induction false} CollectedPathsMembers(walk: seq<WalkEntry>, p: string)
    ensures p in CollectedPaths(walk) <==> exists k :: 0 <= k < |walk| && walk[k].path == p && Collected(walk[k])
  {
    if walk != [] {
      var init := walk[..|walk| - 1];
      CollectedPathsMembers(init, p);
      if exists k :: 0 <= k < |init| && init[k].path == p && Collected(init[k]) {
        var k :| 0 <= k < |init| && init[k].path == p && Collected(init[k]);
        assert walk[k] == init[k];
      }
      if exists k :: 0 <= k < |walk| && walk[k].path == p && Collected(walk[k]) {
        var k :| 0 <= k < |walk| && walk[k].path == p && Collected(walk[k]);
        if k < |init| {
          assert init[k] == walk[k];
        }
      }
    }
  }

  /** Collecting distributes over concatenation: the result keeps the walk's order. */
  lemma {:induction false} CollectedPathsAppend(a: seq<WalkEntry>, b: seq<WalkEntry>)
    ensures CollectedPaths(a + b) == CollectedPaths(a) + CollectedPaths(b)
    decreases |b|
  {
    if b == [] {
      assert a + b == a;
    } else {
      var init := b[..|b| - 1];
      assert (a + b)[..|a + b| - 1] == a + init;
      CollectedPathsAppend(a, init);
    }
  }

  /** The repository's test directory: both files, in lexical walk order. */
  lemma TestdataWalk()
    ensures LocalAssets("testdata", IsDirectory, [
      WalkEntry("testdata", true),
      WalkEntry("testdata/glr-demo_v1.2.3_darwin_amd64", false),
      WalkEntry("testdata/glr-demo_v1.2.3_linux_amd64", false)])
      == Some(["testdata/glr-demo_v1.2.3_darwin_amd64", "testdata/glr-demo_v1.2.3_linux_amd64"])
  {
    var w := [
      WalkEntry("testdata", true),
      WalkEntry("testdata/glr-demo_v1.2.3_darwin_amd64", false),
      WalkEntry("testdata/glr-demo_v1.2.3_linux_amd64", false)];
    assert w[..1] == [w[0]] && w[..1][..0] == [];
    assert CollectedPaths(w[..1]) == [];
    assert w[..2][..1] == w[..1];
    assert CollectedPaths(w[..2]) == [w[1].path];
    assert w[..|w| - 1] == w[..2];
    assert CollectedPaths(w) == [w[1].path, w[2].path];
  }

  /** The dot test looks at the whole walked path: a hidden file below the root is collected, one walked from "." is not. */
  lemma HiddenFilesBelowRootAreCollected()
    ensures CollectedPaths([WalkEntry("dist", true), WalkEntry("dist/.hidden", false), WalkEntry("dist/a.tar.gz", false)])
      == ["dist/.hidden", "dist/a.tar.gz"]
    ensures CollectedPaths([WalkEntry(".", true), WalkEntry(".hidden", false), WalkEntry("a.tar.gz", false)])
      == ["a.tar.gz"]
  {
    var w := [WalkEntry("dist", true), WalkEntry("dist/.hidden", false), WalkEntry("dist/a.tar.gz", false)];
    assert w[..1] == [w[0]] && w[..1][..0] == [];
    assert CollectedPaths(w[..1]) == [];
    assert w[..2][..1] == w[..1];
    assert CollectedPaths(w[..2]) == [w[1].path];
    assert w[..|w| - 1] == w[..2];
    var v := [WalkEntry(".", true), WalkEntry(".hidden", false), WalkEntry("a.tar.gz", false)];
    assert v[..1] == [v[0]] && v[..1][..0] == [];
    assert CollectedPaths(v[..1]) == [];
    assert v[..2][..1] == v[..1];
    assert CollectedPaths(v[..2]) == [];
    assert v[..|v| - 1] == v[..2];
  }

  /**
   * A walk rooted at `..`, `../dist` or `.ci` visits only paths starting with
   * '.', since each walked path is the cleaned join of the root and a name:
   * such a walk collects nothing.
   */
  lemma {:induction false} DottedWalkCollectsNothing(walk: seq<WalkEntry>)
    requires forall k :: 0 <= k < |walk| ==> HasDotPrefix(walk[k].path)
    ensures CollectedPaths(walk) == []
  {
    if walk != [] {
      var init := walk[..|walk| - 1];
      assert forall k :: 0 <= k < |init| ==> init[k] == walk[k];
      DottedWalkCollectsNothing(init);
    }
  }
}

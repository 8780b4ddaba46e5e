/**
 * cli.run: the command's whole workflow as a sequence of steps, each of which
 * may fail and end the run with an exit code.
 *
 * Flag parsing, the origin lookup, the environment, the client and the
 * filesystem are inputs here (Parse and Env); the release store is the
 * Service.Gitlab object the run changes.
 */
module Cli {
  import opened Wrappers
  import opened Service
  import opened Origin
  import opened Glr

  // The exit codes share a const block with two endpoint constants, so iota
  // is already 3 at exitCodeError and the codes are 13, 14 and 15.
  const ExitCodeOK: int := 0
  const ExitCodeError: int := 10 + 3
  const ExitCodeParseError: int := 10 + 4
  const ExitCodeInvalidResponseCode: int := 10 + 5

  /** The parsed command line: positional arguments and the flags -name/-n, -body/-b, -asset-url, -asset-name, -upload, -replace, -version. */
  datatype Flags = Flags(
    args: seq<string>,
    name: string,
    body: string,
    assetURL: string,
    assetName: string,
    upload: string,
    replace: bool,
    version: bool)

  datatype Parse = ParseFailed | Parsed(flags: Flags)

  /**
   * What the collaborators answer during one run: the origin URL (None if
   * reading it fails), whether gitlab.NewClient succeeded, the GetProject
   * reply, Stat and Walk of the upload root, and the upload reply per file.
   */
  datatype Env = Env(
    origin: Option<string>,
    clientCreated: bool,
    project: ProjectReply,
    rootStat: RootStat,
    walk: seq<WalkEntry>,
    upload: string -> UploadReply)

  /** How a run ends: an exit code, or a runtime panic (an index or nil dereference). */
  datatype Outcome = Exit(code: int) | Panic

  datatype RunResult = RunResult(outcome: Outcome, store: Store)

  /** The title and description default: an empty flag value gives way to the tag. */
  function Defaulted(value: string, tag: string): (r: string)
    ensures value == "" ==> r == tag
    ensures value != "" ==> r == value
  {
    if value == "" then tag else value
  }

  /** The asset list: the uploaded assets in order, then one explicit asset iff both its name and URL are set. */
  function Assemble(uploaded: seq<Asset>, assetName: string, assetURL: string): (r: seq<Asset>)
    ensures |r| == |uploaded| + (if assetName != "" && assetURL != "" then 1 else 0)
    ensures r[..|uploaded|] == uploaded
    ensures assetName != "" && assetURL != "" ==> r[|uploaded|] == Asset(assetName, assetURL)
  {
    if assetName != "" && assetURL != "" then uploaded + [Asset(assetName, assetURL)] else uploaded
  }

  /** The run gets past flag handling with a tag to release. */
  predicate HasTag(p: Parse) {
    p.Parsed? && !p.flags.version && |p.flags.args| >= 1
  }

  /** The run gets as far as calling getProject: the origin was read and matched, and the client exists. */
  predicate Located(p: Parse, env: Env) {
    && HasTag(p)
    && env.origin.Some?
    && ProjectPath(env.origin.value).Some?
    && env.clientCreated
  }

  /** The glr value the run builds (glr.go:231-239). */
  function ConfigOf(p: Parse, env: Env): (c: Config)
    requires Located(p, env)
  {
    var f := p.flags;
    var tag := f.args[0];
    Config(DefaultGitLabEndpoint, ProjectPath(env.origin.value).value, tag, Defaulted(f.name, tag), Defaulted(f.body, tag))
  }

  /** The assets uploaded before the explicit one: none without -upload, None if listing or uploading fails. */
  function Uploads(f: Flags, c: Config, env: Env): Option<seq<Asset>> {
    if f.upload == "" then Some([])
    else
      match LocalAssets(f.upload, env.rootStat, env.walk)
      case None => None
      case Some(files) => UploadAll(c, files, env.upload)
  }

  /** The run gets as far as replacing and publishing: the project was found and the uploads succeeded. */
  predicate Prepared(p: Parse, env: Env) {
    Located(p, env) && GetProject(env.project).Some? && Uploads(p.flags, ConfigOf(p, env), env).Some?
  }

  /** The assets the release is created with. */
  function AssetsOf(p: Parse, env: Env): seq<Asset>
    requires Prepared(p, env)
  {
    Assemble(Uploads(p.flags, ConfigOf(p, env), env).value, p.flags.assetName, p.flags.assetURL)
  }

  /** How a run ends and what the release store holds afterwards. */
  function Expected(p: Parse, env: Env, s: Store, faults: set<Request>): RunResult
    requires WellFormed(s)
  {
    if p.ParseFailed? then RunResult(Exit(ExitCodeParseError), s)
    else if p.flags.version then RunResult(Exit(ExitCodeOK), s)
    else if |p.flags.args| < 1 then RunResult(Exit(ExitCodeParseError), s)
    else if env.origin.None? then RunResult(Exit(ExitCodeError), s)
    else if ProjectPath(env.origin.value).None? || !env.clientCreated then RunResult(Panic, s)
    else if !Prepared(p, env) then RunResult(Exit(ExitCodeError), s)
    else
      var c := ConfigOf(p, env);
      var replaced := if p.flags.replace then ReplaceOutcome(s, faults, c.tag) else (true, s);
      if !replaced.0 then RunResult(Exit(ExitCodeError), replaced.1)
      else
        var created := CreateOutcome(replaced.1, faults, c.tag, c.title, c.description, LinksOf(AssetsOf(p, env)));
        RunResult(Exit(if created.0 then ExitCodeOK else ExitCodeError), created.1)
  }

  /** cli.run */
  method Run(p: Parse, env: Env, svc: Gitlab) returns (outcome: Outcome)
    requires svc.Valid()
    modifies svc
    ensures svc.Valid()
    ensures RunResult(outcome, svc.State()) == Expected(p, env, old(svc.State()), svc.faults)
  {
    if p.ParseFailed? {
      return Exit(ExitCodeParseError);
    }
    var f := p.flags;
    if f.version {
      return Exit(ExitCodeOK);
    }
    if |f.args| < 1 {
      return Exit(ExitCodeParseError);
    }
    var tag := f.args[0];
    var name, body := f.name, f.body;
    if name == "" {
      name := tag;
    }
    if body == "" {
      body := tag;
    }
    if env.origin.None? {
      return Exit(ExitCodeError);
    }
    var path := ProjectPath(env.origin.value);
    if path.None? {
      // matches[1] on the nil result of FindStringSubmatch
      return Panic;
    }
    if !env.clientCreated {
      // getProject dereferences the nil client
      return Panic;
    }
    var g := Config(DefaultGitLabEndpoint, path.value, tag, name, body);
    assert g == ConfigOf(p, env);
    var proj := GetProject(env.project);
    if proj.None? {
      return Exit(ExitCodeError);
    }
    var assets: seq<Asset> := [];
    if f.upload != "" {
      var localAssets := GetLocalAssets(f.upload, env.rootStat, env.walk);
      if localAssets.None? {
        return Exit(ExitCodeError);
      }
      var uploaded := UploadFiles(g, localAssets.value, env.upload);
      if uploaded.None? {
        return Exit(ExitCodeError);
      }
      assets := uploaded.value;
    }
    if f.assetName != "" && f.assetURL != "" {
      assets := assets + [Asset(f.assetName, f.assetURL)];
    }
    assert assets == AssetsOf(p, env);
    if f.replace {
      var deleted := DeleteRelease(g, svc);
      if !deleted {
        return Exit(ExitCodeError);
      }
    }
    var created := CreateRelease(g, svc, assets);
    if !created {
      return Exit(ExitCodeError);
    }
    return Exit(ExitCodeOK);
  }

  /** Runs that end before the service is contacted: a parse failure, -version, a missing TAG, an unreadable or unmatched origin, no client. */
  lemma RunEarlyExits(p: Parse, env: Env, s: Store, faults: set<Request>)
    requires WellFormed(s)
    ensures p.ParseFailed? ==> Expected(p, env, s, faults) == RunResult(Exit(ExitCodeParseError), s)
    ensures p.Parsed? && p.flags.version ==> Expected(p, env, s, faults) == RunResult(Exit(ExitCodeOK), s)
    ensures p.Parsed? && !p.flags.version && p.flags.args == [] ==>
      Expected(p, env, s, faults) == RunResult(Exit(ExitCodeParseError), s)
    ensures HasTag(p) && env.origin.None? ==> Expected(p, env, s, faults) == RunResult(Exit(ExitCodeError), s)
    ensures HasTag(p) && env.origin.Some? && ProjectPath(env.origin.value).None? ==>
      Expected(p, env, s, faults) == RunResult(Panic, s)
    ensures HasTag(p) && env.origin.Some? && !env.clientCreated ==> Expected(p, env, s, faults).outcome.Panic?
  {
  }

  /** A failed project lookup, local listing or upload ends the run with exitCodeError before anything on the server changes. */
  lemma RunStopsBeforeServer(p: Parse, env: Env, s: Store, faults: set<Request>)
    requires WellFormed(s) && Located(p, env) && !Prepared(p, env)
    ensures Expected(p, env, s, faults) == RunResult(Exit(ExitCodeError), s)
  {
  }

  /** A failed replace ends the run with exitCodeError: the links it deleted stay deleted and no release is created. */
  lemma RunReplaceFailure(p: Parse, env: Env, s: Store, faults: set<Request>)
    requires WellFormed(s) && Prepared(p, env) && p.flags.replace
    requires !ReplaceOutcome(s, faults, p.flags.args[0]).0
    ensures Expected(p, env, s, faults) == RunResult(Exit(ExitCodeError), ReplaceOutcome(s, faults, p.flags.args[0]).1)
  {
  }

  /**
   * A run that exits 0 with a tag has created the release under that tag,
   * with the defaulted title and description and the assembled assets as its
   * links; with -replace the old release was removed first, and without it
   * the tag had no release.
   */
  lemma RunPublishes(p: Parse, env: Env, s: Store, faults: set<Request>)
    requires WellFormed(s) && HasTag(p)
    requires Expected(p, env, s, faults).outcome == Exit(ExitCodeOK)
    ensures Prepared(p, env)
    ensures var tag := p.flags.args[0];
      var after := Expected(p, env, s, faults).store;
      && tag in after.releases
      && after.releases[tag] == Release(Defaulted(p.flags.name, tag), Defaulted(p.flags.body, tag),
                                        Numbered(LinksOf(AssetsOf(p, env)), s.nextLinkId))
      && after.releases - {tag} == s.releases - {tag}
    ensures p.flags.replace ==> ReplaceOutcome(s, faults, p.flags.args[0]).0
    ensures !p.flags.replace ==> p.flags.args[0] !in s.releases
  {
    var tag := p.flags.args[0];
    var c := ConfigOf(p, env);
    var replaced := if p.flags.replace then ReplaceOutcome(s, faults, tag) else (true, s);
    var created := CreateOutcome(replaced.1, faults, tag, c.title, c.description, LinksOf(AssetsOf(p, env)));
    assert created.1.releases[tag] == Release(c.title, c.description, Numbered(LinksOf(AssetsOf(p, env)), replaced.1.nextLinkId));
  }

  /** With the replace step behind it, creating the release fails when the tag still has a release or the server rejects it: exitCodeError, nothing created. */
  lemma RunCreateFailure(p: Parse, env: Env, s: Store, faults: set<Request>)
    requires WellFormed(s) && Prepared(p, env)
    requires var tag := p.flags.args[0];
      var replaced := if p.flags.replace then ReplaceOutcome(s, faults, tag) else (true, s);
      replaced.0 && (tag in replaced.1.releases || Publish(tag) in faults)
    ensures var tag := p.flags.args[0];
      var replaced := if p.flags.replace then ReplaceOutcome(s, faults, tag) else (true, s);
      Expected(p, env, s, faults) == RunResult(Exit(ExitCodeError), replaced.1)
  {
  }

  /** The converse of RunPublishes: a prepared run whose replace step succeeds, on a tag then free and not rejected by the server, exits 0. */
  lemma RunSucceedsWhenAllStepsDo(p: Parse, env: Env, s: Store, faults: set<Request>)
    requires WellFormed(s) && Prepared(p, env)
    requires var tag := p.flags.args[0];
      var replaced := if p.flags.replace then ReplaceOutcome(s, faults, tag) else (true, s);
      replaced.0 && tag !in replaced.1.releases && Publish(tag) !in faults
    ensures Expected(p, env, s, faults).outcome == Exit(ExitCodeOK)
  {
  }

  /** exitCodeInvalidResponseCode is declared but never returned: every run ends in 0, 13, 14 or a panic. */
  lemma RunExitCodes(p: Parse, env: Env, s: Store, faults: set<Request>)
    requires WellFormed(s)
    ensures Expected(p, env, s, faults).outcome != Exit(ExitCodeInvalidResponseCode)
    ensures Expected(p, env, s, faults).outcome.Exit? ==>
      Expected(p, env, s, faults).outcome.code in {ExitCodeOK, ExitCodeError, ExitCodeParseError}
  {
  }

  /** Uploaded asset URLs are built on https://gitlab.com whatever API endpoint GITLAB_API names. */
  lemma UploadedURLsUseDefaultEndpoint(p: Parse, env: Env, i: nat)
    requires Prepared(p, env) && i < |Uploads(p.flags, ConfigOf(p, env), env).value|
    ensures var url := Uploads(p.flags, ConfigOf(p, env), env).value[i].url;
      |url| > |DefaultGitLabEndpoint| && url[..|DefaultGitLabEndpoint| + 1] == DefaultGitLabEndpoint + "/"
  {
    var c := ConfigOf(p, env);
    var uploaded := Uploads(p.flags, c, env).value;
    assert p.flags.upload != "";
    var files := LocalAssets(p.flags.upload, env.rootStat, env.walk).value;
    assert Some(uploaded) == UploadAll(c, files, env.upload);
    var reply := env.upload(files[i]);
    var url := c.baseURL + "/" + c.projectPath + reply.url;
    assert uploaded[i].url == url;
    JoinedPrefix(c.baseURL, c.projectPath, reply.url);
  }

  /** `base/x y` starts with `base/`. */
  lemma JoinedPrefix(base: string, x: string, y: string)
    ensures var u := base + "/" + x + y; |u| > |base| && u[..|base| + 1] == base + "/"
  {
    var u := base + "/" + x + y;
    assert u == (base + "/") + (x + y);
  }

  /**
   * `glr -asset-name bin -asset-url http://x/bin v1.2.3` on a fresh tag:
   * title and description are the tag, and the only link is the explicit asset.
   */
  lemma ExplicitAssetRun(env: Env, s: Store, faults: set<Request>, project: Project)
    requires WellFormed(s) && "v1.2.3" !in s.releases && Publish("v1.2.3") !in faults
    requires env.origin.Some? && ProjectPath(env.origin.value).Some? && env.clientCreated
    requires env.project == Responded(StatusOK, project)
    ensures Expected(Parsed(Flags(["v1.2.3"], "", "", "http://x/bin", "bin", "", false, false)), env, s, faults)
         == RunResult(Exit(ExitCodeOK),
                      Store(s.releases["v1.2.3" := Release("v1.2.3", "v1.2.3", [Link(s.nextLinkId, "bin", "http://x/bin")])],
                            s.nextLinkId + 1))
  {
    var p := Parsed(Flags(["v1.2.3"], "", "", "http://x/bin", "bin", "", false, false));
    assert Located(p, env);
    assert ConfigOf(p, env).title == "v1.2.3" && ConfigOf(p, env).description == "v1.2.3";
    assert Uploads(p.flags, ConfigOf(p, env), env) == Some([]);
    assert Prepared(p, env);
    assert AssetsOf(p, env) == [Asset("bin", "http://x/bin")];
    var links := [NewLink("bin", "http://x/bin")];
    assert LinksOf(AssetsOf(p, env)) == links;
    assert Numbered(links, s.nextLinkId) == [Link(s.nextLinkId, "bin", "http://x/bin")];
    var created := CreateOutcome(s, faults, "v1.2.3", "v1.2.3", "v1.2.3", links);
    assert created.0;
    assert Expected(p, env, s, faults) == RunResult(Exit(ExitCodeOK), created.1);
  }
}

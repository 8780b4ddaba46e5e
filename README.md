# glr release workflow, modelled in Dafny

glr creates a GitLab Release for a tag of the current repository. It derives
the project path `owner/name` from the `origin` remote URL, looks the project
up, optionally lists local files and uploads them as assets, optionally adds
one asset given by name and URL, optionally deletes an existing release for
the tag (`-replace`), and then creates the release. Every step can fail and
end the run with an exit code.

The model has five modules, one per concern of `glr.go`:

- `Wrappers` (wrappers.dfy): the `Option` type.
- `Origin` (origin.dfy): the origin URL pattern `([^/:]+)/([^/]+?)(?:\.git)?$`
  and the `owner/name` join. `IsMatch` says what any match of the pattern is.
  `FindSubmatch` computes the match Go's leftmost-first engine reports. The
  lemmas prove it is that match: it is a match, it exists whenever any match
  does, it starts leftmost, and at that start its name is the shortest (the
  lazy `+?`).
- `Service` (service.dfy): the project's release store on the GitLab server.
  It is a class holding a map from tag to release, where each release has
  numbered links. Its methods answer the four release requests glr makes.
  A fixed set of faulty requests lets every error path be reached.
- `Glr` (glr.dfy): the `glr` methods `getProject`, `uploadFiles`,
  `deleteRelease` and `createRelease`, and the function `getLocalAssets`.
  Each method that loops is a Dafny method with its loop, proved against a
  specification function (`UploadAll`, `ReplaceOutcome`, `CreateOutcome`,
  `LinksOf`, `LocalAssets`). The lemmas state the properties of those
  functions.
- `Cli` (cli.dfy): `cli.run` as a method that goes through the steps in
  source order and changes the service. `Expected` gives its outcome and
  final store for every input. The lemmas list the outcomes.

Behaviour the model follows because the code does:

- The exit codes are 0, 13, 14 and 15. They are not 10, 11 and 12.
  `exitCodeError = 10 + iota` is the fourth spec of its const block, so iota
  is 3 there (glr.go:19-27). Code 15 is declared but never returned
  (`Cli.RunExitCodes`).
- The hidden-file test looks at the whole walked path, not at the base name:
  a walked path is dropped exactly when it starts with `.`. Walked paths are
  cleaned joins of the root and the names below it, so `dist/.hidden` under
  root `dist` is uploaded (`Glr.HiddenFilesBelowRootAreCollected`). From `.`
  the top-level dot entries and everything under them (`.git/...`) are
  dropped. From a root such as `..`, `../dist` or `.ci` every file is
  dropped (`Glr.DottedWalkCollectsNothing`).
- A file root yields `[root]` exactly as given, not its absolute path.
- `-replace` on a tag without a release fails with 13, because GetRelease
  returns an error there.
- An origin URL the pattern does not match makes glr.go:233 index a nil
  slice. This is modelled as a `Panic` outcome. So is a failed
  `gitlab.NewClient`: the error is printed, the client stays nil, and the
  first call on it panics.
- Uploaded asset URLs always use `https://gitlab.com`. `GITLAB_API` only
  changes the client's endpoint (`Cli.UploadedURLsUseDefaultEndpoint`).

## Model

| member | source | states |
|---|---|---|
| `Origin.FindSubmatch` | glr.go:219 | FindStringSubmatch on the origin URL: a reported match has a non-empty owner and name, and the owner ends before the URL does; that it is a match of the pattern is `Origin.FindSubmatchSound`, and that it is the one Go's leftmost-first engine picks is `Origin.FindSubmatchIsLeftmostFirst` |
| `Origin.FindSubmatchSound` | glr.go:30 | any reported submatch is a match of the pattern: it runs to the end of the URL, the owner is a non-empty run without `/` or `:`, and the name is a non-empty run without `/`, optionally followed by `.git` |
| `Origin.TrimGit` | glr.go:30 | the name is the tail itself or the tail minus one `.git`, and it is never empty when the tail is not |
| `Origin.FindSubmatchIsLeftmostFirst` | glr.go:30 | whenever the pattern matches, FindSubmatch reports a match; no match starts further left, and at the same start no match has a shorter name |
| `Origin.FindSubmatchExact` | glr.go:30 | a match that starts after a separator, and whose name keeps no trailing `.git`, is exactly the reported one |
| `Origin.ParseComposed` | glr.go:30 | round trip: `prefix owner/name[.git]` parses back to `owner` and `name` when the prefix is empty or ends in `/` or `:` |
| `Origin.ProjectPath` | glr.go:219-233 | the project path exists iff the pattern matches, and it splits at its only `/` into an owner and a name |
| `Origin.ProjectPathComposed` | glr.go:219-233 | round trip through the join: `prefix owner/name[.git]` gives the project path `owner/name` when the prefix is empty or ends in `/` or `:` |
| `Origin.OriginScpLike` | glr.go:30 | for any user, host, owner and repo, the SSH form `user@host:owner/repo.git` gives `owner/repo` |
| `Origin.OriginHttps` | glr.go:30 | for any host, owner and repo, `https://host/owner/repo.git` gives `owner/repo` |
| `Origin.OriginWithoutGitSuffix` | glr.go:30 | for any repo not ending in `.git`, `https://host/owner/repo` gives `owner/repo` too |
| `Origin.GitSuffixStrippedOnce` | glr.go:30 | only one `.git` is stripped: `owner/name.git.git` gives the project path `owner/name.git`, for any prefix ending in a separator |
| `Origin.GitOnlyNameKept` | glr.go:30 | for any owner after a separator, a name that is only `.git` is kept whole, because the name group needs a character |
| `Origin.TrailingSlashDoesNotMatch` | glr.go:233 | a URL ending in `/` has no project path, so the run cannot index the submatches |
| `Service.Without` | glr.go:102 | deleting a link by ID removes exactly the links with that ID and keeps the others |
| `Service.WithoutFirst` | glr.go:101-105 | when link IDs are unique, deleting the first link leaves exactly the remaining links, in order |
| `Service.WithoutDistinct` | glr.go:102 | deleting a link keeps the link IDs of a release unique |
| `Service.CreateOutcome` | glr.go:124-131 | the create request keeps the store well formed; it succeeds iff the tag has no release and the request is not rejected; on failure nothing changes; on success only that tag is added, with links numbered from the next free ID |
| `Service.Gitlab.GetRelease` | glr.go:96-99 | the release is returned iff the tag has one and the fetch is not rejected |
| `Service.Gitlab.DeleteReleaseLink` | glr.go:102-104 | the link is removed iff the release and the link exist and the request is not rejected; otherwise nothing changes |
| `Service.Gitlab.DeleteRelease` | glr.go:107-109 | the release is removed iff it exists and the request is not rejected; otherwise nothing changes |
| `Service.Gitlab.CreateRelease` | glr.go:124-131 | the store ends exactly as CreateOutcome says |
| `Glr.GetProject` | glr.go:54-65 | the project is returned iff the call succeeded with status 200 |
| `Glr.UploadAll` | glr.go:67-93 | the result is None iff some file's upload fails; otherwise it has exactly one asset per file, in file order, and asset i has the server's Alt as its name and baseURL + "/" + projectPath + fragment as its URL |
| `Glr.UploadFiles` | glr.go:67-93 | uploading every file into its own pre-allocated slot yields exactly UploadAll: no partial list on failure |
| `Glr.FirstRejected` | glr.go:101-105 | the index of the first link whose deletion is rejected: every earlier deletion is accepted |
| `Glr.ReplaceOutcome` | glr.go:95-112 | nothing changes if the fetch fails; other releases are never touched; replacing succeeds iff every link deletion and the release deletion are accepted, and then the release is gone; the store stays well formed |
| `Glr.ReplaceRejectedAt` | glr.go:101-105 | when the deletion of link i is the first one rejected, replacing fails and the release keeps exactly the links from i on |
| `Glr.ReplaceAfterAllLinks` | glr.go:101-111 | once every link deletion is accepted, replacing succeeds iff the release deletion is accepted; otherwise the release stays, with no links |
| `Glr.ReplaceStopsAtFirstRejection` | glr.go:101-111 | whichever deletion is rejected, a link's or the release's, the release keeps the links from the first rejected one on, with no rollback of the earlier deletions |
| `Glr.DeleteRelease` | glr.go:95-112 | the loop of fetch, link deletions in order, then release deletion, leaves exactly ReplaceOutcome's store and result |
| `Glr.AssetLinks` | glr.go:115-122 | one link per asset, in the same order, with name and URL copied, so no assets give no links |
| `Glr.CreateRelease` | glr.go:114-134 | one create request with the config's title, tag and description and the assets' links; the store ends as CreateOutcome says |
| `Glr.ReplaceThenCreate` | glr.go:267-277 | after a successful replace, creation succeeds iff the request is not rejected; the new release holds exactly the new links, and no link of the old release survives |
| `Glr.GetLocalAssets` | glr.go:136-161 | a stat failure gives an error, a file root gives `[root]` as given, and a directory gives the collected walk paths in walk order |
| `Glr.CollectedPathsMembers` | glr.go:149-155 | a path is collected iff some walked entry with that path is not a directory and does not start with `.` |
| `Glr.CollectedPathsAppend` | glr.go:149-155 | collecting distributes over concatenation of walks, so walk order is kept |
| `Glr.TestdataWalk` | glr_test.go:78-97 | walking `testdata` yields its two files in lexical order |
| `Glr.DottedWalkCollectsNothing` | glr.go:149-152 | a walk whose every path starts with `.`, as every walk from `..`, `../dist` or `.ci` is, collects no file |
| `Glr.HiddenFilesBelowRootAreCollected` | glr.go:150-151 | `dist/.hidden` is collected under root `dist`, and `.hidden` is dropped when the walk starts at `.` |
| `Cli.Defaulted` | glr.go:206-212 | an empty `-name` or `-body` gives way to the tag; a non-empty one is kept unchanged |
| `Cli.Assemble` | glr.go:247-265 | the uploaded assets come first, in order, plus exactly one explicit asset at the end iff both its name and URL are non-empty |
| `Cli.Run` | glr.go:163-291 | the run's outcome and the server's final store are exactly those of Expected, and the store stays well formed |
| `Cli.RunEarlyExits` | glr.go:189-233 | a parse failure gives 14, `-version` gives 0, a missing TAG gives 14, and an unreadable origin gives 13, none of them touching the server; an unmatched origin or a missing client panics |
| `Cli.RunStopsBeforeServer` | glr.go:241-261 | a failed getProject, local listing or upload gives 13, and the server is left unchanged |
| `Cli.RunReplaceFailure` | glr.go:267-272 | a failed replace gives 13 with the partial deletions in place, and no release is created |
| `Cli.RunPublishes` | glr.go:263-278 | exit 0 means the release was created under the tag with the defaulted title and description and the assembled assets as links; with `-replace` the old release was fully deleted first; without it the tag had no release |
| `Cli.RunCreateFailure` | glr.go:274-277 | after the replace step, a tag that still has a release or a rejected create gives 13, with the store the replace step left |
| `Cli.RunSucceedsWhenAllStepsDo` | glr.go:263-278 | the converse of `Cli.RunPublishes`: a prepared run whose replace step succeeds, on a tag then free, whose create is not rejected, exits 0 |
| `Cli.RunExitCodes` | glr.go:19-27 | every exit code returned is 0, 13 or 14; 15 is never returned |
| `Cli.UploadedURLsUseDefaultEndpoint` | glr.go:231-232 | every uploaded asset URL starts with `https://gitlab.com/` |
| `Cli.ExplicitAssetRun` | glr.go:204-277 | `v1.2.3` with only `-asset-name bin -asset-url http://x/bin` on a fresh tag creates a release titled and described `v1.2.3` whose only link is `bin` |

## Left out

- The HTTP transport and go-gitlab itself. Each call is an input (`ProjectReply`, `UploadReply`), or a request to the `Service.Gitlab` store that may be rejected. Project IDs are not modelled: the store is the one project's release store.
- Concurrency in `uploadFiles`. The errgroup goroutines are a sequential loop where each task writes its own slot. Completion order does not affect the result. The error value returned is not modelled, only that there is one.
- Flag parsing, `gitconfig.OriginURL`, `GITLAB_API`/`GITLAB_TOKEN` and `gitlab.NewClient`. These are the `Parse` and `Env` inputs. With `flag.ExitOnError`, Parse never returns an error. The model still gives the as-written code path (14).
- `filepath.Abs`, `os.Stat` and `filepath.Walk`. `RootStat` and a walk sequence stand for them. A walk error that hands the callback a nil `info` (a panic) is not modelled.
- The printed summary and usage text. The branch at glr.go:281 never fires, because `g.assetName` and `g.assetURL` are never set.
- The Go runtime's exit status for a panic. It is one `Panic` outcome.
- The store refuses to create a second release for a tag that already has one. This is GitLab's behaviour, not something glr.go states.

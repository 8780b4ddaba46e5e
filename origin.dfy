/**
 * Resolving a repository's remote URL to the project path `owner/name`.
 *
 * glr.go matches the origin URL against the regular expression
 * `([^/:]+)/([^/]+?)(?:\.git)?$` with Go's leftmost-first semantics and joins
 * the two groups with a slash. This module states what a match of that
 * pattern is (IsMatch), computes the one Go's engine reports (FindSubmatch)
 * and proves that it is exactly the leftmost match with the shortest name.
 */
module Origin {
  import opened Wrappers

  const GitSuffix: string := ".git"

  /** A character the class `[^/:]` accepts. */
  predicate IsOwnerChar(c: char) { c != '/' && c != ':' }

  /** What the first group `([^/:]+)` can capture. */
  predicate IsOwner(s: string) {
    |s| > 0 && forall k :: 0 <= k < |s| ==> IsOwnerChar(s[k])
  }

  /** What the second group `([^/]+?)` can capture. */
  predicate IsName(s: string) {
    |s| > 0 && forall k :: 0 <= k < |s| ==> s[k] != '/'
  }

  /**
   * The pattern matches `url` from index `start` to its end (the pattern is
   * anchored at `$`): `owner`, then '/', then `name` with or without `.git`.
   */
  predicate IsMatch(url: string, start: nat, owner: string, name: string) {
    && IsOwner(owner)
    && IsName(name)
    && start + |owner| < |url|
    && url[start..start + |owner|] == owner
    && url[start + |owner|] == '/'
    && (url[start + |owner| + 1..] == name || url[start + |owner| + 1..] == name + GitSuffix)
  }

  /** The submatches FindStringSubmatch reports: where the match begins and its groups. */
  datatype Submatch = Submatch(start: nat, owner: string, name: string)

  /** Index of the last '/' in `s`, or -1 when there is none. */
  function LastSlash(s: string): (r: int)
    ensures -1 <= r < |s|
    ensures r >= 0 ==> s[r] == '/'
    ensures forall k :: r < k < |s| ==> s[k] != '/'
    decreases |s|
  {
    if |s| == 0 then -1
    else if s[|s| - 1] == '/' then |s| - 1
    else LastSlash(s[..|s| - 1])
  }

  /** Start of the longest run of owner characters that ends at `end`. */
  function OwnerStart(s: string, end: nat): (i: nat)
    requires end <= |s|
    ensures i <= end
    ensures forall k :: i <= k < end ==> IsOwnerChar(s[k])
    ensures i == 0 || !IsOwnerChar(s[i - 1])
    decreases end
  {
    if end == 0 || !IsOwnerChar(s[end - 1]) then end else OwnerStart(s, end - 1)
  }

  /** The lazy name group followed by the optional `.git`: one `.git` comes off if something is left. */
  function TrimGit(rest: string): (name: string)
    ensures name == rest || name + GitSuffix == rest
    ensures |rest| > 0 ==> |name| > 0
  {
    if |rest| > |GitSuffix| && rest[|rest| - |GitSuffix|..] == GitSuffix then
      assert rest == rest[..|rest| - |GitSuffix|] + GitSuffix;
      rest[..|rest| - |GitSuffix|]
    else rest
  }

  /** The submatches of the pattern in `url`, as Go's regexp reports them; None when nothing matches. */
  function FindSubmatch(url: string): (m: Option<Submatch>)
    ensures m.Some? ==> |m.value.owner| > 0 && |m.value.name| > 0 && m.value.start + |m.value.owner| < |url|
  {
    var j := LastSlash(url);
    if j < 0 then None
    else
      var i := OwnerStart(url, j);
      var rest := url[j + 1..];
      if i == j || rest == [] then None
      else Some(Submatch(i, url[i..j], TrimGit(rest)))
  }

  /** Soundness: any submatch FindSubmatch reports is a match of the pattern. */
  lemma FindSubmatchSound(url: string)
    ensures var m := FindSubmatch(url); m.Some? ==> IsMatch(url, m.value.start, m.value.owner, m.value.name)
  {
    var j := LastSlash(url);
    if j >= 0 && OwnerStart(url, j) < j && j + 1 < |url| {
      SplitIsMatch(url, OwnerStart(url, j), j);
      FindSubmatchAtSlash(url, j);
    } else {
      assert FindSubmatch(url) == None;
    }
  }

  /** An owner run up to the last slash, then a non-empty tail, is a match with the trimmed tail as its name. */
  lemma SplitIsMatch(url: string, i: nat, j: nat)
    requires i < j < |url| - 1
    requires url[j] == '/' && forall k :: j < k < |url| ==> url[k] != '/'
    requires forall k :: i <= k < j ==> IsOwnerChar(url[k])
    ensures IsMatch(url, i, url[i..j], TrimGit(url[j + 1..]))
  {
    var rest := url[j + 1..];
    var name := TrimGit(rest);
    forall k | 0 <= k < |name| ensures name[k] != '/' {
      assert name[k] == rest[k] == url[j + 1 + k];
    }
    assert IsOwner(url[i..j]);
  }

  /** FindSubmatch unfolded at its last slash `p`, when an owner run ends there and a tail follows. */
  lemma FindSubmatchAtSlash(url: string, p: nat)
    requires p + 1 < |url| && LastSlash(url) == p && OwnerStart(url, p) < p
    ensures FindSubmatch(url) == Some(Submatch(OwnerStart(url, p), url[OwnerStart(url, p)..p], TrimGit(url[p + 1..])))
  {
  }

  /** FindSubmatch unfolded at its last slash `p`, where `owner` runs from `start` up to it. */
  lemma FindSubmatchAt(url: string, p: nat, start: nat, owner: string, name: string)
    requires p + 1 < |url| && LastSlash(url) == p
    requires start < p && OwnerStart(url, p) == start && url[start..p] == owner
    requires TrimGit(url[p + 1..]) == name
    ensures FindSubmatch(url) == Some(Submatch(start, owner, name))
  {
    FindSubmatchAtSlash(url, p);
  }

  /** Any match pins down the last slash `p` after the owner and bounds the start of the owner run before it. */
  lemma MatchPins(url: string, start: nat, owner: string, name: string, p: nat)
    requires IsMatch(url, start, owner, name) && p == start + |owner|
    ensures p + 1 < |url| && LastSlash(url) == p && url[start..p] == owner
    ensures url[p + 1..] == name || url[p + 1..] == name + GitSuffix
    ensures OwnerStart(url, p) <= start
  {
    var tail := url[p + 1..];
    forall k | p < k < |url| ensures url[k] != '/' {
      var d := k - p - 1;
      assert url[k] == tail[d];
      if d < |name| {
        assert tail[d] == name[d];
      } else {
        assert tail == name + GitSuffix;
        assert tail[d] == GitSuffix[d - |name|];
      }
    }
    var r := LastSlash(url);
    assert r == p;
    forall k | start <= k < p ensures IsOwnerChar(url[k]) {
      assert url[k] == url[start..p][k - start];
    }
  }

  /**
   * FindSubmatch reports a match whenever the pattern matches at all, and the
   * one it reports starts leftmost and, at that start, has the shortest name
   * (the lazy `+?`): Go's leftmost-first choice.
   */
  lemma FindSubmatchIsLeftmostFirst(url: string, start: nat, owner: string, name: string)
    requires IsMatch(url, start, owner, name)
    ensures FindSubmatch(url).Some?
    ensures FindSubmatch(url).value.start <= start
    ensures FindSubmatch(url).value.start == start ==> |FindSubmatch(url).value.name| <= |name|
  {
    var p := start + |owner|;
    MatchPins(url, start, owner, name, p);
    var i := OwnerStart(url, p);
    var rest := url[p + 1..];
    FindSubmatchAtSlash(url, p);
    if rest == name + GitSuffix {
      assert rest[|rest| - |GitSuffix|..] == GitSuffix;
    }
  }

  /**
   * A match that begins right after a separator (or at the start of the URL)
   * and whose name keeps no trailing `.git` is exactly the one reported.
   */
  lemma FindSubmatchExact(url: string, start: nat, owner: string, name: string)
    requires IsMatch(url, start, owner, name)
    requires start == 0 || !IsOwnerChar(url[start - 1])
    requires url[start + |owner| + 1..] == name ==> TrimGit(name) == name
    ensures FindSubmatch(url) == Some(Submatch(start, owner, name))
  {
    var p := start + |owner|;
    MatchPins(url, start, owner, name, p);
    OwnerStartAfterSeparator(url, start, p);
    assert url[p + 1..] == url[start + |owner| + 1..];
    TrimGitInverse(url[p + 1..], name);
    FindSubmatchAt(url, p, start, owner, name);
  }

  /** The owner run ending at `p` stops at a separator at or after its start. */
  lemma OwnerStartAfterSeparator(url: string, start: nat, p: nat)
    requires start <= p <= |url|
    requires OwnerStart(url, p) <= start
    requires start == 0 || !IsOwnerChar(url[start - 1])
    ensures OwnerStart(url, p) == start
  {
  }

  /** Trimming a name followed by `.git` gives the name back. */
  lemma TrimGitInverse(rest: string, name: string)
    requires |name| > 0
    requires rest == name || rest == name + GitSuffix
    requires rest == name ==> TrimGit(name) == name
    ensures TrimGit(rest) == name
  {
    if rest != name {
      assert rest[|rest| - |GitSuffix|..] == GitSuffix;
      assert rest[..|rest| - |GitSuffix|] == name;
    }
  }

  /**
   * Round trip: a URL built as `prefix owner/name[.git]`, where the prefix ends
   * in '/' or ':' (or is empty), parses back to exactly `owner` and `name`.
   */
  lemma ParseComposed(prefix: string, owner: string, name: string, withGit: bool)
    requires prefix == [] || !IsOwnerChar(prefix[|prefix| - 1])
    requires IsOwner(owner) && IsName(name)
    requires !withGit ==> TrimGit(name) == name
    ensures FindSubmatch(prefix + owner + "/" + name + (if withGit then GitSuffix else []))
         == Some(Submatch(|prefix|, owner, name))
  {
    var suffix := if withGit then GitSuffix else [];
    var url := prefix + owner + "/" + name + suffix;
    var start := |prefix|;
    var p := start + |owner|;
    assert url[start..p] == owner;
    assert url[p] == '/';
    assert url[p + 1..] == name + suffix;
    assert !withGit ==> name + suffix == name;
    assert start > 0 ==> url[start - 1] == prefix[start - 1];
    FindSubmatchExact(url, start, owner, name);
  }

  /** The project path `owner/name` built at glr.go:233 from the two groups; None when the pattern does not match. */
  function ProjectPath(url: string): (r: Option<string>)
    ensures r.Some? <==> FindSubmatch(url).Some?
    ensures r.Some? ==> var k := LastSlash(r.value); k > 0 && IsOwner(r.value[..k]) && IsName(r.value[k + 1..])
  {
    match FindSubmatch(url)
    case None => None
    case Some(m) =>
      var path := m.owner + "/" + m.name;
      FindSubmatchSound(url);
      JoinSplits(m.owner, m.name);
      Some(path)
  }

  /** Round trip through ProjectPath: `prefix owner/name[.git]` gives the project path `owner/name`. */
  lemma ProjectPathComposed(prefix: string, owner: string, name: string, withGit: bool)
    requires prefix == [] || !IsOwnerChar(prefix[|prefix| - 1])
    requires IsOwner(owner) && IsName(name)
    requires !withGit ==> TrimGit(name) == name
    ensures ProjectPath(prefix + owner + "/" + name + (if withGit then GitSuffix else [])) == Some(owner + "/" + name)
  {
    ParseComposed(prefix, owner, name, withGit);
  }

  /** Joining an owner and a name with '/' puts the last slash between them. */
  lemma JoinSplits(owner: string, name: string)
    requires IsOwner(owner) && IsName(name)
    ensures var path := owner + "/" + name;
      LastSlash(path) == |owner| && path[..|owner|] == owner && path[|owner| + 1..] == name
  {
    var path := owner + "/" + name;
    assert path[|owner|] == '/';
    forall k | |owner| < k < |path| ensures path[k] != '/' {
      assert path[k] == name[k - |owner| - 1];
    }
    assert path[..|owner|] == owner;
    assert path[|owner| + 1..] == name;
  }

  /** The SSH form of an origin URL, `user@host:owner/repo.git`, gives `owner/repo`. */
  lemma OriginScpLike(user: string, host: string, owner: string, repo: string)
    requires IsOwner(owner) && IsName(repo)
    ensures ProjectPath(user + "@" + host + ":" + owner + "/" + repo + GitSuffix) == Some(owner + "/" + repo)
  {
    var prefix := user + "@" + host + ":";
    assert prefix[|prefix| - 1] == ':';
    ProjectPathComposed(prefix, owner, repo, true);
  }

  /** The HTTPS form of an origin URL, `https://host/owner/repo.git`, gives `owner/repo`. */
  lemma OriginHttps(host: string, owner: string, repo: string)
    requires IsOwner(owner) && IsName(repo)
    ensures ProjectPath("https://" + host + "/" + owner + "/" + repo + GitSuffix) == Some(owner + "/" + repo)
  {
    var prefix := "https://" + host + "/";
    assert prefix[|prefix| - 1] == '/';
    ProjectPathComposed(prefix, owner, repo, true);
  }

  /** Without `.git` the project path is the same: `https://host/owner/repo` gives `owner/repo`. */
  lemma OriginWithoutGitSuffix(host: string, owner: string, repo: string)
    requires IsOwner(owner) && IsName(repo)
    requires |repo| <= |GitSuffix| || repo[|repo| - |GitSuffix|..] != GitSuffix
    ensures ProjectPath("https://" + host + "/" + owner + "/" + repo) == Some(owner + "/" + repo)
  {
    var prefix := "https://" + host + "/";
    assert prefix[|prefix| - 1] == '/';
    ProjectPathComposed(prefix, owner, repo, false);
    assert prefix + owner + "/" + repo + [] == prefix + owner + "/" + repo;
  }

  /** Only one `.git` comes off: `owner/name.git.git` gives the name `name.git`. */
  lemma GitSuffixStrippedOnce(prefix: string, owner: string, stem: string)
    requires prefix == [] || !IsOwnerChar(prefix[|prefix| - 1])
    requires IsOwner(owner) && IsName(stem)
    ensures ProjectPath(prefix + owner + "/" + stem + GitSuffix + GitSuffix) == Some(owner + "/" + stem + GitSuffix)
  {
    var name := stem + GitSuffix;
    NameWithGit(stem);
    ProjectPathComposed(prefix, owner, name, true);
    Regroup(prefix + owner + "/", stem, GitSuffix);
    Regroup(owner + "/", stem, GitSuffix);
  }

  /** Sequence concatenation regrouped, for the solver. */
  lemma Regroup(a: string, b: string, c: string)
    ensures a + (b + c) == a + b + c
  {
  }

  /** A name followed by `.git` is still a name. */
  lemma NameWithGit(stem: string)
    requires IsName(stem)
    ensures IsName(stem + GitSuffix)
  {
    var name := stem + GitSuffix;
    forall k | 0 <= k < |name| ensures name[k] != '/' {
      if k < |stem| {
        assert name[k] == stem[k];
      } else {
        assert name[k] == GitSuffix[k - |stem|];
      }
    }
  }

  /** A name that is only `.git` is kept whole: the name group needs at least one character. */
  lemma GitOnlyNameKept(prefix: string, owner: string)
    requires prefix == [] || !IsOwnerChar(prefix[|prefix| - 1])
    requires IsOwner(owner)
    ensures ProjectPath(prefix + owner + "/" + GitSuffix) == Some(owner + "/" + GitSuffix)
  {
    assert IsName(GitSuffix);
    ParseComposed(prefix, owner, GitSuffix, false);
    assert prefix + owner + "/" + GitSuffix + [] == prefix + owner + "/" + GitSuffix;
  }

  /** A URL ending in '/' does not match, so glr.go:233 would index an empty submatch slice. */
  lemma TrailingSlashDoesNotMatch(url: string)
    requires |url| > 0 && url[|url| - 1] == '/'
    ensures ProjectPath(url) == None
  {
    assert LastSlash(url) == |url| - 1;
  }
}

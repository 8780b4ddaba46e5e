/**
 * The release store of one GitLab project, as glr.go sees it through the
 * go-gitlab client: releases keyed by tag, each holding its asset links.
 *
 * The HTTP calls are not part of this model. Instead, the store answers the
 * release requests glr.go makes (GetRelease, DeleteReleaseLink,
 * DeleteRelease, CreateRelease), and a fixed set of `faults` names the
 * requests the server rejects, so that every error path can be reached.
 */
module Service {
  import opened Wrappers

  /** An asset link stored on the server, with the ID the server gave it. */
  datatype Link = Link(id: nat, name: string, url: string)

  /** An asset link as sent in a create-release request (gitlab.ReleaseAssetLink with Name and URL). */
  datatype NewLink = NewLink(name: string, url: string)

  datatype Release = Release(title: string, description: string, links: seq<Link>)

  /** The server's state: releases by tag, and the next link ID it will hand out. */
  datatype Store = Store(releases: map<string, Release>, nextLinkId: nat)

  /** A request the server may reject, by the tag (and link ID) it names. */
  datatype Request =
    | Fetch(tag: string)
    | RemoveLink(tag: string, id: nat)
    | RemoveRelease(tag: string)
    | Publish(tag: string)

  predicate DistinctIds(links: seq<Link>) {
    forall i, j :: 0 <= i < j < |links| ==> links[i].id != links[j].id
  }

  predicate HasLink(links: seq<Link>, id: nat) {
    exists k :: 0 <= k < |links| && links[k].id == id
  }

  /** Link IDs are unique within a release and were all handed out before `nextLinkId`. */
  predicate WellFormed(s: Store) {
    forall tag :: tag in s.releases ==>
      && DistinctIds(s.releases[tag].links)
      && forall l :: l in s.releases[tag].links ==> l.id < s.nextLinkId
  }

  /** `links` with every link of ID `id` removed. */
  function Without(links: seq<Link>, id: nat): (r: seq<Link>)
    ensures forall l :: l in r <==> l in links && l.id != id
    ensures |r| <= |links|
  {
    if links == [] then []
    else (if links[0].id == id then [] else [links[0]]) + Without(links[1..], id)
  }

  lemma {:induction false} WithoutAbsent(links: seq<Link>, id: nat)
    requires !HasLink(links, id)
    ensures Without(links, id) == links
  {
    if links != [] {
      var rest := links[1..];
      assert links[0].id != id;
      assert !HasLink(rest, id) by {
        forall k | 0 <= k < |rest| ensures rest[k].id != id {
          assert rest[k] == links[k + 1];
        }
      }
      WithoutAbsent(rest, id);
      assert Without(links, id) == [links[0]] + Without(rest, id);
      assert [links[0]] + rest == links;
    }
  }

  /** Deleting the first link of a release whose IDs are unique leaves exactly the rest. */
  lemma WithoutFirst(links: seq<Link>)
    requires |links| > 0 && DistinctIds(links)
    ensures Without(links, links[0].id) == links[1..]
  {
    var id := links[0].id;
    assert !HasLink(links[1..], id);
    WithoutAbsent(links[1..], id);
  }

  lemma {:induction false} WithoutDistinct(links: seq<Link>, id: nat)
    requires DistinctIds(links)
    ensures DistinctIds(Without(links, id))
  {
    if links != [] {
      var rest := links[1..];
      DistinctTail(links);
      WithoutDistinct(rest, id);
      var tail := Without(rest, id);
      if links[0].id != id {
        forall l | l in tail ensures l.id != links[0].id {
          assert l in rest;
          var k :| 0 <= k < |rest| && rest[k] == l;
          assert links[k + 1] == l;
        }
        DistinctCons(links[0], tail);
        assert Without(links, id) == [links[0]] + tail;
      } else {
        assert Without(links, id) == tail;
      }
    }
  }

  /** Dropping the first link keeps the IDs unique. */
  lemma DistinctTail(links: seq<Link>)
    requires |links| > 0 && DistinctIds(links)
    ensures DistinctIds(links[1..])
  {
    var rest := links[1..];
    forall i, j | 0 <= i < j < |rest| ensures rest[i].id != rest[j].id {
      assert rest[i] == links[i + 1] && rest[j] == links[j + 1];
    }
  }

  /** A link whose ID no other link has can go in front. */
  lemma DistinctCons(x: Link, tail: seq<Link>)
    requires DistinctIds(tail) && forall l :: l in tail ==> l.id != x.id
    ensures DistinctIds([x] + tail)
  {
    var r := [x] + tail;
    forall i, j | 0 <= i < j < |r| ensures r[i].id != r[j].id {
      if i == 0 {
        assert r[j] == tail[j - 1] && r[j] in tail;
      } else {
        assert r[i] == tail[i - 1] && r[j] == tail[j - 1];
      }
    }
  }

  /** The links of a create-release request, numbered by the server from `from` on. */
  function Numbered(links: seq<NewLink>, from: nat): (r: seq<Link>)
    ensures |r| == |links|
    ensures forall i :: 0 <= i < |links| ==> r[i] == Link(from + i, links[i].name, links[i].url)
  {
    seq(|links|, i requires 0 <= i < |links| => Link(from + i, links[i].name, links[i].url))
  }

  /**
   * What a create-release request does: it is rejected when the tag already
   * has a release or the request is faulty, and otherwise adds the release
   * with freshly numbered links, all or nothing.
   */
  function CreateOutcome(s: Store, faults: set<Request>, tag: string, title: string, description: string, links: seq<NewLink>)
    : (r: (bool, Store))
    requires WellFormed(s)
    ensures WellFormed(r.1)
    ensures r.0 <==> tag !in s.releases && Publish(tag) !in faults
    ensures !r.0 ==> r.1 == s
    ensures r.0 ==> tag in r.1.releases && r.1.releases - {tag} == s.releases
    ensures r.0 ==> forall l :: l in r.1.releases[tag].links ==> s.nextLinkId <= l.id
  {
    if tag in s.releases || Publish(tag) in faults then (false, s)
    else
      var created := Numbered(links, s.nextLinkId);
      var s' := Store(s.releases[tag := Release(title, description, created)], s.nextLinkId + |links|);
      assert s'.releases - {tag} == s.releases;
      (true, s')
  }

  /** The project's release store on the server. */
  class Gitlab {
    var releases: map<string, Release>
    var nextLinkId: nat
    /** The requests this server rejects. */
    const faults: set<Request>

    function State(): Store
      reads this
    {
      Store(releases, nextLinkId)
    }

    ghost predicate Valid()
      reads this
    {
      WellFormed(State())
    }

    constructor (releases: map<string, Release>, nextLinkId: nat, faults: set<Request>)
      requires WellFormed(Store(releases, nextLinkId))
      ensures Valid()
      ensures State() == Store(releases, nextLinkId) && this.faults == faults
    {
      this.releases := releases;
      this.nextLinkId := nextLinkId;
      this.faults := faults;
    }

    /** GetRelease: the release for `tag`, or an error when there is none or the request fails. */
    method GetRelease(tag: string) returns (r: Option<Release>)
      ensures r.Some? <==> tag in releases && Fetch(tag) !in faults
      ensures r.Some? ==> r.value == releases[tag]
    {
      if tag in releases && Fetch(tag) !in faults {
        r := Some(releases[tag]);
      } else {
        r := None;
      }
    }

    /** DeleteReleaseLink: removes link `id` from the release for `tag`. */
    method DeleteReleaseLink(tag: string, id: nat) returns (ok: bool)
      requires Valid()
      modifies this
      ensures Valid()
      ensures ok <==> tag in old(releases) && HasLink(old(releases)[tag].links, id) && RemoveLink(tag, id) !in faults
      ensures ok ==> releases == old(releases)[tag := old(releases)[tag].(links := Without(old(releases)[tag].links, id))]
      ensures !ok ==> releases == old(releases)
      ensures nextLinkId == old(nextLinkId)
    {
      ok := tag in releases && HasLink(releases[tag].links, id) && RemoveLink(tag, id) !in faults;
      if ok {
        var rel := releases[tag];
        WithoutDistinct(rel.links, id);
        releases := releases[tag := rel.(links := Without(rel.links, id))];
      }
    }

    /** DeleteRelease: removes the release for `tag`, whatever links it still has. */
    method DeleteRelease(tag: string) returns (ok: bool)
      requires Valid()
      modifies this
      ensures Valid()
      ensures ok <==> tag in old(releases) && RemoveRelease(tag) !in faults
      ensures ok ==> releases == old(releases) - {tag}
      ensures !ok ==> releases == old(releases)
      ensures nextLinkId == old(nextLinkId)
    {
      ok := tag in releases && RemoveRelease(tag) !in faults;
      if ok {
        releases := releases - {tag};
      }
    }

    /** CreateRelease: adds a release with all its links in one request. */
    method CreateRelease(tag: string, title: string, description: string, links: seq<NewLink>) returns (ok: bool)
      requires Valid()
      modifies this
      ensures Valid()
      ensures (ok, State()) == CreateOutcome(old(State()), faults, tag, title, description, links)
    {
      var r := CreateOutcome(State(), faults, tag, title, description, links);
      ok := r.0;
      releases, nextLinkId := r.1.releases, r.1.nextLinkId;
    }
  }
}

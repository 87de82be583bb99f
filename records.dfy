/** The three tables of `freemasons/models.py` as values: a TwitterUser row, a
    FreeMasonMember row with its two many-to-many sets, a FreeMasonProject row
    with its member set, and the payloads the core receives from outside. */
module Records {
  import opened Outcomes

  /** Primary keys: Django's auto-increment ids. */
  type UserId = nat
  type MemberId = nat
  type ProjectId = nat

  /** A `TwitterUser` row; `created_at`/`updated_at` are not modelled. */
  datatype TwitterUser = TwitterUser(
    twitterIdentifier: Option<string>,
    inspectIdentifier: Option<string>,
    name: Option<string>,
    username: string,
    pfpUrl: Option<string>,
    token: Option<string>)

  /** A `FreeMasonMember` row: the `twitter` foreign key, the wallet, the
      `followers` and `following` many-to-many sets and `last_sync_at`. */
  datatype Member = Member(
    twitter: UserId,
    walletAddress: string,
    followers: set<UserId>,
    following: set<UserId>,
    lastSyncAt: Option<int>)

  /** A `FreeMasonProject` row with its `members` many-to-many set. */
  datatype Project = Project(
    contractAddress: string,
    members: set<MemberId>,
    lastSyncAt: Option<int>)

  /** One profile of a follower or following list from the Twitter client. */
  datatype Profile = Profile(id: string, name: string, username: string)

  /** One entry of the member listing: `id` is the inspection-service id. */
  datatype ListingEntry = ListingEntry(
    id: string,
    username: string,
    name: Option<string>,
    pfpUrl: Option<string>,
    token: Option<string>)

  /** The member-listing answer: HTTP status and the decoded `members` list. */
  datatype ListingResponse = ListingResponse(status: int, members: seq<ListingEntry>)

  /** The lookup key of the roster path: (`twitter_identifier`, `inspect_identifier`). */
  datatype RosterKey = RosterKey(twitterId: string, inspectId: string)

  type Users = map<UserId, TwitterUser>
  type Members = map<MemberId, Member>
  type Projects = map<ProjectId, Project>

  /** The row `get_or_create(twitter_identifier=x)` inserts: every other
      column at its default (`None`, or `""` for the non-null `username`). */
  function NewUserWithTid(x: string): TwitterUser
  {
    TwitterUser(Some(x), None, None, "", None, None)
  }

  /** The row `get_or_create(twitter_identifier=k.twitterId, inspect_identifier=k.inspectId)` inserts. */
  function NewUserWithKey(k: RosterKey): TwitterUser
  {
    TwitterUser(Some(k.twitterId), Some(k.inspectId), None, "", None, None)
  }

  /** The row `FreeMasonMember.objects.get_or_create(twitter=u)` inserts. */
  function NewMember(u: UserId): Member
  {
    Member(u, "", {}, {}, None)
  }

  /** `self.followers.add(u)` when `isFollower`, else `self.following.add(u)`. */
  function Associate(m: Member, isFollower: bool, u: UserId): (m': Member)
    ensures m'.twitter == m.twitter && m'.walletAddress == m.walletAddress && m'.lastSyncAt == m.lastSyncAt
    ensures m'.followers == if isFollower then m.followers + {u} else m.followers
    ensures m'.following == if isFollower then m.following else m.following + {u}
  {
    if isFollower then m.(followers := m.followers + {u}) else m.(following := m.following + {u})
  }

  /** The (`twitter_identifier`, `inspect_identifier`) pair of a row, when both are set. */
  function KeyOf(rec: TwitterUser): Option<RosterKey>
  {
    if rec.twitterIdentifier.Some? && rec.inspectIdentifier.Some?
    then Some(RosterKey(rec.twitterIdentifier.value, rec.inspectIdentifier.value))
    else None
  }

  predicate TidIn(rec: TwitterUser, ids: set<string>)
  {
    rec.twitterIdentifier.Some? && rec.twitterIdentifier.value in ids
  }

  /** Rows matched by the filter `twitter_identifier=x`. */
  function WithTid(us: Users, x: string): set<UserId>
  {
    set u | u in us && us[u].twitterIdentifier == Some(x)
  }

  /** Rows matched by the filter `twitter_identifier=.., inspect_identifier=..`. */
  function WithKey(us: Users, k: RosterKey): set<UserId>
  {
    set u | u in us && KeyOf(us[u]) == Some(k)
  }

  /** Members matched by the filter `twitter=u`. */
  function MembersOf(ms: Members, u: UserId): set<MemberId>
  {
    set m | m in ms && ms[m].twitter == u
  }

  /** Rows whose `twitter_identifier` is one of `ids`. */
  function TaggedWith(us: Users, ids: set<string>): set<UserId>
  {
    set u | u in us && TidIn(us[u], ids)
  }

  /** The ids of a list of profiles. */
  function IdsOf(ps: seq<Profile>): set<string>
  {
    set p | p in ps :: p.id
  }

  /** The last profile with id `x`: the one whose name and username win. */
  function LastWith(ps: seq<Profile>, x: string): (p: Profile)
    requires x in IdsOf(ps)
    ensures p in ps && p.id == x
    ensures exists j :: 0 <= j < |ps| && ps[j] == p && forall l :: j < l < |ps| ==> ps[l].id != x
  {
    var n := |ps| - 1;
    if ps[n].id == x then ps[n]
    else
      assert x in IdsOf(ps[..n]) by {
        var q :| q in ps && q.id == x;
        var k :| 0 <= k < |ps| && ps[k] == q;
        assert ps[..n][k] == q;
      }
      LastWith(ps[..n], x)
  }

  /** Appending a profile makes it the last one for its id and leaves every
      other id's last profile alone. */
  lemma LastWithAppend(ps: seq<Profile>, p: Profile, x: string)
    requires x in IdsOf(ps + [p])
    ensures x == p.id ==> LastWith(ps + [p], x) == p
    ensures x != p.id ==> x in IdsOf(ps) && LastWith(ps + [p], x) == LastWith(ps, x)
  {
    assert (ps + [p])[..|ps|] == ps;
    if x != p.id {
      var q :| q in ps + [p] && q.id == x;
      assert q in ps;
    }
  }

  lemma IdsOfConcat(a: seq<Profile>, b: seq<Profile>)
    ensures IdsOf(a + b) == IdsOf(a) + IdsOf(b)
  {
    forall x | x in IdsOf(a + b) ensures x in IdsOf(a) + IdsOf(b) {
      var q :| q in a + b && q.id == x;
      if q in a { assert x in IdsOf(a); } else { assert q in b; assert x in IdsOf(b); }
    }
    forall x | x in IdsOf(a) + IdsOf(b) ensures x in IdsOf(a + b) {
      if x in IdsOf(a) { var q :| q in a && q.id == x; assert q in a + b; }
      else { var q :| q in b && q.id == x; assert q in a + b; }
    }
  }

  /** A second write to the same key replaces the first. */
  lemma UpdateTwice<K, V>(m: map<K, V>, k: K, a: V, b: V)
    ensures m[k := a][k := b] == m[k := b]
  {
  }

  /** A set with at most one element that holds `x` is `{x}`. */
  lemma Singleton<T>(s: set<T>, x: T)
    requires x in s && |s| <= 1
    ensures s == {x}
  {
    assert s == (s - {x}) + {x};
    assert |s - {x}| == 0;
  }

  /** Overwriting one row whose `twitter_identifier` is `x` (or inserting
      one) changes the rows tagged with a set of ids only by that row. */
  lemma TaggedAfterWrite(us: Users, u: UserId, rec: TwitterUser, x: string, ids: set<string>)
    requires rec.twitterIdentifier == Some(x)
    requires u in us ==> us[u].twitterIdentifier == Some(x)
    ensures TaggedWith(us[u := rec], ids) == TaggedWith(us, ids) + (if x in ids then {u} else {})
  {
  }

  /** Adding an id to the tag set adds exactly the rows matched by that id. */
  lemma TaggedAdd(us: Users, ids: set<string>, x: string)
    ensures TaggedWith(us, ids + {x}) == TaggedWith(us, ids) + WithTid(us, x)
  {
  }
}

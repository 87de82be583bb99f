/** The Django store of `freemasons/models.py` as one object: three tables keyed
    by auto-increment ids, and the reconciliation methods that rewrite them. */
module Models {
  import opened Outcomes
  import opened Records
  import opened Wallet
  import opened Snapshots
  import opened Rosters
  import Summary

  /** The `(obj, created)` pair of `get_or_create`, plus whether the upsert
      called `save()` on the row. */
  datatype Upsert = Upsert(user: UserId, created: bool, saved: bool)

  /** A member row's references point at existing TwitterUser rows. */
  predicate RefsIn(m: Member, keys: set<UserId>)
  {
    m.twitter in keys && m.followers <= keys && m.following <= keys
  }

  /** Every id is below its table's counter and every foreign key and
      many-to-many entry points at an existing row. */
  ghost predicate Consistent(us: Users, nu: nat, ms: Members, nm: nat, ps: Projects)
  {
    && (forall u :: u in us ==> u < nu)
    && (forall m :: m in ms ==> m < nm && RefsIn(ms[m], us.Keys))
    && (forall p :: p in ps ==> ps[p].members <= ms.Keys)
  }

  /** A pass of the roster loop keeps the tables consistent, both after the
      upsert alone and after the member lookup and the project add. */
  lemma EnrollConsistent(us: Users, nu: nat, ms: Members, nm: nat, ps: Projects, pid: ProjectId,
                         k: RosterKey, e: ListingEntry, v: Listed, w: Enlisted)
    requires Consistent(us, nu, ms, nm, ps) && pid in ps
    requires UpsertByKey(us, nu, k, e) == Success(v)
    ensures Consistent(v.users, v.next, ms, nm, ps)
    ensures MemberFor(ms, nm, v.user) == Success(w) ==>
      Consistent(v.users, v.next, w.members, w.next, ps[pid := ps[pid].(members := ps[pid].members + {w.member})])
  {
    UpsertByKeySpec(us, nu, k, e);
    MemberForSpec(ms, nm, v.user);
  }

  /** `FreeMasonMember.sync` on values (lines 104-121): resolve the wallet
      from the member's token, walk the fetched profiles over the cleared
      member, then store the wallet and `last_sync_at = now`. */
  ghost function SyncedMember(us: Users, next: nat, m: Member, chain: (string, string) -> OwnerResponse,
                              followers: seq<Profile>, following: seq<Profile>, now: int): Result<Walker>
    requires m.twitter in us
  {
    match GetWallet(us[m.twitter].token, chain)
    case Failure(e) => Failure(e)
    case Success(wallet) =>
      match Walk(Walker(us, next, Cleared(m)), followers, following, |followers + following|)
      case Failure(e) => Failure(e)
      case Success(w) => Success(w.(member := w.member.(walletAddress := wallet, lastSyncAt := Some(now))))
  }

  /** What a member sync promises: it raises exactly when the token cannot
      be split into three fields (or is missing), or an owner lookup answered
      200 with no owners, or some fetched id is matched by two or more rows;
      on success every fetched profile has exactly one row showing it, the
      member's followers are exactly the rows of the fetched follower ids and
      its following exactly those of the fetched following ids, and the row
      carries the resolved wallet and the sync time. */
  lemma SyncedMemberSpec(us: Users, next: nat, m: Member, chain: (string, string) -> OwnerResponse,
                         followers: seq<Profile>, following: seq<Profile>, now: int)
    requires m.twitter in us && forall u :: u in us ==> u < next
    ensures var w := GetWallet(us[m.twitter].token, chain);
      var s := SyncedMember(us, next, m, chain, followers, following, now);
      && (s.Failure? <==> w.Failure? || Ambiguous(us, IdsOf(followers + following)))
      && (s.Failure? ==> s.error == if w.Failure? then w.error else MultipleObjectsReturned)
      && (s.Success? ==>
            && ProfilesApplied(us, s.value.users, next, followers + following)
            && s.value.member == m.(walletAddress := w.value,
                                    followers := TaggedWith(s.value.users, IdsOf(followers)),
                                    following := TaggedWith(s.value.users, IdsOf(following)),
                                    lastSyncAt := Some(now)))
  {
    SnapshotReplaced(Walker(us, next, Cleared(m)), followers, following, |followers + following|);
  }

  class Database {
    var users: Users
    var members: Members
    var projects: Projects
    /** The next auto-increment ids of the TwitterUser and Member tables. */
    var nextUser: nat
    var nextMember: nat

    ghost predicate Valid()
      reads this
    {
      Consistent(users, nextUser, members, nextMember, projects)
    }

    constructor ()
      ensures Valid()
      ensures users == map[] && members == map[] && projects == map[]
    {
      users, members, projects := map[], map[], map[];
      nextUser, nextMember := 0, 0;
    }

    /** Lines 91-97 of `FreeMasonMember.handle_twitter_user`: get or create
        the TwitterUser row by `twitter_identifier`, then overwrite name and
        username, saving the row, only when one of them differs. The table
        part is `UpsertByTid`. */
    method UpsertUser(p: Profile) returns (r: Result<Upsert>)
      requires forall u :: u in users ==> u < nextUser
      modifies this
      ensures members == old(members) && projects == old(projects) && nextMember == old(nextMember)
      ensures match UpsertByTid(old(users), old(nextUser), p)
        case Failure(e) => r == Failure(e) && users == old(users) && nextUser == old(nextUser)
        case Success(v) => r == Success(Upsert(v.user, v.created, v.saved)) && users == v.users && nextUser == v.next
    {
      var matches := WithTid(users, p.id);
      if |matches| > 1 {
        return Failure(MultipleObjectsReturned);
      }
      var u: UserId, created: bool;
      if matches == {} {
        u, created := nextUser, true;
        users := users[u := NewUserWithTid(p.id)];
        nextUser := nextUser + 1;
      } else {
        u :| u in matches;
        created := false;
        Singleton(matches, u);
      }
      var rec := users[u];
      var saved := rec.name != Some(p.name) || rec.username != p.username;
      if saved {
        users := users[u := rec.(name := Some(p.name), username := p.username)];
      }
      r := Success(Upsert(u, created, saved));
    }

    /** `FreeMasonMember.handle_twitter_user`: the upsert, then the row is
        added to the member's followers or following (lines 99-102). */
    method HandleTwitterUser(mid: MemberId, isFollower: bool, p: Profile) returns (r: Result<Upsert>)
      requires Valid() && mid in members
      modifies this
      ensures Valid()
      ensures projects == old(projects) && nextMember == old(nextMember)
      ensures match UpsertByTid(old(users), old(nextUser), p)
        case Failure(e) =>
          r == Failure(e) && users == old(users) && members == old(members) && nextUser == old(nextUser)
        case Success(v) =>
          && r == Success(Upsert(v.user, v.created, v.saved))
          && users == v.users && nextUser == v.next
          && members == old(members)[mid := Associate(old(members)[mid], isFollower, v.user)]
    {
      r := UpsertUser(p);
      if r.Success? {
        UpsertSpec(old(users), old(nextUser), p);
        members := members[mid := Associate(members[mid], isFollower, r.value.user)];
      }
    }

    /** Only member `mid`'s row may differ from `ms0`; the project table and
        the member counter are `ps0` and `nm0`. */
    ghost predicate OnlyMemberChanged(ps0: Projects, nm0: nat, ms0: Members, mid: MemberId)
      reads this
    {
      projects == ps0 && nextMember == nm0 && mid in members && members == ms0[mid := members[mid]]
    }

    /** One iteration of the loop at line 115: upsert `(followers + following)[i]`
        into the set its index selects. */
    method AbsorbProfile(mid: MemberId, followers: seq<Profile>, following: seq<Profile>, i: nat,
                         ghost w0: Walker) returns (ok: bool)
      requires Valid() && mid in members && i < |followers + following|
      requires Walk(w0, followers, following, i) == Success(Walker(users, nextUser, members[mid]))
      modifies this
      ensures Valid() && mid in members
      ensures OnlyMemberChanged(old(projects), old(nextMember), old(members), mid)
      ensures ok ==> Walk(w0, followers, following, i + 1) == Success(Walker(users, nextUser, members[mid]))
      ensures !ok ==> Walk(w0, followers, following, i + 1).Failure? && users == old(users) &&
                      nextUser == old(nextUser) && members == old(members)
    {
      var step := HandleTwitterUser(mid, i < |followers|, (followers + following)[i]);
      ok := step.Success?;
    }

    /** The loop at lines 115-116 from the walk state `w0`: `ok` is false
        when the upsert of profile `stop` raised, and the tables then hold
        the state after the first `stop` profiles. */
    method Refill(mid: MemberId, followers: seq<Profile>, following: seq<Profile>, ghost w0: Walker)
      returns (ok: bool, ghost stop: nat)
      requires Valid() && mid in members
      requires w0 == Walker(users, nextUser, members[mid])
      modifies this
      ensures Valid()
      ensures OnlyMemberChanged(old(projects), old(nextMember), old(members), mid)
      ensures stop <= |followers + following|
      ensures Walk(w0, followers, following, stop) == Success(Walker(users, nextUser, members[mid]))
      ensures ok ==> stop == |followers + following|
      ensures !ok ==> stop < |followers + following| && Walk(w0, followers, following, stop + 1).Failure?
    {
      var i := 0;
      while i < |followers + following|
        invariant i <= |followers + following|
        invariant Valid() && mid in members
        invariant OnlyMemberChanged(old(projects), old(nextMember), old(members), mid)
        invariant Walk(w0, followers, following, i) == Success(Walker(users, nextUser, members[mid]))
      {
        ghost var before := members[mid];
        ok := AbsorbProfile(mid, followers, following, i, w0);
        UpdateTwice(old(members), mid, before, members[mid]);
        if !ok {
          stop := i;
          return;
        }
        i := i + 1;
      }
      ok, stop := true, i;
    }

    /** Lines 107-116 of `FreeMasonMember.sync`: clear both association sets,
        then upsert the profiles of `followers + following` in order, each
        into followers when its index is below `|followers|` and into
        following otherwise: the walk `Walk`. `ok` is false when a lookup
        matched two or more rows (MultipleObjectsReturned); the walk stops
        there, leaving the state after the first `stop` profiles. */
    method ReplaceSnapshot(mid: MemberId, followers: seq<Profile>, following: seq<Profile>)
      returns (ok: bool, ghost stop: nat)
      requires Valid() && mid in members
      modifies this
      ensures Valid()
      ensures OnlyMemberChanged(old(projects), old(nextMember), old(members), mid)
      ensures var w0 := Walker(old(users), old(nextUser), Cleared(old(members[mid])));
        var r := Walk(w0, followers, following, |followers + following|);
        && (ok <==> r.Success?)
        && (ok ==> r.value == Walker(users, nextUser, members[mid]))
        && (!ok ==> stop < |followers + following| &&
                    Walk(w0, followers, following, stop) == Success(Walker(users, nextUser, members[mid])) &&
                    Walk(w0, followers, following, stop + 1).Failure?)
    {
      ghost var w0 := Walker(users, nextUser, Cleared(members[mid]));
      members := members[mid := Cleared(members[mid])];
      ok, stop := Refill(mid, followers, following, w0);
      UpdateTwice(old(members), mid, w0.member, members[mid]);
      if !ok {
        WalkStopped(w0, followers, following, stop + 1, |followers + following|);
      }
    }

    /** `FreeMasonMember.sync`, tied to `SyncedMember`. When the wallet
        lookup raises, every table is as it was; when the walk raises, the
        tables hold the walk's state before the failing profile, and the
        member row keeps its wallet and last sync time, the final `save()`
        not being reached. */
    method SyncMember(mid: MemberId, chain: (string, string) -> OwnerResponse,
                      followers: seq<Profile>, following: seq<Profile>, now: int) returns (r: Outcome, ghost stop: nat)
      requires Valid() && mid in members
      modifies this
      ensures Valid()
      ensures OnlyMemberChanged(old(projects), old(nextMember), old(members), mid)
      ensures var s := SyncedMember(old(users), old(nextUser), old(members[mid]), chain, followers, following, now);
        && (r.Returned? <==> s.Success?)
        && (r.Returned? ==> r.status == 200 && s.value == Walker(users, nextUser, members[mid]))
        && (r.Raised? ==> r.error == s.error)
      ensures GetWallet(old(users)[old(members[mid]).twitter].token, chain).Failure? ==>
        users == old(users) && nextUser == old(nextUser) && members == old(members)
      ensures GetWallet(old(users)[old(members[mid]).twitter].token, chain).Success? && r.Raised? ==>
        var w0 := Walker(old(users), old(nextUser), Cleared(old(members[mid])));
        && stop < |followers + following|
        && Walk(w0, followers, following, stop) == Success(Walker(users, nextUser, members[mid]))
        && Walk(w0, followers, following, stop + 1).Failure?
    {
      stop := 0;
      var owner := GetWallet(users[members[mid].twitter].token, chain);
      if owner.Failure? {
        return Raised(owner.error), stop;
      }
      var ok;
      ok, stop := ReplaceSnapshot(mid, followers, following);
      WalkKeepsRow(Walker(old(users), old(nextUser), Cleared(old(members[mid]))), followers, following,
                   |followers + following|);
      if !ok {
        return Raised(MultipleObjectsReturned), stop;
      }
      var walked := members[mid];
      members := members[mid := walked.(walletAddress := owner.value, lastSyncAt := Some(now))];
      UpdateTwice(old(members), mid, walked, members[mid]);
      return Returned(200), stop;
    }
  
    /** The state the roster loop of project `pid` works on. */
    ghost function RosterOf(pid: ProjectId): Roster
      reads this
      requires pid in projects
    {
      Roster(users, nextUser, members, nextMember, projects[pid].members)
    }

    /** A consistent store gives the roster walk a closed starting state. */
    lemma RosterClosed(pid: ProjectId)
      requires Valid() && pid in projects
      ensures Closed(RosterOf(pid).(enrolled := {}))
    {
    }

    /** Only project `pid`'s member set may differ from `ps0`. */
    ghost predicate OnlyRosterChanged(ps0: Projects, pid: ProjectId)
      reads this
    {
      pid in ps0 && pid in projects && projects == ps0[pid := ps0[pid].(members := projects[pid].members)]
    }

    /** Lines 171-180 of `FreeMasonProject.sync`: get or create the
        TwitterUser row by (`twitter_identifier`, `inspect_identifier`), then
        copy the entry's name, username, picture and token into it and save.
        The table part is `UpsertByKey`. */
    method UpsertListed(k: RosterKey, e: ListingEntry) returns (r: Result<UserId>)
      requires forall u :: u in users ==> u < nextUser
      modifies this
      ensures members == old(members) && projects == old(projects) && nextMember == old(nextMember)
      ensures match UpsertByKey(old(users), old(nextUser), k, e)
        case Failure(err) => r == Failure(err) && users == old(users) && nextUser == old(nextUser)
        case Success(v) => r == Success(v.user) && users == v.users && nextUser == v.next
    {
      var matches := WithKey(users, k);
      if |matches| > 1 {
        return Failure(MultipleObjectsReturned);
      }
      var u: UserId;
      if matches == {} {
        u := nextUser;
        users := users[u := NewUserWithKey(k)];
        nextUser := nextUser + 1;
      } else {
        u :| u in matches;
        Singleton(matches, u);
      }
      users := users[u := Overwritten(users[u], e)];
      r := Success(u);
    }

    /** Lines 182-184: `FreeMasonMember.objects.get_or_create(twitter=u)`.
        The table part is `MemberFor`. */
    method MemberOf(u: UserId) returns (r: Result<MemberId>)
      requires forall m :: m in members ==> m < nextMember
      modifies this
      ensures users == old(users) && projects == old(projects) && nextUser == old(nextUser)
      ensures match MemberFor(old(members), old(nextMember), u)
        case Failure(err) => r == Failure(err) && members == old(members) && nextMember == old(nextMember)
        case Success(w) => r == Success(w.member) && members == w.members && nextMember == w.next
    {
      var matches := MembersOf(members, u);
      if |matches| > 1 {
        return Failure(MultipleObjectsReturned);
      }
      var m: MemberId;
      if matches == {} {
        m := nextMember;
        members := members[m := NewMember(u)];
        nextMember := nextMember + 1;
      } else {
        m :| m in matches;
        Singleton(matches, m);
      }
      r := Success(m);
    }

    /** One pass of the loop body, lines 171-186, for entry `i`: the upsert,
        the member lookup and `self.members.add`. A raising pass leaves the
        state `Stalled` describes. */
    method EnrollEntry(pid: ProjectId, entries: seq<ListingEntry>, ids: seq<string>, i: nat)
      returns (fault: Option<Error>)
      requires Valid() && pid in projects && i < |entries|
      modifies this
      ensures Valid() && OnlyRosterChanged(old(projects), pid)
      ensures fault.None? ==> EnrollAt(old(RosterOf(pid)), entries, ids, i) == Success(RosterOf(pid))
      ensures fault.Some? ==> EnrollAt(old(RosterOf(pid)), entries, ids, i) == Failure(fault.value) &&
                              RosterOf(pid) == Stalled(old(RosterOf(pid)), entries, ids, i)
    {
      ghost var s := RosterOf(pid);
      if i >= |ids| {
        return Some(IndexError);
      }
      var k := RosterKey(ids[i], entries[i].id);
      UpsertByKeySpec(users, nextUser, k, entries[i]);
      var up := UpsertListed(k, entries[i]);
      if up.Failure? {
        return Some(up.error);
      }
      ghost var v := UpsertByKey(s.users, s.nextUser, k, entries[i]).value;
      ghost var w := MemberFor(s.members, s.nextMember, v.user);
      EnrollConsistent(s.users, s.nextUser, s.members, s.nextMember, old(projects), pid, k, entries[i], v,
                       if w.Success? then w.value else Enlisted(0, map[], 0, false));
      MemberForSpec(members, nextMember, up.value);
      var found := MemberOf(up.value);
      if found.Failure? {
        return Some(found.error);
      }
      projects := projects[pid := projects[pid].(members := projects[pid].members + {found.value})];
      fault := None;
    }

    /** The loop at lines 170-186 over the listing entries from the roster
        state `s0`. `ok` is false when the pass of entry `stop` raised `err`
        (`err` carries no meaning when `ok` is true);
        the tables then hold what that pass left. */
    method Enlist(pid: ProjectId, entries: seq<ListingEntry>, ids: seq<string>, ghost s0: Roster)
      returns (ok: bool, err: Error, ghost stop: nat, ghost at: Roster)
      requires Valid() && pid in projects && s0 == RosterOf(pid)
      modifies this
      ensures Valid() && OnlyRosterChanged(old(projects), pid)
      ensures ok ==> Enroll(s0, entries, ids, |entries|) == Success(RosterOf(pid))
      ensures !ok ==> stop < |entries| && Enroll(s0, entries, ids, stop) == Success(at) &&
                      Enroll(s0, entries, ids, stop + 1) == Failure(err) &&
                      RosterOf(pid) == Stalled(at, entries, ids, stop)
    {
      var i := 0;
      ok, err, stop, at := true, IndexError, 0, s0;
      // The roster state after each pass so far.
      ghost var trace := [s0];
      while i < |entries|
        invariant Valid() && OnlyRosterChanged(old(projects), pid)
        invariant i <= |entries| && |trace| == i + 1 && trace[0] == s0 && trace[i] == RosterOf(pid)
        invariant Passes(trace, entries, ids, i)
      {
        ghost var ps := projects;
        at := RosterOf(pid);
        var fault := EnrollEntry(pid, entries, ids, i);
        UpdateTwice(old(projects), pid, ps[pid], projects[pid]);
        if fault.Some? {
          ok, err := false, fault.value;
          stop := i;
          TraceWalk(s0, entries, ids, trace, i);
          EnrollNext(s0, entries, ids, i, at);
          return;
        }
        trace := trace + [RosterOf(pid)];
        i := i + 1;
      }
      TraceWalk(s0, entries, ids, trace, i);
    }

    /** `FreeMasonProject.sync`, lines 155-192, given the member-listing
        answer and the Twitter ids the client returns for the listed
        usernames. A non-200 answer returns 500 and changes nothing. On 200
        the first `RosterLimit` entries are walked over the cleared member
        set: the walk `Enroll` from the current tables. A raising walk leaves
        what the loop wrote so far and keeps `last_sync_at`; otherwise the
        project's members are the walk's and `last_sync_at` is `now`. */
    method SyncProject(pid: ProjectId, listing: ListingResponse, ids: seq<string>, now: int)
      returns (r: Outcome, ghost stop: nat)
      requires Valid() && pid in projects
      modifies this
      ensures Valid()
      ensures listing.status != 200 ==>
        r == Returned(500) && users == old(users) && nextUser == old(nextUser) &&
        members == old(members) && nextMember == old(nextMember) && projects == old(projects)
      ensures listing.status == 200 ==>
        var entries := Head(listing.members);
        var s0 := old(RosterOf(pid)).(enrolled := {});
        var walk := Enroll(s0, entries, ids, |entries|);
        && pid in projects
        && (r.Returned? <==> walk.Success?)
        && (r.Returned? ==>
              && r.status == 200 && RosterOf(pid) == walk.value
              && projects == old(projects)[pid := old(projects[pid]).(members := walk.value.enrolled,
                                                                     lastSyncAt := Some(now))])
        && (r.Raised? ==>
              && r.error == walk.error && stop < |entries| && Enroll(s0, entries, ids, stop).Success?
              && Enroll(s0, entries, ids, stop + 1) == Failure(r.error)
              && RosterOf(pid) == Stalled(Enroll(s0, entries, ids, stop).value, entries, ids, stop)
              && projects == old(projects)[pid := old(projects[pid]).(members := projects[pid].members)])
    {
      stop := 0;
      if listing.status != 200 {
        return Returned(500), stop;
      }
      var entries := Head(listing.members);
      projects := projects[pid := projects[pid].(members := {})];
      ghost var s0 := RosterOf(pid);
      ghost var ps := projects;
      var ok, err;
      ghost var at;
      ok, err, stop, at := Enlist(pid, entries, ids, s0);
      UpdateTwice(old(projects), pid, ps[pid], projects[pid]);
      if !ok {
        EnrollStopped(s0, entries, ids, stop + 1, |entries|);
        return Raised(err), stop;
      }
      projects := projects[pid := projects[pid].(lastSyncAt := Some(now))];
      UpdateTwice(old(projects), pid, ps[pid], projects[pid]);
      r := Returned(200);
    }

    /** `member_follower_summary`, lines 141-153: one row per username of
        the project's members, with the number of members carrying it,
        ordered by that number from largest to smallest. */
    ghost function MemberFollowerSummary(pid: ProjectId): (rows: seq<Summary.SummaryRow>)
      reads this
      requires Valid() && pid in projects
      ensures forall i :: 0 <= i < |rows| ==>
        rows[i].overlapCount == |Summary.Named(users, members, projects[pid].members, rows[i].username)| > 0
      ensures forall m :: m in projects[pid].members ==>
        exists i :: 0 <= i < |rows| && rows[i].username == Summary.NameOf(users, members, m)
      ensures Summary.UniqueNames(rows) && Summary.Descending(rows)
      ensures Summary.Total(rows) == |projects[pid].members|
    {
      Summary.ProjectSummarySpec(users, members, projects[pid].members);
      Summary.ProjectSummary(users, members, projects[pid].members)
    }
  }
}

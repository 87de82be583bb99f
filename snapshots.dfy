/** What a member sync leaves in the TwitterUser table: the state relation
    between the table before the sync and after a prefix of the fetched
    profiles has been upserted, and the step lemma that carries it along. */
module Snapshots {
  import opened Outcomes
  import opened Records

  /** The columns the light upsert never writes. */
  predicate SameIdentity(a: TwitterUser, b: TwitterUser)
  {
    && a.twitterIdentifier == b.twitterIdentifier
    && a.inspectIdentifier == b.inspectIdentifier
    && a.pfpUrl == b.pfpUrl
    && a.token == b.token
  }

  /** The row shows the profile's current name and username. */
  predicate Shows(rec: TwitterUser, p: Profile)
  {
    rec.name == Some(p.name) && rec.username == p.username
  }

  /** Some id of `ids` is matched by two or more rows, so `get_or_create`
      on it raises MultipleObjectsReturned. */
  ghost predicate Ambiguous(us: Users, ids: set<string>)
  {
    exists x :: x in ids && |WithTid(us, x)| > 1
  }

  /** `us` is `us0` after the profiles `ps` have been upserted in order with
      `handle_twitter_user`, new rows getting ids from `n0` on:
      only name and username of rows for the upserted ids are written; every
      new row belongs to an upserted id and has its other columns at their
      defaults; every upserted id has exactly one row, and that row shows the
      last profile listed with that id. */
  ghost predicate ProfilesApplied(us0: Users, us: Users, n0: nat, ps: seq<Profile>)
  {
    && us0.Keys <= us.Keys
    && (forall u :: u in us0 ==> SameIdentity(us0[u], us[u]))
    && (forall u :: u in us0 && !TidIn(us0[u], IdsOf(ps)) ==> us[u] == us0[u])
    && (forall u :: u in us && u !in us0 ==>
          && u >= n0 && TidIn(us[u], IdsOf(ps))
          && us[u].inspectIdentifier == None && us[u].pfpUrl == None && us[u].token == None)
    && (forall x :: x in IdsOf(ps) ==> |WithTid(us, x)| == 1)
    && (forall u :: u in us && TidIn(us[u], IdsOf(ps)) ==>
          Shows(us[u], LastWith(ps, us[u].twitterIdentifier.value)))
  }

  /** The result of `handle_twitter_user`'s table part: the row used, the
      table and id counter afterwards, and whether the row was created and
      whether it was saved. */
  datatype Upserted = Upserted(user: UserId, users: Users, next: nat, created: bool, saved: bool)

  /** Lines 91-97: `get_or_create(twitter_identifier=p.id)`, then overwrite
      name and username and save, only when either differs. */
  ghost function UpsertByTid(us: Users, next: nat, p: Profile): Result<Upserted>
  {
    var matches := WithTid(us, p.id);
    if |matches| > 1 then Failure(MultipleObjectsReturned)
    else if matches == {} then
      Success(Upserted(next, us[next := NewUserWithTid(p.id).(name := Some(p.name), username := p.username)],
                       next + 1, true, true))
    else
      var u :| u in matches;
      var rec := us[u];
      if Shows(rec, p) then Success(Upserted(u, us, next, false, false))
      else Success(Upserted(u, us[u := rec.(name := Some(p.name), username := p.username)], next, false, true))
  }

  /** What the upsert promises: it fails exactly when two or more rows carry
      the id; otherwise it reuses the one row or creates one at `next`, that
      row alone of the table changes, it then shows the profile, only its
      name and username were written, and it was saved exactly when it was
      new or showed something else. */
  lemma UpsertSpec(us: Users, next: nat, p: Profile)
    requires forall u :: u in us ==> u < next
    ensures var r := UpsertByTid(us, next, p);
      && (r.Failure? <==> |WithTid(us, p.id)| > 1)
      && (r.Failure? ==> r.error == MultipleObjectsReturned)
    ensures var r := UpsertByTid(us, next, p);
      r.Success? ==>
      var v := r.value;
      && (v.created <==> WithTid(us, p.id) == {})
      && (v.created ==> v.user == next && v.next == next + 1)
      && (!v.created ==> v.user in us && v.next == next)
      && WithTid(us, p.id) <= {v.user}
      && WithTid(v.users, p.id) == {v.user}
      && v.users.Keys == us.Keys + {v.user}
      && (forall u :: u in v.users ==> u < v.next)
      && Shows(v.users[v.user], p)
      && (v.created ==> v.users[v.user] == NewUserWithTid(p.id).(name := Some(p.name), username := p.username))
      && (!v.created ==> SameIdentity(us[v.user], v.users[v.user]))
      && (forall u :: u in us && u != v.user ==> v.users[u] == us[u])
      && v.users == us[v.user := (if v.created then NewUserWithTid(p.id) else us[v.user]).(name := Some(p.name), username := p.username)]
      && (v.saved <==> v.created || !Shows(us[v.user], p))
      && (!v.saved ==> v.users == us)
  {
    var matches := WithTid(us, p.id);
    if |matches| == 1 {
      var u :| u in matches;
      Singleton(matches, u);
    }
  }

  /** The state the walk over `followers + following` threads along: the
      TwitterUser table, its id counter and the member row being refilled. */
  datatype Walker = Walker(users: Users, next: nat, member: Member)

  /** `self.followers.clear()` and `self.following.clear()`. */
  function Cleared(m: Member): Member
  {
    m.(followers := {}, following := {})
  }

  /** The member columns the walk never writes. */
  predicate SameRow(m: Member, m0: Member)
  {
    m.twitter == m0.twitter && m.walletAddress == m0.walletAddress && m.lastSyncAt == m0.lastSyncAt
  }

  ghost predicate Counted(w: Walker)
  {
    forall u :: u in w.users ==> u < w.next
  }

  /** Iteration `i` of the loop at line 115. */
  ghost function AbsorbAt(w: Walker, followers: seq<Profile>, following: seq<Profile>, i: nat): Result<Walker>
    requires i < |followers + following|
  {
    match UpsertByTid(w.users, w.next, (followers + following)[i])
    case Failure(e) => Failure(e)
    case Success(v) => Success(Walker(v.users, v.next, Associate(w.member, i < |followers|, v.user)))
  }

  /** The first `i` iterations of the loop at line 115, from `w0`. */
  ghost function Walk(w0: Walker, followers: seq<Profile>, following: seq<Profile>, i: nat): Result<Walker>
    requires i <= |followers + following|
  {
    if i == 0 then Success(w0)
    else
      match Walk(w0, followers, following, i - 1)
      case Failure(e) => Failure(e)
      case Success(w) => AbsorbAt(w, followers, following, i - 1)
  }

  /** The walk only grows the id counter, keeps every id below it, and
      writes nothing of the member row but its two sets. */
  lemma {:induction false} WalkKeepsRow(w0: Walker, followers: seq<Profile>, following: seq<Profile>, i: nat)
    requires i <= |followers + following| && Counted(w0)
    ensures var r := Walk(w0, followers, following, i);
      && (r.Success? ==> Counted(r.value) && r.value.next >= w0.next && SameRow(r.value.member, w0.member))
      && (r.Failure? ==> r.error == MultipleObjectsReturned)
  {
    if i > 0 {
      var j := i - 1;
      WalkKeepsRow(w0, followers, following, j);
      var prev := Walk(w0, followers, following, j);
      if prev.Success? {
        UpsertSpec(prev.value.users, prev.value.next, (followers + following)[j]);
      }
    }
  }

  /** Before any profile is upserted the relation holds trivially. */
  lemma ProfilesAppliedEmpty(us: Users, n0: nat)
    ensures ProfilesApplied(us, us, n0, [])
  {
    assert IdsOf([]) == {};
  }

  /** Ids that were not upserted are matched by the same rows as before. */
  lemma UntouchedIds(us0: Users, us: Users, n0: nat, ps: seq<Profile>, x: string)
    requires ProfilesApplied(us0, us, n0, ps)
    requires x !in IdsOf(ps)
    ensures WithTid(us, x) == WithTid(us0, x)
  {
  }

  /** One more upsert, of profile `p` into row `u`, extends the relation.
      `u` is the row the lookup found (its identifier is `p.id` and it is the
      only such row) or a fresh id at or above `n0`. */
  lemma {:induction false} ProfilesAppliedStep(us0: Users, us: Users, n0: nat, ps: seq<Profile>, p: Profile, u: UserId,
                                               ps': seq<Profile>)
    requires ps' == ps + [p]
    requires ProfilesApplied(us0, us, n0, ps)
    requires WithTid(us, p.id) <= {u}
    requires u in us ==> us[u].twitterIdentifier == Some(p.id)
    requires u !in us ==> u >= n0
    ensures var base := if u in us then us[u] else NewUserWithTid(p.id);
      ProfilesApplied(us0, us[u := base.(name := Some(p.name), username := p.username)], n0, ps')
  {
    var base := if u in us then us[u] else NewUserWithTid(p.id);
    var us' := us[u := base.(name := Some(p.name), username := p.username)];
    IdsOfConcat(ps, [p]);
    assert IdsOf([p]) == {p.id};
    StepKeepsColumns(us0, us, us', n0, ps, p, u);
    StepUnique(us, us', ps, p, u);
    StepShows(us, us', ps, p, u);
  }

  lemma StepKeepsColumns(us0: Users, us: Users, us': Users, n0: nat, ps: seq<Profile>, p: Profile, u: UserId)
    requires ProfilesApplied(us0, us, n0, ps)
    requires IdsOf(ps + [p]) == IdsOf(ps) + {p.id}
    requires u in us ==> us[u].twitterIdentifier == Some(p.id)
    requires u !in us ==> u >= n0
    requires var base := if u in us then us[u] else NewUserWithTid(p.id);
      us' == us[u := base.(name := Some(p.name), username := p.username)]
    ensures us0.Keys <= us'.Keys
    ensures forall v :: v in us0 ==> SameIdentity(us0[v], us'[v])
    ensures forall v :: v in us0 && !TidIn(us0[v], IdsOf(ps + [p])) ==> us'[v] == us0[v]
    ensures forall v :: v in us' && v !in us0 ==>
          && v >= n0 && TidIn(us'[v], IdsOf(ps + [p]))
          && us'[v].inspectIdentifier == None && us'[v].pfpUrl == None && us'[v].token == None
  {
  }

  lemma StepUnique(us: Users, us': Users, ps: seq<Profile>, p: Profile, u: UserId)
    requires forall x :: x in IdsOf(ps) ==> |WithTid(us, x)| == 1
    requires IdsOf(ps + [p]) == IdsOf(ps) + {p.id}
    requires WithTid(us, p.id) <= {u}
    requires u in us ==> us[u].twitterIdentifier == Some(p.id)
    requires var base := if u in us then us[u] else NewUserWithTid(p.id);
      us' == us[u := base.(name := Some(p.name), username := p.username)]
    ensures forall x :: x in IdsOf(ps + [p]) ==> |WithTid(us', x)| == 1
  {
    assert WithTid(us', p.id) == {u};
    forall x | x in IdsOf(ps + [p]) && x != p.id ensures |WithTid(us', x)| == 1 {
      assert WithTid(us', x) == WithTid(us, x);
    }
  }

  lemma StepShows(us: Users, us': Users, ps: seq<Profile>, p: Profile, u: UserId)
    requires forall v :: v in us && TidIn(us[v], IdsOf(ps)) ==>
          Shows(us[v], LastWith(ps, us[v].twitterIdentifier.value))
    requires IdsOf(ps + [p]) == IdsOf(ps) + {p.id}
    requires WithTid(us, p.id) <= {u}
    requires u in us ==> us[u].twitterIdentifier == Some(p.id)
    requires var base := if u in us then us[u] else NewUserWithTid(p.id);
      us' == us[u := base.(name := Some(p.name), username := p.username)]
    ensures forall v :: v in us' && TidIn(us'[v], IdsOf(ps + [p])) ==>
          Shows(us'[v], LastWith(ps + [p], us'[v].twitterIdentifier.value))
  {
    forall v | v in us' && TidIn(us'[v], IdsOf(ps + [p]))
      ensures Shows(us'[v], LastWith(ps + [p], us'[v].twitterIdentifier.value))
    {
      var x := us'[v].twitterIdentifier.value;
      LastWithAppend(ps, p, x);
      if x == p.id {
        assert v == u || v in WithTid(us, p.id);
      } else {
        assert v != u && us'[v] == us[v];
      }
    }
  }

  /** The member's association sets while `FreeMasonMember.sync` walks
      `followers + following`: after `i` upserts the sets hold exactly the rows
      of the ids upserted so far from each list, over the current table. */
  ghost predicate MemberSyncInv(us0: Users, n0: nat, us: Users, cleared: Member, m: Member,
                                followers: seq<Profile>, following: seq<Profile>, i: nat)
  {
    && i <= |followers + following|
    && ProfilesApplied(us0, us, n0, (followers + following)[..i])
    && !Ambiguous(us0, IdsOf((followers + following)[..i]))
    && SetsAt(us, cleared, m, followers, following, i)
  }

  /** After `i` upserts the member's sets are the cleared row's, filled with
      the rows of the first ids of each list that the first `i` covered. */
  ghost predicate SetsAt(us: Users, cleared: Member, m: Member, followers: seq<Profile>, following: seq<Profile>, i: nat)
    requires i <= |followers + following|
  {
    var fd := if i <= |followers| then i else |followers|;
    m == cleared.(followers := TaggedWith(us, IdsOf(followers[..fd])),
                  following := TaggedWith(us, IdsOf(following[..i - fd])))
  }

  lemma MemberSyncStart(us: Users, n0: nat, cleared: Member, followers: seq<Profile>, following: seq<Profile>)
    requires cleared.followers == {} && cleared.following == {}
    ensures MemberSyncInv(us, n0, us, cleared, cleared, followers, following, 0)
  {
    ProfilesAppliedEmpty(us, n0);
    assert (followers + following)[..0] == followers[..0] == following[..0] == [];
    assert IdsOf([]) == {};
  }

  /** The profile at index `i` goes into the followers set when `i` is below
      `|followers|`, and into the following set otherwise. */
  lemma MemberSyncStep(us0: Users, n0: nat, us: Users, cleared: Member, m: Member,
                       followers: seq<Profile>, following: seq<Profile>, i: nat, u: UserId,
                       us': Users, m': Member)
    requires i < |followers + following|
    requires MemberSyncInv(us0, n0, us, cleared, m, followers, following, i)
    requires var p := (followers + following)[i];
      && WithTid(us, p.id) <= {u}
      && (u in us ==> us[u].twitterIdentifier == Some(p.id))
      && (u !in us ==> u >= n0)
      && us' == us[u := (if u in us then us[u] else NewUserWithTid(p.id)).(name := Some(p.name), username := p.username)]
    requires m' == Associate(m, i < |followers|, u)
    ensures MemberSyncInv(us0, n0, us', cleared, m', followers, following, i + 1)
  {
    StepApplied(us0, n0, us, followers + following, i, u);
    var p := (followers + following)[i];
    if p.id in IdsOf((followers + following)[..i]) {
      assert |WithTid(us, p.id)| == 1;
      assert u in WithTid(us, p.id);
    }
    StepSetsAt(us, cleared, m, followers, following, i, u, us', m');
  }

  /** The sets part of `MemberSyncStep`. */
  lemma {:induction false} StepSetsAt(us: Users, cleared: Member, m: Member,
                                      followers: seq<Profile>, following: seq<Profile>, i: nat, u: UserId,
                                      us': Users, m': Member)
    requires i < |followers + following|
    requires SetsAt(us, cleared, m, followers, following, i)
    requires (followers + following)[i].id in IdsOf((followers + following)[..i]) ==>
               u in WithTid(us, (followers + following)[i].id)
    requires var p := (followers + following)[i];
      && WithTid(us, p.id) <= {u}
      && (u in us ==> us[u].twitterIdentifier == Some(p.id))
      && us' == us[u := (if u in us then us[u] else NewUserWithTid(p.id)).(name := Some(p.name), username := p.username)]
    requires m' == Associate(m, i < |followers|, u)
    ensures SetsAt(us', cleared, m', followers, following, i + 1)
  {
    var p := (followers + following)[i];
    var fd := if i <= |followers| then i else |followers|;
    var f, g := followers[..fd], following[..i - fd];
    assert (followers + following)[..i] == f + g;
    if i < |followers| {
      assert p == followers[fd];
      assert followers[..fd + 1] == f + [p];
    } else {
      assert p == following[i - fd];
      assert following[..i - fd + 1] == g + [p];
    }
    IdsOfConcat(f, g);
    if i < |followers| {
      StepSets(us, us', u, p, f, g, m.followers, m.following, followers[..fd + 1]);
    } else {
      StepSets(us, us', u, p, g, f, m.following, m.followers, following[..i - fd + 1]);
    }
  }


  /** The upsert of `all[i]` extends the table relation and keeps the
      processed ids unambiguous. */
  lemma StepApplied(us0: Users, n0: nat, us: Users, all: seq<Profile>, i: nat, u: UserId)
    requires i < |all|
    requires ProfilesApplied(us0, us, n0, all[..i])
    requires !Ambiguous(us0, IdsOf(all[..i]))
    requires WithTid(us, all[i].id) <= {u}
    requires u in us ==> us[u].twitterIdentifier == Some(all[i].id)
    requires u !in us ==> u >= n0
    ensures var p := all[i];
      var base := if u in us then us[u] else NewUserWithTid(p.id);
      ProfilesApplied(us0, us[u := base.(name := Some(p.name), username := p.username)], n0, all[..i + 1])
    ensures !Ambiguous(us0, IdsOf(all[..i + 1]))
  {
    var p := all[i];
    assert all[..i + 1] == all[..i] + [p];
    IdsOfConcat(all[..i], [p]);
    assert IdsOf([p]) == {p.id};
    assert |WithTid(us0, p.id)| <= 1 by {
      if p.id !in IdsOf(all[..i]) {
        UntouchedIds(us0, us, n0, all[..i], p.id);
        assert {u} == WithTid(us0, p.id) || WithTid(us0, p.id) == {};
      }
    }
    UnambiguousAdd(us0, IdsOf(all[..i]), p.id, IdsOf(all[..i + 1]));
    ProfilesAppliedStep(us0, us, n0, all[..i], p, u, all[..i + 1]);
  }

  lemma UnambiguousAdd(us: Users, ids: set<string>, x: string, ids': set<string>)
    requires ids' == ids + {x}
    requires !Ambiguous(us, ids) && |WithTid(us, x)| <= 1
    ensures !Ambiguous(us, ids')
  {
  }

  /** Writing row `u` for profile `p` and adding `u` to the set being filled
      (`grow`, tagged by the ids of `done`) keeps both sets equal to the rows
      of their ids; `other` already held `u` if `p.id` was among its ids. */
  lemma StepSets(us: Users, us': Users, u: UserId, p: Profile, done: seq<Profile>, otherDone: seq<Profile>,
                 grow: set<UserId>, other: set<UserId>, doneNext: seq<Profile>)
    requires doneNext == done + [p]
    requires grow == TaggedWith(us, IdsOf(done)) && other == TaggedWith(us, IdsOf(otherDone))
    requires WithTid(us, p.id) <= {u}
    requires u in us ==> us[u].twitterIdentifier == Some(p.id)
    requires p.id in IdsOf(otherDone) ==> u in WithTid(us, p.id)
    requires var base := if u in us then us[u] else NewUserWithTid(p.id);
      us' == us[u := base.(name := Some(p.name), username := p.username)]
    ensures grow + {u} == TaggedWith(us', IdsOf(doneNext))
    ensures other == TaggedWith(us', IdsOf(otherDone))
  {
    var rec := us'[u];
    TaggedAfterWrite(us, u, rec, p.id, IdsOf(done));
    TaggedAfterWrite(us, u, rec, p.id, IdsOf(otherDone));
    IdsOfConcat(done, [p]);
    assert IdsOf([p]) == {p.id};
    TaggedAdd(us, IdsOf(done), p.id);
    TaggedAfterWrite(us, u, rec, p.id, IdsOf(done) + {p.id});
  }

  /** A lookup that matches two or more rows can only hit an id not yet
      upserted, so the table was already ambiguous before the sync. */
  lemma MemberSyncStuck(us0: Users, n0: nat, us: Users, cleared: Member, m: Member,
                        followers: seq<Profile>, following: seq<Profile>, i: nat)
    requires i < |followers + following|
    requires MemberSyncInv(us0, n0, us, cleared, m, followers, following, i)
    requires |WithTid(us, (followers + following)[i].id)| > 1
    ensures Ambiguous(us0, IdsOf(followers + following))
  {
    var all := followers + following;
    var p := all[i];
    if p.id !in IdsOf(all[..i]) {
      UntouchedIds(us0, us, n0, all[..i], p.id);
    }
    assert p in all;
  }

  /** After the whole walk the sets are exactly the rows of the fetched ids. */
  lemma MemberSyncDone(us0: Users, n0: nat, us: Users, cleared: Member, m: Member,
                       followers: seq<Profile>, following: seq<Profile>, i: nat)
    requires i == |followers + following|
    requires MemberSyncInv(us0, n0, us, cleared, m, followers, following, i)
    ensures ProfilesApplied(us0, us, n0, followers + following)
    ensures !Ambiguous(us0, IdsOf(followers + following))
    ensures m == cleared.(followers := TaggedWith(us, IdsOf(followers)),
                          following := TaggedWith(us, IdsOf(following)))
  {
    assert (followers + following)[..i] == followers + following;
    assert followers[..|followers|] == followers;
    assert following[..i - |followers|] == following;
  }

  /** One iteration of the walk keeps the snapshot invariant, or stops on an
      id that was already ambiguous. */
  lemma AbsorbKeepsInv(w0: Walker, w: Walker, followers: seq<Profile>, following: seq<Profile>, j: nat, i: nat)
    requires i == j + 1 && i <= |followers + following| && Counted(w) && w.next >= w0.next
    requires MemberSyncInv(w0.users, w0.next, w.users, w0.member, w.member, followers, following, j)
    requires Walk(w0, followers, following, j) == Success(w)
    ensures var r := Walk(w0, followers, following, i);
      && (r.Success? ==> MemberSyncInv(w0.users, w0.next, r.value.users, w0.member, r.value.member, followers, following, i))
      && (r.Failure? ==> r.error == MultipleObjectsReturned && Ambiguous(w0.users, IdsOf(followers + following)))
  {
    assert Walk(w0, followers, following, i) == AbsorbAt(w, followers, following, j);
    var p := (followers + following)[j];
    var res := UpsertByTid(w.users, w.next, p);
    UpsertSpec(w.users, w.next, p);
    if res.Failure? {
      MemberSyncStuck(w0.users, w0.next, w.users, w0.member, w.member, followers, following, j);
    } else {
      var v := res.value;
      MemberSyncStep(w0.users, w0.next, w.users, w0.member, w.member, followers, following, j, v.user,
                     v.users, Associate(w.member, j < |followers|, v.user));
    }
  }

  /** Every successful prefix of the walk satisfies the snapshot invariant;
      a failing one met an id that was already ambiguous. */
  lemma {:induction false} WalkInvariant(w0: Walker, followers: seq<Profile>, following: seq<Profile>, i: nat)
    requires i <= |followers + following| && Counted(w0)
    requires w0.member.followers == {} && w0.member.following == {}
    ensures var r := Walk(w0, followers, following, i);
      && (r.Success? ==> MemberSyncInv(w0.users, w0.next, r.value.users, w0.member, r.value.member, followers, following, i))
      && (r.Failure? ==> r.error == MultipleObjectsReturned && Ambiguous(w0.users, IdsOf(followers + following)))
  {
    if i == 0 {
      MemberSyncStart(w0.users, w0.next, w0.member, followers, following);
    } else {
      var j := i - 1;
      WalkInvariant(w0, followers, following, j);
      WalkKeepsRow(w0, followers, following, j);
      var prev := Walk(w0, followers, following, j);
      if prev.Success? {
        AbsorbKeepsInv(w0, prev.value, followers, following, j, i);
      } else {
        WalkCarries(w0, followers, following, j, i);
      }
    }
  }

  /** A raise before profile `j` is the raise of the longer walk. */
  lemma WalkCarries(w0: Walker, followers: seq<Profile>, following: seq<Profile>, j: nat, i: nat)
    requires i == j + 1 && i <= |followers + following| && Walk(w0, followers, following, j).Failure?
    ensures Walk(w0, followers, following, i) == Walk(w0, followers, following, j)
  {
  }

  /** Snapshot replacement (lines 107-116): the walk fails exactly when some
      fetched id was already matched by two or more rows; when it succeeds,
      followers holds exactly the rows of the fetched follower ids, following
      exactly those of the fetched following ids, nothing of the old sets
      remains, and the table relation holds for the whole list. */
  lemma SnapshotReplaced(w0: Walker, followers: seq<Profile>, following: seq<Profile>, n: nat)
    requires Counted(w0)
    requires w0.member.followers == {} && w0.member.following == {}
    requires n == |followers + following|
    ensures var r := Walk(w0, followers, following, n);
      && (r.Failure? <==> Ambiguous(w0.users, IdsOf(followers + following)))
      && (r.Failure? ==> r.error == MultipleObjectsReturned)
      && (r.Success? ==>
            && ProfilesApplied(w0.users, r.value.users, w0.next, followers + following)
            && r.value.member == w0.member.(followers := TaggedWith(r.value.users, IdsOf(followers)),
                                            following := TaggedWith(r.value.users, IdsOf(following))))
  {
    WalkInvariant(w0, followers, following, n);
    var r := Walk(w0, followers, following, n);
    if r.Success? {
      MemberSyncDone(w0.users, w0.next, r.value.users, w0.member, r.value.member, followers, following, n);
    }
  }

  /** A walk that failed at some prefix stays failed. */
  lemma {:induction false} WalkStopped(w0: Walker, followers: seq<Profile>, following: seq<Profile>, i: nat, n: nat)
    requires i <= n <= |followers + following| && Counted(w0)
    requires Walk(w0, followers, following, i).Failure?
    ensures Walk(w0, followers, following, n).Failure?
    decreases n - i
  {
    if i < n {
      WalkStopped(w0, followers, following, i + 1, n);
    }
  }
}

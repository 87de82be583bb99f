/** The roster path of `FreeMasonProject.sync` (freemasons/models.py, lines
    155-192) on values: each listing entry, paired by position with a Twitter
    id, is upserted into the TwitterUser table under the key
    (`twitter_identifier`, `inspect_identifier`), given a FreeMasonMember row,
    and added to the project's member set. */
module Rosters {
  import opened Outcomes
  import opened Records

  /** At most this many listing entries are taken (`[:100]`). */
  const RosterLimit: nat := 100

  /** The first `RosterLimit` entries of the listing, or all of them. */
  function Head(entries: seq<ListingEntry>): (h: seq<ListingEntry>)
    ensures |h| <= RosterLimit && |h| <= |entries| && h == entries[..|h|]
    ensures |h| == RosterLimit || h == entries
  {
    if |entries| <= RosterLimit then entries else entries[..RosterLimit]
  }

  /** The key of entry `i`: the Twitter id at the same position and the
      entry's own inspection-service id. */
  function KeyAt(entries: seq<ListingEntry>, ids: seq<string>, i: nat): RosterKey
    requires i < |entries| && i < |ids|
  {
    RosterKey(ids[i], entries[i].id)
  }

  /** The keys of the first `i` entries. */
  function KeysOf(entries: seq<ListingEntry>, ids: seq<string>, i: nat): set<RosterKey>
    requires i <= |entries| && i <= |ids|
  {
    if i == 0 then {} else KeysOf(entries, ids, i - 1) + {KeyAt(entries, ids, i - 1)}
  }

  /** The first `i` entries carry pairwise different keys. */
  predicate Distinct(entries: seq<ListingEntry>, ids: seq<string>, i: nat)
    requires i <= |entries| && i <= |ids|
  {
    forall j, j' :: 0 <= j < j' < i ==> KeyAt(entries, ids, j) != KeyAt(entries, ids, j')
  }

  predicate KeyedIn(rec: TwitterUser, ks: set<RosterKey>)
  {
    KeyOf(rec).Some? && KeyOf(rec).value in ks
  }

  /** The four assignments of lines 176-179: name, username, pfp_url and
      token are copied from the listing entry, whatever the row held. */
  function Overwritten(rec: TwitterUser, e: ListingEntry): (r: TwitterUser)
    ensures r.twitterIdentifier == rec.twitterIdentifier && r.inspectIdentifier == rec.inspectIdentifier
    ensures KeyOf(r) == KeyOf(rec)
    ensures r.name == e.name && r.username == e.username && r.pfpUrl == e.pfpUrl && r.token == e.token
  {
    rec.(name := e.name, username := e.username, pfpUrl := e.pfpUrl, token := e.token)
  }

  /** The row an entry lands in, the table afterwards and the next id. */
  datatype Listed = Listed(user: UserId, users: Users, next: nat, created: bool)

  /** Lines 171-180: `get_or_create` on the key, then the overwrite and save. */
  ghost function UpsertByKey(us: Users, next: nat, k: RosterKey, e: ListingEntry): Result<Listed>
  {
    var matches := WithKey(us, k);
    if |matches| > 1 then Failure(MultipleObjectsReturned)
    else if matches == {} then Success(Listed(next, us[next := Overwritten(NewUserWithKey(k), e)], next + 1, true))
    else
      var u :| u in matches;
      Success(Listed(u, us[u := Overwritten(us[u], e)], next, false))
  }

  /** The upsert raises exactly when two or more rows carry the key; otherwise
      it reuses the one row with that key or inserts one at the next id, and in
      both cases copies the entry's columns into it. A row that shares only the
      `twitter_identifier` is never the one picked, and no other row changes. */
  lemma UpsertByKeySpec(us: Users, next: nat, k: RosterKey, e: ListingEntry)
    requires forall u :: u in us ==> u < next
    ensures var r := UpsertByKey(us, next, k, e);
      (r.Failure? <==> |WithKey(us, k)| > 1) && (r.Failure? ==> r.error == MultipleObjectsReturned)
    ensures var r := UpsertByKey(us, next, k, e);
      r.Success? ==>
        var v := r.value;
        && (v.created <==> WithKey(us, k) == {})
        && (v.created ==> v.user == next && v.next == next + 1)
        && (!v.created ==> v.user in us && v.next == next)
        && WithKey(us, k) <= {v.user}
        && (forall u :: u in us && KeyOf(us[u]) != Some(k) ==> u != v.user)
        && v.users == us[v.user := Overwritten(if v.created then NewUserWithKey(k) else us[v.user], e)]
        && KeyOf(v.users[v.user]) == Some(k)
        && WithKey(v.users, k) == {v.user}
        && (forall u :: u in v.users ==> u < v.next)
  {
    var matches := WithKey(us, k);
    if |matches| == 1 {
      var u :| u in matches;
      Singleton(matches, u);
    }
  }

  /** The Member row an upserted TwitterUser row gets, the table afterwards
      and the next id. */
  datatype Enlisted = Enlisted(member: MemberId, members: Members, next: nat, created: bool)

  /** Lines 182-184: `FreeMasonMember.objects.get_or_create(twitter=u)`. */
  ghost function MemberFor(ms: Members, next: nat, u: UserId): Result<Enlisted>
  {
    var matches := MembersOf(ms, u);
    if |matches| > 1 then Failure(MultipleObjectsReturned)
    else if matches == {} then Success(Enlisted(next, ms[next := NewMember(u)], next + 1, true))
    else
      var m :| m in matches;
      Success(Enlisted(m, ms, next, false))
  }

  /** The member lookup raises exactly when two or more members point at the
      row; otherwise it returns the one that does, or inserts a bare member at
      the next id. Existing members are never altered. */
  lemma MemberForSpec(ms: Members, next: nat, u: UserId)
    requires forall m :: m in ms ==> m < next
    ensures var r := MemberFor(ms, next, u);
      (r.Failure? <==> |MembersOf(ms, u)| > 1) && (r.Failure? ==> r.error == MultipleObjectsReturned)
    ensures var r := MemberFor(ms, next, u);
      r.Success? ==>
        var v := r.value;
        && (v.created <==> MembersOf(ms, u) == {})
        && (v.created ==> v.member == next && v.next == next + 1 && v.members == ms[next := NewMember(u)])
        && (!v.created ==> v.member in ms && v.next == next && v.members == ms)
        && MembersOf(v.members, u) == {v.member}
        && (forall m :: m in v.members ==> m < v.next)
  {
    var matches := MembersOf(ms, u);
    if |matches| == 1 {
      var m :| m in matches;
      Singleton(matches, m);
    }
  }

  /** Everything the roster loop writes: both tables with their counters, and
      the project's member set. */
  datatype Roster = Roster(users: Users, nextUser: nat, members: Members, nextMember: nat, enrolled: set<MemberId>)

  /** One pass of the loop body (lines 171-186) for entry `i`. Indexing the
      Twitter ids past their end raises `IndexError`. */
  ghost function EnrollAt(s: Roster, entries: seq<ListingEntry>, ids: seq<string>, i: nat): Result<Roster>
    requires i < |entries|
  {
    if i >= |ids| then Failure(IndexError)
    else
      match UpsertByKey(s.users, s.nextUser, KeyAt(entries, ids, i), entries[i])
      case Failure(e) => Failure(e)
      case Success(v) =>
        match MemberFor(s.members, s.nextMember, v.user)
        case Failure(e) => Failure(e)
        case Success(w) => Success(Roster(v.users, v.next, w.members, w.next, s.enrolled + {w.member}))
  }

  /** The state a raising pass for entry `i` leaves behind: the TwitterUser
      row is saved (line 180) before the member lookup can raise. */
  ghost function Stalled(s: Roster, entries: seq<ListingEntry>, ids: seq<string>, i: nat): Roster
    requires i < |entries|
  {
    if i >= |ids| then s
    else
      match UpsertByKey(s.users, s.nextUser, KeyAt(entries, ids, i), entries[i])
      case Failure(_) => s
      case Success(v) => s.(users := v.users, nextUser := v.next)
  }

  /** The loop over the first `i` entries, stopping at the first raise. */
  ghost function Enroll(s0: Roster, entries: seq<ListingEntry>, ids: seq<string>, i: nat): Result<Roster>
    requires i <= |entries|
  {
    if i == 0 then Success(s0)
    else
      match Enroll(s0, entries, ids, i - 1)
      case Failure(e) => Failure(e)
      case Success(s) => EnrollAt(s, entries, ids, i - 1)
  }

  /** Ids are below the counters and members point at existing rows. */
  ghost predicate Closed(s: Roster)
  {
    && (forall u :: u in s.users ==> u < s.nextUser)
    && (forall m :: m in s.members ==> m < s.nextMember && s.members[m].twitter in s.users)
  }

  /** The key is ambiguous in the starting tables: two rows carry it, or two
      members point at a row that does. */
  ghost predicate Conflict(s0: Roster, k: RosterKey)
  {
    || |WithKey(s0.users, k)| > 1
    || exists u :: u in WithKey(s0.users, k) && |MembersOf(s0.members, u)| > 1
  }

  /** The raise the first `n` entries run into, judged on the starting
      tables alone: `IndexError` at the first entry without a Twitter id,
      `MultipleObjectsReturned` at the first entry whose key is ambiguous,
      whichever comes first; `None` when there is neither. */
  ghost function Fault(s0: Roster, entries: seq<ListingEntry>, ids: seq<string>, n: nat): Option<Error>
    requires n <= |entries|
  {
    if n == 0 then None
    else if Fault(s0, entries, ids, n - 1).Some? then Fault(s0, entries, ids, n - 1)
    else if n - 1 >= |ids| then Some(IndexError)
    else if Conflict(s0, KeyAt(entries, ids, n - 1)) then Some(MultipleObjectsReturned)
    else None
  }

  /** The members whose row carries one of the keys. */
  ghost function EnrolledFor(us: Users, ms: Members, ks: set<RosterKey>): set<MemberId>
  {
    set m | m in ms && ms[m].twitter in us && KeyedIn(us[ms[m].twitter], ks)
  }

  /** The TwitterUser table after the first rows of the listing, against the
      starting one: no row goes away or changes key, a row whose key is not
      listed is untouched, a new row carries a listed key, and a listed key is
      carried by exactly one row. */
  ghost predicate UsersAt(us0: Users, us: Users, ks: set<RosterKey>)
  {
    && (forall u :: u in us0 ==>
          u in us && KeyOf(us[u]) == KeyOf(us0[u]) && (KeyedIn(us0[u], ks) || us[u] == us0[u]))
    && (forall u :: u in us ==> u in us0 || KeyedIn(us[u], ks))
    && (forall k :: k in ks ==> |WithKey(us, k)| == 1)
  }

  /** The Member table after the first rows: members are never altered, a new
      member points at a row with a listed key, and each row with a listed key
      has exactly one member. */
  ghost predicate MembersAt(ms0: Members, us: Users, ms: Members, ks: set<RosterKey>)
  {
    && (forall m :: m in ms0 ==> m in ms && ms[m] == ms0[m])
    && (forall m :: m in ms && m !in ms0 ==> ms[m].twitter in us && KeyedIn(us[ms[m].twitter], ks))
    && (forall k, u :: k in ks && u in WithKey(us, k) ==> |MembersOf(ms, u)| == 1)
  }

  /** The tables after the entries with keys `ks`, against the starting
      ones; the project's member set is exactly the members of rows with a
      listed key. */
  ghost predicate TablesAt(s0: Roster, s: Roster, ks: set<RosterKey>)
  {
    && Closed(s)
    && UsersAt(s0.users, s.users, ks)
    && MembersAt(s0.members, s.users, s.members, ks)
    && s.enrolled == EnrolledFor(s.users, s.members, ks)
  }

  /** The last of the first `i` entries with key `k`: the one whose columns win. */
  function LastListed(entries: seq<ListingEntry>, ids: seq<string>, i: nat, k: RosterKey): (e: ListingEntry)
    requires i <= |entries| && i <= |ids| && k in KeysOf(entries, ids, i)
    ensures e in entries[..i]
    ensures exists j :: 0 <= j < i && KeyAt(entries, ids, j) == k && entries[j] == e &&
                        forall l :: j < l < i ==> KeyAt(entries, ids, l) != k
  {
    if KeyAt(entries, ids, i - 1) == k then entries[i - 1] else LastListed(entries, ids, i - 1, k)
  }

  /** A row holds the name, username, picture and token of a listing entry. */
  predicate ShowsEntry(rec: TwitterUser, e: ListingEntry)
  {
    rec.name == e.name && rec.username == e.username && rec.pfpUrl == e.pfpUrl && rec.token == e.token
  }

  /** Every row with one of the first `i` keys shows the last entry with that key. */
  ghost predicate ShownAt(us: Users, entries: seq<ListingEntry>, ids: seq<string>, i: nat)
    requires i <= |entries| && i <= |ids|
  {
    forall u :: u in us && KeyedIn(us[u], KeysOf(entries, ids, i)) ==>
      ShowsEntry(us[u], LastListed(entries, ids, i, KeyOf(us[u]).value))
  }

  /** The loop invariant of the roster walk after `i` entries: the tables
      against the starting ones, with the keys of those entries listed. */
  ghost predicate RosterInv(s0: Roster, s: Roster, entries: seq<ListingEntry>, ids: seq<string>, i: nat)
    requires i <= |entries| && i <= |ids|
  {
    TablesAt(s0, s, KeysOf(entries, ids, i))
  }

  /** Writing a row that carries key `k` over one that carried it too leaves
      the rows of every other key alone. */
  lemma WithKeyAfterWrite(us: Users, u: UserId, rec: TwitterUser, k: RosterKey, k': RosterKey)
    requires KeyOf(rec) == Some(k) && k' != k
    requires u in us ==> KeyOf(us[u]) == Some(k)
    ensures WithKey(us[u := rec], k') == WithKey(us, k')
  {
  }

  /** Adding a new member for row `u` leaves the members of every other row alone. */
  lemma MembersOfAfterAdd(ms: Members, m: MemberId, u: UserId, u': UserId)
    requires m !in ms && u != u'
    ensures MembersOf(ms[m := NewMember(u)], u') == MembersOf(ms, u')
  {
  }

  lemma KeysOfHas(entries: seq<ListingEntry>, ids: seq<string>, i: nat, k: RosterKey)
    requires i <= |entries| && i <= |ids| && k in KeysOf(entries, ids, i)
    ensures exists j :: 0 <= j < i && KeyAt(entries, ids, j) == k
  {
    if KeyAt(entries, ids, i - 1) != k {
      KeysOfHas(entries, ids, i - 1, k);
    }
  }

  /** A key of an entry before the first fault is not ambiguous. */
  lemma FaultFreeKeys(s0: Roster, entries: seq<ListingEntry>, ids: seq<string>, i: nat, k: RosterKey)
    requires i <= |entries| && i <= |ids| && Fault(s0, entries, ids, i).None?
    requires k in KeysOf(entries, ids, i)
    ensures !Conflict(s0, k)
  {
    if KeyAt(entries, ids, i - 1) != k {
      FaultFreeKeys(s0, entries, ids, i - 1, k);
    }
  }

  /** The starting tables satisfy the invariant for no entries. */
  lemma RosterStart(s0: Roster, entries: seq<ListingEntry>, ids: seq<string>)
    requires Closed(s0) && s0.enrolled == {}
    ensures RosterInv(s0, s0, entries, ids, 0)
  {
  }

  /** Writing the row of entry `i` keeps the TwitterUser part of the invariant. */
  lemma StepUsers(us0: Users, us: Users, ks: set<RosterKey>, k: RosterKey, u: UserId, rec: TwitterUser, us': Users)
    requires UsersAt(us0, us, ks)
    requires KeyOf(rec) == Some(k) && (u in us ==> KeyOf(us[u]) == Some(k))
    requires us' == us[u := rec] && WithKey(us', k) == {u}
    ensures UsersAt(us0, us', ks + {k})
  {
    forall k' | k' in ks + {k} ensures |WithKey(us', k')| == 1 {
      if k' != k {
        WithKeyAfterWrite(us, u, rec, k, k');
      }
    }
  }

  /** Looking up or adding the member of entry `i`'s row keeps the Member
      part of the invariant. */
  lemma StepMembers(ms0: Members, us: Users, ms: Members, ks: set<RosterKey>, k: RosterKey,
                    u: UserId, rec: TwitterUser, us': Users, m: MemberId, ms': Members)
    requires MembersAt(ms0, us, ms, ks) && forall m' :: m' in ms ==> ms[m'].twitter in us
    requires KeyOf(rec) == Some(k) && (u in us ==> KeyOf(us[u]) == Some(k))
    requires us' == us[u := rec] && WithKey(us', k) == {u}
    requires (m in ms && ms' == ms) || (m !in ms && ms' == ms[m := NewMember(u)])
    requires MembersOf(ms', u) == {m}
    ensures MembersAt(ms0, us', ms', ks + {k})
  {
    forall k', u' | k' in ks + {k} && u' in WithKey(us', k') ensures |MembersOf(ms', u')| == 1 {
      if k' != k {
        assert u' != u && u' in WithKey(us, k');
        if m !in ms {
          MembersOfAfterAdd(ms, m, u, u');
        }
      }
    }
  }

  /** Entry `i` adds exactly its own member to the project's member set, and
      a member that was not there before when its key is new. */
  lemma StepEnrolled(us: Users, ms: Members, ks: set<RosterKey>, k: RosterKey,
                     u: UserId, rec: TwitterUser, us': Users, m: MemberId, ms': Members)
    requires forall m' :: m' in ms ==> ms[m'].twitter in us
    requires KeyOf(rec) == Some(k) && (u in us ==> KeyOf(us[u]) == Some(k))
    requires us' == us[u := rec] && WithKey(us', k) == {u}
    requires (m in ms && ms' == ms) || (m !in ms && ms' == ms[m := NewMember(u)])
    requires MembersOf(ms', u) == {m}
    ensures EnrolledFor(us', ms', ks + {k}) == EnrolledFor(us, ms, ks) + {m}
    ensures k !in ks ==> m !in EnrolledFor(us, ms, ks)
  {
    var before, after := EnrolledFor(us, ms, ks), EnrolledFor(us', ms', ks + {k});
    assert m in MembersOf(ms', u);
    forall m' | m' in after ensures m' in before + {m} {
      if m' != m {
        var t := ms'[m'].twitter;
        if KeyOf(us'[t]) == Some(k) {
          assert t in WithKey(us', k);
          assert m' in MembersOf(ms', u);
        }
      }
    }
  }

  /** Distinct keys up to `i` are distinct up to `j`, and entry `j` brings a new key. */
  lemma DistinctStep(entries: seq<ListingEntry>, ids: seq<string>, j: nat, i: nat)
    requires i == j + 1 && i <= |entries| && i <= |ids| && Distinct(entries, ids, i)
    ensures Distinct(entries, ids, j) && KeyAt(entries, ids, j) !in KeysOf(entries, ids, j)
  {
    if KeyAt(entries, ids, j) in KeysOf(entries, ids, j) {
      KeysOfHas(entries, ids, j, KeyAt(entries, ids, j));
    }
  }

  /** Upserting the row and looking up the member for a key keeps the
      tables' invariant with that key added. */
  lemma StepTables(s0: Roster, s: Roster, ks: set<RosterKey>, k: RosterKey, e: ListingEntry, v: Listed, w: Enlisted, ks': set<RosterKey>, s': Roster)
    requires TablesAt(s0, s, ks) && ks' == ks + {k}
    requires s' == Roster(v.users, v.next, w.members, w.next, s.enrolled + {w.member})
    requires UpsertByKey(s.users, s.nextUser, k, e) == Success(v)
    requires MemberFor(s.members, s.nextMember, v.user) == Success(w)
    ensures TablesAt(s0, s', ks')
    ensures k !in ks ==> w.member !in s.enrolled
  {
    UpsertByKeySpec(s.users, s.nextUser, k, e);
    var u, rec := v.user, v.users[v.user];
    assert u in s.users ==> u in WithKey(s.users, k);
    MemberForSpec(s.members, s.nextMember, u);
    StepUsers(s0.users, s.users, ks, k, u, rec, v.users);
    StepMembers(s0.members, s.users, s.members, ks, k, u, rec, v.users, w.member, w.members);
    StepEnrolled(s.users, s.members, ks, k, u, rec, v.users, w.member, w.members);
  }

  /** Entry `j` adds at most one member, and one when its key is new, so the
      member count keeps in step with the count of entries. */
  lemma CountStep(n0: nat, n: nat, entries: seq<ListingEntry>, ids: seq<string>, j: nat, i: nat)
    requires i == j + 1 && i <= |entries| && i <= |ids|
    requires n0 <= j && (Distinct(entries, ids, j) ==> n0 == j)
    requires n <= n0 + 1 && (KeyAt(entries, ids, j) !in KeysOf(entries, ids, j) ==> n == n0 + 1)
    ensures n <= i && (Distinct(entries, ids, i) ==> n == i)
  {
    if Distinct(entries, ids, i) {
      DistinctStep(entries, ids, j, i);
    }
  }

  /** Writing entry `j`'s columns into the one row with its key keeps every
      listed row showing its last entry. */
  lemma StepShown(us: Users, entries: seq<ListingEntry>, ids: seq<string>, j: nat, i: nat, u: UserId, us': Users)
    requires i == j + 1 && i <= |entries| && i <= |ids|
    requires ShownAt(us, entries, ids, j)
    requires u in us' && us' == us[u := us'[u]] && KeyOf(us'[u]) == Some(KeyAt(entries, ids, j))
    requires ShowsEntry(us'[u], entries[j])
    requires WithKey(us', KeyAt(entries, ids, j)) == {u}
    ensures ShownAt(us', entries, ids, i)
  {
    var k, ks := KeyAt(entries, ids, j), KeysOf(entries, ids, j);
    assert KeysOf(entries, ids, i) == ks + {k};
    forall u' | u' in us' && KeyedIn(us'[u'], ks + {k})
      ensures ShowsEntry(us'[u'], LastListed(entries, ids, i, KeyOf(us'[u']).value))
    {
      if KeyOf(us'[u']) == Some(k) {
        assert u' in WithKey(us', k);
      }
    }
  }

  /** The upsert of entry `j` keeps every listed row showing its last entry. */
  lemma UpsertShown(us: Users, next: nat, entries: seq<ListingEntry>, ids: seq<string>, j: nat, i: nat, v: Listed)
    requires i == j + 1 && i <= |entries| && i <= |ids|
    requires ShownAt(us, entries, ids, j) && forall u :: u in us ==> u < next
    requires UpsertByKey(us, next, KeyAt(entries, ids, j), entries[j]) == Success(v)
    ensures ShownAt(v.users, entries, ids, i)
  {
    UpsertByKeySpec(us, next, KeyAt(entries, ids, j), entries[j]);
    StepShown(us, entries, ids, j, i, v.user, v.users);
  }

  /** The rows and members a key not yet listed meets are the starting ones. */
  lemma UnlistedKey(s0: Roster, s: Roster, ks: set<RosterKey>, k: RosterKey, u: UserId)
    requires TablesAt(s0, s, ks) && k !in ks
    ensures WithKey(s.users, k) == WithKey(s0.users, k)
    ensures u in WithKey(s.users, k) ==> MembersOf(s.members, u) == MembersOf(s0.members, u)
  {
  }

  /** The loop body for a key raises exactly when the key is ambiguous in the
      starting tables, given that a key met before was not. */
  lemma StepConflict(s0: Roster, s: Roster, ks: set<RosterKey>, k: RosterKey, e: ListingEntry)
    requires TablesAt(s0, s, ks) && (k in ks ==> !Conflict(s0, k))
    ensures var r := UpsertByKey(s.users, s.nextUser, k, e);
      Conflict(s0, k) <==> (r.Failure? || MemberFor(s.members, s.nextMember, r.value.user).Failure?)
  {
    UpsertByKeySpec(s.users, s.nextUser, k, e);
    var r := UpsertByKey(s.users, s.nextUser, k, e);
    if r.Success? {
      var u := r.value.user;
      MemberForSpec(s.members, s.nextMember, u);
      if k in ks {
        assert u in WithKey(s.users, k);
      } else {
        UnlistedKey(s0, s, ks, k, u);
        if r.value.created {
          assert MembersOf(s.members, u) == {};
        } else {
          assert u in WithKey(s0.users, k);
          assert Conflict(s0, k) ==> |MembersOf(s0.members, u)| > 1;
        }
      }
    } else if k !in ks {
      UnlistedKey(s0, s, ks, k, 0);
    }
  }

  /** Entry `j`, reached without a raise, raises `IndexError` when it has no
      Twitter id, `MultipleObjectsReturned` exactly when its key is ambiguous in
      the starting tables, and otherwise keeps the invariant. */
  lemma StepOutcome(s0: Roster, s: Roster, entries: seq<ListingEntry>, ids: seq<string>, j: nat, i: nat)
    requires i == j + 1 && i <= |entries| && j <= |ids|
    requires RosterInv(s0, s, entries, ids, j) && Fault(s0, entries, ids, j).None?
    ensures var r := EnrollAt(s, entries, ids, j);
      && (r.Success? <==> Fault(s0, entries, ids, i).None?)
      && (r.Failure? ==> r.error == Fault(s0, entries, ids, i).value)
      && (r.Success? ==> i <= |ids| && RosterInv(s0, r.value, entries, ids, i))
  {
    if j < |ids| {
      PassConflict(s0, s, entries, ids, j, i);
      if EnrollAt(s, entries, ids, j).Success? {
        PassKeepsInv(s0, s, entries, ids, j, i);
      }
    }
  }

  /** Entry `j`, reached without a raise and with a Twitter id, raises exactly
      when its key is ambiguous in the starting tables. */
  lemma PassConflict(s0: Roster, s: Roster, entries: seq<ListingEntry>, ids: seq<string>, j: nat, i: nat)
    requires i == j + 1 && i <= |entries| && i <= |ids|
    requires RosterInv(s0, s, entries, ids, j) && Fault(s0, entries, ids, j).None?
    ensures var r := EnrollAt(s, entries, ids, j);
      && (r.Failure? <==> Conflict(s0, KeyAt(entries, ids, j)))
      && (r.Failure? ==> r.error == MultipleObjectsReturned)
  {
    var k, ks := KeyAt(entries, ids, j), KeysOf(entries, ids, j);
    if k in ks {
      FaultFreeKeys(s0, entries, ids, j, k);
    }
    StepConflict(s0, s, ks, k, entries[j]);
    UpsertByKeySpec(s.users, s.nextUser, k, entries[j]);
    var r := UpsertByKey(s.users, s.nextUser, k, entries[j]);
    if r.Success? {
      MemberForSpec(s.members, s.nextMember, r.value.user);
    }
  }

  /** A pass of entry `j` that does not raise keeps the invariant. */
  lemma PassKeepsInv(s0: Roster, s: Roster, entries: seq<ListingEntry>, ids: seq<string>, j: nat, i: nat)
    requires i == j + 1 && i <= |entries| && i <= |ids|
    requires RosterInv(s0, s, entries, ids, j) && EnrollAt(s, entries, ids, j).Success?
    ensures RosterInv(s0, EnrollAt(s, entries, ids, j).value, entries, ids, i)
    ensures |EnrollAt(s, entries, ids, j).value.enrolled| <= |s.enrolled| + 1
    ensures KeyAt(entries, ids, j) !in KeysOf(entries, ids, j) ==>
      |EnrollAt(s, entries, ids, j).value.enrolled| == |s.enrolled| + 1
  {
    var k := KeyAt(entries, ids, j);
    var v := UpsertByKey(s.users, s.nextUser, k, entries[j]).value;
    var w := MemberFor(s.members, s.nextMember, v.user).value;
    StepTables(s0, s, KeysOf(entries, ids, j), k, entries[j], v, w, KeysOf(entries, ids, i), EnrollAt(s, entries, ids, j).value);
  }

  /** A raise before entry `j` is the raise of the whole walk. */
  lemma FaultCarries(s0: Roster, entries: seq<ListingEntry>, ids: seq<string>, j: nat, i: nat)
    requires i == j + 1 && i <= |entries|
    requires Enroll(s0, entries, ids, j).Failure? && Fault(s0, entries, ids, j).Some?
    ensures Enroll(s0, entries, ids, i) == Enroll(s0, entries, ids, j)
    ensures Fault(s0, entries, ids, i) == Fault(s0, entries, ids, j)
  {
  }

  /** The roster walk over the first `i` entries raises exactly the fault
      those entries run into, and otherwise ends in a state that keeps the
      invariant. */
  lemma {:induction false} RosterWalk(s0: Roster, entries: seq<ListingEntry>, ids: seq<string>, i: nat)
    requires i <= |entries| && Closed(s0) && s0.enrolled == {}
    ensures var r := Enroll(s0, entries, ids, i);
      && (r.Success? <==> Fault(s0, entries, ids, i).None?)
      && (r.Failure? ==> r.error == Fault(s0, entries, ids, i).value)
      && (r.Success? ==> i <= |ids| && RosterInv(s0, r.value, entries, ids, i))
  {
    if i == 0 {
      RosterStart(s0, entries, ids);
    } else {
      var j := i - 1;
      RosterWalk(s0, entries, ids, j);
      var prev := Enroll(s0, entries, ids, j);
      if prev.Success? {
        EnrollNext(s0, entries, ids, j, prev.value);
        StepOutcome(s0, prev.value, entries, ids, j, i);
      } else {
        FaultCarries(s0, entries, ids, j, i);
      }
    }
  }

  /** A walk over the first `i` entries that does not raise enrols at most
      one member per entry, and exactly one per entry when their keys are
      distinct. */
  lemma {:induction false} RosterCount(s0: Roster, entries: seq<ListingEntry>, ids: seq<string>, i: nat)
    requires i <= |entries| && Closed(s0) && s0.enrolled == {}
    ensures Enroll(s0, entries, ids, i).Success? ==>
      (var n := |Enroll(s0, entries, ids, i).value.enrolled|;
       i <= |ids| && n <= i && (Distinct(entries, ids, i) ==> n == i))
  {
    if i > 0 {
      var j := i - 1;
      RosterCount(s0, entries, ids, j);
      var prev := Enroll(s0, entries, ids, j);
      if prev.Success? {
        EnrollNext(s0, entries, ids, j, prev.value);
        if EnrollAt(prev.value, entries, ids, j).Success? {
          RosterWalk(s0, entries, ids, j);
          PassKeepsInv(s0, prev.value, entries, ids, j, i);
          CountStep(|prev.value.enrolled|, |EnrollAt(prev.value, entries, ids, j).value.enrolled|, entries, ids, j, i);
        }
      }
    }
  }

  /** After a walk over the first `i` entries that does not raise, every row
      with a listed key shows the last entry with that key. */
  lemma {:induction false} RosterShown(s0: Roster, entries: seq<ListingEntry>, ids: seq<string>, i: nat)
    requires i <= |entries| && Closed(s0) && s0.enrolled == {}
    ensures Enroll(s0, entries, ids, i).Success? ==>
      (i <= |ids| && ShownAt(Enroll(s0, entries, ids, i).value.users, entries, ids, i))
  {
    if i > 0 {
      var j := i - 1;
      RosterShown(s0, entries, ids, j);
      var prev := Enroll(s0, entries, ids, j);
      if prev.Success? {
        var s := prev.value;
        EnrollNext(s0, entries, ids, j, s);
        if EnrollAt(s, entries, ids, j).Success? {
          RosterWalk(s0, entries, ids, j);
          UpsertShown(s.users, s.nextUser, entries, ids, j, i,
            UpsertByKey(s.users, s.nextUser, KeyAt(entries, ids, j), entries[j]).value);
        }
      }
    }
  }

  /** Each of the first `n` passes, started in one state of `trace`, succeeds
      and ends in the next one. */
  ghost predicate Passes(trace: seq<Roster>, entries: seq<ListingEntry>, ids: seq<string>, n: nat)
    requires n < |trace| && n <= |entries|
  {
    forall j :: 0 <= j < n ==> EnrollAt(trace[j], entries, ids, j) == Success(trace[j + 1])
  }

  /** A run of successful passes from `s0` is the walk. */
  lemma {:induction false} TraceWalk(s0: Roster, entries: seq<ListingEntry>, ids: seq<string>, trace: seq<Roster>, n: nat)
    requires n < |trace| && n <= |entries| && trace[0] == s0 && Passes(trace, entries, ids, n)
    ensures Enroll(s0, entries, ids, n) == Success(trace[n])
  {
    if n > 0 {
      TraceWalk(s0, entries, ids, trace, n - 1);
      EnrollNext(s0, entries, ids, n - 1, trace[n - 1]);
    }
  }

  /** Once the walk raises, the rest of the listing is not looked at. */
  lemma {:induction false} EnrollStopped(s0: Roster, entries: seq<ListingEntry>, ids: seq<string>, i: nat, n: nat)
    requires i <= n <= |entries| && Enroll(s0, entries, ids, i).Failure?
    ensures Enroll(s0, entries, ids, n) == Enroll(s0, entries, ids, i)
    decreases n - i
  {
    if i < n {
      EnrollStopped(s0, entries, ids, i + 1, n);
    }
  }

  /** The walk over `i + 1` entries is one pass after the walk over `i`. */
  lemma EnrollNext(s0: Roster, entries: seq<ListingEntry>, ids: seq<string>, i: nat, s: Roster)
    requires i < |entries| && Enroll(s0, entries, ids, i) == Success(s)
    ensures Enroll(s0, entries, ids, i + 1) == EnrollAt(s, entries, ids, i)
  {
  }

  /** `FreeMasonProject.sync` on a 200 answer, over the cleared member set:
      the loop raises exactly the first fault of the first `RosterLimit`
      entries; otherwise the project's members are exactly the members of the
      rows with a listed key, one per key, at most `RosterLimit` of them and
      exactly one per entry when the keys are distinct, each listed row shows
      the last entry with its key, and rows and members with no listed key
      are as they were. */
  lemma RosterSynced(s0: Roster, listing: seq<ListingEntry>, ids: seq<string>)
    requires Closed(s0) && s0.enrolled == {}
    ensures var entries := Head(listing);
      var n := |entries|;
      var r := Enroll(s0, entries, ids, n);
      && (r.Success? <==> Fault(s0, entries, ids, n).None?)
      && (r.Failure? ==> r.error == Fault(s0, entries, ids, n).value)
      && (r.Success? ==>
            && n <= |ids|
            && RosterInv(s0, r.value, entries, ids, n)
            && ShownAt(r.value.users, entries, ids, n)
            && |r.value.enrolled| <= n <= RosterLimit
            && (Distinct(entries, ids, n) ==> |r.value.enrolled| == n))
  {
    var entries := Head(listing);
    RosterWalk(s0, entries, ids, |entries|);
    RosterCount(s0, entries, ids, |entries|);
    RosterShown(s0, entries, ids, |entries|);
  }
}

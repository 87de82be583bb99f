/** `FreeMasonProject.member_follower_summary`: the project's members grouped
    by their TwitterUser's `username`, one row per username with the number
    of members carrying it, ordered by that number, largest first. The order
    among equal counts is whatever the database returns; the model picks
    one, and `SummaryDetermined` shows that only that order is open. */
module Summary {
  import opened Records

  /** One row of the summary: a username and its `overlap_count`. */
  datatype SummaryRow = SummaryRow(username: string, overlapCount: nat)

  /** Every member of `mids` exists and points at an existing TwitterUser row. */
  ghost predicate Resolvable(us: Users, ms: Members, mids: set<MemberId>)
  {
    forall m :: m in mids ==> m in ms && ms[m].twitter in us
  }

  /** The `twitter__username` column of a member. */
  ghost function NameOf(us: Users, ms: Members, m: MemberId): string
    requires m in ms && ms[m].twitter in us
  {
    us[ms[m].twitter].username
  }

  /** The members of `mids` whose username is `x`. */
  ghost function Named(us: Users, ms: Members, mids: set<MemberId>, x: string): set<MemberId>
    requires Resolvable(us, ms, mids)
  {
    set m | m in mids && NameOf(us, ms, m) == x
  }

  /** `self.members.values('twitter__username')`: the usernames of the
      members, one per member. */
  ghost function NamesOf(us: Users, ms: Members, mids: set<MemberId>): (names: multiset<string>)
    requires Resolvable(us, ms, mids)
    ensures |names| == |mids|
    decreases mids
  {
    if mids == {} then multiset{}
    else
      var m :| m in mids;
      NamesOf(us, ms, mids - {m}) + multiset{NameOf(us, ms, m)}
  }

  /** Each username occurs once for each member that carries it. */
  lemma {:induction false} NamesOfCount(us: Users, ms: Members, mids: set<MemberId>, x: string)
    requires Resolvable(us, ms, mids)
    ensures NamesOf(us, ms, mids)[x] == |Named(us, ms, mids, x)|
    decreases mids
  {
    if mids != {} {
      var m :| m in mids && NamesOf(us, ms, mids) == NamesOf(us, ms, mids - {m}) + multiset{NameOf(us, ms, m)};
      NamesOfCount(us, ms, mids - {m}, x);
      NamedSplit(us, ms, mids, m, x);
    }
  }

  /** Taking member `m` out of `mids` takes it out of the members named `x`. */
  lemma NamedSplit(us: Users, ms: Members, mids: set<MemberId>, m: MemberId, x: string)
    requires Resolvable(us, ms, mids) && m in mids
    ensures |Named(us, ms, mids, x)| == |Named(us, ms, mids - {m}, x)| + if NameOf(us, ms, m) == x then 1 else 0
  {
    var before := Named(us, ms, mids - {m}, x);
    if NameOf(us, ms, m) == x {
      assert Named(us, ms, mids, x) == before + {m};
    } else {
      assert Named(us, ms, mids, x) == before;
    }
  }

  /** A multiset that is not empty has an element that occurs at least as
      often as any other. */
  lemma MostCommonExists(names: multiset<string>)
    requires names != multiset{}
    ensures exists u :: u in names && forall v :: v in names ==> names[v] <= names[u]
    decreases |names|
  {
    var x :| x in names;
    var rest := names[x := 0];
    if rest == multiset{} {
      forall v | v in names ensures names[v] <= names[x] {
        assert v == x by { assert rest[v] == 0 || v == x; }
      }
    } else {
      assert |rest| < |names| by { ShrinkBy(names, x); }
      MostCommonExists(rest);
      var y :| y in rest && forall v :: v in rest ==> rest[v] <= rest[y];
      if names[x] <= names[y] {
        forall v | v in names ensures names[v] <= names[y] {
          if v != x { assert v in rest; }
        }
      } else {
        forall v | v in names ensures names[v] <= names[x] {
          if v != x { assert v in rest; }
        }
      }
    }
  }

  /** Dropping every copy of `x` shortens the multiset by its count. */
  lemma ShrinkBy(names: multiset<string>, x: string)
    ensures |names[x := 0]| + names[x] == |names|
  {
    var copies := multiset{}[x := names[x]];
    assert names == names[x := 0] + copies;
    assert |copies| == names[x] by {
      if names[x] > 0 {
        var fewer := multiset{}[x := names[x] - 1];
        assert copies == fewer + multiset{x};
        ShrinkBy(fewer, x);
      }
    }
  }

  /** The query: group the usernames and emit the groups, the one with the
      largest count first. */
  ghost function SummaryOf(names: multiset<string>): seq<SummaryRow>
    decreases |names|
  {
    if names == multiset{} then []
    else
      MostCommonExists(names);
      var u :| u in names && forall v :: v in names ==> names[v] <= names[u];
      ShrinkBy(names, u);
      [SummaryRow(u, names[u])] + SummaryOf(names[u := 0])
  }

  /** Sum of the `overlap_count` column. */
  function Total(rows: seq<SummaryRow>): nat
  {
    if rows == [] then 0 else rows[0].overlapCount + Total(rows[1..])
  }

  /** Each row counts the occurrences of its username. */
  ghost predicate CountsAgree(rows: seq<SummaryRow>, names: multiset<string>)
  {
    forall i :: 0 <= i < |rows| ==> rows[i].username in names && rows[i].overlapCount == names[rows[i].username]
  }

  /** Every username has a row. */
  ghost predicate Covers(rows: seq<SummaryRow>, names: multiset<string>)
  {
    forall x :: x in names ==> exists i :: 0 <= i < |rows| && rows[i].username == x
  }

  /** No username has two rows. */
  ghost predicate UniqueNames(rows: seq<SummaryRow>)
  {
    forall i, j :: 0 <= i < j < |rows| ==> rows[i].username != rows[j].username
  }

  /** Counts do not increase down the list. */
  ghost predicate Descending(rows: seq<SummaryRow>)
  {
    forall i, j :: 0 <= i < j < |rows| ==> rows[i].overlapCount >= rows[j].overlapCount
  }

  /** The summary of `names`: one row per username, each username once,
      each count the number of times the username occurs, ordered by count
      from largest to smallest. */
  ghost predicate IsSummary(rows: seq<SummaryRow>, names: multiset<string>)
  {
    CountsAgree(rows, names) && Covers(rows, names) && UniqueNames(rows) && Descending(rows)
  }

  /** The rows of a summary of `names[u := 0]` are not `u`'s and count as in `names`. */
  lemma OtherRows(names: multiset<string>, u: string, tail: seq<SummaryRow>)
    requires CountsAgree(tail, names[u := 0])
    ensures forall i :: 0 <= i < |tail| ==> tail[i].username != u && tail[i].overlapCount == names[tail[i].username]
  {
    forall i | 0 <= i < |tail| ensures tail[i].username != u && tail[i].overlapCount == names[tail[i].username] {
      assert tail[i].username in names[u := 0];
    }
  }

  /** Putting the row of a most common username in front of a summary of
      the other usernames gives a summary of all of them. */
  lemma SummaryCons(names: multiset<string>, u: string, tail: seq<SummaryRow>)
    requires u in names && forall v :: v in names ==> names[v] <= names[u]
    requires IsSummary(tail, names[u := 0])
    ensures IsSummary([SummaryRow(u, names[u])] + tail, names)
  {
    OtherRows(names, u, tail);
    ConsCounted(names, u, tail);
    ConsCovers(names, u, tail);
    ConsOrdered(names, u, tail);
  }

  lemma ConsCounted(names: multiset<string>, u: string, tail: seq<SummaryRow>)
    requires u in names
    requires forall i :: 0 <= i < |tail| ==> tail[i].username in names && tail[i].overlapCount == names[tail[i].username]
    ensures CountsAgree([SummaryRow(u, names[u])] + tail, names)
  {
    var rows := [SummaryRow(u, names[u])] + tail;
    forall i | 0 <= i < |rows|
      ensures rows[i].username in names && rows[i].overlapCount == names[rows[i].username]
    {
      if i > 0 { assert rows[i] == tail[i - 1]; }
    }
  }

  lemma ConsCovers(names: multiset<string>, u: string, tail: seq<SummaryRow>)
    requires Covers(tail, names[u := 0])
    ensures Covers([SummaryRow(u, names[u])] + tail, names)
  {
    var rows := [SummaryRow(u, names[u])] + tail;
    forall x | x in names ensures exists i :: 0 <= i < |rows| && rows[i].username == x {
      if x != u {
        assert x in names[u := 0];
        var k :| 0 <= k < |tail| && tail[k].username == x;
        assert rows[k + 1] == tail[k];
      } else {
        assert rows[0].username == x;
      }
    }
  }

  lemma ConsOrdered(names: multiset<string>, u: string, tail: seq<SummaryRow>)
    requires forall v :: v in names ==> names[v] <= names[u]
    requires UniqueNames(tail) && Descending(tail)
    requires forall i :: 0 <= i < |tail| ==>
      tail[i].username in names && tail[i].username != u && tail[i].overlapCount == names[tail[i].username]
    ensures UniqueNames([SummaryRow(u, names[u])] + tail) && Descending([SummaryRow(u, names[u])] + tail)
  {
    var rows := [SummaryRow(u, names[u])] + tail;
    forall i, j | 0 <= i < j < |rows|
      ensures rows[i].username != rows[j].username && rows[i].overlapCount >= rows[j].overlapCount
    {
      assert rows[j] == tail[j - 1];
      if i > 0 { assert rows[i] == tail[i - 1]; }
    }
  }

  /** The query gives a summary of its usernames, and the counts add up to
      the number of usernames. */
  lemma {:induction false} SummaryOfSpec(names: multiset<string>)
    ensures IsSummary(SummaryOf(names), names)
    ensures Total(SummaryOf(names)) == |names|
    decreases |names|
  {
    if names != multiset{} {
      MostCommonExists(names);
      var u :| u in names && (forall v :: v in names ==> names[v] <= names[u]) &&
        SummaryOf(names) == [SummaryRow(u, names[u])] + SummaryOf(names[u := 0]);
      ShrinkBy(names, u);
      SummaryOfSpec(names[u := 0]);
      SummaryCons(names, u, SummaryOf(names[u := 0]));
      assert ([SummaryRow(u, names[u])] + SummaryOf(names[u := 0]))[1..] == SummaryOf(names[u := 0]);
    }
  }

  /** Two summaries of the same usernames hold the same rows; they can only
      differ in the order of rows with equal counts. */
  lemma SummaryDetermined(a: seq<SummaryRow>, b: seq<SummaryRow>, names: multiset<string>)
    requires IsSummary(a, names) && IsSummary(b, names)
    ensures forall r :: r in a <==> r in b
    ensures |a| == |b|
  {
    forall r | r in a ensures r in b {
      var i :| 0 <= i < |a| && a[i] == r;
      var k :| 0 <= k < |b| && b[k].username == r.username;
    }
    forall r | r in b ensures r in a {
      var i :| 0 <= i < |b| && b[i] == r;
      var k :| 0 <= k < |a| && a[k].username == r.username;
    }
    DistinctLength(a, b);
    DistinctLength(b, a);
  }

  /** Rows with distinct usernames, all found among `b`'s, are no more than `b`'s. */
  lemma DistinctLength(a: seq<SummaryRow>, b: seq<SummaryRow>)
    requires forall i, j :: 0 <= i < j < |a| ==> a[i].username != a[j].username
    requires forall r :: r in a ==> r in b
    ensures |a| <= |b|
  {
    var na := set r | r in a :: r.username;
    var nb := set r | r in b :: r.username;
    assert |na| == |a| by { NamesDistinct(a); }
    assert na <= nb;
    NamesBound(b);
    assert |na| <= |nb| by { SubsetCard(na, nb); }
  }

  lemma {:induction false} NamesDistinct(a: seq<SummaryRow>)
    requires forall i, j :: 0 <= i < j < |a| ==> a[i].username != a[j].username
    ensures |set r | r in a :: r.username| == |a|
  {
    if a != [] {
      var last := |a| - 1;
      NamesDistinct(a[..last]);
      var front := set r | r in a[..last] :: r.username;
      assert (set r | r in a :: r.username) == front + {a[last].username};
      forall r | r in a[..last] ensures r.username != a[last].username {
        var k :| 0 <= k < last && a[..last][k] == r;
      }
    }
  }

  lemma {:induction false} NamesBound(b: seq<SummaryRow>)
    ensures |set r | r in b :: r.username| <= |b|
  {
    if b != [] {
      var last := |b| - 1;
      NamesBound(b[..last]);
      var front := set r | r in b[..last] :: r.username;
      assert (set r | r in b :: r.username) <= front + {b[last].username};
      SubsetCard(set r | r in b :: r.username, front + {b[last].username});
    }
  }

  lemma SubsetCard<T>(x: set<T>, y: set<T>)
    requires x <= y
    ensures |x| <= |y|
  {
    assert y == x + (y - x);
  }

  /** `member_follower_summary` of a project whose member ids are `mids`. */
  ghost function ProjectSummary(us: Users, ms: Members, mids: set<MemberId>): seq<SummaryRow>
    requires Resolvable(us, ms, mids)
  {
    SummaryOf(NamesOf(us, ms, mids))
  }

  /** Each username of a project member appears once, with the number of
      project members carrying it; the counts add up to the number of
      project members and do not increase down the list. */
  lemma ProjectSummarySpec(us: Users, ms: Members, mids: set<MemberId>)
    requires Resolvable(us, ms, mids)
    ensures var rows := ProjectSummary(us, ms, mids);
      && (forall i :: 0 <= i < |rows| ==> rows[i].overlapCount == |Named(us, ms, mids, rows[i].username)| > 0)
      && (forall m :: m in mids ==> exists i :: 0 <= i < |rows| && rows[i].username == NameOf(us, ms, m))
      && (forall i, j :: 0 <= i < j < |rows| ==> rows[i].username != rows[j].username)
      && (forall i, j :: 0 <= i < j < |rows| ==> rows[i].overlapCount >= rows[j].overlapCount)
      && Total(rows) == |mids|
  {
    var names := NamesOf(us, ms, mids);
    SummaryOfSpec(names);
    var rows := SummaryOf(names);
    forall i | 0 <= i < |rows| ensures rows[i].overlapCount == |Named(us, ms, mids, rows[i].username)| > 0 {
      NamesOfCount(us, ms, mids, rows[i].username);
    }
    forall m | m in mids ensures exists i :: 0 <= i < |rows| && rows[i].username == NameOf(us, ms, m) {
      NamesOfCount(us, ms, mids, NameOf(us, ms, m));
      assert m in Named(us, ms, mids, NameOf(us, ms, m));
    }
  }
}

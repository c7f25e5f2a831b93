/**
 * The local `doctors` table and its data access object.  The table is a map
 * from primary key `id` to row.  The SELECT queries are functions of the
 * table; the INSERT and UPDATE statements change it in place.
 */
module Dao {
  import opened Wrappers
  import opened Model
  import DateTimeConverter

  type Table = map<string, DoctorViewItem>

  /** Every row is stored under its own primary key. */
  ghost predicate WellKeyed(t: Table) {
    forall id :: id in t ==> t[id].id == id
  }

  // ---------------------------------------------------------------- LIKE

  /** SQL `LOWER`: ASCII upper-case letters to lower case. */
  function Lower(s: string): string {
    seq(|s|, i requires 0 <= i < |s| => if 'A' <= s[i] <= 'Z' then (s[i] as int + 32) as char else s[i])
  }

  predicate Contains(s: string, q: string) {
    exists i | 0 <= i <= |s| - |q| :: q <= s[i..]
  }

  /** A pattern of the form `%q%`. */
  predicate IsContainsPattern(pattern: string) {
    2 <= |pattern| && pattern[0] == '%' && pattern[|pattern| - 1] == '%'
  }

  /**
   * `LOWER(name) LIKE pattern`, for the `%q%` form; any other pattern must
   * match exactly.  LIKE ignores the case of ASCII letters, so the pattern is
   * compared lower-cased as well.
   */
  predicate NameLike(name: string, pattern: string)
    ensures pattern == "%%" ==> NameLike(name, pattern)
    ensures IsContainsPattern(pattern) && NameLike(name, pattern) ==> |pattern| - 2 <= |name|
  {
    assert pattern == "%%" ==> pattern[1..|pattern| - 1] == "" && Lower(name)[0..] == Lower(name);
    if IsContainsPattern(pattern) then Contains(Lower(name), Lower(pattern[1..|pattern| - 1]))
    else Lower(name) == Lower(pattern)
  }

  /** The `%q%` pattern matches exactly the names whose lower-cased form contains q lower-cased. */
  lemma NameLikeContains(name: string, q: string)
    ensures NameLike(name, "%" + q + "%") <==> Contains(Lower(name), Lower(q))
  {
    var p := "%" + q + "%";
    assert p[1..|p| - 1] == q;
  }

  // ------------------------------------------------------------- SELECT

  /** The WHERE clauses of the queries. */
  datatype Filter = NotRecent | Recent | NameMatches(pattern: string) | RecentNameMatches(pattern: string)

  predicate Keeps(f: Filter, row: DoctorViewItem) {
    match f
    case NotRecent => !row.isRecent
    case Recent => row.isRecent
    case NameMatches(p) => NameLike(row.name, p)
    case RecentNameMatches(p) => NameLike(row.name, p) && row.isRecent
  }

  /** The ORDER BY columns of the queries (always descending). */
  datatype Column = Rating | RecentVisiting

  function Key(row: DoctorViewItem, c: Column): real {
    match c
    case Rating => row.rating
    case RecentVisiting => row.recentVisiting as real
  }

  predicate OrderedDesc(r: seq<DoctorViewItem>, c: Column) {
    forall i, j :: 0 <= i < j < |r| ==> Key(r[j], c) <= Key(r[i], c)
  }

  function MatchingIds(t: Table, f: Filter): set<string> {
    set id | id in t && Keeps(f, t[id])
  }

  /** Every element is a stored row kept by the filter. */
  ghost predicate Sound(t: Table, f: Filter, r: seq<DoctorViewItem>) {
    forall row :: row in r ==> row.id in t && t[row.id] == row && Keeps(f, row)
  }

  /** Every stored row kept by the filter is an element. */
  ghost predicate Complete(t: Table, f: Filter, r: seq<DoctorViewItem>) {
    forall id :: id in t && Keeps(f, t[id]) ==> t[id] in r
  }

  /**
   * `r` is an answer of `SELECT * WHERE f ORDER BY c DESC`: it holds stored
   * rows only, all of them kept by `f`, every kept row, each once, in
   * descending order of `c` (SQL leaves the order among equal keys open).
   */
  ghost predicate IsSelection(t: Table, f: Filter, c: Column, r: seq<DoctorViewItem>) {
    && Sound(t, f, r)
    && Complete(t, f, r)
    && |r| == |MatchingIds(t, f)|
    && DistinctIds(r)
    && OrderedDesc(r, c)
  }

  /** No two elements share a primary key. */
  predicate DistinctIds(r: seq<DoctorViewItem>) {
    forall i, j :: 0 <= i < j < |r| ==> r[i].id != r[j].id
  }

  /** Inserts `x` into a descending list before the first element whose key is not above its own. */
  function InsertDesc(x: DoctorViewItem, s: seq<DoctorViewItem>, c: Column): (r: seq<DoctorViewItem>)
    ensures |r| == |s| + 1
    ensures forall y :: y in r <==> y == x || y in s
  {
    if s == [] then [x]
    else if Key(s[0], c) <= Key(x, c) then [x] + s
    else
      var rest := InsertDesc(x, s[1..], c);
      assert forall y :: y in rest ==> y == x || y in s[1..];
      [s[0]] + rest
  }

  /** Inserting into a descending list keeps it descending. */
  lemma {:induction false} InsertDescOrdered(x: DoctorViewItem, s: seq<DoctorViewItem>, c: Column)
    requires OrderedDesc(s, c)
    ensures OrderedDesc(InsertDesc(x, s, c), c)
    decreases |s|
  {
    if s != [] && Key(x, c) < Key(s[0], c) {
      var rest := InsertDesc(x, s[1..], c);
      assert OrderedDesc(s[1..], c);
      InsertDescOrdered(x, s[1..], c);
      var r := [s[0]] + rest;
      assert r == InsertDesc(x, s, c);
      forall i, j | 0 <= i < j < |r|
        ensures Key(r[j], c) <= Key(r[i], c)
      {
        if i == 0 {
          assert r[j] in rest;
          if r[j] != x {
            var k :| 0 <= k < |s[1..]| && s[1..][k] == r[j];
            assert s[k + 1] == r[j];
          }
        } else {
          assert r[i] == rest[i - 1] && r[j] == rest[j - 1];
        }
      }
    }
  }

  /** Inserting a row with a key the list does not hold keeps the keys distinct. */
  lemma {:induction false} InsertDescDistinct(x: DoctorViewItem, s: seq<DoctorViewItem>, c: Column)
    requires DistinctIds(s)
    requires forall y :: y in s ==> y.id != x.id
    ensures DistinctIds(InsertDesc(x, s, c))
    decreases |s|
  {
    if s != [] && Key(x, c) < Key(s[0], c) {
      var rest := InsertDesc(x, s[1..], c);
      assert DistinctIds(s[1..]);
      assert forall y :: y in s[1..] ==> y in s;
      InsertDescDistinct(x, s[1..], c);
      var r := [s[0]] + rest;
      assert r == InsertDesc(x, s, c);
      forall i, j | 0 <= i < j < |r|
        ensures r[i].id != r[j].id
      {
        if i == 0 {
          assert r[j] in rest;
          if r[j] != x {
            var k :| 0 <= k < |s[1..]| && s[1..][k] == r[j];
            assert s[k + 1] == r[j];
          }
        } else {
          assert r[i] == rest[i - 1] && r[j] == rest[j - 1];
        }
      }
    } else if s != [] {
      var r := [x] + s;
      forall i, j | 0 <= i < j < |r|
        ensures r[i].id != r[j].id
      {
        if i == 0 {
          assert r[j] == s[j - 1];
        } else {
          assert r[i] == s[i - 1] && r[j] == s[j - 1];
        }
      }
    }
  }

  lemma SoundStep(t: Table, id: string, f: Filter, rest: seq<DoctorViewItem>, c: Column)
    requires WellKeyed(t)
    requires id in t && Sound(t - {id}, f, rest)
    ensures Sound(t, f, rest)
    ensures Keeps(f, t[id]) ==> Sound(t, f, InsertDesc(t[id], rest, c))
  {
    var smaller := t - {id};
    forall row | row in rest ensures row.id in t && t[row.id] == row && Keeps(f, row) {
      assert row.id in smaller && smaller[row.id] == row;
    }
  }

  lemma CompleteStep(t: Table, id: string, f: Filter, rest: seq<DoctorViewItem>, c: Column)
    requires id in t && Complete(t - {id}, f, rest)
    ensures !Keeps(f, t[id]) ==> Complete(t, f, rest)
    ensures Keeps(f, t[id]) ==> Complete(t, f, InsertDesc(t[id], rest, c))
  {
    var smaller := t - {id};
    forall k | k in t && Keeps(f, t[k]) && k != id
      ensures t[k] in rest
    {
      assert k in smaller && smaller[k] == t[k];
    }
  }

  lemma MatchingStep(t: Table, id: string, f: Filter)
    requires id in t
    ensures Keeps(f, t[id]) ==> |MatchingIds(t, f)| == |MatchingIds(t - {id}, f)| + 1
    ensures !Keeps(f, t[id]) ==> |MatchingIds(t, f)| == |MatchingIds(t - {id}, f)|
  {
    var smaller := t - {id};
    var all, others := MatchingIds(t, f), MatchingIds(smaller, f);
    assert id !in others;
    assert others == all - {id} by {
      forall k ensures k in others <==> k in all - {id} {
        if k in smaller { assert smaller[k] == t[k]; }
      }
    }
    if Keeps(f, t[id]) {
      assert all == others + {id};
    } else {
      assert all == others;
    }
  }

  /** Adding one stored row to a selection of the others gives a selection of the whole table. */
  lemma SelectionStep(t: Table, id: string, f: Filter, c: Column, rest: seq<DoctorViewItem>)
    requires WellKeyed(t) && id in t
    requires IsSelection(t - {id}, f, c, rest)
    ensures IsSelection(t, f, c, if Keeps(f, t[id]) then InsertDesc(t[id], rest, c) else rest)
  {
    SoundStep(t, id, f, rest, c);
    CompleteStep(t, id, f, rest, c);
    MatchingStep(t, id, f);
    InsertDescOrdered(t[id], rest, c);
    if Keeps(f, t[id]) {
      forall y | y in rest
        ensures y.id != t[id].id
      {
        assert y.id in t - {id};
      }
      InsertDescDistinct(t[id], rest, c);
    }
  }

  /** A selection of the table, built one row at a time. */
  ghost function Select(t: Table, f: Filter, c: Column): (r: seq<DoctorViewItem>)
    requires WellKeyed(t)
    ensures IsSelection(t, f, c, r)
    decreases |t|
  {
    if t == map[] then []
    else
      var id :| id in t;
      assert (t - {id}).Keys == t.Keys - {id};
      var rest := Select(t - {id}, f, c);
      SelectionStep(t, id, f, c, rest);
      if Keeps(f, t[id]) then InsertDesc(t[id], rest, c) else rest
  }

  /** `LIMIT` of the recent-doctors query. */
  const RecentLimit: nat := 3

  /** `SELECT * FROM doctors WHERE is_recent = 0 ORDER BY rating DESC` */
  ghost function GetDoctorList(t: Table): (r: seq<DoctorViewItem>)
    requires WellKeyed(t)
    ensures IsSelection(t, NotRecent, Rating, r)
  {
    Select(t, NotRecent, Rating)
  }

  /** `SELECT * FROM doctors WHERE LOWER(name) LIKE :name ORDER BY rating DESC` */
  ghost function GetDoctorsByName(t: Table, name: string): (r: seq<DoctorViewItem>)
    requires WellKeyed(t)
    ensures IsSelection(t, NameMatches(name), Rating, r)
  {
    Select(t, NameMatches(name), Rating)
  }

  /** `SELECT * FROM doctors WHERE is_recent = 1 ORDER BY recent_visiting DESC` */
  ghost function GetAllRecentDoctors(t: Table): (r: seq<DoctorViewItem>)
    requires WellKeyed(t)
    ensures IsSelection(t, Recent, RecentVisiting, r)
  {
    Select(t, Recent, RecentVisiting)
  }

  /**
   * `SELECT * FROM doctors WHERE LOWER(name) LIKE :name AND is_recent = 1
   * ORDER BY recent_visiting DESC LIMIT 3`: the (at most) three most recently
   * visited matching rows.
   */
  ghost function GetRecentDoctorList(t: Table, name: string): (r: seq<DoctorViewItem>)
    requires WellKeyed(t)
    ensures |r| <= RecentLimit
    ensures |r| == if |MatchingIds(t, RecentNameMatches(name))| < RecentLimit
                   then |MatchingIds(t, RecentNameMatches(name))| else RecentLimit
    ensures forall row :: row in r ==> row.id in t && t[row.id] == row && row.isRecent && NameLike(row.name, name)
    ensures OrderedDesc(r, RecentVisiting)
    ensures DistinctIds(r)
    ensures forall id :: id in t && Keeps(RecentNameMatches(name), t[id]) && t[id] !in r ==>
      |r| == RecentLimit && forall row :: row in r ==> t[id].recentVisiting <= row.recentVisiting
  {
    var all := Select(t, RecentNameMatches(name), RecentVisiting);
    var n := if |all| < RecentLimit then |all| else RecentLimit;
    var r := all[..n];
    assert forall row :: row in r ==> row in all;
    assert DistinctIds(r) by {
      assert DistinctIds(all);
      forall i, j | 0 <= i < j < |r|
        ensures r[i].id != r[j].id
      {
        assert r[i] == all[i] && r[j] == all[j];
      }
    }
    forall id | id in t && Keeps(RecentNameMatches(name), t[id]) && t[id] !in r
      ensures |r| == RecentLimit && forall row :: row in r ==> t[id].recentVisiting <= row.recentVisiting
    {
      var k :| 0 <= k < |all| && all[k] == t[id];
      assert n <= k;
      forall row | row in r ensures t[id].recentVisiting <= row.recentVisiting {
        var j :| 0 <= j < n && r[j] == row;
        assert Key(all[k], RecentVisiting) <= Key(all[j], RecentVisiting);
      }
    }
    r
  }

  /** `SELECT COUNT(id) FROM doctors WHERE is_recent = 1` */
  function GetRecentCount(t: Table): nat {
    |MatchingIds(t, Recent)|
  }

  /** The count is at most the table size, and zero exactly when no row is marked recent. */
  lemma RecentCountBounds(t: Table)
    ensures GetRecentCount(t) <= |t|
    ensures GetRecentCount(t) == 0 <==> forall id :: id in t ==> !t[id].isRecent
  {
    var recent := MatchingIds(t, Recent);
    SubsetCard(recent, t.Keys);
    assert |t.Keys| == |t|;
    if forall id :: id in t ==> !t[id].isRecent {
      assert recent == {};
    } else {
      var id :| id in t && t[id].isRecent;
      assert id in recent;
    }
  }

  /** The count is the length of the list of all recent rows. */
  lemma RecentCountIsRecentListLength(t: Table)
    requires WellKeyed(t)
    ensures GetRecentCount(t) == |GetAllRecentDoctors(t)|
    ensures forall row :: row in GetAllRecentDoctors(t) ==> row.isRecent
    ensures forall row :: row in GetDoctorList(t) ==> !row.isRecent
  {
  }

  /** `SELECT * FROM doctors WHERE id = :id`: the stored row, or null when there is none. */
  function GetDoctorsById(t: Table, id: string): (r: Option<DoctorViewItem>)
    requires WellKeyed(t)
    ensures r.Some? <==> id in t
    ensures r.Some? ==> r.value == t[id] && r.value.id == id
  {
    if id in t then Some(t[id]) else None
  }

  // ------------------------------------------------------------- UPDATE

  function IdsOf(items: seq<DoctorViewItem>): set<string> {
    set row | row in items :: row.id
  }

  /** No later item of the list has the same key as item j. */
  predicate LastWithItsId(items: seq<DoctorViewItem>, j: int)
    requires 0 <= j < |items|
  {
    forall k :: j < k < |items| ==> items[k].id != items[j].id
  }

  /**
   * `INSERT OR REPLACE` of a list, in order: each item replaces the whole row
   * stored under its key, so the last item with a key wins.
   */
  function Upsert(t: Table, items: seq<DoctorViewItem>): (r: Table)
    ensures r.Keys == t.Keys + IdsOf(items)
    ensures forall id :: id in t && id !in IdsOf(items) ==> r[id] == t[id]
    ensures forall j :: 0 <= j < |items| && LastWithItsId(items, j) ==> r[items[j].id] == items[j]
    ensures WellKeyed(t) ==> WellKeyed(r)
    decreases |items|
  {
    if items == [] then t
    else
      var t' := t[items[0].id := items[0]];
      var r := Upsert(t', items[1..]);
      UpsertHead(t, items, r);
      r
  }

  /** The step of `Upsert`: the head is applied first, then the tail. */
  lemma UpsertHead(t: Table, items: seq<DoctorViewItem>, r: Table)
    requires items != []
    requires r.Keys == t[items[0].id := items[0]].Keys + IdsOf(items[1..])
    requires forall id :: id in t[items[0].id := items[0]] && id !in IdsOf(items[1..]) ==>
               r[id] == t[items[0].id := items[0]][id]
    requires forall j :: 0 <= j < |items[1..]| && LastWithItsId(items[1..], j) ==> r[items[1..][j].id] == items[1..][j]
    ensures r.Keys == t.Keys + IdsOf(items)
    ensures forall id :: id in t && id !in IdsOf(items) ==> r[id] == t[id]
    ensures forall j :: 0 <= j < |items| && LastWithItsId(items, j) ==> r[items[j].id] == items[j]
  {
    var tail := items[1..];
    assert IdsOf(items) == {items[0].id} + IdsOf(tail) by {
      forall row | row in items ensures row == items[0] || row in tail {
        var k :| 0 <= k < |items| && items[k] == row;
        if k > 0 { assert tail[k - 1] == row; }
      }
    }
    forall j | 0 <= j < |items| && LastWithItsId(items, j)
      ensures r[items[j].id] == items[j]
    {
      if j > 0 {
        assert tail[j - 1] == items[j];
        assert LastWithItsId(tail, j - 1);
      }
    }
  }

  /** `UPDATE doctors SET recent_visiting = :time, is_recent = 1 WHERE id = :id` */
  function MarkVisited(t: Table, time: int, id: string): (r: Table)
    ensures r.Keys == t.Keys
    ensures forall k :: k in t && k != id ==> r[k] == t[k]
    ensures id in t ==> r[id] == t[id].(recentVisiting := time, isRecent := true)
    ensures WellKeyed(t) ==> WellKeyed(r)
  {
    if id in t then t[id := t[id].(recentVisiting := time, isRecent := true)] else t
  }

  /** `UPDATE doctors SET is_recent = 0 WHERE id = :id` */
  function Unmark(t: Table, id: string): (r: Table)
    ensures r.Keys == t.Keys
    ensures forall k :: k in t && k != id ==> r[k] == t[k]
    ensures id in t ==> r[id] == t[id].(isRecent := false)
    ensures WellKeyed(t) ==> WellKeyed(r)
  {
    if id in t then t[id := t[id].(isRecent := false)] else t
  }

  /** Marking adds the row to the recent ones: the count rises by one iff it was not recent. */
  lemma MarkVisitedCount(t: Table, time: int, id: string)
    ensures id in t ==> MatchingIds(MarkVisited(t, time, id), Recent) == MatchingIds(t, Recent) + {id}
    ensures id in t && !t[id].isRecent ==> GetRecentCount(MarkVisited(t, time, id)) == GetRecentCount(t) + 1
    ensures (id !in t || t[id].isRecent) ==> GetRecentCount(MarkVisited(t, time, id)) == GetRecentCount(t)
  {
    var r := MarkVisited(t, time, id);
    if id in t {
      assert MatchingIds(r, Recent) == MatchingIds(t, Recent) + {id};
    } else {
      assert MatchingIds(r, Recent) == MatchingIds(t, Recent);
    }
  }

  /** Un-marking removes the row from the recent ones: the count drops by one iff it was recent. */
  lemma UnmarkCount(t: Table, id: string)
    ensures MatchingIds(Unmark(t, id), Recent) == MatchingIds(t, Recent) - {id}
    ensures id in t && t[id].isRecent ==> GetRecentCount(Unmark(t, id)) == GetRecentCount(t) - 1
    ensures (id !in t || !t[id].isRecent) ==> GetRecentCount(Unmark(t, id)) == GetRecentCount(t)
  {
    var r := Unmark(t, id);
    assert MatchingIds(r, Recent) == MatchingIds(t, Recent) - {id};
  }

  /** Upserting only non-recent rows never raises the recent count. */
  lemma {:induction false} UpsertNonRecentCount(t: Table, items: seq<DoctorViewItem>)
    requires forall row :: row in items ==> !row.isRecent
    ensures MatchingIds(Upsert(t, items), Recent) <= MatchingIds(t, Recent)
    ensures GetRecentCount(Upsert(t, items)) <= GetRecentCount(t)
    decreases |items|
  {
    if items != [] {
      var t' := t[items[0].id := items[0]];
      assert MatchingIds(t', Recent) <= MatchingIds(t, Recent);
      assert forall row :: row in items[1..] ==> row in items;
      UpsertNonRecentCount(t', items[1..]);
    }
    SubsetCard(MatchingIds(Upsert(t, items), Recent), MatchingIds(t, Recent));
  }

  lemma SubsetCard<T>(a: set<T>, b: set<T>)
    requires a <= b
    ensures |a| <= |b|
  {
    assert b == a + (b - a);
  }

  // -------------------------------------------------------------- the DAO

  class DoctorsDao {
    var rows: Table

    ghost predicate Valid()
      reads this
    {
      WellKeyed(rows)
    }

    constructor ()
      ensures Valid() && rows == map[]
    {
      rows := map[];
    }

    /** `insertAll` with REPLACE on conflict. */
    method InsertAll(items: seq<DoctorViewItem>)
      requires Valid()
      modifies this
      ensures Valid()
      ensures rows == Upsert(old(rows), items)
    {
      for i := 0 to |items|
        invariant WellKeyed(rows)
        invariant Upsert(rows, items[i..]) == Upsert(old(rows), items)
      {
        assert items[i..][1..] == items[i + 1..];
        rows := rows[items[i].id := items[i]];
      }
      assert items[|items|..] == [];
    }

    /** `updateVisitingTimeById`: stores the time through the date converter and marks the row recent. */
    method UpdateVisitingTimeById(time: DateTimeConverter.Date, id: string)
      requires Valid()
      modifies this
      ensures Valid()
      ensures rows == MarkVisited(old(rows), DateTimeConverter.DateTimeToLong(time) as int, id)
    {
      if id in rows {
        rows := rows[id := rows[id].(recentVisiting := DateTimeConverter.DateTimeToLong(time) as int, isRecent := true)];
      }
    }

    /** `removeFromRecent`: clears the flag and keeps the visiting time. */
    method RemoveFromRecent(id: string)
      requires Valid()
      modifies this
      ensures Valid()
      ensures rows == Unmark(old(rows), id)
    {
      if id in rows {
        rows := rows[id := rows[id].(isRecent := false)];
      }
    }

    /** `getAllRecentDoctors`, as the database runs it: one stored row at a time. */
    method AllRecentDoctors() returns (r: seq<DoctorViewItem>)
      requires Valid()
      ensures IsSelection(rows, Recent, RecentVisiting, r)
    {
      var remaining := rows.Keys;
      r := [];
      assert rows - remaining == map[];
      while remaining != {}
        invariant remaining <= rows.Keys
        invariant IsSelection(rows - remaining, Recent, RecentVisiting, r)
        decreases remaining
      {
        var id :| id in remaining;
        var done := rows - (remaining - {id});
        assert done - {id} == rows - remaining;
        assert id in done && done[id] == rows[id];
        SelectionStep(done, id, Recent, RecentVisiting, r);
        if rows[id].isRecent {
          r := InsertDesc(rows[id], r, RecentVisiting);
        }
        remaining := remaining - {id};
      }
      assert rows - remaining == rows;
    }
  }
}

/**
 * The repository over the local table: inserting fetched pages, the name
 * queries, and the "recently visited" rule that keeps at most three doctors
 * marked recent.
 */
module Repository {
  import opened Wrappers
  import opened Model
  import opened Dao
  import DateTimeConverter

  const RecentDoctorCountMax: nat := 3

  /** `victim` is a recent row whose visiting time is not later than any other recent row's. */
  ghost predicate IsLeastRecent(t: Table, victim: string) {
    && victim in t
    && t[victim].isRecent
    && forall id :: id in t && t[id].isRecent ==> t[victim].recentVisiting <= t[id].recentVisiting
  }

  /**
   * The outcome of visiting `id` at time `now`: the row is marked; when more
   * than three rows are then recent, the least recently visited one (the last
   * of the recent rows in descending visiting order) is un-marked.
   */
  ghost predicate VisitOutcome(before: Table, now: int, id: string, evicted: Option<string>, after: Table) {
    var marked := MarkVisited(before, now, id);
    if GetRecentCount(marked) <= RecentDoctorCountMax then
      evicted == None && after == marked
    else
      evicted.Some? && IsLeastRecent(marked, evicted.value) && after == Unmark(marked, evicted.value)
  }

  /** The fields of a row other than the two visit columns. */
  predicate SameDoctor(a: DoctorViewItem, b: DoctorViewItem) {
    a.(recentVisiting := 0, isRecent := false) == b.(recentVisiting := 0, isRecent := false)
  }

  /** No row is deleted or added, and no column but the two visit columns changes. */
  lemma VisitKeepsRows(before: Table, now: int, id: string, evicted: Option<string>, after: Table)
    requires VisitOutcome(before, now, id, evicted, after)
    ensures after.Keys == before.Keys
    ensures forall k :: k in before ==> SameDoctor(after[k], before[k])
    ensures id in before ==> after[id].recentVisiting == now
    ensures forall k :: k in before && k != id ==> after[k].recentVisiting == before[k].recentVisiting
    ensures forall k :: k in before && k != id && Some(k) != evicted ==> after[k] == before[k]
  {
  }

  /** A visited row is recent afterwards unless it was the one evicted. */
  lemma VisitMarksRow(before: Table, now: int, id: string, evicted: Option<string>, after: Table)
    requires VisitOutcome(before, now, id, evicted, after)
    requires id in before && evicted != Some(id)
    ensures after[id] == before[id].(recentVisiting := now, isRecent := true)
  {
  }

  /** When at most three rows are recent after marking, nothing else changes. */
  lemma SmallVisitChangesOnlyRow(before: Table, now: int, id: string, evicted: Option<string>, after: Table)
    requires VisitOutcome(before, now, id, evicted, after)
    requires GetRecentCount(MarkVisited(before, now, id)) <= RecentDoctorCountMax
    ensures evicted == None
    ensures forall k :: k in before && k != id ==> after[k] == before[k]
  {
  }

  /**
   * When more than three are recent after marking, exactly one row loses its
   * mark: a least recently visited one, which keeps its visiting time.
   */
  lemma EvictionUnmarksOne(before: Table, now: int, id: string, evicted: Option<string>, after: Table)
    requires WellKeyed(before)
    requires VisitOutcome(before, now, id, evicted, after)
    requires GetRecentCount(MarkVisited(before, now, id)) > RecentDoctorCountMax
    ensures evicted.Some? && IsLeastRecent(MarkVisited(before, now, id), evicted.value)
    ensures !after[evicted.value].isRecent
    ensures after[evicted.value].recentVisiting == MarkVisited(before, now, id)[evicted.value].recentVisiting
    ensures GetRecentCount(after) == GetRecentCount(MarkVisited(before, now, id)) - 1
  {
    UnmarkCount(MarkVisited(before, now, id), evicted.value);
  }

  /** Invariant: at most three recent doctors before a visit, at most three after it. */
  lemma VisitKeepsRecentBound(before: Table, now: int, id: string, evicted: Option<string>, after: Table)
    requires VisitOutcome(before, now, id, evicted, after)
    requires GetRecentCount(before) <= RecentDoctorCountMax
    ensures GetRecentCount(after) <= RecentDoctorCountMax
  {
    var marked := MarkVisited(before, now, id);
    MarkVisitedCount(before, now, id);
    if GetRecentCount(marked) > RecentDoctorCountMax {
      UnmarkCount(marked, evicted.value);
    }
  }

  /** The doctor just visited stays recent when its time is later than every other recent one. */
  lemma LatestVisitStaysRecent(before: Table, now: int, id: string, evicted: Option<string>, after: Table)
    requires VisitOutcome(before, now, id, evicted, after)
    requires id in before
    requires forall k :: k in before && k != id && before[k].isRecent ==> before[k].recentVisiting < now
    ensures after[id].isRecent && after[id].recentVisiting == now
  {
    var marked := MarkVisited(before, now, id);
    if GetRecentCount(marked) > RecentDoctorCountMax {
      var recent := MatchingIds(marked, Recent);
      assert recent - {id} != {} by {
        if recent - {id} == {} {
          SubsetCard(recent, {id});
        }
      }
      var other :| other in recent - {id};
      assert marked[other].recentVisiting < now;
    }
  }

  /**
   * After a visit whose time is later than every other recent row's, the
   * doctor visited heads the recent list of every pattern its name matches.
   */
  lemma LatestVisitHeadsRecentList(before: Table, now: int, id: string, evicted: Option<string>, after: Table,
                                   pattern: string)
    requires WellKeyed(before)
    requires VisitOutcome(before, now, id, evicted, after)
    requires id in before && NameLike(before[id].name, pattern)
    requires forall k :: k in before && k != id && before[k].isRecent ==> before[k].recentVisiting < now
    ensures WellKeyed(after)
    ensures |GetRecentDoctorList(after, pattern)| > 0
    ensures GetRecentDoctorList(after, pattern)[0] == after[id]
  {
    LatestVisitStaysRecent(before, now, id, evicted, after);
    VisitKeepsRows(before, now, id, evicted, after);
    var marked := MarkVisited(before, now, id);
    assert WellKeyed(marked);
    assert WellKeyed(after);
    forall k | k in after && k != id && after[k].isRecent
      ensures after[k].recentVisiting < now
    {
      if Some(k) != evicted {
        assert after[k] == before[k];
      }
    }
    assert SameDoctor(after[id], before[id]);
    assert after[id].name == before[id].name;
    var matching := MatchingIds(after, RecentNameMatches(pattern));
    assert id in matching;
    var r := GetRecentDoctorList(after, pattern);
    assert |r| > 0;
    var head := r[0];
    assert head in r;
    if head.id != id {
      assert head.recentVisiting < now;
      forall j | 0 <= j < |r|
        ensures r[j] != after[id]
      {
        if j > 0 {
          assert Key(r[j], RecentVisiting) <= Key(r[0], RecentVisiting);
        }
      }
      assert false;
    }
  }

  class DoctorsRepository {
    const dao: DoctorsDao

    constructor (dao: DoctorsDao)
      ensures this.dao == dao
    {
      this.dao := dao;
    }

    /** `insertResultIntoDb`: a null body changes nothing; a list is upserted in full. */
    method InsertResultIntoDb(body: Option<seq<DoctorViewItem>>)
      requires dao.Valid()
      modifies dao
      ensures dao.Valid()
      ensures body.None? ==> dao.rows == old(dao.rows)
      ensures body.Some? ==> dao.rows == Upsert(old(dao.rows), body.value)
    {
      if body.Some? {
        dao.InsertAll(body.value);
      }
    }

    /** `getDoctorsByName`: the name pattern goes to the table query unchanged. */
    ghost function GetDoctorsByName(name: string): (r: seq<DoctorViewItem>)
      reads dao
      requires dao.Valid()
      ensures IsSelection(dao.rows, NameMatches(name), Rating, r)
    {
      Dao.GetDoctorsByName(dao.rows, name)
    }

    /** `getRecentDoctors`: the name pattern goes to the table query unchanged. */
    ghost function GetRecentDoctors(name: string): (r: seq<DoctorViewItem>)
      reads dao
      requires dao.Valid()
      ensures |r| <= RecentDoctorCountMax
      ensures forall row :: row in r ==> row.id in dao.rows && dao.rows[row.id] == row
                                         && row.isRecent && NameLike(row.name, name)
      ensures OrderedDesc(r, RecentVisiting)
      ensures r == Dao.GetRecentDoctorList(dao.rows, name)
    {
      Dao.GetRecentDoctorList(dao.rows, name)
    }

    /**
     * `updateVisitingTimeById`, as one step: mark the row visited now, count
     * the recent rows, and when there are more than three un-mark the last of
     * them in descending visiting order.  `evicted` is the id un-marked, if any.
     */
    method UpdateVisitingTimeById(id: string, now: DateTimeConverter.Long) returns (evicted: Option<string>)
      requires dao.Valid()
      modifies dao
      ensures dao.Valid()
      ensures VisitOutcome(old(dao.rows), now as int, id, evicted, dao.rows)
    {
      dao.UpdateVisitingTimeById(DateTimeConverter.Date(now), id);
      ghost var marked := dao.rows;
      var count := GetRecentCount(dao.rows);
      evicted := None;
      if count > RecentDoctorCountMax {
        var items := dao.AllRecentDoctors();
        assert |items| > 0;
        var oldest := items[|items| - 1];
        forall k | k in marked && marked[k].isRecent
          ensures oldest.recentVisiting <= marked[k].recentVisiting
        {
          var j :| 0 <= j < |items| && items[j] == marked[k];
          assert Key(items[|items| - 1], RecentVisiting) <= Key(items[j], RecentVisiting) || j == |items| - 1;
        }
        dao.RemoveFromRecent(oldest.id);
        evicted := Some(oldest.id);
      }
    }
  }
}

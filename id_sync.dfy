/**
 * The id synchronizer (`Id` in trifle/models/synchronizers.py): it asks
 * for the id lists of the three saved views, blanket-resets every row of
 * `items` before any answer arrives, re-confirms and re-flags the ids each
 * answer lists, and commits once every view has answered.
 */
module IdSync {
  import opened Wrappers
  import opened Utils
  import opened Db

  /** The saved views and their query arguments, in the order `states` lists them. */
  const Views: seq<(string, seq<(string, string)>)> := [
    ("reading-list", [("s", "user/-/state/com.google/reading-list")]),
    ("unread", [("s", "user/-/state/com.google/reading-list"), ("xt", "user/-/state/com.google/read")]),
    ("starred", [("s", "user/-/state/com.google/starred")])]

  const IdsPath: string := "stream/items/ids"

  /** A queued GET of one view's id list; `view` is the callback's user data. */
  datatype IdRequest = IdRequest(url: string, view: string)

  lemma IdsPathIsPlain()
    ensures IsPlainPath(IdsPath)
  {
    var p := IdsPath;
    assert forall i :: 0 <= i < |p| ==> IsSegmentChar(p[i]) || p[i] == '/';
  }

  /** The request `sync` queues for view i, asking for at most `itemLimit` ids. */
  function ViewRequest(view: (string, seq<(string, string)>), itemLimit: int): IdRequest
  {
    IdsPathIsPlain();
    IdRequest(ApiMethod(IdsPath, view.1 + [("n", IntToString(itemLimit))]), view.0)
  }

  /** One request per view, in the order of `states`. */
  ghost predicate IsQueued(requests: seq<IdRequest>, views: seq<(string, seq<(string, string)>)>, itemLimit: int)
  {
    |requests| == |views| &&
    forall i :: 0 <= i < |views| ==> requests[i] == ViewRequest(views[i], itemLimit)
  }

  /** `sync_status.get(key, False)` */
  predicate StatusGet(status: map<string, bool>, key: string)
  {
    key in status && status[key]
  }

  /** Every key of `states` is marked true: the condition of `on_status_change`. */
  predicate AllViewsDone(status: map<string, bool>)
  {
    forall i :: 0 <= i < |Views| ==> StatusGet(status, Views[i].0)
  }

  /** The ids of an `itemRefs` list, in its order. */
  function IdsOf(refs: seq<ItemRef>): (ids: seq<int>)
    ensures |ids| == |refs|
    ensures forall i :: 0 <= i < |refs| ==> ids[i] == refs[i].id
  {
    seq(|refs|, i requires 0 <= i < |refs| => refs[i].id)
  }

  function IdSet(refs: seq<ItemRef>): set<int>
  {
    set i | 0 <= i < |refs| :: refs[i].id
  }

  /**
   * The row effect of one successful answer for `view`: `ensure_ids`,
   * `set_sync_flag`, then `set_flag` for the `unread` and `starred` views.
   */
  function ApplyResponse(m: map<int, Row>, view: string, refs: seq<ItemRef>, defaultRow: Row): (r: map<int, Row>)
    ensures m.Keys <= r.Keys
  {
    var ids := IdsOf(refs);
    SyncAndFlag(ClearToDelete(InsertOrIgnore(m, ids, defaultRow), ids), view, refs)
  }

  /** The second half of an answer's effect: `set_sync_flag`, then `set_flag` for the matching view. */
  function SyncAndFlag(ensured: map<int, Row>, view: string, refs: seq<ItemRef>): (r: map<int, Row>)
    ensures r.Keys == ensured.Keys
  {
    var ids := IdsOf(refs);
    SetSyncFlagsKeeps(ensured, refs);
    var synced := SetSyncFlags(ensured, refs);
    if view == "unread" then SetFlag(synced, Unread, ids)
    else if view == "starred" then SetFlag(synced, Starred, ids)
    else synced
  }

  class Id {
    const db: Store
    /** `settings['cache-items']`, the most ids asked for per view. */
    const itemLimit: int
    var syncStatus: map<string, bool>

    constructor (db: Store, itemLimit: int)
      ensures this.db == db && this.itemLimit == itemLimit && syncStatus == map[]
    {
      this.db := db;
      this.itemLimit := itemLimit;
      syncStatus := map[];
    }

    /**
     * `sync()`: refused while `synchronizing` is set (which nothing ever
     * clears); otherwise sets it, queues one request per view, and resets
     * every row to deletable and unflagged.
     */
    method Sync() returns (started: bool, requests: seq<IdRequest>)
      modifies this, db
      ensures db.flags == old(db.flags) && db.contents == old(db.contents)
      ensures db.committedItems == old(db.committedItems) && db.committedFlags == old(db.committedFlags)
      ensures started <==> !old(StatusGet(syncStatus, "synchronizing"))
      ensures !started ==> requests == [] && syncStatus == old(syncStatus) && db.items == old(db.items)
      ensures started ==> syncStatus == old(syncStatus)["synchronizing" := true]
      ensures started ==> IsQueued(requests, Views, itemLimit)
      ensures started ==> db.items == ResetAll(old(db.items))
    {
      if StatusGet(syncStatus, "synchronizing") {
        return false, [];
      }
      syncStatus := syncStatus["synchronizing" := true];
      requests := QueueRequests(Views);
      db.items := ResetAll(db.items);
      started := true;
    }

    /** The loop of `sync()` over `states`: one id-list request per view, in order. */
    method QueueRequests(views: seq<(string, seq<(string, string)>)>) returns (requests: seq<IdRequest>)
      ensures IsQueued(requests, views, itemLimit)
    {
      requests := [];
      var i := 0;
      while i < |views|
        invariant 0 <= i <= |views|
        invariant |requests| == i
        invariant forall j :: 0 <= j < i ==> requests[j] == ViewRequest(views[j], itemLimit)
      {
        requests := requests + [ViewRequest(views[i], itemLimit)];
        i := i + 1;
      }
    }

    /**
     * `on_response(...)`: a status outside 200..399 changes nothing;
     * otherwise the answer's rows are applied, the view is marked done, and
     * the status change is handled (commit and `sync-done` once all views
     * are done).
     */
    method OnResponse(status: int, view: string, refs: seq<ItemRef>) returns (ok: bool, done: bool)
      modifies this, db
      ensures db.flags == old(db.flags) && db.contents == old(db.contents)
      ensures ok <==> 200 <= status < 400
      ensures !ok ==> !done && syncStatus == old(syncStatus) && db.items == old(db.items)
      ensures !ok ==> db.committedItems == old(db.committedItems) && db.committedFlags == old(db.committedFlags)
      ensures ok ==> db.items == ApplyResponse(old(db.items), view, refs, db.defaultRow)
      ensures ok ==> syncStatus == old(syncStatus)[view := true]
      ensures ok ==> (done <==> AllViewsDone(syncStatus))
      ensures done ==> db.committedItems == db.items && db.committedFlags == db.flags
      ensures !done ==> db.committedItems == old(db.committedItems) && db.committedFlags == old(db.committedFlags)
    {
      if !(200 <= status < 400) {
        return false, false;
      }
      var ids := IdsOf(refs);
      EnsureIds(ids);
      SetSyncFlag(refs);
      if view == "unread" || view == "starred" {
        SetFlagColumn(view, ids);
      }
      syncStatus := syncStatus[view := true];
      done := OnStatusChange();
      ok := true;
    }

    /** `ensure_ids(id_list)`: insert the unknown ids, clear `to_delete` on all of them. */
    method EnsureIds(ids: seq<int>)
      modifies db
      ensures db.items == ClearToDelete(InsertOrIgnore(old(db.items), ids, db.defaultRow), ids)
      ensures db.flags == old(db.flags) && db.contents == old(db.contents)
      ensures db.committedItems == old(db.committedItems) && db.committedFlags == old(db.committedFlags)
    {
      db.items := InsertOrIgnore(db.items, ids, db.defaultRow);
      db.items := ClearToDelete(db.items, ids);
    }

    /** `set_sync_flag(items)` */
    method SetSyncFlag(refs: seq<ItemRef>)
      modifies db
      ensures db.items == SetSyncFlags(old(db.items), refs)
      ensures db.flags == old(db.flags) && db.contents == old(db.contents)
      ensures db.committedItems == old(db.committedItems) && db.committedFlags == old(db.committedFlags)
    {
      db.items := SetSyncFlags(db.items, refs);
    }

    /** `set_flag(flag, id_list)` for the view names that are flag columns. */
    method SetFlagColumn(view: string, ids: seq<int>)
      requires view == "unread" || view == "starred"
      modifies db
      ensures db.items == SetFlag(old(db.items), if view == "unread" then Unread else Starred, ids)
      ensures db.flags == old(db.flags) && db.contents == old(db.contents)
      ensures db.committedItems == old(db.committedItems) && db.committedFlags == old(db.committedFlags)
    {
      db.items := SetFlag(db.items, if view == "unread" then Unread else Starred, ids);
    }

    /** `on_status_change`: commit and emit `sync-done` when every view is done. */
    method OnStatusChange() returns (done: bool)
      modifies db
      ensures done <==> AllViewsDone(syncStatus)
      ensures db.items == old(db.items) && db.flags == old(db.flags) && db.contents == old(db.contents)
      ensures done ==> db.committedItems == db.items && db.committedFlags == db.flags
      ensures !done ==> db.committedItems == old(db.committedItems) && db.committedFlags == old(db.committedFlags)
    {
      done := AllViewsDone(syncStatus);
      if done {
        db.Commit();
      }
    }
  }

  // -----------------------------------------------------------------------
  // What the row effects promise
  // -----------------------------------------------------------------------

  /** The blanket reset marks every row deletable and unflagged and touches nothing else. */
  lemma ResetAllEffect(m: map<int, Row>)
    ensures var r := ResetAll(m);
      r.Keys == m.Keys &&
      forall k :: k in r ==>
        r[k].toDelete && !r[k].unread && !r[k].starred && !r[k].toSync &&
        r[k] == m[k].(toDelete := true, unread := false, starred := false, toSync := false)
  {
  }

  /**
   * The single-statement promise of `set_sync_flag`: `to_sync` is set and
   * `update_time` takes the new value exactly for the referenced row whose
   * stored `update_time` was smaller (never for a NULL one); every other row
   * is untouched, and no `update_time` decreases.
   */
  lemma SetSyncFlagEffect(m: map<int, Row>, r: ItemRef)
    ensures var m' := SetSyncFlag(m, r);
      m'.Keys == m.Keys &&
      forall k :: k in m ==>
        var advances := k == r.id && LessThan(m[k].updateTime, r.timestampUsec);
        (advances ==> m'[k] == m[k].(toSync := true, updateTime := Some(r.timestampUsec))) &&
        (!advances ==> m'[k] == m[k]) &&
        (m[k].updateTime.Some? ==> m'[k].updateTime.Some? && m'[k].updateTime.value >= m[k].updateTime.value)
  {
  }

  /**
   * The stamp a row ends with after `executemany`: at least its stored
   * time, at least every stamp sent for it, and one of these.
   */
  ghost predicate IsFinalStamp(t: int, t0: int, refs: seq<ItemRef>, k: int)
  {
    t >= t0 &&
    (forall i :: 0 <= i < |refs| && refs[i].id == k ==> refs[i].timestampUsec <= t) &&
    (t == t0 || exists i :: 0 <= i < |refs| && refs[i].id == k && refs[i].timestampUsec == t)
  }

  /**
   * `set_sync_flag` over a whole answer: a row with a NULL `update_time` is
   * untouched; otherwise its `update_time` becomes the largest of its stored
   * value and the stamps sent for it, `to_sync` is set exactly when that is
   * larger than the stored value, and no other column changes.
   */
  lemma {:induction false} SetSyncFlagsEffect(m: map<int, Row>, refs: seq<ItemRef>)
    ensures var m' := SetSyncFlags(m, refs);
      m'.Keys == m.Keys &&
      forall k :: k in m ==>
        (m[k].updateTime.None? ==> m'[k] == m[k]) &&
        (m[k].updateTime.Some? ==>
          m'[k].updateTime.Some? &&
          IsFinalStamp(m'[k].updateTime.value, m[k].updateTime.value, refs, k) &&
          m'[k] == m[k].(toSync := m[k].toSync || m'[k].updateTime.value > m[k].updateTime.value,
                         updateTime := m'[k].updateTime))
    decreases |refs|
  {
    if refs != [] {
      var m1 := SetSyncFlag(m, refs[0]);
      var rest := refs[1..];
      SetSyncFlagsEffect(m1, rest);
      var m' := SetSyncFlags(m1, rest);
      assert m' == SetSyncFlags(m, refs);
      forall k | k in m && m[k].updateTime.Some?
        ensures m'[k].updateTime.Some?
        ensures IsFinalStamp(m'[k].updateTime.value, m[k].updateTime.value, refs, k)
        ensures m'[k] == m[k].(toSync := m[k].toSync || m'[k].updateTime.value > m[k].updateTime.value,
                               updateTime := m'[k].updateTime)
      {
        var t0 := m[k].updateTime.value;
        var t1 := m1[k].updateTime.value;
        var t := m'[k].updateTime.value;
        assert t1 >= t0;
        assert refs[0].id == k ==> refs[0].timestampUsec <= t1;
        assert t1 == t0 || (refs[0].id == k && refs[0].timestampUsec == t1);
        assert IsFinalStamp(t, t1, rest, k);
        forall i | 0 <= i < |refs| && refs[i].id == k
          ensures refs[i].timestampUsec <= t
        {
          if i > 0 {
            assert rest[i - 1] == refs[i];
          }
        }
        if t != t0 {
          if t == t1 {
            assert refs[0].id == k && refs[0].timestampUsec == t;
          } else {
            var j :| 0 <= j < |rest| && rest[j].id == k && rest[j].timestampUsec == t;
            assert refs[j + 1] == rest[j];
          }
        }
      }
    }
  }

  /**
   * One successful answer: every listed id has a row with `to_delete`
   * cleared; a row it does not list is untouched; a row it lists keeps its
   * metadata columns; `unread` and `starred` are set for the listed ids of
   * the matching view and never cleared.
   */
  lemma ApplyResponseEffect(m: map<int, Row>, view: string, refs: seq<ItemRef>, d: Row)
    ensures var m' := ApplyResponse(m, view, refs, d);
      m'.Keys == m.Keys + IdSet(refs) &&
      (forall k :: k in m && k !in IdSet(refs) ==> m'[k] == m[k]) &&
      (forall k :: k in IdSet(refs) ==> !m'[k].toDelete) &&
      (forall k :: k in m ==>
        m'[k].title == m[k].title && m'[k].author == m[k].author && m'[k].summary == m[k].summary &&
        m'[k].href == m[k].href && m'[k].time == m[k].time && m'[k].subscription == m[k].subscription) &&
      (forall k :: k in m' ==>
        (m'[k].toDelete <==> k in m && m[k].toDelete && k !in IdSet(refs)) &&
        (m'[k].unread <==> (k in m && m[k].unread) || (k !in m && d.unread) || (view == "unread" && k in IdSet(refs))) &&
        (m'[k].starred <==> (k in m && m[k].starred) || (k !in m && d.starred) || (view == "starred" && k in IdSet(refs))))
  {
    var ensured := ClearToDelete(InsertOrIgnore(m, IdsOf(refs), d), IdsOf(refs));
    EnsuredRows(m, refs, d);
    FlaggedRows(ensured, view, refs);
  }

  /** `ensure_ids`: the listed ids gain a default row where missing, and lose `to_delete`. */
  lemma EnsuredRows(m: map<int, Row>, refs: seq<ItemRef>, d: Row)
    ensures var e := ClearToDelete(InsertOrIgnore(m, IdsOf(refs), d), IdsOf(refs));
      e.Keys == m.Keys + IdSet(refs) &&
      forall k :: k in e ==>
        (e[k].toDelete <==> k in m && m[k].toDelete && k !in IdSet(refs)) &&
        (e[k].unread <==> (k in m && m[k].unread) || (k !in m && d.unread)) &&
        (e[k].starred <==> (k in m && m[k].starred) || (k !in m && d.starred)) &&
        (k in m ==>
          e[k].title == m[k].title && e[k].author == m[k].author &&
          e[k].summary == m[k].summary && e[k].href == m[k].href &&
          e[k].time == m[k].time && e[k].subscription == m[k].subscription) &&
        (k in m && k !in IdSet(refs) ==> e[k] == m[k])
  {
    IdsOfMembers(refs);
  }

  /** `set_sync_flag` and `set_flag`: only `to_sync`, `update_time` and the view's flag change. */
  lemma FlaggedRows(e: map<int, Row>, view: string, refs: seq<ItemRef>)
    ensures var r := SyncAndFlag(e, view, refs);
      forall k :: k in r ==>
        r[k].title == e[k].title && r[k].author == e[k].author &&
        r[k].summary == e[k].summary && r[k].href == e[k].href &&
        r[k].time == e[k].time && r[k].subscription == e[k].subscription &&
        r[k].toDelete == e[k].toDelete &&
        (r[k].unread <==> e[k].unread || (view == "unread" && k in IdSet(refs))) &&
        (r[k].starred <==> e[k].starred || (view == "starred" && k in IdSet(refs))) &&
        (k !in IdSet(refs) ==> r[k] == e[k])
  {
    IdsOfMembers(refs);
    SetSyncFlagsKeeps(e, refs);
  }

  lemma IdsOfMembers(refs: seq<ItemRef>)
    ensures forall k :: k in IdsOf(refs) <==> k in IdSet(refs)
  {
    var ids := IdsOf(refs);
    forall k | k in IdSet(refs) ensures k in ids {
      var i :| 0 <= i < |refs| && refs[i].id == k;
      assert ids[i] == k;
    }
  }

  /** `set_sync_flag` touches only `to_sync` and `update_time`, and only of referenced rows. */
  lemma SetSyncFlagsKeeps(m: map<int, Row>, refs: seq<ItemRef>)
    ensures var m' := SetSyncFlags(m, refs);
      m'.Keys == m.Keys &&
      forall k :: k in m ==>
        m'[k].title == m[k].title && m'[k].author == m[k].author &&
        m'[k].summary == m[k].summary && m'[k].href == m[k].href &&
        m'[k].time == m[k].time && m'[k].subscription == m[k].subscription &&
        m'[k].unread == m[k].unread && m'[k].starred == m[k].starred &&
        m'[k].toDelete == m[k].toDelete &&
        (k !in IdSet(refs) ==> m'[k] == m[k])
  {
    SetSyncFlagsEffect(m, refs);
  }

  // -----------------------------------------------------------------------
  // A whole cycle
  // -----------------------------------------------------------------------

  /** The answers of one cycle applied in the order they arrive. */
  function ApplyResponses(m: map<int, Row>, answers: seq<(string, seq<ItemRef>)>, d: Row): map<int, Row>
    decreases |answers|
  {
    if answers == [] then m else ApplyResponses(ApplyResponse(m, answers[0].0, answers[0].1, d), answers[1..], d)
  }

  /** The ids any of the answers lists. */
  function AnsweredIds(answers: seq<(string, seq<ItemRef>)>): set<int>
    decreases |answers|
  {
    if answers == [] then {} else IdSet(answers[0].1) + AnsweredIds(answers[1..])
  }

  /** The ids the answers for one view list. */
  function ViewIds(answers: seq<(string, seq<ItemRef>)>, view: string): set<int>
    decreases |answers|
  {
    if answers == [] then {}
    else (if answers[0].0 == view then IdSet(answers[0].1) else {}) + ViewIds(answers[1..], view)
  }

  lemma {:induction false} ApplyResponsesEffect(m: map<int, Row>, answers: seq<(string, seq<ItemRef>)>, d: Row)
    ensures var m' := ApplyResponses(m, answers, d);
      m'.Keys == m.Keys + AnsweredIds(answers) &&
      (forall k :: k in m' ==>
        (m'[k].toDelete <==> k in m && m[k].toDelete && k !in AnsweredIds(answers)) &&
        (m'[k].unread <==> (k in m && m[k].unread) || (k !in m && d.unread) || k in ViewIds(answers, "unread")) &&
        (m'[k].starred <==> (k in m && m[k].starred) || (k !in m && d.starred) || k in ViewIds(answers, "starred")))
    decreases |answers|
  {
    if answers != [] {
      var m1 := ApplyResponse(m, answers[0].0, answers[0].1, d);
      ApplyResponseEffect(m, answers[0].0, answers[0].1, d);
      ApplyResponsesEffect(m1, answers[1..], d);
    }
  }

  /**
   * A full cycle: after the blanket reset and any sequence of successful
   * answers, a row exists for every known or listed id; it is marked for
   * deletion exactly when no answer listed it, and it is unread (starred)
   * exactly when an `unread` (`starred`) answer listed it, or it is new
   * and the schema default sets the flag.
   */
  lemma CycleOutcome(m0: map<int, Row>, answers: seq<(string, seq<ItemRef>)>, d: Row)
    ensures var m := ApplyResponses(ResetAll(m0), answers, d);
      m.Keys == m0.Keys + AnsweredIds(answers) &&
      forall k :: k in m ==>
        (m[k].toDelete <==> k !in AnsweredIds(answers)) &&
        (m[k].unread <==> k in ViewIds(answers, "unread") || (k !in m0 && d.unread)) &&
        (m[k].starred <==> k in ViewIds(answers, "starred") || (k !in m0 && d.starred))
  {
    ApplyResponsesEffect(ResetAll(m0), answers, d);
  }
}

/**
 * The flag synchronizer (`Flags` in trifle/models/synchronizers.py): it
 * drains the `flags` table of pending edits by posting them to `edit-tag`
 * in batches of at most 250 item ids, one group of batches per (flag,
 * remove) combination, counts the batches in flight, and deletes a batch's
 * pending rows only when that batch is acknowledged.
 */
module FlagSync {
  import opened Wrappers
  import opened Utils
  import opened Db

  /** The values of `flags`, in the order the class lists them. */
  const FlagUris: seq<string> := [
    "user/-/state/com.google/read",
    "user/-/state/com.google/kept-unread",
    "user/-/state/com.google/starred"]

  const BatchSize: nat := 250

  const EditPath: string := "edit-tag"

  /** `itertools.product(uris, [True, False])` */
  function Product(uris: seq<string>): (r: seq<(string, bool)>)
    ensures |r| == 2 * |uris|
    ensures forall i :: 0 <= i < |r| ==> r[i].0 in uris
    ensures forall u, b :: u in uris ==> (u, b) in r
    ensures forall i :: 0 <= i < |uris| ==> r[2 * i] == (uris[i], true) && r[2 * i + 1] == (uris[i], false)
  {
    var r := seq(2 * |uris|, i requires 0 <= i < 2 * |uris| => (uris[i / 2], i % 2 == 0));
    assert forall i :: 0 <= i < |r| ==> r[i].0 == uris[i / 2];
    assert forall u, b :: u in uris ==> (u, b) in r by {
      forall u, b | u in uris ensures (u, b) in r {
        var j :| 0 <= j < |uris| && uris[j] == u;
        if b {
          assert r[2 * j] == (u, b);
        } else {
          assert r[2 * j + 1] == (u, b);
        }
      }
    }
    r
  }

  /** The six (flag, remove) combinations `sync` walks through. */
  function Combos(): seq<(string, bool)>
  {
    Product(FlagUris)
  }

  lemma EditPathIsPlain()
    ensures IsPlainPath(EditPath)
  {
    var p := EditPath;
    assert forall i :: 0 <= i < |p| ==> IsSegmentChar(p[i]);
  }

  /** `api_method('edit-tag')` */
  function EditUrl(): string
  {
    EditPathIsPlain();
    ApiMethod(EditPath, [])
  }

  /** One POST of `sync`; `ids` is the callback data: the flag rows it settles. */
  datatype EditRequest = EditRequest(url: string, payload: seq<(string, string)>, ids: seq<int>)

  /**
   * The `(item_id, id)` rows of the pending edits with the given ids; a row
   * is `Some`, the padding `split_chunks` adds is `None`.
   */
  function PendingRows(f: map<int, PendingEdit>, ids: seq<int>): (rows: seq<Option<(int, int)>>)
    requires forall i :: 0 <= i < |ids| ==> ids[i] in f
    ensures |rows| == |ids|
    ensures forall i :: 0 <= i < |ids| ==> rows[i] == Some((f[ids[i]].itemId, ids[i]))
  {
    seq(|ids|, i requires 0 <= i < |ids| => Some((f[ids[i]].itemId, ids[i])))
  }

  /** `filter(lambda x: x is not None, chunk)` */
  function Sent(chunk: seq<Option<(int, int)>>): (r: seq<(int, int)>)
    ensures |r| <= |chunk|
  {
    if chunk == [] then []
    else (if chunk[0].Some? then [chunk[0].value] else []) + Sent(chunk[1..])
  }

  /** The `id` half of `zip(*rows)`. */
  function RowIds(rows: seq<(int, int)>): (ids: seq<int>)
    ensures |ids| == |rows|
    ensures forall i :: 0 <= i < |rows| ==> ids[i] == rows[i].1
  {
    seq(|rows|, i requires 0 <= i < |rows| => rows[i].1)
  }

  /** The `i` fields of a payload: one per item id, in order. */
  function ItemFields(rows: seq<(int, int)>): (fields: seq<(string, string)>)
    ensures |fields| == |rows|
    ensures forall i :: 0 <= i < |rows| ==> fields[i] == ("i", IntToString(rows[i].0))
  {
    seq(|rows|, i requires 0 <= i < |rows| => ("i", IntToString(rows[i].0)))
  }

  /** `r` removes the flag, `a` adds it. */
  function Action(remove: bool): string
  {
    if remove then "r" else "a"
  }

  /** The request queued for one chunk. */
  function BatchRequest(url: string, chunk: seq<Option<(int, int)>>, flag: string, remove: bool, token: string): EditRequest
  {
    var rows := Sent(chunk);
    EditRequest(url, ItemFields(rows) + [(Action(remove), flag), ("T", token)], RowIds(rows))
  }

  function Chunks(f: map<int, PendingEdit>, ids: seq<int>): seq<seq<Option<(int, int)>>>
    requires forall i :: 0 <= i < |ids| ==> ids[i] in f
  {
    SplitChunks(PendingRows(f, ids), BatchSize, None)
  }

  /** The pending edits of one combination, as the SELECT lists them. */
  ghost function Selected(f: map<int, PendingEdit>, flag: string, remove: bool): (ids: seq<int>)
    ensures forall i :: 0 <= i < |ids| ==> ids[i] in f
  {
    var ids := SortedIds(Matching(f, flag, remove));
    assert forall i :: 0 <= i < |ids| ==> ids[i] in Matching(f, flag, remove);
    ids
  }

  /** The requests `sync` queues for one (flag, remove) combination. */
  ghost function ComboRequests(f: map<int, PendingEdit>, url: string, flag: string, remove: bool, token: string): seq<EditRequest>
  {
    var chunks := Chunks(f, Selected(f, flag, remove));
    seq(|chunks|, i requires 0 <= i < |chunks| => BatchRequest(url, chunks[i], flag, remove, token))
  }

  /** The requests `sync` queues for the given combinations, in order. */
  ghost function Planned(f: map<int, PendingEdit>, url: string, combos: seq<(string, bool)>, token: string): (r: seq<EditRequest>)
    ensures forall i :: 0 <= i < |r| ==> r[i].url == url
    decreases |combos|
  {
    if combos == [] then []
    else
      var last := combos[|combos| - 1];
      Planned(f, url, combos[..|combos| - 1], token) + ComboRequests(f, url, last.0, last.1, token)
  }

  /** The sum of ceil(k / 250) over the combinations, k the number of their pending edits. */
  ghost function PendingBatches(f: map<int, PendingEdit>, combos: seq<(string, bool)>): nat
    decreases |combos|
  {
    if combos == [] then 0
    else
      var last := combos[|combos| - 1];
      PendingBatches(f, combos[..|combos| - 1]) + CeilDiv(|Matching(f, last.0, last.1)|, BatchSize)
  }

  class Flags {
    const db: Store
    /** `sync_status`: the number of batches in flight. */
    var counter: int

    constructor (db: Store)
      ensures this.db == db && counter == 0
    {
      this.db := db;
      counter := 0;
    }

    /**
     * `sync()`: refused while batches are in flight; otherwise queues every
     * batch, counting them, and reports `sync-done` at once when there
     * was nothing to send.
     */
    method Sync(token: string) returns (started: bool, requests: seq<EditRequest>, syncDone: bool)
      modifies this
      ensures started <==> old(counter) <= 0
      ensures !started ==> requests == [] && !syncDone && counter == old(counter)
      ensures started ==> requests == Planned(db.flags, EditUrl(), Combos(), token)
      ensures started ==> counter == |requests| == PendingBatches(db.flags, Combos())
      ensures started ==> (syncDone <==> counter == 0)
    {
      if counter > 0 {
        return false, [], false;
      }
      counter := 0;
      requests := QueueAll(EditUrl(), Combos(), token);
      PlannedCount(db.flags, EditUrl(), Combos(), token);
      syncDone := counter == 0;
      started := true;
    }

    /** The outer loop of `sync()`: the batches of each combination in turn. */
    method QueueAll(url: string, combos: seq<(string, bool)>, token: string) returns (requests: seq<EditRequest>)
      modifies this
      ensures requests == Planned(db.flags, url, combos, token)
      ensures counter == old(counter) + |requests|
    {
      requests := [];
      var c := 0;
      while c < |combos|
        invariant 0 <= c <= |combos|
        invariant requests == Planned(db.flags, url, combos[..c], token)
        invariant counter == old(counter) + |requests|
      {
        var batch := QueueCombo(url, combos[c].0, combos[c].1, token);
        PlannedStep(db.flags, url, combos, c, token);
        requests := requests + batch;
        c := c + 1;
      }
      assert combos[..c] == combos;
    }

    /** One pass of the outer loop: select the combination's pending edits and queue their batches. */
    method QueueCombo(url: string, flag: string, remove: bool, token: string) returns (batch: seq<EditRequest>)
      modifies this
      ensures batch == ComboRequests(db.flags, url, flag, remove, token)
      ensures counter == old(counter) + |batch|
    {
      var ids := ListIds(Matching(db.flags, flag, remove));
      assert ids == Selected(db.flags, flag, remove);
      batch := [];
      if |ids| != 0 {
        batch := QueueBatches(url, Chunks(db.flags, ids), flag, remove, token);
      } else {
        assert Matching(db.flags, flag, remove) == {};
      }
    }

    /** The inner loop of `sync()`: one request per chunk, each counted. */
    method QueueBatches(url: string, chunks: seq<seq<Option<(int, int)>>>, flag: string, remove: bool, token: string)
      returns (batch: seq<EditRequest>)
      modifies this
      ensures counter == old(counter) + |batch|
      ensures batch == seq(|chunks|, i requires 0 <= i < |chunks| => BatchRequest(url, chunks[i], flag, remove, token))
    {
      batch := [];
      var j := 0;
      while j < |chunks|
        invariant 0 <= j <= |chunks|
        invariant |batch| == j
        invariant forall i :: 0 <= i < j ==> batch[i] == BatchRequest(url, chunks[i], flag, remove, token)
        invariant counter == old(counter) + j
      {
        batch := batch + [BatchRequest(url, chunks[j], flag, remove, token)];
        counter := counter + 1;
        j := j + 1;
      }
    }

    /**
     * `on_response(...)` for the batch that settles `ids`: the counter drops
     * by one and `sync-done` fires when it reaches 0, whatever the status;
     * only a status in 200..399 deletes the batch's pending rows, and only
     * such a response that ends the round commits.
     */
    method OnResponse(status: int, ids: seq<int>) returns (ok: bool, syncDone: bool)
      modifies this, db
      ensures counter == old(counter) - 1
      ensures syncDone <==> counter == 0
      ensures ok <==> 200 <= status < 400
      ensures ok ==> db.flags == DeleteEdits(old(db.flags), ids)
      ensures !ok ==> db.flags == old(db.flags)
      ensures db.items == old(db.items) && db.contents == old(db.contents)
      ensures ok && counter == 0 ==> db.committedItems == db.items && db.committedFlags == db.flags
      ensures !(ok && counter == 0) ==>
        db.committedItems == old(db.committedItems) && db.committedFlags == old(db.committedFlags)
    {
      counter := counter - 1;
      syncDone := counter == 0;
      if !(200 <= status < 400) {
        return false, syncDone;
      }
      db.flags := DeleteEdits(db.flags, ids);
      if counter == 0 {
        db.Commit();
      }
      ok := true;
    }
  }

  lemma PlannedStep(f: map<int, PendingEdit>, url: string, combos: seq<(string, bool)>, c: nat, token: string)
    requires c < |combos|
    ensures Planned(f, url, combos[..c + 1], token) ==
      Planned(f, url, combos[..c], token) + ComboRequests(f, url, combos[c].0, combos[c].1, token)
    ensures Matching(f, combos[c].0, combos[c].1) == {} ==> ComboRequests(f, url, combos[c].0, combos[c].1, token) == []
  {
    assert combos[..c + 1][..c] == combos[..c];
  }

  // -----------------------------------------------------------------------
  // How many batches
  // -----------------------------------------------------------------------

  lemma ComboCount(f: map<int, PendingEdit>, url: string, flag: string, remove: bool, token: string)
    ensures |ComboRequests(f, url, flag, remove, token)| == CeilDiv(|Matching(f, flag, remove)|, BatchSize)
  {
    var ids := Selected(f, flag, remove);
    SplitChunksCount(PendingRows(f, ids), BatchSize, None);
  }

  /**
   * The number of queued requests, which `sync` also leaves in the
   * counter, is the sum of ceil(k / 250) over the combinations.
   */
  lemma {:induction false} PlannedCount(f: map<int, PendingEdit>, url: string, combos: seq<(string, bool)>, token: string)
    ensures |Planned(f, url, combos, token)| == PendingBatches(f, combos)
    decreases |combos|
  {
    if combos != [] {
      var last := combos[|combos| - 1];
      PlannedCount(f, url, combos[..|combos| - 1], token);
      ComboCount(f, url, last.0, last.1, token);
    }
  }

  /** Nothing is queued exactly when no combination has a pending edit. */
  lemma {:induction false} PlannedEmpty(f: map<int, PendingEdit>, url: string, combos: seq<(string, bool)>, token: string)
    ensures Planned(f, url, combos, token) == [] <==>
      forall i :: 0 <= i < |combos| ==> Matching(f, combos[i].0, combos[i].1) == {}
    decreases |combos|
  {
    PlannedCount(f, url, combos, token);
    if combos != [] {
      var init := combos[..|combos| - 1];
      var last := combos[|combos| - 1];
      PlannedEmpty(f, url, init, token);
      PlannedCount(f, url, init, token);
      assert forall i :: 0 <= i < |init| ==> init[i] == combos[i];
      if Matching(f, last.0, last.1) != {} {
        assert |Matching(f, last.0, last.1)| > 0;
      }
    }
  }

  // -----------------------------------------------------------------------
  // What each batch carries
  // -----------------------------------------------------------------------

  lemma {:induction false} SentMembers(chunk: seq<Option<(int, int)>>)
    ensures forall p :: p in Sent(chunk) ==> Some(p) in chunk
    ensures |chunk| > 0 && chunk[0].Some? ==> |Sent(chunk)| > 0
    decreases |chunk|
  {
    if chunk != [] {
      SentMembers(chunk[1..]);
    }
  }

  /**
   * A request as `sync` builds it for (flag, remove): between 1 and 250 ids,
   * each of a pending edit of that flag and direction; the payload lists
   * their item ids in order, then the action `r` or `a` on the flag, then
   * the edit token.
   */
  ghost predicate BatchRequestShaped(r: EditRequest, f: map<int, PendingEdit>, url: string, flag: string, remove: bool, token: string)
  {
    r.url == url &&
      1 <= |r.ids| <= BatchSize &&
      |r.payload| == |r.ids| + 2 &&
      r.payload[|r.ids|] == (if remove then "r" else "a", flag) &&
      r.payload[|r.ids| + 1] == ("T", token) &&
      forall i :: 0 <= i < |r.ids| ==>
        r.ids[i] in f && f[r.ids[i]].flag == flag && f[r.ids[i]].remove == remove &&
        r.payload[i] == ("i", IntToString(f[r.ids[i]].itemId))
  }

  /** The request for one chunk whose first entry is a row and whose rows are all pending edits of the combination. */
  lemma BatchShape(f: map<int, PendingEdit>, url: string, chunk: seq<Option<(int, int)>>, flag: string, remove: bool, token: string)
    requires |chunk| == BatchSize && chunk[0].Some?
    requires forall j :: 0 <= j < |chunk| && chunk[j].Some? ==>
      chunk[j].value.1 in f && f[chunk[j].value.1].flag == flag && f[chunk[j].value.1].remove == remove &&
      chunk[j].value.0 == f[chunk[j].value.1].itemId
    ensures BatchRequestShaped(BatchRequest(url, chunk, flag, remove, token), f, url, flag, remove, token)
  {
    var sent := Sent(chunk);
    SentMembers(chunk);
    forall i | 0 <= i < |sent|
      ensures sent[i].1 in f && f[sent[i].1].flag == flag && f[sent[i].1].remove == remove
      ensures sent[i].0 == f[sent[i].1].itemId
    {
      assert Some(sent[i]) in chunk;
    }
  }

  /**
   * Every batch of a combination holds between 1 and 250 item ids (the
   * `None` padding is never sent), each of a pending edit of that flag and
   * direction; the payload lists their item ids in order, then the action
   * `r` or `a` on the flag, then the edit token.
   */
  lemma ComboShape(f: map<int, PendingEdit>, url: string, flag: string, remove: bool, token: string)
    ensures forall r :: r in ComboRequests(f, url, flag, remove, token) ==>
      BatchRequestShaped(r, f, url, flag, remove, token)
  {
    var ids := Selected(f, flag, remove);
    var rows := PendingRows(f, ids);
    var chunks := Chunks(f, ids);
    var reqs := ComboRequests(f, url, flag, remove, token);
    SplitChunksHeads(rows, BatchSize, None);
    SplitChunksElems(rows, BatchSize, None);
    forall k | 0 <= k < |reqs|
      ensures reqs[k] == BatchRequest(url, chunks[k], flag, remove, token)
    {
    }
    forall k | 0 <= k < |chunks|
      ensures |chunks[k]| == BatchSize && chunks[k][0].Some?
      ensures forall j :: 0 <= j < |chunks[k]| && chunks[k][j].Some? ==>
        chunks[k][j].value.1 in f && f[chunks[k][j].value.1].flag == flag && f[chunks[k][j].value.1].remove == remove &&
        chunks[k][j].value.0 == f[chunks[k][j].value.1].itemId
    {
      var chunk := chunks[k];
      assert chunk[0] in rows;
      forall j | 0 <= j < |chunk| && chunk[j].Some?
        ensures chunk[j].value.1 in f && f[chunk[j].value.1].flag == flag && f[chunk[j].value.1].remove == remove
        ensures chunk[j].value.0 == f[chunk[j].value.1].itemId
      {
        assert chunk[j] in rows;
        var m :| 0 <= m < |rows| && rows[m] == chunk[j];
        assert ids[m] in Matching(f, flag, remove);
      }
    }
    forall k | 0 <= k < |reqs|
      ensures BatchRequestShaped(reqs[k], f, url, flag, remove, token)
    {
      BatchShape(f, url, chunks[k], flag, remove, token);
    }
  }

  // -----------------------------------------------------------------------
  // Which pending edits the batches settle
  // -----------------------------------------------------------------------

  /** The flag-row ids of a run of requests, in order. */
  function Settled(reqs: seq<EditRequest>): seq<int>
    decreases |reqs|
  {
    if reqs == [] then [] else reqs[0].ids + Settled(reqs[1..])
  }

  lemma {:induction false} SentConcat(a: seq<Option<(int, int)>>, b: seq<Option<(int, int)>>)
    ensures Sent(a + b) == Sent(a) + Sent(b)
    decreases |a|
  {
    if a == [] {
      assert a + b == b;
    } else {
      assert (a + b)[0] == a[0] && (a + b)[1..] == a[1..] + b;
      SentConcat(a[1..], b);
    }
  }

  lemma {:induction false} SentPadding(k: nat)
    ensures Sent(Repeat(None, k)) == []
    decreases k
  {
    if k > 0 {
      assert Repeat<Option<(int, int)>>(None, k)[1..] == Repeat(None, k - 1);
      SentPadding(k - 1);
    }
  }

  lemma {:induction false} SentRows(f: map<int, PendingEdit>, ids: seq<int>)
    requires forall i :: 0 <= i < |ids| ==> ids[i] in f
    ensures RowIds(Sent(PendingRows(f, ids))) == ids
    decreases |ids|
  {
    if ids != [] {
      var rows := PendingRows(f, ids);
      assert rows[1..] == PendingRows(f, ids[1..]);
      SentRows(f, ids[1..]);
      assert Sent(rows) == [(f[ids[0]].itemId, ids[0])] + Sent(rows[1..]);
      assert RowIds(Sent(rows)) == [ids[0]] + RowIds(Sent(rows[1..]));
      assert [ids[0]] + ids[1..] == ids;
    }
  }

  lemma RowIdsConcat(a: seq<(int, int)>, b: seq<(int, int)>)
    ensures RowIds(a + b) == RowIds(a) + RowIds(b)
  {
    assert forall i :: 0 <= i < |a| + |b| ==> RowIds(a + b)[i] == (RowIds(a) + RowIds(b))[i];
  }

  lemma {:induction false} SettledChunks(url: string, chunks: seq<seq<Option<(int, int)>>>, flag: string, remove: bool, token: string)
    ensures var reqs := seq(|chunks|, i requires 0 <= i < |chunks| => BatchRequest(url, chunks[i], flag, remove, token));
      Settled(reqs) == RowIds(Sent(Flatten(chunks)))
    decreases |chunks|
  {
    var reqs := seq(|chunks|, i requires 0 <= i < |chunks| => BatchRequest(url, chunks[i], flag, remove, token));
    if chunks != [] {
      var tail := chunks[1..];
      assert reqs[1..] == seq(|tail|, i requires 0 <= i < |tail| => BatchRequest(url, tail[i], flag, remove, token));
      SettledChunks(url, tail, flag, remove, token);
      SentConcat(chunks[0], Flatten(tail));
      RowIdsConcat(Sent(chunks[0]), Sent(Flatten(tail)));
    }
  }

  /**
   * The batches of one combination settle exactly its pending edits, each
   * once, in the order the SELECT returns them.
   */
  lemma ComboCover(f: map<int, PendingEdit>, url: string, flag: string, remove: bool, token: string)
    ensures Settled(ComboRequests(f, url, flag, remove, token)) == SortedIds(Matching(f, flag, remove))
  {
    var ids := Selected(f, flag, remove);
    var rows := PendingRows(f, ids);
    var chunks := Chunks(f, ids);
    SettledChunks(url, chunks, flag, remove, token);
    SplitChunksFlatten(rows, BatchSize, None);
    var k := BatchSize * CeilDiv(|rows|, BatchSize) - |rows|;
    SentConcat(rows, Repeat(None, k));
    SentPadding(k);
    assert Sent(rows) + [] == Sent(rows);
    SentRows(f, ids);
  }

  /** Acknowledging requests one after the other: `DELETE FROM flags WHERE id=?` for each batch. */
  function Acknowledge(f: map<int, PendingEdit>, reqs: seq<EditRequest>): map<int, PendingEdit>
    decreases |reqs|
  {
    if reqs == [] then f else Acknowledge(DeleteEdits(f, reqs[0].ids), reqs[1..])
  }

  lemma {:induction false} AcknowledgeEffect(f: map<int, PendingEdit>, reqs: seq<EditRequest>)
    ensures Acknowledge(f, reqs) == map k | k in f && k !in Settled(reqs) :: f[k]
    decreases |reqs|
  {
    if reqs != [] {
      AcknowledgeEffect(DeleteEdits(f, reqs[0].ids), reqs[1..]);
    }
  }

  lemma {:induction false} SettledAppend(a: seq<EditRequest>, b: seq<EditRequest>)
    ensures Settled(a + b) == Settled(a) + Settled(b)
    decreases |a|
  {
    if a == [] {
      assert a + b == b;
    } else {
      assert (a + b)[1..] == a[1..] + b;
      SettledAppend(a[1..], b);
    }
  }

  lemma {:induction false} PlannedSettles(f: map<int, PendingEdit>, url: string, combos: seq<(string, bool)>, token: string)
    ensures forall k :: k in Settled(Planned(f, url, combos, token)) <==>
      k in f && exists i :: 0 <= i < |combos| && f[k].flag == combos[i].0 && f[k].remove == combos[i].1
    decreases |combos|
  {
    if combos != [] {
      var init := combos[..|combos| - 1];
      var last := combos[|combos| - 1];
      PlannedSettles(f, url, init, token);
      ComboCover(f, url, last.0, last.1, token);
      SettledAppend(Planned(f, url, init, token), ComboRequests(f, url, last.0, last.1, token));
      forall k | k in f && (exists i :: 0 <= i < |combos| && f[k].flag == combos[i].0 && f[k].remove == combos[i].1)
        ensures k in Settled(Planned(f, url, combos, token))
      {
        var i :| 0 <= i < |combos| && f[k].flag == combos[i].0 && f[k].remove == combos[i].1;
        if i < |combos| - 1 {
          assert init[i] == combos[i];
        } else {
          assert k in Matching(f, last.0, last.1);
        }
      }
      forall k | k in Settled(Planned(f, url, combos, token))
        ensures k in f && exists i :: 0 <= i < |combos| && f[k].flag == combos[i].0 && f[k].remove == combos[i].1
      {
        if k in Settled(Planned(f, url, init, token)) {
          var i :| 0 <= i < |init| && f[k].flag == init[i].0 && f[k].remove == init[i].1;
          assert combos[i] == init[i];
        } else {
          assert k in Matching(f, last.0, last.1);
          assert combos[|combos| - 1] == last;
        }
      }
    }
  }

  /**
   * A round whose every batch is acknowledged removes exactly the pending
   * edits of the flags walked through; any other pending row stays.
   */
  lemma RoundDrains(f: map<int, PendingEdit>, url: string, uris: seq<string>, token: string)
    ensures Acknowledge(f, Planned(f, url, Product(uris), token)) ==
      map k | k in f && f[k].flag !in uris :: f[k]
  {
    var combos := Product(uris);
    var reqs := Planned(f, url, combos, token);
    AcknowledgeEffect(f, reqs);
    PlannedSettles(f, url, combos, token);
    forall k | k in f
      ensures k in Settled(reqs) <==> f[k].flag in uris
    {
      if f[k].flag in uris {
        assert (f[k].flag, f[k].remove) in combos;
      }
    }
  }
}

/**
 * The item synchronizer (`Items` in trifle/models/synchronizers.py): it
 * removes the rows marked `to_delete` with their content files, fetches
 * the content of the rows marked `to_sync` in batches of 250 ids, stores
 * what each response carries, and commits when the last batch is in.
 *
 * `sync_status` is a GObject property: every assignment to it notifies
 * `notify::sync-status`, and every `post_sync` handler that `sync` has
 * connected so far runs on that notification. `handlers` counts those
 * connections; the methods return how many `sync-done` signals they emit.
 */
module ItemSync {
  import opened Wrappers
  import opened Utils
  import opened Db
  import opened Normalize

  const BatchSize: nat := 250

  const ContentsPath: string := "stream/items/contents"

  /** The `('', '')` pair that pads the last batch. */
  const Padding: (string, string) := ("", "")

  /** One POST of `sync`: the batch's fields, before `urlencode`. */
  datatype ContentRequest = ContentRequest(url: string, fields: seq<(string, string)>)

  lemma ContentsPathIsPlain()
    ensures IsPlainPath(ContentsPath)
  {
    var p := ContentsPath;
    assert forall i :: 0 <= i < |p| ==> IsSegmentChar(p[i]) || p[i] == '/';
  }

  /** `api_method('stream/items/contents')` */
  function ContentsUrl(): string
  {
    ContentsPathIsPlain();
    ApiMethod(ContentsPath, [])
  }

  /** `(('i', i) for i, in ids)` */
  function IdFields(ids: seq<int>): (fields: seq<(string, string)>)
    ensures |fields| == |ids|
    ensures forall i :: 0 <= i < |ids| ==> fields[i] == ("i", IntToString(ids[i]))
  {
    seq(|ids|, i requires 0 <= i < |ids| => ("i", IntToString(ids[i])))
  }

  /** The requests for the given ids: one per chunk of 250 fields, the last padded. */
  function ContentRequests(url: string, ids: seq<int>): seq<ContentRequest>
  {
    var chunks := SplitChunks(IdFields(ids), BatchSize, Padding);
    seq(|chunks|, i requires 0 <= i < |chunks| => ContentRequest(url, chunks[i]))
  }

  /** The fields of a run of requests, joined. */
  function AllFields(reqs: seq<ContentRequest>): seq<(string, string)>
    decreases |reqs|
  {
    if reqs == [] then [] else reqs[0].fields + AllFields(reqs[1..])
  }

  // -----------------------------------------------------------------------
  // dump_garbage / save_content
  // -----------------------------------------------------------------------

  /**
   * `save_content(i, None)` for each id in turn: an existing file is
   * removed; for a missing one `open(fpath, 'w')` creates it empty and
   * `write(None)` raises, which ends the loop. The flag says whether the
   * loop ran to its end.
   */
  function Evict(contents: map<int, string>, ids: seq<int>): (r: (map<int, string>, bool))
    ensures forall k :: k !in ids ==> (k in r.0 <==> k in contents) && (k in r.0 ==> r.0[k] == contents[k])
    decreases |ids|
  {
    if ids == [] then (contents, true)
    else if ids[0] in contents then Evict(contents - {ids[0]}, ids[1..])
    else (contents[ids[0] := ""], false)
  }

  ghost predicate Distinct(ids: seq<int>)
  {
    forall i, j :: 0 <= i < j < |ids| ==> ids[i] != ids[j]
  }

  /**
   * Garbage collection of distinct ids runs to its end exactly when every
   * id has a content file; it touches no file of another id, and when it
   * runs to its end no file of the ids is left.
   */
  lemma {:induction false} EvictOutcome(contents: map<int, string>, ids: seq<int>)
    requires Distinct(ids)
    ensures var (c, ok) := Evict(contents, ids);
      (ok <==> forall i :: 0 <= i < |ids| ==> ids[i] in contents) &&
      (forall k :: k !in ids ==> (k in c <==> k in contents) && (k in c ==> c[k] == contents[k])) &&
      (ok ==> forall i :: 0 <= i < |ids| ==> ids[i] !in c)
    decreases |ids|
  {
    if ids != [] && ids[0] in contents {
      var rest := ids[1..];
      assert Distinct(rest);
      var c1 := contents - {ids[0]};
      EvictOutcome(c1, rest);
      var (c, ok) := Evict(c1, rest);
      assert forall i :: 0 <= i < |rest| ==> rest[i] != ids[0];
      forall i | 0 <= i < |ids|
        ensures ok ==> ids[i] in contents && ids[i] !in c
      {
        if i > 0 {
          assert ids[i] == rest[i - 1];
        }
      }
      if !ok {
        var j :| 0 <= j < |rest| && rest[j] !in c1;
        assert ids[j + 1] == rest[j];
      }
    }
  }

  /**
   * Garbage collection of `ids` that left `c` stopped at `ids[n]`: that id
   * had no file and is left with an empty one, every id before it has lost
   * its file, and the ids after it keep theirs.
   */
  ghost predicate StoppedAt(contents: map<int, string>, ids: seq<int>, c: map<int, string>, n: int)
  {
    0 <= n < |ids| && ids[n] !in contents && ids[n] in c && c[ids[n]] == "" &&
    (forall i :: 0 <= i < n ==> ids[i] !in c) &&
    (forall i :: n < i < |ids| ==> (ids[i] in c <==> ids[i] in contents))
  }

  /** When garbage collection of distinct ids stops early, it stopped at an id without a file. */
  lemma {:induction false} EvictStop(contents: map<int, string>, ids: seq<int>)
    requires Distinct(ids)
    ensures var (c, ok) := Evict(contents, ids);
      !ok ==> exists n :: StoppedAt(contents, ids, c, n)
    decreases |ids|
  {
    if ids != [] {
      var rest := ids[1..];
      assert Distinct(rest);
      var (c, ok) := Evict(contents, ids);
      if ids[0] in contents {
        var c1 := contents - {ids[0]};
        EvictStop(c1, rest);
        if !ok {
          var n :| StoppedAt(c1, rest, c, n);
          forall i | 0 <= i < |rest| ensures rest[i] != ids[0] && rest[i] == ids[i + 1] {
            assert ids[0] != ids[i + 1];
          }
          assert ids[0] !in c;
          forall i | 0 <= i < n + 1 ensures ids[i] !in c {
            if i > 0 { assert ids[i] == rest[i - 1]; }
          }
          forall i | n + 1 < i < |ids| ensures ids[i] in c <==> ids[i] in contents {
            assert ids[i] == rest[i - 1];
          }
          assert StoppedAt(contents, ids, c, n + 1);
        }
      } else {
        forall i | 0 < i < |ids| ensures ids[i] in c <==> ids[i] in contents {
          assert ids[i] != ids[0];
        }
        assert StoppedAt(contents, ids, c, 0);
      }
    }
  }

  /**
   * `dump_garbage` on a store: no row marked `to_delete` is left, and the
   * collection runs to its end exactly when every such row had a content
   * file, in which case exactly those files are gone.
   */
  lemma GarbageOutcome(m: map<int, Row>, contents: map<int, string>)
    ensures var (c, ok) := Evict(contents, SortedIds(MarkedForDelete(m)));
      (ok <==> MarkedForDelete(m) <= contents.Keys) &&
      (ok ==> c == map k | k in contents && k !in MarkedForDelete(m) :: contents[k])
  {
    var ids := SortedIds(MarkedForDelete(m));
    assert Distinct(ids) by {
      forall i, j | 0 <= i < j < |ids| ensures ids[i] != ids[j] {
        assert ids[i] < ids[j];
      }
    }
    EvictSet(contents, ids, MarkedForDelete(m));
  }

  /** The same outcome for any distinct listing of a set of ids. */
  lemma EvictSet(contents: map<int, string>, ids: seq<int>, s: set<int>)
    requires Distinct(ids)
    requires forall k :: k in ids <==> k in s
    ensures var (c, ok) := Evict(contents, ids);
      (ok <==> s <= contents.Keys) &&
      (ok ==> c == map k | k in contents && k !in s :: contents[k])
  {
    EvictOutcome(contents, ids);
    var (c, ok) := Evict(contents, ids);
    assert ok <==> s <= contents.Keys by {
      if ok {
        forall k | k in s ensures k in contents {
          var i :| 0 <= i < |ids| && ids[i] == k;
        }
      }
    }
    if ok {
      var expected := map k | k in contents && k !in s :: contents[k];
      assert forall k :: k in c ==> k in expected && c[k] == expected[k];
      forall k | k in expected ensures k in c {
        assert k !in ids;
      }
      assert c == expected;
    }
  }

  // -----------------------------------------------------------------------
  // process_response
  // -----------------------------------------------------------------------

  /** `UPDATE items SET title=..., subscription=... WHERE id=:id`: no row, no effect. */
  function SetMetadata(m: map<int, Row>, id: int, meta: Metadata): map<int, Row>
  {
    if id in m then
      m[id := m[id].(title := meta.title, author := meta.author, summary := Some(meta.summary),
                     href := Some(meta.href), time := Some(meta.time), subscription := Some(meta.subscription))]
    else m
  }

  /**
   * The loop of `process_response` over the items of a response: the
   * tables and content after it, and the exception that ended it early.
   */
  function ApplyItems(items: map<int, Row>, contents: map<int, string>, remote: seq<RemoteItem>,
                      escape: string -> string, shortId: string -> int): (r: (map<int, Row>, map<int, string>, Option<ItemError>))
    ensures r.0.Keys == items.Keys
    ensures contents.Keys <= r.1.Keys
    decreases |remote|
  {
    if remote == [] then (items, contents, None)
    else
      var item := remote[0];
      if item.id.None? then (items, contents, Some(KeyError("id")))
      else
        var sid := shortId(item.id.value);
        match ProcessItem(item, escape)
        case Failure(e) => (items, contents, Some(e))
        case Success((meta, content)) =>
          ApplyItems(SetMetadata(items, sid, meta), contents[sid := content], remote[1..], escape, shortId)
  }

  /** The short ids of the items a response carries, where each has an `id`. */
  ghost function ShortIds(remote: seq<RemoteItem>, shortId: string -> int): set<int>
  {
    set i | 0 <= i < |remote| && remote[i].id.Some? :: shortId(remote[i].id.value)
  }

  /**
   * A response leaves every row and every content file it does not name
   * as it was; when no item raises, every item named has content saved.
   */
  lemma {:induction false} ApplyItemsEffect(items: map<int, Row>, contents: map<int, string>, remote: seq<RemoteItem>,
                                            escape: string -> string, shortId: string -> int)
    ensures var (m, c, err) := ApplyItems(items, contents, remote, escape, shortId);
      (forall k :: k in items && k !in ShortIds(remote, shortId) ==> m[k] == items[k]) &&
      (forall k :: k !in ShortIds(remote, shortId) ==> (k in c <==> k in contents) && (k in c ==> c[k] == contents[k])) &&
      (err.None? ==> forall i :: 0 <= i < |remote| ==>
        remote[i].id.Some? && ProcessItem(remote[i], escape).Success? &&
        shortId(remote[i].id.value) in c)
    decreases |remote|
  {
    if remote != [] {
      var item := remote[0];
      if item.id.Some? && ProcessItem(item, escape).Success? {
        var sid := shortId(item.id.value);
        var (meta, content) := ProcessItem(item, escape).value;
        var rest := remote[1..];
        ApplyItemsEffect(SetMetadata(items, sid, meta), contents[sid := content], rest, escape, shortId);
        assert forall k :: k in ShortIds(rest, shortId) ==> k in ShortIds(remote, shortId) by {
          forall k | k in ShortIds(rest, shortId) ensures k in ShortIds(remote, shortId) {
            var i :| 0 <= i < |rest| && rest[i].id.Some? && shortId(rest[i].id.value) == k;
            assert remote[i + 1] == rest[i];
          }
        }
        assert sid in ShortIds(remote, shortId);
        var (m, c, err) := ApplyItems(items, contents, remote, escape, shortId);
        if err.None? {
          forall i | 0 <= i < |remote|
            ensures remote[i].id.Some? && ProcessItem(remote[i], escape).Success? && shortId(remote[i].id.value) in c
          {
            if i > 0 {
              assert remote[i] == rest[i - 1];
            } else {
              assert sid in contents[sid := content];
            }
          }
        }
      }
    }
  }

  /** A response whose first item processes stores that item, then the rest. */
  lemma ApplyItemsStep(items: map<int, Row>, contents: map<int, string>, remote: seq<RemoteItem>,
                       escape: string -> string, shortId: string -> int)
    requires |remote| > 0 && remote[0].id.Some? && ProcessItem(remote[0], escape).Success?
    ensures var sid := shortId(remote[0].id.value);
      var (meta, content) := ProcessItem(remote[0], escape).value;
      ApplyItems(items, contents, remote, escape, shortId) ==
        ApplyItems(SetMetadata(items, sid, meta), contents[sid := content], remote[1..], escape, shortId)
  {
  }

  /**
   * When no item raises, the item that is the last to name a short id
   * decides it: its content is the file saved for that id, and its
   * metadata are the row's metadata columns.
   */
  lemma {:induction false} ApplyItemsLast(items: map<int, Row>, contents: map<int, string>, remote: seq<RemoteItem>,
                                          escape: string -> string, shortId: string -> int, i: nat)
    requires i < |remote| && remote[i].id.Some? && ProcessItem(remote[i], escape).Success?
    requires ApplyItems(items, contents, remote, escape, shortId).2.None?
    requires forall j :: i < j < |remote| && remote[j].id.Some? ==> shortId(remote[j].id.value) != shortId(remote[i].id.value)
    ensures var stored := ApplyItems(items, contents, remote, escape, shortId);
      var sid := shortId(remote[i].id.value);
      var processed := ProcessItem(remote[i], escape).value;
      sid in stored.1 && stored.1[sid] == processed.1 &&
      (sid in items ==> stored.0[sid] == SetMetadata(items, sid, processed.0)[sid])
    decreases |remote|
  {
    if i == 0 {
      ApplyItemsLastHead(items, contents, remote, escape, shortId);
    } else {
      var items1, contents1 := ApplyItemsShift(items, contents, remote, escape, shortId, i);
      ApplyItemsLast(items1, contents1, remote[1..], escape, shortId, i - 1);
    }
  }

  /**
   * The recursive case of ApplyItemsLast: storing the first item keeps the
   * hypotheses about the later item `i`, and leaves its row to be decided
   * in the same way.
   */
  lemma ApplyItemsShift(items: map<int, Row>, contents: map<int, string>, remote: seq<RemoteItem>,
                        escape: string -> string, shortId: string -> int, i: nat)
      returns (items1: map<int, Row>, contents1: map<int, string>)
    requires 0 < i < |remote| && remote[i].id.Some? && ProcessItem(remote[i], escape).Success?
    requires ApplyItems(items, contents, remote, escape, shortId).2.None?
    requires forall j :: i < j < |remote| && remote[j].id.Some? ==> shortId(remote[j].id.value) != shortId(remote[i].id.value)
    ensures ApplyItems(items, contents, remote, escape, shortId) == ApplyItems(items1, contents1, remote[1..], escape, shortId)
    ensures remote[1..][i - 1] == remote[i]
    ensures forall j :: i - 1 < j < |remote[1..]| && remote[1..][j].id.Some? ==>
      shortId(remote[1..][j].id.value) != shortId(remote[i].id.value)
    ensures var sid := shortId(remote[i].id.value);
      var meta := ProcessItem(remote[i], escape).value.0;
      (sid in items1 <==> sid in items) &&
      (sid in items ==> SetMetadata(items1, sid, meta)[sid] == SetMetadata(items, sid, meta)[sid])
  {
    var rest := remote[1..];
    assert remote[0].id.Some? && ProcessItem(remote[0], escape).Success?;
    var sid0 := shortId(remote[0].id.value);
    var first := ProcessItem(remote[0], escape).value;
    items1 := SetMetadata(items, sid0, first.0);
    contents1 := contents[sid0 := first.1];
    ApplyItemsStep(items, contents, remote, escape, shortId);
    assert forall j :: 0 <= j < |rest| ==> rest[j] == remote[j + 1];
  }

  /** The base case of ApplyItemsLast: the first item, when no later item names its short id. */
  lemma ApplyItemsLastHead(items: map<int, Row>, contents: map<int, string>, remote: seq<RemoteItem>,
                           escape: string -> string, shortId: string -> int)
    requires |remote| > 0 && remote[0].id.Some? && ProcessItem(remote[0], escape).Success?
    requires forall j :: 0 < j < |remote| && remote[j].id.Some? ==> shortId(remote[j].id.value) != shortId(remote[0].id.value)
    ensures var stored := ApplyItems(items, contents, remote, escape, shortId);
      var sid := shortId(remote[0].id.value);
      var processed := ProcessItem(remote[0], escape).value;
      sid in stored.1 && stored.1[sid] == processed.1 &&
      (sid in items ==> stored.0[sid] == SetMetadata(items, sid, processed.0)[sid])
  {
    var rest := remote[1..];
    var sid0 := shortId(remote[0].id.value);
    var (meta0, content0) := ProcessItem(remote[0], escape).value;
    var items1 := SetMetadata(items, sid0, meta0);
    var contents1 := contents[sid0 := content0];
    ApplyItemsStep(items, contents, remote, escape, shortId);
    ApplyItemsEffect(items1, contents1, rest, escape, shortId);
    assert forall j :: 0 <= j < |rest| ==> rest[j] == remote[j + 1];
    assert sid0 !in ShortIds(rest, shortId);
  }

  class Items {
    const db: Store
    /** `utils.escape`, which this model does not define. */
    const escape: string -> string
    /** `utils.short_id`, which this model does not define. */
    const shortId: string -> int
    /** `sync_status`: the number of batches in flight. */
    var counter: int
    /** How many times `sync` has connected `post_sync` to `notify::sync-status`. */
    var handlers: nat

    constructor (db: Store, escape: string -> string, shortId: string -> int)
      ensures this.db == db && this.escape == escape && this.shortId == shortId
      ensures counter == 0 && handlers == 0
    {
      this.db := db;
      this.escape := escape;
      this.shortId := shortId;
      counter := 0;
      handlers := 0;
    }

    /**
     * `self.sync_status = v`: the assignment, then the notification, on
     * which each connected `post_sync` commits and emits `sync-done` when
     * the counter is 0.
     */
    method SetCounter(v: int) returns (signals: nat)
      modifies this, db
      ensures counter == v && handlers == old(handlers)
      ensures signals == (if v == 0 then handlers else 0)
      ensures db.items == old(db.items) && db.flags == old(db.flags) && db.contents == old(db.contents)
      ensures signals > 0 ==> db.committedItems == db.items && db.committedFlags == db.flags
      ensures signals == 0 ==> db.committedItems == old(db.committedItems) && db.committedFlags == old(db.committedFlags)
    {
      counter := v;
      signals := 0;
      var h := 0;
      while h < handlers
        invariant 0 <= h <= handlers
        invariant counter == v && handlers == old(handlers)
        invariant signals == (if v == 0 then h else 0)
        invariant db.items == old(db.items) && db.flags == old(db.flags) && db.contents == old(db.contents)
        invariant signals > 0 ==> db.committedItems == db.items && db.committedFlags == db.flags
        invariant signals == 0 ==> db.committedItems == old(db.committedItems) && db.committedFlags == old(db.committedFlags)
      {
        var s := PostSync();
        signals := signals + s;
        h := h + 1;
      }
    }

    /** `post_sync()`: commit and emit `sync-done` only when no batch is in flight. */
    method PostSync() returns (signals: nat)
      modifies db
      ensures signals == (if counter == 0 then 1 else 0)
      ensures db.items == old(db.items) && db.flags == old(db.flags) && db.contents == old(db.contents)
      ensures counter == 0 ==> db.committedItems == db.items && db.committedFlags == db.flags
      ensures counter != 0 ==> db.committedItems == old(db.committedItems) && db.committedFlags == old(db.committedFlags)
    {
      if counter != 0 {
        return 0;
      }
      db.Commit();
      signals := 1;
    }

    /**
     * `save_content(item_id, content)`: `None` removes an existing file;
     * otherwise the file is (re)written, and writing `None` raises after
     * `open` has left an empty file.
     */
    method SaveContent(id: int, content: Option<string>) returns (ok: bool)
      modifies db
      ensures content.None? && id in old(db.contents) ==> ok && db.contents == old(db.contents) - {id}
      ensures content.None? && id !in old(db.contents) ==> !ok && db.contents == old(db.contents)[id := ""]
      ensures content.Some? ==> ok && db.contents == old(db.contents)[id := content.value]
      ensures db.items == old(db.items) && db.flags == old(db.flags)
      ensures db.committedItems == old(db.committedItems) && db.committedFlags == old(db.committedFlags)
    {
      if content.None? && id in db.contents {
        db.contents := db.contents - {id};
        ok := true;
      } else if content.None? {
        db.contents := db.contents[id := ""];
        ok := false;
      } else {
        db.contents := db.contents[id := content.value];
        ok := true;
      }
    }

    /**
     * `dump_garbage()`: the rows marked `to_delete` are deleted, then the
     * content file of each is removed in id order, stopping at the first id
     * without one (`ok` false: the exception propagates).
     */
    method DumpGarbage() returns (ok: bool)
      modifies db
      ensures db.items == DeleteMarked(old(db.items))
      ensures (db.contents, ok) == Evict(old(db.contents), SortedIds(MarkedForDelete(old(db.items))))
      ensures db.flags == old(db.flags)
      ensures db.committedItems == old(db.committedItems) && db.committedFlags == old(db.committedFlags)
    {
      var ids := ListIds(MarkedForDelete(db.items));
      db.items := DeleteMarked(db.items);
      ok := RemoveFiles(ids);
    }

    /** The loop of `dump_garbage()`: `save_content(i, None)` for each id, ending at the first failure. */
    method RemoveFiles(ids: seq<int>) returns (ok: bool)
      modifies db
      ensures (db.contents, ok) == Evict(old(db.contents), ids)
      ensures db.items == old(db.items) && db.flags == old(db.flags)
      ensures db.committedItems == old(db.committedItems) && db.committedFlags == old(db.committedFlags)
    {
      var i := 0;
      while i < |ids|
        invariant 0 <= i <= |ids|
        invariant Evict(db.contents, ids[i..]) == Evict(old(db.contents), ids)
        invariant db.items == old(db.items) && db.flags == old(db.flags)
        invariant db.committedItems == old(db.committedItems) && db.committedFlags == old(db.committedFlags)
      {
        assert ids[i..][1..] == ids[i + 1..];
        var saved := SaveContent(ids[i], None);
        if !saved {
          return false;
        }
        i := i + 1;
      }
      ok := true;
    }

    /**
     * `sync()`: refused while batches are in flight. Otherwise the counter
     * is set to 0 (running the handlers connected so far), garbage is
     * collected (an exception there ends the call: `gcOk` false), and the
     * `to_sync` ids are requested in batches of 250, one count each; with
     * none, `post_sync` runs at once. A call that queued batches connects
     * one more `post_sync` handler.
     */
    method Sync() returns (started: bool, gcOk: bool, requests: seq<ContentRequest>, signals: nat)
      modifies this, db
      ensures started <==> old(counter) <= 0
      ensures !started ==>
        !gcOk && requests == [] && signals == 0 && counter == old(counter) &&
        handlers == old(handlers) && db.items == old(db.items) && db.contents == old(db.contents) &&
        db.committedItems == old(db.committedItems) && db.committedFlags == old(db.committedFlags)
      ensures db.flags == old(db.flags)
      ensures started ==>
        db.items == DeleteMarked(old(db.items)) &&
        (db.contents, gcOk) == Evict(old(db.contents), SortedIds(MarkedForDelete(old(db.items))))
      ensures started && !gcOk ==>
        requests == [] && counter == 0 && handlers == old(handlers) && signals == old(handlers)
      ensures started && gcOk ==>
        requests == ContentRequests(ContentsUrl(), SortedIds(MarkedForSync(db.items))) &&
        counter == |requests| == CeilDiv(|MarkedForSync(db.items)|, BatchSize)
      ensures started && gcOk && requests == [] ==>
        handlers == old(handlers) && signals == old(handlers) + 1 &&
        db.committedItems == db.items && db.committedFlags == db.flags
      ensures started && gcOk && requests != [] ==> handlers == old(handlers) + 1 && signals == old(handlers)
      ensures started && !(gcOk && requests == []) && old(handlers) == 0 ==>
        db.committedItems == old(db.committedItems) && db.committedFlags == old(db.committedFlags)
      ensures started && !(gcOk && requests == []) && old(handlers) > 0 ==>
        db.committedItems == old(db.items) && db.committedFlags == old(db.flags)
    {
      if counter > 0 {
        return false, false, [], 0;
      }
      started := true;
      signals := SetCounter(0);
      var s;
      gcOk, requests, s := CollectAndQueue();
      signals := signals + s;
    }

    /**
     * The rest of `sync()` once the counter is 0: garbage collection, then
     * the batches of the `to_sync` ids, or `post_sync` at once when there
     * are none.
     */
    method CollectAndQueue() returns (gcOk: bool, requests: seq<ContentRequest>, signals: nat)
      requires counter == 0
      modifies this, db
      ensures db.flags == old(db.flags)
      ensures db.items == DeleteMarked(old(db.items)) &&
        (db.contents, gcOk) == Evict(old(db.contents), SortedIds(MarkedForDelete(old(db.items))))
      ensures !gcOk ==> requests == [] && counter == 0 && handlers == old(handlers) && signals == 0
      ensures gcOk ==>
        requests == ContentRequests(ContentsUrl(), SortedIds(MarkedForSync(db.items))) &&
        counter == |requests| == CeilDiv(|MarkedForSync(db.items)|, BatchSize)
      ensures gcOk && requests == [] ==>
        handlers == old(handlers) && signals == 1 &&
        db.committedItems == db.items && db.committedFlags == db.flags
      ensures gcOk && requests != [] ==> handlers == old(handlers) + 1 && signals == 0
      ensures !(gcOk && requests == []) ==>
        db.committedItems == old(db.committedItems) && db.committedFlags == old(db.committedFlags)
    {
      var url := ContentsUrl();
      gcOk := DumpGarbage();
      requests := [];
      signals := 0;
      if !gcOk {
        return;
      }
      var ids := ListIds(MarkedForSync(db.items));
      ContentBatches(url, ids);
      if |ids| == 0 {
        signals := PostSync();
        return;
      }
      requests := QueueBatches(url, ids);
      handlers := handlers + 1;
    }

    /** The loop of `sync()` over the chunks: each request counted as it is queued. */
    method QueueBatches(url: string, ids: seq<int>) returns (requests: seq<ContentRequest>)
      requires counter == 0 && |ids| > 0
      modifies this, db
      ensures requests == ContentRequests(url, ids) && requests != []
      ensures counter == |requests| && handlers == old(handlers)
      ensures db.items == old(db.items) && db.flags == old(db.flags) && db.contents == old(db.contents)
      ensures db.committedItems == old(db.committedItems) && db.committedFlags == old(db.committedFlags)
    {
      var chunks := SplitChunks(IdFields(ids), BatchSize, Padding);
      requests := [];
      var j := 0;
      while j < |chunks|
        invariant 0 <= j <= |chunks|
        invariant counter == j && handlers == old(handlers)
        invariant |requests| == j
        invariant forall i :: 0 <= i < j ==> requests[i] == ContentRequest(url, chunks[i])
        invariant db.items == old(db.items) && db.flags == old(db.flags) && db.contents == old(db.contents)
        invariant db.committedItems == old(db.committedItems) && db.committedFlags == old(db.committedFlags)
      {
        var s := SetCounter(counter + 1);
        requests := requests + [ContentRequest(url, chunks[j])];
        j := j + 1;
      }
      SplitChunksCount(IdFields(ids), BatchSize, Padding);
    }

    /**
     * `process_response(...)`: with a status in 200..399 each item's row
     * metadata and content are stored in turn; an item that raises ends the
     * call before the counter is decremented. Otherwise the counter drops
     * by one, whatever the status, and the handlers run.
     */
    method ProcessResponse(status: int, remote: seq<RemoteItem>) returns (raised: Option<ItemError>, signals: nat)
      modifies this, db
      ensures handlers == old(handlers) && db.flags == old(db.flags)
      ensures !(200 <= status < 400) ==>
        raised.None? && db.items == old(db.items) && db.contents == old(db.contents)
      ensures 200 <= status < 400 ==>
        (db.items, db.contents, raised) == ApplyItems(old(db.items), old(db.contents), remote, escape, shortId)
      ensures raised.Some? ==>
        counter == old(counter) && signals == 0 &&
        db.committedItems == old(db.committedItems) && db.committedFlags == old(db.committedFlags)
      ensures raised.None? ==> counter == old(counter) - 1 && signals == (if counter == 0 then handlers else 0)
      ensures raised.None? && signals > 0 ==> db.committedItems == db.items && db.committedFlags == db.flags
      ensures signals == 0 ==> db.committedItems == old(db.committedItems) && db.committedFlags == old(db.committedFlags)
    {
      raised := None;
      if 200 <= status < 400 {
        var i := 0;
        while i < |remote|
          invariant 0 <= i <= |remote|
          invariant ApplyItems(db.items, db.contents, remote[i..], escape, shortId) ==
            ApplyItems(old(db.items), old(db.contents), remote, escape, shortId)
          invariant counter == old(counter) && handlers == old(handlers) && db.flags == old(db.flags)
          invariant db.committedItems == old(db.committedItems) && db.committedFlags == old(db.committedFlags)
        {
          var item := remote[i];
          assert remote[i..][0] == item && remote[i..][1..] == remote[i + 1..];
          if item.id.None? {
            return Some(KeyError("id")), 0;
          }
          var sid := shortId(item.id.value);
          var processed := ProcessItem(item, escape);
          if processed.Failure? {
            return Some(processed.error), 0;
          }
          var (meta, content) := processed.value;
          var saved := SaveContent(sid, Some(content));
          db.items := SetMetadata(db.items, sid, meta);
          i := i + 1;
        }
      }
      signals := SetCounter(counter - 1);
    }
  }

  // -----------------------------------------------------------------------
  // What the batches carry
  // -----------------------------------------------------------------------

  lemma {:induction false} AllFieldsOf(url: string, chunks: seq<seq<(string, string)>>)
    ensures AllFields(seq(|chunks|, i requires 0 <= i < |chunks| => ContentRequest(url, chunks[i]))) == Flatten(chunks)
    decreases |chunks|
  {
    if chunks != [] {
      var tail := chunks[1..];
      var reqs := seq(|chunks|, i requires 0 <= i < |chunks| => ContentRequest(url, chunks[i]));
      assert reqs[1..] == seq(|tail|, i requires 0 <= i < |tail| => ContentRequest(url, tail[i]));
      AllFieldsOf(url, tail);
    }
  }

  /**
   * There are ceil(n/250) batches of exactly 250 fields for n ids; joined,
   * they are one `i` field per id, in order, then `('', '')` padding.
   */
  lemma ContentBatches(url: string, ids: seq<int>)
    ensures var reqs := ContentRequests(url, ids);
      |reqs| == CeilDiv(|ids|, BatchSize) &&
      (forall r :: r in reqs ==> r.url == url && |r.fields| == BatchSize) &&
      AllFields(reqs) == IdFields(ids) + Repeat(Padding, BatchSize * CeilDiv(|ids|, BatchSize) - |ids|)
  {
    var chunks := SplitChunks(IdFields(ids), BatchSize, Padding);
    SplitChunksCount(IdFields(ids), BatchSize, Padding);
    SplitChunksFlatten(IdFields(ids), BatchSize, Padding);
    AllFieldsOf(url, chunks);
  }
}

/**
 * The local store the synchronizers share: the `items` table, the `flags`
 * table of pending edits (keyed by its `id` column), the content directory
 * (one file per item id) and the last committed state of the two tables.
 * Each function below gives the row effect of one SQL statement the
 * synchronizers run; `executemany` applies its statement once per
 * parameter row, in order.
 */
module Db {
  import opened Wrappers

  /** One row of the `items` table; NULL columns are `None`. */
  datatype Row = Row(
    title: Option<string>,
    author: Option<string>,
    summary: Option<string>,
    href: Option<string>,
    time: Option<int>,
    subscription: Option<string>,
    unread: bool,
    starred: bool,
    toDelete: bool,
    toSync: bool,
    updateTime: Option<int>)

  /** One row of the `flags` table: a flag change not yet acknowledged. */
  datatype PendingEdit = PendingEdit(itemId: int, flag: string, remove: bool)

  /** The id and `timestampUsec` of one entry of an `itemRefs` list. */
  datatype ItemRef = ItemRef(id: int, timestampUsec: int)

  /** The two flag columns the id synchronizer sets. */
  datatype FlagColumn = Unread | Starred

  class Store {
    /** The row `INSERT INTO items(id)` creates: the schema's column defaults. */
    const defaultRow: Row
    var items: map<int, Row>
    var flags: map<int, PendingEdit>
    var contents: map<int, string>
    var committedItems: map<int, Row>
    var committedFlags: map<int, PendingEdit>

    constructor (defaultRow: Row, items: map<int, Row>, flags: map<int, PendingEdit>, contents: map<int, string>)
      ensures this.defaultRow == defaultRow
      ensures this.items == items && this.flags == flags && this.contents == contents
      ensures committedItems == items && committedFlags == flags
    {
      this.defaultRow := defaultRow;
      this.items := items;
      this.flags := flags;
      this.contents := contents;
      committedItems := items;
      committedFlags := flags;
    }

    /** `connection.commit()`: the current tables become the committed ones. */
    method Commit()
      modifies this
      ensures committedItems == items && committedFlags == flags
      ensures items == old(items) && flags == old(flags) && contents == old(contents)
    {
      committedItems := items;
      committedFlags := flags;
    }
  }

  // -----------------------------------------------------------------------
  // Row effects of the statements on `items`
  // -----------------------------------------------------------------------

  /** `UPDATE items SET to_delete=1, unread=0, starred=0, to_sync=0` */
  function ResetAll(m: map<int, Row>): map<int, Row>
  {
    map k | k in m :: m[k].(toDelete := true, unread := false, starred := false, toSync := false)
  }

  /** `INSERT OR IGNORE INTO items(id) VALUES(?)` for each id. */
  function InsertOrIgnore(m: map<int, Row>, ids: seq<int>, defaultRow: Row): map<int, Row>
  {
    map k | k in m.Keys + (set i | i in ids) :: if k in m then m[k] else defaultRow
  }

  /** `UPDATE items SET to_delete=0 WHERE id=?` for each id. */
  function ClearToDelete(m: map<int, Row>, ids: seq<int>): map<int, Row>
  {
    map k | k in m :: if k in ids then m[k].(toDelete := false) else m[k]
  }

  /** `UPDATE items SET {flag}=1 WHERE id=?` for each id. */
  function SetFlag(m: map<int, Row>, column: FlagColumn, ids: seq<int>): map<int, Row>
  {
    map k | k in m ::
      if k !in ids then m[k]
      else if column == Unread then m[k].(unread := true)
      else m[k].(starred := true)
  }

  /** SQL `a < b`: false when either side is NULL. */
  predicate LessThan(a: Option<int>, b: int)
  {
    a.Some? && a.value < b
  }

  /**
   * `UPDATE items SET to_sync=1, update_time=:update_time
   *  WHERE id=:id AND update_time<:update_time` for one item reference.
   */
  function SetSyncFlag(m: map<int, Row>, r: ItemRef): map<int, Row>
  {
    if r.id in m && LessThan(m[r.id].updateTime, r.timestampUsec)
    then m[r.id := m[r.id].(toSync := true, updateTime := Some(r.timestampUsec))]
    else m
  }

  /** The same statement through `executemany`, one reference after the other. */
  function SetSyncFlags(m: map<int, Row>, refs: seq<ItemRef>): map<int, Row>
    decreases |refs|
  {
    if refs == [] then m else SetSyncFlags(SetSyncFlag(m, refs[0]), refs[1..])
  }

  /** `DELETE FROM items WHERE to_delete=1` */
  function DeleteMarked(m: map<int, Row>): (r: map<int, Row>)
    ensures r.Keys == m.Keys - MarkedForDelete(m)
    ensures forall k :: k in r ==> !r[k].toDelete && r[k] == m[k]
  {
    map k | k in m && !m[k].toDelete :: m[k]
  }

  /** The ids `SELECT id FROM items WHERE to_delete=1` returns. */
  function MarkedForDelete(m: map<int, Row>): set<int>
  {
    set k | k in m && m[k].toDelete
  }

  /** The ids `SELECT id FROM items WHERE to_sync=1` returns. */
  function MarkedForSync(m: map<int, Row>): set<int>
  {
    set k | k in m && m[k].toSync
  }

  // -----------------------------------------------------------------------
  // Row effects of the statements on `flags`
  // -----------------------------------------------------------------------

  /** `DELETE FROM flags WHERE id=?` for each id. */
  function DeleteEdits(f: map<int, PendingEdit>, ids: seq<int>): map<int, PendingEdit>
  {
    map k | k in f && k !in ids :: f[k]
  }

  /** The ids of the rows `SELECT ... FROM flags WHERE flag=? AND remove=?` returns. */
  function Matching(f: map<int, PendingEdit>, flag: string, remove: bool): set<int>
  {
    set k | k in f && f[k].flag == flag && f[k].remove == remove
  }

  // -----------------------------------------------------------------------
  // Result order of a SELECT: ascending id, the order a scan of the table
  // by its integer key returns.
  // -----------------------------------------------------------------------

  ghost predicate Increasing(s: seq<int>)
  {
    forall i, j :: 0 <= i < j < |s| ==> s[i] < s[j]
  }

  predicate IsLeast(m: int, s: set<int>)
  {
    m in s && forall x :: x in s ==> m <= x
  }

  lemma LeastExists(s: set<int>)
    requires s != {}
    ensures exists m :: IsLeast(m, s)
    decreases |s|
  {
    if forall y :: y !in s {
      assert false;
    }
    var y :| y in s;
    if s != {y} {
      var t := s - {y};
      assert t != {} by { assert t == {} ==> s == {y}; }
      LeastExists(t);
      var m :| IsLeast(m, t);
      if y < m {
        forall x | x in s ensures y <= x {
          if x != y { assert x in t; }
        }
        assert IsLeast(y, s);
      } else {
        forall x | x in s ensures m <= x {
          if x != y { assert x in t; }
        }
        assert IsLeast(m, s);
      }
    } else {
      assert IsLeast(y, s);
    }
  }

  /** The elements of s in ascending order. */
  ghost function SortedIds(s: set<int>): (r: seq<int>)
    ensures |r| == |s|
    ensures forall x :: x in s <==> x in r
    ensures Increasing(r)
    decreases |s|
  {
    if s == {} then []
    else
      LeastExists(s);
      var m :| IsLeast(m, s);
      [m] + SortedIds(s - {m})
  }

  lemma SortedIdsUnfold(s: set<int>, m: int)
    requires IsLeast(m, s)
    ensures SortedIds(s) == [m] + SortedIds(s - {m})
  {
    var sorted := SortedIds(s);
    assert sorted[0] == m by {
      assert sorted[0] in s;
      assert m in sorted;
    }
  }

  lemma ListStep(r: seq<int>, rest: set<int>, m: int)
    requires IsLeast(m, rest)
    ensures r + SortedIds(rest) == (r + [m]) + SortedIds(rest - {m})
    ensures |rest - {m}| < |rest|
  {
    SortedIdsUnfold(rest, m);
  }

  /** Lists the elements of s in ascending order. */
  method ListIds(s: set<int>) returns (r: seq<int>)
    ensures r == SortedIds(s)
  {
    r := [];
    var rest := s;
    while rest != {}
      invariant r + SortedIds(rest) == SortedIds(s)
      decreases |rest|
    {
      LeastExists(rest);
      var m :| IsLeast(m, rest);
      ListStep(r, rest, m);
      r := r + [m];
      rest := rest - {m};
    }
  }
}

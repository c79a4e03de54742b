/**
 * `items.sort((a, b) => a.timestamp - b.timestamp)`, the ordering step of
 * `processSyncQueue` (js/db.js) and `loadChatMessages` (js/live-class.js).
 * `Array.prototype.sort` is stable, so it is modelled as a stable insertion
 * sort on the timestamp.
 */
module TimestampSort {
  import opened Keys
  import opened IndexedDb

  /** `record.timestamp`; records of a shape that has none compare as 0. */
  function TimestampOf(r: Record): int {
    if r.SyncItem? || r.ChatMessage? then r.timestamp else 0
  }

  /** Puts `x` in front of the first record whose timestamp is not smaller. */
  function Insert(x: Record, t: seq<Record>): (r: seq<Record>)
    ensures |r| == |t| + 1
  {
    if t == [] then [x]
    else if TimestampOf(x) <= TimestampOf(t[0]) then [x] + t
    else [t[0]] + Insert(x, t[1..])
  }

  /** Inserting adds `x` and loses nothing. */
  lemma {:induction false} InsertPermutes(x: Record, t: seq<Record>)
    ensures multiset(Insert(x, t)) == multiset(t) + multiset{x}
  {
    if t != [] && TimestampOf(x) > TimestampOf(t[0]) {
      InsertPermutes(x, t[1..]);
      calc {
        multiset(Insert(x, t));
        multiset([t[0]] + Insert(x, t[1..]));
        multiset([t[0]]) + multiset(Insert(x, t[1..]));
        multiset([t[0]]) + multiset(t[1..]) + multiset{x};
        { assert t == [t[0]] + t[1..]; }
        multiset(t) + multiset{x};
      }
    }
  }

  function SortByTimestamp(s: seq<Record>): (r: seq<Record>)
    ensures |r| == |s|
    ensures multiset(r) == multiset(s)
  {
    if s == [] then []
    else
      assert s == [s[0]] + s[1..];
      InsertPermutes(s[0], SortByTimestamp(s[1..]));
      Insert(s[0], SortByTimestamp(s[1..]))
  }

  predicate Ascending(s: seq<Record>) {
    forall i, j :: 0 <= i < j < |s| ==> TimestampOf(s[i]) <= TimestampOf(s[j])
  }

  lemma {:induction false} InsertAscending(x: Record, t: seq<Record>)
    requires Ascending(t)
    ensures Ascending(Insert(x, t))
  {
    if t != [] && TimestampOf(x) > TimestampOf(t[0]) {
      InsertAscending(x, t[1..]);
      var r := Insert(x, t[1..]);
      InsertPermutes(x, t[1..]);
      forall y | y in r
        ensures TimestampOf(t[0]) <= TimestampOf(y)
      {
        assert y in multiset(r);
      }
    }
  }

  /** The sorted records are in ascending timestamp order. */
  lemma {:induction false} SortAscending(s: seq<Record>)
    ensures Ascending(SortByTimestamp(s))
  {
    if s != [] {
      SortAscending(s[1..]);
      InsertAscending(s[0], SortByTimestamp(s[1..]));
    }
  }

  /** The records of `s` whose timestamp is `t`, in their order in `s`. */
  function WithTimestamp(s: seq<Record>, t: int): seq<Record> {
    if s == [] then []
    else Tagged(s[0], t) + WithTimestamp(s[1..], t)
  }

  lemma WithTimestampCons(a: Record, u: seq<Record>, t: int)
    ensures WithTimestamp([a] + u, t) == Tagged(a, t) + WithTimestamp(u, t)
  {
    assert ([a] + u)[0] == a && ([a] + u)[1..] == u;
  }

  lemma {:induction false} InsertWithTimestamp(x: Record, u: seq<Record>, t: int)
    ensures WithTimestamp(Insert(x, u), t) == Tagged(x, t) + WithTimestamp(u, t)
  {
    if u == [] {
      WithTimestampCons(x, [], t);
    } else if TimestampOf(x) <= TimestampOf(u[0]) {
      WithTimestampCons(x, u, t);
    } else {
      InsertWithTimestamp(x, u[1..], t);
      ConsTagged(u[0], x, Insert(x, u[1..]), u[1..], t);
      assert [u[0]] + u[1..] == u;
    }
  }

  /** Putting `a` in front of two lists keeps their selections related when `x` and `a` differ in timestamp. */
  lemma ConsTagged(a: Record, x: Record, rest: seq<Record>, u: seq<Record>, t: int)
    requires TimestampOf(a) != TimestampOf(x)
    requires WithTimestamp(rest, t) == Tagged(x, t) + WithTimestamp(u, t)
    ensures WithTimestamp([a] + rest, t) == Tagged(x, t) + WithTimestamp([a] + u, t)
  {
    WithTimestampCons(a, rest, t);
    WithTimestampCons(a, u, t);
    assert Tagged(a, t) == [] || Tagged(x, t) == [];
  }

  /** `[r]` when `r` has timestamp `t`, else nothing. */
  function Tagged(r: Record, t: int): seq<Record> {
    if TimestampOf(r) == t then [r] else []
  }

  /** Stability: records with equal timestamps keep their relative order. */
  lemma {:induction false} SortStable(s: seq<Record>, t: int)
    ensures WithTimestamp(SortByTimestamp(s), t) == WithTimestamp(s, t)
  {
    if s != [] {
      SortStable(s[1..], t);
      InsertWithTimestamp(s[0], SortByTimestamp(s[1..]), t);
    }
  }

  /** Processing order: oldest timestamp first, equal timestamps by ascending key. */
  predicate Before(a: Record, b: Record) {
    TimestampOf(a) < TimestampOf(b) || (TimestampOf(a) == TimestampOf(b) && Less(a.id, b.id))
  }

  predicate InDrainOrder(s: seq<Record>) {
    forall i, j :: 0 <= i < j < |s| ==> Before(s[i], s[j])
  }

  lemma BeforeTransitive(a: Record, b: Record, c: Record)
    requires Before(a, b) && Before(b, c)
    ensures Before(a, c)
  {
    if TimestampOf(a) == TimestampOf(b) == TimestampOf(c) {
      LessTransitive(a.id, b.id, c.id);
    }
  }

  lemma {:induction false} InsertInDrainOrder(x: Record, t: seq<Record>)
    requires InDrainOrder(t)
    requires forall y :: y in t ==> Less(x.id, y.id)
    ensures InDrainOrder(Insert(x, t))
  {
    if t != [] {
      if TimestampOf(x) <= TimestampOf(t[0]) {
        var r := [x] + t;
        forall j | 0 < j < |r|
          ensures Before(x, r[j])
        {
          assert t[j - 1] in t;
          if j > 1 {
            BeforeTransitive(x, t[0], t[j - 1]);
          }
        }
      } else {
        InsertInDrainOrder(x, t[1..]);
        var r := Insert(x, t[1..]);
        InsertPermutes(x, t[1..]);
        forall y | y in r
          ensures Before(t[0], y)
        {
          assert y in multiset(r);
        }
      }
    }
  }

  /**
   * Sorting a listing that is in ascending key order (what `getAll()` returns)
   * gives the oldest-first order with ties in key order.
   */
  lemma {:induction false} SortOfKeySorted(s: seq<Record>)
    requires KeySorted(s)
    ensures InDrainOrder(SortByTimestamp(s))
  {
    if s != [] {
      SortOfKeySorted(s[1..]);
      var u := SortByTimestamp(s[1..]);
      forall y | y in u
        ensures Less(s[0].id, y.id)
      {
        assert y in multiset(u);
        var j :| 0 <= j < |s[1..]| && s[1..][j] == y;
        assert s[j + 1] == y;
      }
      InsertInDrainOrder(s[0], u);
    }
  }

  /** Sorting a listing of a store still lists that store. */
  lemma SortEnumerates(store: Store, s: seq<Record>)
    requires Enumerates(store, s)
    ensures Enumerates(store, SortByTimestamp(s))
  {
    var r := SortByTimestamp(s);
    forall i | 0 <= i < |r|
      ensures r[i].id in store && store[r[i].id] == r[i]
    {
      assert r[i] in multiset(s);
    }
    forall k | k in store
      ensures store[k] in r
    {
      assert store[k] in multiset(s);
    }
  }
}

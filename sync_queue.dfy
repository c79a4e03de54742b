/**
 * The sync queue of js/db.js: `addToSyncQueue` and one `processSyncQueue`
 * pass. The three senders (`syncQuizData`, `syncAssignmentData`,
 * `syncForumData`) are abstract: a `Handlers` value says, for each queued
 * item by its key, whether that sender resolves (true) or rejects (false)
 * when the pass reaches the item. Each item is sent at most once in a pass,
 * so two items with the same payload can meet different outcomes (the
 * network may drop between them).
 */
module SyncQueue {
  import opened Common
  import opened Keys
  import opened IndexedDb
  import opened TimestampSort

  /** An item is dropped once its saved attempt count reaches this. */
  const MAX_ATTEMPTS := 5

  const QUIZ := "quiz"
  const ASSIGNMENT := "assignment"
  const FORUM := "forum"

  datatype Handlers = Handlers(quiz: Key -> bool, assignment: Key -> bool, forum: Key -> bool)

  /** The senders as the source writes them: each resolves after a delay, whatever the item. */
  const SOURCE_HANDLERS := Handlers((k: Key) => true, (k: Key) => true, (k: Key) => true)

  /** `item.syncType` names one of the three senders. */
  predicate HasHandler(r: Record) {
    r.SyncItem? && (r.syncType == QUIZ || r.syncType == ASSIGNMENT || r.syncType == FORUM)
  }

  /**
   * The `switch` completes without throwing: the sender resolves, or the type
   * is unknown (a warning, then the item counts as synced). A record that is
   * not a sync item has no `syncType` and takes the default branch too.
   */
  predicate Delivered(r: Record, h: Handlers) {
    if !HasHandler(r) then true
    else if r.syncType == QUIZ then h.quiz(r.id)
    else if r.syncType == ASSIGNMENT then h.assignment(r.id)
    else h.forum(r.id)
  }

  /** `item.attempts += 1`. */
  function Bumped(r: Record): (b: Record)
    ensures b.id == r.id
    ensures r.SyncItem? ==> b.SyncItem? && b.attempts == r.attempts + 1
                            && b.syncType == r.syncType && b.data == r.data && b.timestamp == r.timestamp
    ensures !r.SyncItem? ==> b == r
  {
    if r.SyncItem? then r.(attempts := r.attempts + 1) else r
  }

  /** The item stays queued: its sender rejected and the bumped count is still below 5. */
  predicate Kept(r: Record, h: Handlers) {
    !Delivered(r, h) && r.SyncItem? && r.attempts + 1 < MAX_ATTEMPTS
  }

  /** The queue after one full pass over every item of `q`. */
  function AfterPass(q: Store, h: Handlers): Store {
    map k | k in q && Kept(q[k], h) :: Bumped(q[k])
  }

  /**
   * Two quiz submissions with the same payload, queued under keys 1 and 2:
   * the network serves the first and drops before the second, so one pass
   * removes the first and keeps the second with one more attempt.
   */
  lemma SamePayloadDifferentFates()
    ensures var h := Handlers((k: Key) => k == Num(1), (k: Key) => true, (k: Key) => true);
            var a, b := SyncItem(Num(1), QUIZ, "answers", 0, 0), SyncItem(Num(2), QUIZ, "answers", 0, 0);
            Delivered(a, h) && !Delivered(b, h)
            && AfterPass(map[Num(1) := a, Num(2) := b], h) == map[Num(2) := b.(attempts := 1)]
  {
    var h := Handlers((k: Key) => k == Num(1), (k: Key) => true, (k: Key) => true);
    var a, b := SyncItem(Num(1), QUIZ, "answers", 0, 0), SyncItem(Num(2), QUIZ, "answers", 0, 0);
    var q := map[Num(1) := a, Num(2) := b];
    assert !Kept(a, h) && Kept(b, h);
    assert AfterPass(q, h).Keys == {Num(2)};
  }

  /** What processing item `x` does to the queue `m`. */
  function ItemEffect(m: Store, x: Record, h: Handlers): Store {
    if Kept(x, h) then m[x.id := Bumped(x)] else m - {x.id}
  }

  /** The queue after the items whose keys are in `done` have been processed. */
  function PartialPass(q: Store, done: set<Key>, h: Handlers): Store {
    map k | k in q && (k !in done || Kept(q[k], h)) :: if k in done then Bumped(q[k]) else q[k]
  }

  /** What the pass does, in order: saves, sender calls and deletions. */
  datatype Step = Save(record: Record) | Send(record: Record) | Remove(key: Key)

  function ItemSteps(x: Record, h: Handlers): seq<Step> {
    [Save(Bumped(x))]
    + (if HasHandler(x) then [Send(Bumped(x))] else [])
    + (if Kept(x, h) then [] else [Remove(x.id)])
  }

  function PassTrace(s: seq<Record>, h: Handlers): seq<Step> {
    if s == [] then [] else PassTrace(s[..|s| - 1], h) + ItemSteps(s[|s| - 1], h)
  }

  lemma ReplaceTwice(stores: map<string, Store>, a: Store, b: Store)
    ensures stores[SYNC_QUEUE := a][SYNC_QUEUE := b] == stores[SYNC_QUEUE := b]
  {
  }

  lemma PassTraceSnoc(s: seq<Record>, i: int, h: Handlers)
    requires 0 <= i < |s|
    ensures PassTrace(s[..i + 1], h) == PassTrace(s[..i], h) + ItemSteps(s[i], h)
  {
    assert s[..i + 1][..i] == s[..i];
  }

  lemma PartialPassStep(q: Store, done: set<Key>, h: Handlers, x: Record)
    requires x.id in q && q[x.id] == x && x.id !in done
    ensures PartialPass(q, done + {x.id}, h) == ItemEffect(PartialPass(q, done, h), x, h)
  {
    var before := PartialPass(q, done, h);
    var after := PartialPass(q, done + {x.id}, h);
    var expected := if Kept(x, h) then before[x.id := Bumped(x)] else before - {x.id};
    assert after.Keys == expected.Keys;
    forall k | k in after
      ensures after[k] == expected[k]
    {
    }
  }

  /** Distinct queue items have distinct keys once they are in drain order. */
  lemma DrainOrderDistinct(q: Store, s: seq<Record>, i: int, j: int)
    requires KeyedById(q) && Enumerates(q, s) && InDrainOrder(s)
    requires 0 <= i < j < |s|
    ensures s[i].id != s[j].id
  {
    if s[i].id == s[j].id {
      assert s[i] == q[s[i].id] == s[j];
      LessIrreflexive(s[i].id);
    }
  }

  /**
   * `addToSyncQueue(syncType, data)` at time `now`: a new item with no
   * attempts yet, under a key the generator hands out and no queue item has.
   */
  method AddToSyncQueue(db: Database, syncType: string, data: Payload, now: int) returns (res: Result<Key>)
    requires db.Valid()
    modifies db
    ensures db.Valid()
    ensures !db.supported ==> res == Failure(Unsupported) && unchanged(db)
    ensures db.supported ==>
              var k := Num(old(db.OpenedNextId()));
              && res == Success(k)
              && k !in old(db.Opened())[SYNC_QUEUE]
              && db.stores == old(db.Opened())[SYNC_QUEUE := old(db.Opened())[SYNC_QUEUE][k := SyncItem(k, syncType, data, now, 0)]]
              && db.nextId == old(db.OpenedNextId()) + 1
  {
    res := db.PutNew(SYNC_QUEUE, SyncItem(Num(0), syncType, data, now, 0));
  }

  lemma PartialPassBounds(q: Store, h: Handlers)
    ensures PartialPass(q, {}, h) == q
    ensures PartialPass(q, q.Keys, h) == AfterPass(q, h)
  {
  }

  /**
   * One iteration of the `for` loop of `processSyncQueue` on `item`: save it
   * with one attempt more, call its sender, delete it unless it is kept.
   * In the model neither store call can reject once the queue is listed.
   */
  method ProcessItem(db: Database, item: Record, h: Handlers) returns (steps: seq<Step>)
    requires db.Valid() && db.supported && db.version == DB_VERSION
    requires SYNC_QUEUE in db.stores && item.id in db.stores[SYNC_QUEUE]
    modifies db
    ensures db.Valid() && db.version == DB_VERSION && db.nextId == old(db.nextId)
    ensures steps == ItemSteps(item, h)
    ensures db.stores == old(db.stores)[SYNC_QUEUE := ItemEffect(old(db.stores)[SYNC_QUEUE], item, h)]
  {
    var bumped := Bumped(item);
    var _ := db.Put(SYNC_QUEUE, bumped);
    steps := [Save(bumped)];
    var delivered := true;
    if HasHandler(item) {
      delivered := Delivered(item, h);
      steps := steps + [Send(bumped)];
    }
    if delivered || bumped.attempts >= MAX_ATTEMPTS {
      var _ := db.Delete(SYNC_QUEUE, item.id);
      steps := steps + [Remove(item.id)];
      assert old(db.stores)[SYNC_QUEUE][item.id := bumped] - {item.id} == old(db.stores)[SYNC_QUEUE] - {item.id};
    }
  }

  /** Processing the `i`th item of the listing moves exactly its key into `done`. */
  lemma Advance(q: Store, order: seq<Record>, h: Handlers, i: int, done: set<Key>)
    requires KeyedById(q) && Enumerates(q, order) && InDrainOrder(order) && 0 <= i < |order|
    requires forall j :: 0 <= j < i ==> order[j].id in done
    requires forall j :: i <= j < |order| ==> order[j].id !in done
    requires done <= q.Keys
    ensures order[i].id in q && q[order[i].id] == order[i]
    ensures order[i].id in PartialPass(q, done, h)
    ensures forall j :: 0 <= j < i + 1 ==> order[j].id in done + {order[i].id}
    ensures forall j :: i + 1 <= j < |order| ==> order[j].id !in done + {order[i].id}
    ensures done + {order[i].id} <= q.Keys
    ensures PartialPass(q, done + {order[i].id}, h) == ItemEffect(PartialPass(q, done, h), order[i], h)
  {
    var item := order[i];
    PartialPassStep(q, done, h, item);
    forall j | i < j < |order|
      ensures order[j].id != item.id
    {
      DrainOrderDistinct(q, order, i, j);
    }
  }

  lemma FinishPass(q: Store, order: seq<Record>, h: Handlers, done: set<Key>)
    requires KeyedById(q) && Enumerates(q, order)
    requires forall j :: 0 <= j < |order| ==> order[j].id in done
    requires done <= q.Keys
    ensures PartialPass(q, done, h) == AfterPass(q, h)
    ensures order[..|order|] == order
  {
    assert done == q.Keys;
    PartialPassBounds(q, h);
  }

  /**
   * The `for (const item of syncItems)` loop of `processSyncQueue` over the
   * sorted listing `order` of the queue: every item is processed once, in
   * that order, whatever happened to the items before it.
   */
  method ProcessInOrder(db: Database, order: seq<Record>, h: Handlers) returns (trace: seq<Step>)
    requires db.Valid() && db.supported && db.version == DB_VERSION
    requires SYNC_QUEUE in db.stores
    requires Enumerates(db.stores[SYNC_QUEUE], order) && InDrainOrder(order)
    modifies db
    ensures db.Valid() && db.version == DB_VERSION && db.nextId == old(db.nextId)
    ensures trace == PassTrace(order, h)
    ensures db.stores == old(db.stores)[SYNC_QUEUE := AfterPass(old(db.stores)[SYNC_QUEUE], h)]
  {
    ghost var base := db.stores;
    ghost var q := base[SYNC_QUEUE];
    assert KeyedById(q);
    PartialPassBounds(q, h);
    assert base[SYNC_QUEUE := q] == base;
    ghost var done: set<Key> := {};
    trace := [];
    var i := 0;
    while i < |order|
      invariant 0 <= i <= |order|
      invariant db.Valid() && db.supported && db.version == DB_VERSION
      invariant db.nextId == old(db.nextId)
      invariant forall j :: 0 <= j < i ==> order[j].id in done
      invariant forall j :: i <= j < |order| ==> order[j].id !in done
      invariant done <= q.Keys
      invariant db.stores == base[SYNC_QUEUE := PartialPass(q, done, h)]
      invariant trace == PassTrace(order[..i], h)
    {
      var item := order[i];
      Advance(q, order, h, i, done);
      ghost var current := db.stores[SYNC_QUEUE];
      var steps := ProcessItem(db, item, h);
      ReplaceTwice(base, current, ItemEffect(current, item, h));
      PassTraceSnoc(order, i, h);
      trace := trace + steps;
      done := done + {item.id};
      i := i + 1;
    }
    FinishPass(q, order, h, done);
  }

  /**
   * `processSyncQueue()`. Offline it touches nothing. Online it lists the
   * queue, sorts it oldest first (`order`) and processes the items one by
   * one; `trace` is the sequence of their effects.
   */
  method ProcessSyncQueue(db: Database, online: bool, h: Handlers)
      returns (res: Outcome, order: seq<Record>, trace: seq<Step>)
    requires db.Valid()
    modifies db
    ensures db.Valid()
    ensures !online ==> res == Pass && order == [] && trace == [] && unchanged(db)
    ensures online && !db.supported ==> res == Fail(Unsupported) && trace == [] && unchanged(db)
    ensures online && db.supported ==>
              && SYNC_QUEUE in old(db.Opened())
              && res == Pass
              && Enumerates(old(db.Opened())[SYNC_QUEUE], order)
              && InDrainOrder(order)
              && trace == PassTrace(order, h)
              && db.stores == old(db.Opened())[SYNC_QUEUE := AfterPass(old(db.Opened())[SYNC_QUEUE], h)]
              && db.nextId == old(db.OpenedNextId())
  {
    order, trace := [], [];
    if !online {
      return Pass, order, trace;
    }
    var listing := db.GetAll(SYNC_QUEUE);
    if listing.Failure? {
      return Fail(listing.error), order, trace;
    }
    var batch := listing.value;
    if |batch| == 0 {
      ghost var q := db.stores[SYNC_QUEUE];
      assert q == map[];
      assert AfterPass(q, h) == q;
      assert db.stores[SYNC_QUEUE := q] == db.stores;
      return Pass, order, trace;
    }
    order := SortByTimestamp(batch);
    SortEnumerates(db.stores[SYNC_QUEUE], batch);
    SortOfKeySorted(batch);
    trace := ProcessInOrder(db, order, h);
    res := Pass;
  }

  /** The queue after one pass per element of `hs`, in order. */
  function Passes(q: Store, hs: seq<Handlers>): Store {
    if hs == [] then q else AfterPass(Passes(q, hs[..|hs| - 1]), hs[|hs| - 1])
  }

  /** An item whose sender keeps rejecting is kept, one attempt more per pass, while below 5. */
  lemma {:induction false} FailingItemKept(q: Store, hs: seq<Handlers>, k: Key)
    requires k in q && q[k].SyncItem?
    requires forall j :: 0 <= j < |hs| ==> !Delivered(q[k], hs[j])
    requires q[k].attempts + |hs| < MAX_ATTEMPTS
    ensures k in Passes(q, hs) && Passes(q, hs)[k] == q[k].(attempts := q[k].attempts + |hs|)
  {
    if hs != [] {
      var prefix := hs[..|hs| - 1];
      forall j | 0 <= j < |prefix|
        ensures !Delivered(q[k], prefix[j])
      {
        assert prefix[j] == hs[j];
      }
      FailingItemKept(q, prefix, k);
    }
  }

  /**
   * An item queued by `addToSyncQueue` (no attempts yet) whose sender rejects
   * on every pass is still queued after four passes and gone after the fifth.
   */
  lemma FifthPassRemoves(q: Store, hs: seq<Handlers>, k: Key)
    requires k in q && q[k].SyncItem? && q[k].attempts == 0
    requires |hs| == MAX_ATTEMPTS
    requires forall j :: 0 <= j < |hs| ==> !Delivered(q[k], hs[j])
    ensures forall n :: 0 <= n < MAX_ATTEMPTS ==> k in Passes(q, hs[..n])
    ensures k !in Passes(q, hs)
  {
    forall n | 0 <= n < MAX_ATTEMPTS
      ensures k in Passes(q, hs[..n])
    {
      FailingItemKept(q, hs[..n], k);
    }
    var four := hs[..MAX_ATTEMPTS - 1];
    FailingItemKept(q, four, k);
    assert hs[..|hs| - 1] == four;
    var x := Passes(q, four)[k];
    assert !Delivered(x, hs[MAX_ATTEMPTS - 1]);
  }

  /** With the senders as written, which always resolve, one pass empties the queue. */
  lemma SourceHandlersEmptyQueue(q: Store)
    ensures AfterPass(q, SOURCE_HANDLERS) == map[]
  {
    forall k | k in q
      ensures !Kept(q[k], SOURCE_HANDLERS)
    {
    }
  }

  /** Every sender call is immediately preceded by the save of the same bumped item. */
  lemma {:induction false} SaveBeforeSend(s: seq<Record>, h: Handlers)
    ensures forall p :: 0 <= p < |PassTrace(s, h)| && PassTrace(s, h)[p].Send? ==>
              p > 0 && PassTrace(s, h)[p - 1] == Save(PassTrace(s, h)[p].record)
  {
    if s != [] {
      SaveBeforeSend(s[..|s| - 1], h);
      var before := PassTrace(s[..|s| - 1], h);
      var steps := ItemSteps(s[|s| - 1], h);
      var t: seq<Step> := before + steps;
      assert PassTrace(s, h) == t;
      forall p: int | 0 <= p < |t| && t[p].Send?
        ensures p > 0 && t[p - 1] == Save(t[p].record)
      {
        if p >= |before| {
          assert steps[p - |before|].Send?;
          assert p - |before| == 1;
        }
      }
    }
  }

  /**
   * The pass saves each item exactly once, with one attempt more, and in
   * order: the saves of the trace are the bumped items of `s`.
   */
  function Saves(t: seq<Step>): seq<Record> {
    if t == [] then []
    else Saves(t[..|t| - 1]) + (if t[|t| - 1].Save? then [t[|t| - 1].record] else [])
  }

  lemma SavesAppend(a: seq<Step>, b: seq<Step>)
    ensures Saves(a + b) == Saves(a) + Saves(b)
    decreases |b|
  {
    if b != [] {
      assert (a + b)[..|a + b| - 1] == a + b[..|b| - 1];
      SavesAppend(a, b[..|b| - 1]);
    } else {
      assert a + b == a;
    }
  }

  function BumpedAll(s: seq<Record>): (r: seq<Record>)
    ensures |r| == |s| && forall i :: 0 <= i < |s| ==> r[i] == Bumped(s[i])
  {
    if s == [] then [] else BumpedAll(s[..|s| - 1]) + [Bumped(s[|s| - 1])]
  }

  lemma SavesOfItemSteps(x: Record, h: Handlers)
    ensures Saves(ItemSteps(x, h)) == [Bumped(x)]
  {
    var t := ItemSteps(x, h);
    var save := [Save(Bumped(x))];
    assert Saves(save) == [Bumped(x)] by {
      assert save[..0] == [];
    }
    var withSend := if HasHandler(x) then save + [Send(Bumped(x))] else save;
    assert Saves(withSend) == [Bumped(x)] by {
      if HasHandler(x) {
        assert withSend[..1] == save;
      }
    }
    if Kept(x, h) {
      assert t == withSend;
    } else {
      assert t == withSend + [Remove(x.id)];
      assert t[..|t| - 1] == withSend;
    }
  }

  lemma {:induction false} SavesInOrder(s: seq<Record>, h: Handlers)
    ensures Saves(PassTrace(s, h)) == BumpedAll(s)
  {
    if s != [] {
      var x := s[|s| - 1];
      SavesInOrder(s[..|s| - 1], h);
      SavesAppend(PassTrace(s[..|s| - 1], h), ItemSteps(x, h));
      SavesOfItemSteps(x, h);
    }
  }
}

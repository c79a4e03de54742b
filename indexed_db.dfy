/**
 * The partitioned record store of js/db.js: one IndexedDB database holding
 * named object stores, each mapping a record's `id` to the record. Every
 * operation opens the database first, exactly as `saveToStore` and its
 * siblings call `openDatabase()`, so the schema upgrade runs on the first
 * operation against a database that does not exist yet.
 */
module IndexedDb {
  import opened Common
  import opened Keys

  /** The part of a record that the store never looks into (serialized JSON). */
  type Payload = string

  const DB_VERSION := 1

  const STUDENT_DATA := "studentData"
  const CLASSES := "classes"
  const ASSIGNMENTS := "assignments"
  const QUIZZES := "quizzes"
  const DOWNLOADS := "downloads"
  const SYNC_QUEUE := "syncQueue"

  /** The object stores the upgrade provisions, in the order it creates them. */
  const SCHEMA: seq<string> := [STUDENT_DATA, CLASSES, ASSIGNMENTS, QUIZZES, DOWNLOADS, SYNC_QUEUE]

  /** The shapes of record the modelled code writes; every one carries its key in `id`. */
  datatype Record =
    | SyncItem(id: Key, syncType: string, data: Payload, timestamp: int, attempts: int)
    | Download(id: Key, filename: string, title: string, fileType: string, size: string,
               downloadedDate: string, path: string)
    | Notes(id: Key, content: string, lastUpdated: int)
    | ChatMessage(id: Key, sender: string, text: string, time: string, timestamp: int, classId: string)
    | Plain(id: Key, payload: Payload)

  type Store = map<Key, Record>

  /** `if (!db.objectStoreNames.contains(name)) db.createObjectStore(name)`, for each name in turn. */
  function CreateMissing(stores: map<string, Store>, names: seq<string>): (r: map<string, Store>)
    decreases |names|
    ensures forall n :: n in r <==> n in stores || n in names
    ensures forall n :: n in stores ==> r[n] == stores[n]
    ensures forall n :: n in r && n !in stores ==> r[n] == map[]
  {
    if names == [] then stores
    else
      var next := if names[0] in stores then stores else stores[names[0] := map[]];
      CreateMissing(next, names[1..])
  }

  /** The `onupgradeneeded` handler: create each of the six stores that is missing. */
  function Upgrade(stores: map<string, Store>): map<string, Store> {
    CreateMissing(stores, SCHEMA)
  }

  /** Re-running the upgrade on a database that already has all six stores changes nothing. */
  lemma UpgradeComplete(stores: map<string, Store>)
    requires forall n :: n in SCHEMA ==> n in stores
    ensures Upgrade(stores) == stores
  {
  }

  lemma UpgradeIdempotent(stores: map<string, Store>)
    ensures Upgrade(Upgrade(stores)) == Upgrade(stores)
  {
    UpgradeComplete(Upgrade(stores));
  }

  /** Every record sits under its own `id`, as the key path `id` guarantees. */
  ghost predicate KeyedById(store: Store) {
    forall k :: k in store ==> store[k].id == k
  }

  /** Records listed in strictly ascending key order, as `getAll()` lists them. */
  predicate KeySorted(s: seq<Record>) {
    forall i, j :: 0 <= i < j < |s| ==> Less(s[i].id, s[j].id)
  }

  /** `s` lists the records of `store`, each under its own key, and misses none. */
  ghost predicate Enumerates(store: Store, s: seq<Record>) {
    && |s| == |store|
    && (forall i :: 0 <= i < |s| ==> s[i].id in store && store[s[i].id] == s[i])
    && (forall k :: k in store ==> store[k] in s)
  }

  /** The first record of a key-ordered listing has the least key of the store. */
  lemma HeadIsLeast(store: Store, s: seq<Record>, k: Key)
    requires KeyedById(store) && Enumerates(store, s) && KeySorted(s) && s != []
    requires k in store
    ensures k == s[0].id || Less(s[0].id, k)
  {
    assert store[k] in s;
    var i :| 0 <= i < |s| && s[i] == store[k];
    if i > 0 {
      assert Less(s[0].id, s[i].id);
    }
  }

  lemma TailCovers(store: Store, s: seq<Record>, k: Key)
    requires KeyedById(store) && Enumerates(store, s) && s != []
    requires k in store && k != s[0].id
    ensures store[k] in s[1..]
  {
    assert store[k] in s;
    var i :| 0 <= i < |s| && s[i] == store[k];
    assert i != 0 by {
      assert store[k].id == k;
    }
    assert s[1..][i - 1] == store[k];
  }

  /** Dropping the least record from a key-ordered listing lists the rest of the store. */
  lemma TailEnumerates(store: Store, s: seq<Record>)
    requires KeyedById(store) && Enumerates(store, s) && KeySorted(s) && s != []
    ensures KeyedById(store - {s[0].id}) && KeySorted(s[1..])
    ensures Enumerates(store - {s[0].id}, s[1..])
  {
    TailRecords(store, s);
    TailComplete(store, s);
    assert |store - {s[0].id}| == |store| - 1;
  }

  lemma TailRecords(store: Store, s: seq<Record>)
    requires Enumerates(store, s) && KeySorted(s) && s != []
    ensures forall i :: 0 <= i < |s| - 1 ==>
              s[1..][i].id in store - {s[0].id} && (store - {s[0].id})[s[1..][i].id] == s[1..][i]
  {
    forall i | 0 <= i < |s| - 1
      ensures s[1..][i].id != s[0].id
    {
      assert Less(s[0].id, s[i + 1].id);
      LessIrreflexive(s[0].id);
    }
  }

  lemma TailComplete(store: Store, s: seq<Record>)
    requires KeyedById(store) && Enumerates(store, s) && s != []
    ensures forall k :: k in store - {s[0].id} ==> (store - {s[0].id})[k] in s[1..]
  {
    forall k | k in store - {s[0].id}
      ensures store[k] in s[1..]
    {
      TailCovers(store, s, k);
    }
  }

  /** Two key-ordered listings of one non-empty store start with the same record. */
  lemma SameHead(store: Store, s: seq<Record>, t: seq<Record>)
    requires KeyedById(store) && store != map[]
    requires Enumerates(store, s) && KeySorted(s)
    requires Enumerates(store, t) && KeySorted(t)
    ensures s != [] && t != [] && s[0] == t[0]
  {
    assert |s| == |store| == |t|;
    HeadIsLeast(store, s, t[0].id);
    HeadIsLeast(store, t, s[0].id);
    if s[0].id != t[0].id {
      LessTransitive(s[0].id, t[0].id, s[0].id);
      LessIrreflexive(s[0].id);
    }
  }

  /** A strictly key-ordered listing of a store is unique: `getAll()` has one answer. */
  lemma {:induction false} ListingUnique(store: Store, s: seq<Record>, t: seq<Record>)
    requires KeyedById(store)
    requires Enumerates(store, s) && KeySorted(s)
    requires Enumerates(store, t) && KeySorted(t)
    ensures s == t
    decreases |s|
  {
    if store != map[] {
      SameHead(store, s, t);
      TailEnumerates(store, s);
      TailEnumerates(store, t);
      ListingUnique(store - {s[0].id}, s[1..], t[1..]);
      HeadTail(s);
      HeadTail(t);
    }
  }

  lemma HeadTail(s: seq<Record>)
    requires s != []
    ensures s == [s[0]] + s[1..]
  {
  }

  /** `store.getAll()`: the records of one store, listed in ascending key order. */
  method ListInKeyOrder(store: Store) returns (listed: seq<Record>)
    requires KeyedById(store)
    ensures Enumerates(store, listed) && KeySorted(listed)
  {
    var rest := store.Keys;
    listed := [];
    while rest != {}
      invariant PartlyListed(store, listed, rest)
      decreases rest
    {
      LeastExists(rest);
      var m :| m in rest && forall k :: k in rest && k != m ==> Less(m, k);
      ListLeast(store, listed, rest, m);
      listed := listed + [store[m]];
      rest := rest - {m};
    }
  }

  /** The listing so far holds, in key order, exactly the records whose keys are not in `rest`, all below `rest`. */
  ghost predicate PartlyListed(store: Store, listed: seq<Record>, rest: set<Key>) {
    && rest <= store.Keys
    && |listed| + |rest| == |store|
    && (forall i :: 0 <= i < |listed| ==>
          listed[i].id in store && store[listed[i].id] == listed[i] && listed[i].id !in rest)
    && (forall k :: k in store && k !in rest ==> store[k] in listed)
    && KeySorted(listed)
    && (forall i, k :: 0 <= i < |listed| && k in rest ==> Less(listed[i].id, k))
  }

  /** Appending the record of the least remaining key keeps the listing partial and ordered. */
  lemma ListLeast(store: Store, listed: seq<Record>, rest: set<Key>, m: Key)
    requires KeyedById(store) && PartlyListed(store, listed, rest)
    requires m in rest && forall k :: k in rest && k != m ==> Less(m, k)
    ensures PartlyListed(store, listed + [store[m]], rest - {m})
  {
    var next := listed + [store[m]];
    forall i, k | 0 <= i < |next| && k in rest - {m}
      ensures Less(next[i].id, k)
    {
      if i == |listed| {
        assert next[i].id == m;
      }
    }
  }

  ghost predicate AllKeyed(stores: map<string, Store>) {
    forall name, k :: name in stores && k in stores[name] ==> stores[name][k].id == k
  }

  /** The key generator is past every numeric key of the sync queue. */
  ghost predicate BelowGenerator(stores: map<string, Store>, nextId: int) {
    SYNC_QUEUE in stores ==> forall k :: k in stores[SYNC_QUEUE] && k.Num? ==> k.n < nextId
  }

  /** Writing `r` under its own key into an existing store keeps both invariants. */
  lemma PutKeepsInvariants(stores: map<string, Store>, nextId: int, name: string, r: Record, next: int)
    requires AllKeyed(stores) && BelowGenerator(stores, nextId) && name in stores
    requires nextId <= next && (name == SYNC_QUEUE && r.id.Num? ==> r.id.n < next)
    ensures var after := stores[name := stores[name][r.id := r]];
            && AllKeyed(after) && BelowGenerator(after, next) && after.Keys == stores.Keys
  {
  }

  /**
   * The IndexedDB database `RajasthanVirtualShiksha`. `version` 0 stands for a
   * database that has not been created yet; `nextId` is the key generator of
   * the auto-incrementing `syncQueue` store.
   */
  class Database {
    const supported: bool
    var version: nat
    var stores: map<string, Store>
    var nextId: int

    /**
     * Records sit under their own key, an opened database has every store of
     * the schema, and the generator is past every numeric sync-queue key.
     */
    ghost predicate Valid()
      reads this
    {
      && version <= DB_VERSION
      && (version == DB_VERSION ==> forall n :: n in SCHEMA ==> n in stores)
      && AllKeyed(stores)
      && BelowGenerator(stores, nextId)
    }

    /** The stores as `openDatabase()` leaves them: upgraded if the database was older. */
    ghost function Opened(): map<string, Store>
      reads this
    {
      if version < DB_VERSION then Upgrade(stores) else stores
    }

    /** The key generator after `openDatabase()`: a freshly created sync queue starts at 1. */
    ghost function OpenedNextId(): int
      reads this
    {
      if version < DB_VERSION && SYNC_QUEUE !in stores then 1 else nextId
    }

    /** A database that does not exist yet, on a host with or without IndexedDB. */
    constructor (supported: bool)
      ensures Valid()
      ensures this.supported == supported && version == 0 && stores == map[] && nextId == 1
    {
      this.supported := supported;
      version := 0;
      stores := map[];
      nextId := 1;
    }

    /** `openDatabase()`: rejects without IndexedDB, otherwise runs the upgrade when it is due. */
    method Open() returns (r: Outcome)
      requires Valid()
      modifies this
      ensures Valid()
      ensures !supported ==> r == Fail(Unsupported) && unchanged(this)
      ensures supported ==> r == Pass && version == DB_VERSION
                            && stores == old(Opened()) && nextId == old(OpenedNextId())
    {
      if !supported {
        return Fail(Unsupported);
      }
      if version < DB_VERSION {
        if SYNC_QUEUE !in stores {
          nextId := 1;
        }
        stores := Upgrade(stores);
        version := DB_VERSION;
      }
      return Pass;
    }

    /** `saveToStore(name, r)`: insert or fully replace the record under `r.id`. */
    method Put(name: string, r: Record) returns (res: Result<Key>)
      requires Valid()
      modifies this
      ensures Valid()
      ensures !supported ==> res == Failure(Unsupported) && unchanged(this)
      ensures supported ==> version == DB_VERSION
      ensures supported && name !in old(Opened()) ==>
                res == Failure(NotFoundError) && stores == old(Opened()) && nextId == old(OpenedNextId())
      ensures supported && name in old(Opened()) ==>
                && res == Success(r.id)
                && stores == old(Opened())[name := old(Opened())[name][r.id := r]]
                && nextId == (if name == SYNC_QUEUE && r.id.Num? && r.id.n >= old(OpenedNextId())
                              then r.id.n + 1 else old(OpenedNextId()))
    {
      var status := Open();
      if status.Fail? {
        return Failure(status.error);
      }
      if name !in stores {
        return Failure(NotFoundError);
      }
      var next := if name == SYNC_QUEUE && r.id.Num? && r.id.n >= nextId then r.id.n + 1 else nextId;
      PutKeepsInvariants(stores, nextId, name, r, next);
      stores := stores[name := stores[name][r.id := r]];
      nextId := next;
      return Success(r.id);
    }

    /**
     * `store.put(r)` for a record with no `id` of its own. Only the sync queue
     * has a key generator; anywhere else the put rejects with a DataError.
     */
    method PutNew(name: string, r: Record) returns (res: Result<Key>)
      requires Valid()
      modifies this
      ensures Valid()
      ensures !supported ==> res == Failure(Unsupported) && unchanged(this)
      ensures supported ==> version == DB_VERSION
      ensures supported && name !in old(Opened()) ==>
                res == Failure(NotFoundError) && stores == old(Opened()) && nextId == old(OpenedNextId())
      ensures supported && name in old(Opened()) && name != SYNC_QUEUE ==>
                res == Failure(DataError) && stores == old(Opened()) && nextId == old(OpenedNextId())
      ensures supported && name == SYNC_QUEUE && name in old(Opened()) ==>
                var k := Num(old(OpenedNextId()));
                && res == Success(k)
                && k !in old(Opened())[name]
                && stores == old(Opened())[name := old(Opened())[name][k := r.(id := k)]]
                && nextId == old(OpenedNextId()) + 1
    {
      var status := Open();
      if status.Fail? {
        return Failure(status.error);
      }
      if name !in stores {
        return Failure(NotFoundError);
      }
      if name != SYNC_QUEUE {
        return Failure(DataError);
      }
      var k := Num(nextId);
      PutKeepsInvariants(stores, nextId, name, r.(id := k), nextId + 1);
      stores := stores[name := stores[name][k := r.(id := k)]];
      nextId := nextId + 1;
      return Success(k);
    }

    /** `getFromStore(name, key)`: a missing key resolves to `undefined`, it does not reject. */
    method Get(name: string, key: Key) returns (res: Result<Option<Record>>)
      requires Valid()
      modifies this
      ensures Valid()
      ensures !supported ==> res == Failure(Unsupported) && unchanged(this)
      ensures supported ==> version == DB_VERSION && stores == old(Opened()) && nextId == old(OpenedNextId())
      ensures supported && name !in stores ==> res == Failure(NotFoundError)
      ensures supported && name in stores ==>
                res == Success(if key in stores[name] then Some(stores[name][key]) else None)
    {
      var status := Open();
      if status.Fail? {
        return Failure(status.error);
      }
      if name !in stores {
        return Failure(NotFoundError);
      }
      if key in stores[name] {
        return Success(Some(stores[name][key]));
      }
      return Success(None);
    }

    /** `getAllFromStore(name)`: every record of the store, in ascending key order. */
    method GetAll(name: string) returns (res: Result<seq<Record>>)
      requires Valid()
      modifies this
      ensures Valid()
      ensures !supported ==> res == Failure(Unsupported) && unchanged(this)
      ensures supported ==> version == DB_VERSION && stores == old(Opened()) && nextId == old(OpenedNextId())
      ensures supported && name !in stores ==> res == Failure(NotFoundError)
      ensures supported && name in stores ==>
                res.Success? && Enumerates(stores[name], res.value) && KeySorted(res.value)
    {
      var status := Open();
      if status.Fail? {
        return Failure(status.error);
      }
      if name !in stores {
        return Failure(NotFoundError);
      }
      var listed := ListInKeyOrder(stores[name]);
      return Success(listed);
    }

    /** `deleteFromStore(name, key)`: removes exactly that key; an absent key is not an error. */
    method Delete(name: string, key: Key) returns (res: Outcome)
      requires Valid()
      modifies this
      ensures Valid()
      ensures !supported ==> res == Fail(Unsupported) && unchanged(this)
      ensures supported ==> version == DB_VERSION && nextId == old(OpenedNextId())
      ensures supported && name !in old(Opened()) ==> res == Fail(NotFoundError) && stores == old(Opened())
      ensures supported && name in old(Opened()) ==>
                res == Pass && stores == old(Opened())[name := old(Opened())[name] - {key}]
    {
      var status := Open();
      if status.Fail? {
        return Fail(status.error);
      }
      if name !in stores {
        return Fail(NotFoundError);
      }
      stores := stores[name := stores[name] - {key}];
      return Pass;
    }

    /** `clearStore(name)`: empties that store and no other; the key generator is kept. */
    method Clear(name: string) returns (res: Outcome)
      requires Valid()
      modifies this
      ensures Valid()
      ensures !supported ==> res == Fail(Unsupported) && unchanged(this)
      ensures supported ==> version == DB_VERSION && nextId == old(OpenedNextId())
      ensures supported && name !in old(Opened()) ==> res == Fail(NotFoundError) && stores == old(Opened())
      ensures supported && name in old(Opened()) ==>
                res == Pass && stores == old(Opened())[name := map[]]
    {
      var status := Open();
      if status.Fail? {
        return Fail(status.error);
      }
      if name !in stores {
        return Fail(NotFoundError);
      }
      stores := stores[name := map[]];
      return Pass;
    }
  }
}

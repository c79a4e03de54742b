/**
 * The offline parts of the live-class page (js/live-class.js): escaping
 * chat text for HTML, loading the current class's chat messages, the
 * per-class notes and the record kept for a downloaded class resource.
 */
module LiveClass {
  import opened Common
  import opened Strings
  import opened Keys
  import opened IndexedDb
  import opened TimestampSort
  import Downloads

  const DEMO_CLASS := "demo-class"
  const NOTES := "notes"
  const CHAT_MESSAGES := "chatMessages"

  /**
   * `getClassIdFromUrl() || 'demo-class'`: the `id` query parameter, unless it
   * is missing (`null`) or empty, both of which are falsy.
   */
  function ClassId(param: Option<string>): (classId: string)
    ensures classId != ""
    ensures param.Some? && param.value != "" ==> classId == param.value
    ensures param.None? || param.value == "" ==> classId == DEMO_CLASS
  {
    if param.Some? && param.value != "" then param.value else DEMO_CLASS
  }

  // ---------------------------------------------------------------------
  // escapeHTML

  /** `escapeHTML(str)`: the five global replaces, `&` first. */
  function EscapeHtml(s: string): string {
    EscapeLt(ReplaceAll(s, '&', "&amp;"))
  }

  /** The replaces of `escapeHTML` from the one for `<` on. */
  function EscapeLt(t: string): string {
    EscapeGt(ReplaceAll(t, '<', "&lt;"))
  }

  /** The replaces of `escapeHTML` from the one for `>` on. */
  function EscapeGt(t: string): string {
    EscapeQuotes(ReplaceAll(t, '>', "&gt;"))
  }

  /** The last two replaces of `escapeHTML`, for `"` and `'`. */
  function EscapeQuotes(t: string): string {
    ReplaceAll(ReplaceAll(t, '"', "&quot;"), '\'', "&#039;")
  }

  lemma EscapeQuotesAbsent(t: string)
    requires '"' !in t && '\'' !in t
    ensures EscapeQuotes(t) == t
  {
    ReplaceAllAbsent(t, '"', "&quot;");
    ReplaceAllAbsent(t, '\'', "&#039;");
  }

  lemma EscapeGtAbsent(t: string)
    requires '>' !in t && '"' !in t && '\'' !in t
    ensures EscapeGt(t) == t
  {
    ReplaceAllAbsent(t, '>', "&gt;");
    EscapeQuotesAbsent(t);
  }

  lemma EscapeLtAbsent(t: string)
    requires '<' !in t && '>' !in t && '"' !in t && '\'' !in t
    ensures EscapeLt(t) == t
  {
    ReplaceAllAbsent(t, '<', "&lt;");
    EscapeGtAbsent(t);
  }

  /** The entity each special character becomes; every other character stands for itself. */
  function EscapeChar(c: char): string {
    match c
    case '&' => "&amp;"
    case '<' => "&lt;"
    case '>' => "&gt;"
    case '"' => "&quot;"
    case '\'' => "&#039;"
    case _ => [c]
  }

  /** Escaping character by character: the reference definition of `escapeHTML`. */
  function EscapeEach(s: string): string {
    if s == [] then [] else EscapeChar(s[0]) + EscapeEach(s[1..])
  }

  lemma EscapeAppend(a: string, b: string)
    ensures EscapeHtml(a + b) == EscapeHtml(a) + EscapeHtml(b)
  {
    ReplaceAllAppend(a, b, '&', "&amp;");
    var a1, b1 := ReplaceAll(a, '&', "&amp;"), ReplaceAll(b, '&', "&amp;");
    ReplaceAllAppend(a1, b1, '<', "&lt;");
    var a2, b2 := ReplaceAll(a1, '<', "&lt;"), ReplaceAll(b1, '<', "&lt;");
    ReplaceAllAppend(a2, b2, '>', "&gt;");
    var a3, b3 := ReplaceAll(a2, '>', "&gt;"), ReplaceAll(b2, '>', "&gt;");
    ReplaceAllAppend(a3, b3, '"', "&quot;");
    var a4, b4 := ReplaceAll(a3, '"', "&quot;"), ReplaceAll(b3, '"', "&quot;");
    ReplaceAllAppend(a4, b4, '\'', "&#039;");
  }

  lemma ReplaceOne(c: char, d: char, rep: string)
    ensures ReplaceAll([c], d, rep) == if c == d then rep else [c]
  {
    assert [c][1..] == [];
  }

  /** The five replaces on a one-character string give that character's entity. */
  lemma EscapeOne(c: char)
    ensures EscapeHtml([c]) == EscapeChar(c)
  {
    if c == '&' {
      EscapeAmpersand();
    } else if c == '<' || c == '>' {
      EscapeAngle(c);
    } else if c == '"' || c == '\'' {
      EscapeQuote(c);
    } else {
      EscapeIdentity([c]);
    }
  }

  lemma EscapeAmpersand()
    ensures EscapeHtml("&") == "&amp;"
  {
    ReplaceOne('&', '&', "&amp;");
    EscapeLtAbsent("&amp;");
  }

  lemma EscapeAngle(c: char)
    requires c == '<' || c == '>'
    ensures EscapeHtml([c]) == EscapeChar(c)
  {
    ReplaceAllAbsent([c], '&', "&amp;");
    ReplaceOne(c, '<', "&lt;");
    if c == '<' {
      EscapeGtAbsent("&lt;");
    } else {
      ReplaceOne(c, '>', "&gt;");
      EscapeQuotesAbsent("&gt;");
    }
  }

  lemma EscapeQuote(c: char)
    requires c == '"' || c == '\''
    ensures EscapeHtml([c]) == EscapeChar(c)
  {
    ReplaceAllAbsent([c], '&', "&amp;");
    ReplaceAllAbsent([c], '<', "&lt;");
    ReplaceAllAbsent([c], '>', "&gt;");
    ReplaceOne(c, '"', "&quot;");
    ReplaceOne(c, '\'', "&#039;");
    if c == '"' {
      ReplaceAllAbsent("&quot;", '\'', "&#039;");
    }
  }

  /**
   * Because `&` is replaced first, the entities written by the later
   * replaces are never escaped again: the chain is exactly the
   * per-character map.
   */
  lemma {:induction false} EscapeIsPerCharacter(s: string)
    ensures EscapeHtml(s) == EscapeEach(s)
    decreases |s|
  {
    if s != [] {
      assert s == [s[0]] + s[1..];
      EscapeAppend([s[0]], s[1..]);
      EscapeOne(s[0]);
      EscapeIsPerCharacter(s[1..]);
    }
  }

  /** The escaped text holds no `<`, `>`, `"` or `'`: it cannot open a tag or close an attribute. */
  lemma EscapeHtmlSafe(s: string)
    ensures var r := EscapeHtml(s);
            '<' !in r && '>' !in r && '"' !in r && '\'' !in r
  {
    EscapeLtSafe(ReplaceAll(s, '&', "&amp;"));
  }

  lemma EscapeLtSafe(t: string)
    ensures var r := EscapeLt(t);
            '<' !in r && '>' !in r && '"' !in r && '\'' !in r
  {
    var u := ReplaceAll(t, '<', "&lt;");
    assert '<' !in "&lt;";
    EscapeGtSafe(u);
  }

  lemma EscapeGtSafe(t: string)
    requires '<' !in t
    ensures var r := EscapeGt(t);
            '<' !in r && '>' !in r && '"' !in r && '\'' !in r
  {
    var u := ReplaceAll(t, '>', "&gt;");
    assert '>' !in "&gt;";
    KeepsAbsent(t, '>', "&gt;", '<');
    EscapeQuotesSafe(u);
  }

  lemma EscapeQuotesSafe(t: string)
    requires '<' !in t && '>' !in t
    ensures var r := EscapeQuotes(t);
            '<' !in r && '>' !in r && '"' !in r && '\'' !in r
  {
    var u := ReplaceAll(t, '"', "&quot;");
    assert '"' !in "&quot;";
    KeepsAbsent(t, '"', "&quot;", '<');
    KeepsAbsent(t, '"', "&quot;", '>');
    var r := ReplaceAll(u, '\'', "&#039;");
    assert '\'' !in "&#039;";
    KeepsAbsent(u, '\'', "&#039;", '<');
    KeepsAbsent(u, '\'', "&#039;", '>');
    KeepsAbsent(u, '\'', "&#039;", '"');
  }

  /** A replace whose replacement lacks `d` adds no `d`. */
  lemma KeepsAbsent(t: string, c: char, rep: string, d: char)
    requires d !in t && d !in rep
    ensures d !in ReplaceAll(t, c, rep)
  {
  }

  /** Text with none of the five special characters is left as it is. */
  lemma EscapeIdentity(s: string)
    requires '&' !in s && '<' !in s && '>' !in s && '"' !in s && '\'' !in s
    ensures EscapeHtml(s) == s
  {
    ReplaceAllAbsent(s, '&', "&amp;");
    EscapeLtAbsent(s);
  }

  // ---------------------------------------------------------------------
  // loadChatMessages

  /** `msg.classId === classId`: only a chat message has a class id. */
  predicate InClass(r: Record, classId: string) {
    r.ChatMessage? && r.classId == classId
  }

  /** `messages.filter(msg => msg.classId === classId)`. */
  function ClassMessages(s: seq<Record>, classId: string): (r: seq<Record>)
    ensures forall i :: 0 <= i < |r| ==> InClass(r[i], classId)
    ensures multiset(r) <= multiset(s)
  {
    if s == [] then []
    else
      assert s == [s[0]] + s[1..];
      (if InClass(s[0], classId) then [s[0]] else []) + ClassMessages(s[1..], classId)
  }

  /** The messages shown: the class's messages, sorted by `a.timestamp - b.timestamp`. */
  function ShownMessages(listing: seq<Record>, classId: string): seq<Record> {
    SortByTimestamp(ClassMessages(listing, classId))
  }

  /** A stored message is kept by the filter exactly when it belongs to the class. */
  lemma {:induction false} ClassMessagesExact(s: seq<Record>, classId: string, m: Record)
    ensures multiset(ClassMessages(s, classId))[m] == if InClass(m, classId) then multiset(s)[m] else 0
    decreases |s|
  {
    if s != [] {
      assert s == [s[0]] + s[1..];
      ClassMessagesExact(s[1..], classId, m);
    }
  }

  /** Filtering keeps the key order of the `getAll` listing. */
  lemma {:induction false} ClassMessagesKeySorted(s: seq<Record>, classId: string)
    requires KeySorted(s)
    ensures KeySorted(ClassMessages(s, classId))
    ensures forall y :: y in ClassMessages(s, classId) ==> y in s
    decreases |s|
  {
    if s != [] {
      ClassMessagesKeySorted(s[1..], classId);
      var rest := ClassMessages(s[1..], classId);
      forall y | y in rest
        ensures Less(s[0].id, y.id)
      {
        var j :| 1 <= j < |s| && s[j] == y;
      }
    }
  }

  /**
   * The shown messages are exactly the stored messages of the class, each as
   * often as stored, in ascending timestamp order, ties in ascending key
   * order (the order `getAll` lists them in).
   */
  lemma ShownMessagesSpec(listing: seq<Record>, classId: string, m: Record)
    requires KeySorted(listing)
    ensures multiset(ShownMessages(listing, classId))[m] == if InClass(m, classId) then multiset(listing)[m] else 0
    ensures forall i :: 0 <= i < |ShownMessages(listing, classId)| ==> InClass(ShownMessages(listing, classId)[i], classId)
    ensures Ascending(ShownMessages(listing, classId))
    ensures InDrainOrder(ShownMessages(listing, classId))
  {
    var c := ClassMessages(listing, classId);
    ClassMessagesExact(listing, classId, m);
    ClassMessagesKeySorted(listing, classId);
    SortAscending(c);
    SortOfKeySorted(c);
    var r := SortByTimestamp(c);
    forall i | 0 <= i < |r|
      ensures InClass(r[i], classId)
    {
      assert r[i] in multiset(c);
    }
  }

  /**
   * `loadChatMessages()` once the IndexedDB request is awaited properly:
   * list the `chatMessages` store, keep the current class's messages and
   * sort them by timestamp. A missing store rejects the transaction (the
   * upgrade never creates this store), which the `catch` turns into an
   * empty chat.
   */
  method LoadChatMessages(db: Database, param: Option<string>) returns (res: Result<seq<Record>>)
    requires db.Valid()
    modifies db
    ensures db.Valid()
    ensures !db.supported ==> res == Failure(Unsupported) && unchanged(db)
    ensures db.supported ==> db.version == DB_VERSION && db.stores == old(db.Opened()) && db.nextId == old(db.OpenedNextId())
    ensures db.supported && CHAT_MESSAGES !in old(db.Opened()) ==> res == Failure(NotFoundError)
    ensures db.supported && CHAT_MESSAGES in old(db.Opened()) ==>
              && res.Success?
              && exists listing :: && Enumerates(old(db.Opened())[CHAT_MESSAGES], listing)
                                   && KeySorted(listing)
                                   && res.value == ShownMessages(listing, ClassId(param))
  {
    var classId := ClassId(param);
    var messages := db.GetAll(CHAT_MESSAGES);
    if messages.Failure? {
      return Failure(messages.error);
    }
    var classMessages := ClassMessages(messages.value, classId);
    classMessages := SortByTimestamp(classMessages);
    return Success(classMessages);
  }

  /**
   * `loadChatMessages()` as written: `await store.getAll()` yields the
   * IDBRequest, which has no `filter` method, so even with the store present
   * the call throws a TypeError, the `catch` logs it and no message is shown.
   */
  method LoadChatMessagesAsWritten(db: Database, param: Option<string>) returns (res: Result<seq<Record>>)
    requires db.Valid()
    modifies db
    ensures db.Valid()
    ensures !db.supported ==> res == Failure(Unsupported) && unchanged(db)
    ensures db.supported ==> db.version == DB_VERSION && db.stores == old(db.Opened()) && db.nextId == old(db.OpenedNextId())
    ensures db.supported ==> res.Failure?
    ensures db.supported && CHAT_MESSAGES !in old(db.Opened()) ==> res == Failure(NotFoundError)
    ensures db.supported && CHAT_MESSAGES in old(db.Opened()) ==> res == Failure(TypeError)
  {
    var status := db.Open();
    if status.Fail? {
      return Failure(status.error);
    }
    if CHAT_MESSAGES !in db.stores {
      return Failure(NotFoundError);
    }
    return Failure(TypeError);
  }

  /** Where the class has a stored message, the corrected load shows it and the code as written shows none. */
  lemma StoredMessageShown(listing: seq<Record>, classId: string, i: int)
    requires KeySorted(listing) && 0 <= i < |listing| && InClass(listing[i], classId)
    ensures listing[i] in ShownMessages(listing, classId)
    ensures ShownMessages(listing, classId) != []
  {
    ShownMessagesSpec(listing, classId, listing[i]);
    assert listing[i] in multiset(listing);
  }

  // ---------------------------------------------------------------------
  // saveNotes / loadNotes

  /** The record `saveNotes` puts: keyed by the class id, so one per class. */
  function NotesRecord(classId: string, content: string, now: int): (r: Record)
    ensures r.id == Text(classId) && r.Notes? && r.content == content
  {
    Notes(Text(classId), content, now)
  }

  /** What `loadNotes` puts in the notes area: the `content` of the class's record, if there is one. */
  function NotesOf(store: Store, classId: string): Option<string> {
    if Text(classId) in store && store[Text(classId)].Notes? then Some(store[Text(classId)].content) else None
  }

  /** The stores once `saveNotes(content)` has put the class's record into the existing `notes` store. */
  function NotesSaved(stores: map<string, Store>, param: Option<string>, content: string, now: int): (r: map<string, Store>)
    requires NOTES in stores
    ensures r.Keys == stores.Keys
    ensures forall n :: n in stores && n != NOTES ==> r[n] == stores[n]
  {
    stores[NOTES := stores[NOTES][Text(ClassId(param)) := NotesRecord(ClassId(param), content, now)]]
  }

  /** What `loadNotes()` gives, once `store.get` is awaited properly, on a database with these stores. */
  function LoadNotesResult(stores: map<string, Store>, param: Option<string>): Result<Option<string>> {
    if NOTES !in stores then Failure(NotFoundError) else Success(NotesOf(stores[NOTES], ClassId(param)))
  }

  /** The text `undefined` becomes when it is assigned to a text area's `value`. */
  const UNDEFINED_TEXT := "undefined"

  /**
   * What `loadNotes()` as written gives: `await store.get(classId)` yields
   * the IDBRequest, which is truthy and has no `content`.
   */
  function LoadNotesAsWrittenResult(stores: map<string, Store>): Result<Option<string>> {
    if NOTES !in stores then Failure(NotFoundError) else Success(Some(UNDEFINED_TEXT))
  }

  /** `loadNotes` after `saveNotes` gives back what was saved; the notes of every other class are untouched. */
  lemma NotesRoundTrip(stores: map<string, Store>, param: Option<string>, content: string, now: int, other: Option<string>)
    requires NOTES in stores
    ensures LoadNotesResult(NotesSaved(stores, param, content, now), param) == Success(Some(content))
    ensures ClassId(other) != ClassId(param) ==>
              LoadNotesResult(NotesSaved(stores, param, content, now), other) == LoadNotesResult(stores, other)
  {
  }

  /** A later save of the same class replaces the earlier one entirely, and loading gives the later content. */
  lemma LastSaveWins(stores: map<string, Store>, param: Option<string>, first: string, t1: int, second: string, t2: int)
    requires NOTES in stores
    ensures NotesSaved(NotesSaved(stores, param, first, t1), param, second, t2) == NotesSaved(stores, param, second, t2)
    ensures LoadNotesResult(NotesSaved(NotesSaved(stores, param, first, t1), param, second, t2), param) == Success(Some(second))
  {
    var once := NotesSaved(stores, param, first, t1);
    assert once[NOTES][Text(ClassId(param)) := NotesRecord(ClassId(param), second, t2)]
        == stores[NOTES][Text(ClassId(param)) := NotesRecord(ClassId(param), second, t2)];
    NotesRoundTrip(once, param, second, t2, param);
  }

  /**
   * The upgrade creates neither the `notes` nor the `chatMessages` store: a
   * database it creates has neither, and loading notes there always fails.
   */
  lemma PageStoresNotCreated(stores: map<string, Store>, param: Option<string>)
    ensures NOTES in Upgrade(stores) <==> NOTES in stores
    ensures CHAT_MESSAGES in Upgrade(stores) <==> CHAT_MESSAGES in stores
    ensures NOTES !in Upgrade(map[]) && CHAT_MESSAGES !in Upgrade(map[])
    ensures LoadNotesResult(Upgrade(map[]), param) == Failure(NotFoundError)
  {
    assert NOTES !in SCHEMA && CHAT_MESSAGES !in SCHEMA;
  }

  /**
   * `saveNotes(content)`: put `{id: classId, content, lastUpdated: now}` in
   * the `notes` store, which rejects when the store does not exist.
   */
  method SaveNotes(db: Database, param: Option<string>, content: string, now: int) returns (res: Outcome)
    requires db.Valid()
    modifies db
    ensures db.Valid()
    ensures !db.supported ==> res == Fail(Unsupported) && unchanged(db)
    ensures db.supported ==> db.version == DB_VERSION && db.nextId == old(db.OpenedNextId())
    ensures db.supported && NOTES !in old(db.Opened()) ==> res == Fail(NotFoundError) && db.stores == old(db.Opened())
    ensures db.supported && NOTES in old(db.Opened()) ==>
              res == Pass && db.stores == NotesSaved(old(db.Opened()), param, content, now)
  {
    var classId := ClassId(param);
    var put := db.Put(NOTES, NotesRecord(classId, content, now));
    if put.Failure? {
      return Fail(put.error);
    }
    return Pass;
  }

  /** `loadNotes()` once `store.get` is awaited properly: the class's saved content, if any. */
  method LoadNotes(db: Database, param: Option<string>) returns (res: Result<Option<string>>)
    requires db.Valid()
    modifies db
    ensures db.Valid()
    ensures !db.supported ==> res == Failure(Unsupported) && unchanged(db)
    ensures db.supported ==> db.version == DB_VERSION && db.stores == old(db.Opened()) && db.nextId == old(db.OpenedNextId())
    ensures db.supported ==> res == LoadNotesResult(db.stores, param)
    ensures db.supported && NOTES !in db.stores ==> res == Failure(NotFoundError)
    ensures db.supported && NOTES in db.stores ==> res == Success(NotesOf(db.stores[NOTES], ClassId(param)))
  {
    var classId := ClassId(param);
    var found := db.Get(NOTES, Text(classId));
    if found.Failure? {
      return Failure(found.error);
    }
    if found.value.Some? && found.value.value.Notes? {
      return Success(Some(found.value.value.content));
    }
    return Success(None);
  }

  /**
   * `loadNotes()` as written: `await store.get(classId)` yields the
   * IDBRequest, which is truthy and has no `content`, so the notes area is
   * set to `undefined` whatever is stored.
   */
  method LoadNotesAsWritten(db: Database, param: Option<string>) returns (res: Result<Option<string>>)
    requires db.Valid()
    modifies db
    ensures db.Valid()
    ensures !db.supported ==> res == Failure(Unsupported) && unchanged(db)
    ensures db.supported ==> db.version == DB_VERSION && db.stores == old(db.Opened()) && db.nextId == old(db.OpenedNextId())
    ensures db.supported ==> res == LoadNotesAsWrittenResult(db.stores)
    ensures db.supported && NOTES !in db.stores ==> res == Failure(NotFoundError)
    ensures db.supported && NOTES in db.stores ==> res == Success(Some(UNDEFINED_TEXT))
  {
    var status := db.Open();
    if status.Fail? {
      return Failure(status.error);
    }
    if NOTES !in db.stores {
      return Failure(NotFoundError);
    }
    return Success(Some(UNDEFINED_TEXT));
  }

  /**
   * On a database that has a `notes` store, after a save the corrected load
   * gives back the saved notes and the load as written gives `undefined`.
   */
  lemma SavedNotesLostAsWritten(stores: map<string, Store>, param: Option<string>, content: string, now: int)
    requires NOTES in stores && content != UNDEFINED_TEXT
    ensures LoadNotesResult(NotesSaved(stores, param, content, now), param) == Success(Some(content))
    ensures LoadNotesAsWrittenResult(NotesSaved(stores, param, content, now)) == Success(Some(UNDEFINED_TEXT))
    ensures LoadNotesAsWrittenResult(NotesSaved(stores, param, content, now))
            != LoadNotesResult(NotesSaved(stores, param, content, now), param)
  {
    NotesRoundTrip(stores, param, content, now, param);
  }

  // ---------------------------------------------------------------------
  // saveResourceToIndexedDB

  /**
   * `name.replace(/\.[^/.]+$/, "")`: drops a final `.` followed by at least
   * one character, none of them `/` or `.`; otherwise the name is kept.
   */
  function StripExtension(name: string): (r: string)
    ensures var ext := AfterLast(name, '.');
            if '.' in name && ext != [] && '/' !in ext then r + "." + ext == name else r == name
  {
    var ext := AfterLast(name, '.');
    AfterLastSpec(name, '.');
    if '.' in name && ext != [] && '/' !in ext then
      assert name == name[..|name| - |ext| - 1] + "." + ext;
      name[..|name| - |ext| - 1]
    else name
  }

  /** The stored title: the name without its extension, every `-` turned into a space. */
  function ResourceTitle(name: string): (title: string)
    ensures '-' !in title
  {
    ReplaceAll(StripExtension(name), '-', " ")
  }

  /** The stored `fileType`: `name.split('.').pop().toUpperCase()`. */
  function ResourceFileType(name: string): (t: string)
    ensures '.' !in t
  {
    AfterLastSpec(name, '.');
    Upper(AfterLast(name, '.'))
  }

  /** The stored `fileType` is the extension the downloads page classifies by, in upper case. */
  lemma ResourceFileTypeIsExtension(name: string)
    ensures Lower(ResourceFileType(name)) == Downloads.Extension(name)
  {
    LowerUpper(AfterLast(name, '.'));
  }

  /** A name with no dot is stored as its own title (dashes turned into spaces) and file type. */
  lemma UndottedResource(name: string)
    requires '.' !in name
    ensures ResourceTitle(name) == ReplaceAll(name, '-', " ")
    ensures ResourceFileType(name) == Upper(name)
  {
    AfterLastSpec(name, '.');
  }

  /** The download record `saveResourceToIndexedDB(name)` puts, with `Date.now()` as its id. */
  function ResourceRecord(name: string, now: int, size: string): (r: Record)
    ensures r.Download? && r.id == Num(now) && r.filename == name
    ensures r.title == ResourceTitle(name) && r.fileType == ResourceFileType(name)
    ensures r.path == "/downloads/" + name
  {
    Download(Num(now), name, ResourceTitle(name), ResourceFileType(name), size, "Downloaded just now", "/downloads/" + name)
  }

  /** `saveResourceToIndexedDB(name)`: the size is random in the source and a parameter here. */
  method SaveResource(db: Database, name: string, now: int, size: string) returns (res: Outcome)
    requires db.Valid()
    modifies db
    ensures db.Valid()
    ensures !db.supported ==> res == Fail(Unsupported) && unchanged(db)
    ensures db.supported ==>
              && res == Pass && DOWNLOADS in old(db.Opened())
              && db.stores == old(db.Opened())[DOWNLOADS := old(db.Opened())[DOWNLOADS][Num(now) := ResourceRecord(name, now, size)]]
  {
    var put := db.Put(DOWNLOADS, ResourceRecord(name, now, size));
    if put.Failure? {
      return Fail(put.error);
    }
    return Pass;
  }
}

/**
 * The downloads page (js/downloads.js): classifying a file by its
 * extension, grouping the stored downloads, the type filter and the search
 * test on the listed items, and deleting a download by its title.
 */
module Downloads {
  import opened Common
  import opened Strings
  import opened Keys
  import opened IndexedDb

  const PDF := "pdf"
  const VIDEO := "video"
  const IMAGE := "image"
  const AUDIO := "audio"
  const OTHER := "other"

  /** Every answer `getFileType` can give. */
  const FILE_TYPES: seq<string> := [PDF, VIDEO, IMAGE, AUDIO, OTHER]

  const DOCUMENT_EXTENSIONS: seq<string> := ["pdf", "doc", "docx", "txt"]
  const VIDEO_EXTENSIONS: seq<string> := ["mp4", "webm", "avi", "mov"]
  const IMAGE_EXTENSIONS: seq<string> := ["jpg", "jpeg", "png", "gif", "webp"]
  const AUDIO_EXTENSIONS: seq<string> := ["mp3", "wav", "ogg"]

  /** `filename.split('.').pop().toLowerCase()`: a name without a dot is its own extension. */
  function Extension(filename: string): (e: string)
    ensures '.' !in filename ==> e == Lower(filename)
    ensures '.' !in e
    ensures forall k :: 0 <= k < |e| ==> !('A' <= e[k] <= 'Z')
  {
    ExtensionFacts(filename);
    Lower(AfterLast(filename, '.'))
  }

  lemma ExtensionFacts(filename: string)
    ensures var e := Lower(AfterLast(filename, '.'));
            && ('.' !in filename ==> e == Lower(filename))
            && '.' !in e
            && forall k :: 0 <= k < |e| ==> !('A' <= e[k] <= 'Z')
  {
    var r := AfterLast(filename, '.');
    AfterLastSpec(filename, '.');
    var e := Lower(r);
    forall k | 0 <= k < |e|
      ensures e[k] != '.' && !('A' <= e[k] <= 'Z')
    {
      assert e[k] == LowerChar(r[k]);
      assert r[k] != '.';
    }
  }

  /** `getFileType(filename)`: the first extension list holding the extension names the type. */
  function FileType(filename: string): (t: string)
    ensures t in FILE_TYPES
  {
    TypeOfExtension(Extension(filename))
  }

  function TypeOfExtension(e: string): (t: string)
    ensures t in FILE_TYPES
  {
    if e in DOCUMENT_EXTENSIONS then PDF
    else if e in VIDEO_EXTENSIONS then VIDEO
    else if e in IMAGE_EXTENSIONS then IMAGE
    else if e in AUDIO_EXTENSIONS then AUDIO
    else OTHER
  }

  predicate Disjoint(a: seq<string>, b: seq<string>) {
    forall e :: e in a ==> e !in b
  }

  /** No extension is in two of the lists. */
  lemma ExtensionListsDisjoint()
    ensures Disjoint(DOCUMENT_EXTENSIONS, VIDEO_EXTENSIONS)
    ensures Disjoint(DOCUMENT_EXTENSIONS, IMAGE_EXTENSIONS)
    ensures Disjoint(DOCUMENT_EXTENSIONS, AUDIO_EXTENSIONS)
    ensures Disjoint(VIDEO_EXTENSIONS, IMAGE_EXTENSIONS)
    ensures Disjoint(VIDEO_EXTENSIONS, AUDIO_EXTENSIONS)
    ensures Disjoint(IMAGE_EXTENSIONS, AUDIO_EXTENSIONS)
  {
  }

  /**
   * The four extension lists are disjoint, so each type is given exactly for
   * the extensions of its own list, whatever the order of the tests, and
   * `'other'` for everything else.
   */
  lemma FileTypeExact(filename: string)
    ensures var t, e := FileType(filename), Extension(filename);
            && (t == PDF <==> e in DOCUMENT_EXTENSIONS)
            && (t == VIDEO <==> e in VIDEO_EXTENSIONS)
            && (t == IMAGE <==> e in IMAGE_EXTENSIONS)
            && (t == AUDIO <==> e in AUDIO_EXTENSIONS)
            && (t == OTHER <==> e !in DOCUMENT_EXTENSIONS + VIDEO_EXTENSIONS + IMAGE_EXTENSIONS + AUDIO_EXTENSIONS)
  {
    ExtensionListsDisjoint();
  }

  /** The classification ignores the case of the file name. */
  lemma FileTypeCaseInsensitive(filename: string)
    ensures FileType(Lower(filename)) == FileType(filename)
    ensures FileType(Upper(filename)) == FileType(filename)
  {
    ExtensionCaseInsensitive(filename);
  }

  lemma ExtensionCaseInsensitive(filename: string)
    ensures Extension(Lower(filename)) == Extension(filename)
    ensures Extension(Upper(filename)) == Extension(filename)
  {
    var r := AfterLast(filename, '.');
    AfterLastLower(filename, '.');
    AfterLastUpper(filename, '.');
    LowerUpper(r);
    assert Extension(Lower(filename)) == Lower(Lower(r));
    assert Extension(Upper(filename)) == Lower(Upper(r));
  }

  /** `getFileType` never answers `'doc'`, so that `case` of `groupDownloadsByType` is never taken. */
  lemma DocCaseDead(filename: string)
    ensures FileType(filename) != "doc"
  {
  }

  /** The four groups `groupDownloadsByType` fills. */
  datatype Group = Documents | Videos | Images | Audio

  /** The `switch` of `groupDownloadsByType`: `'pdf'`, `'doc'` and the default all go to documents. */
  function GroupOf(fileType: string): (g: Group)
    ensures g == Videos <==> fileType == VIDEO
    ensures g == Images <==> fileType == IMAGE
    ensures g == Audio <==> fileType == AUDIO
  {
    match fileType
    case "pdf" => Documents
    case "doc" => Documents
    case "video" => Videos
    case "image" => Images
    case "audio" => Audio
    case _ => Documents
  }

  /** Both `'pdf'` and `'other'` files end up among the documents. */
  lemma DocumentsGroup(filename: string)
    ensures GroupOf(FileType(filename)) == Documents <==> FileType(filename) in {PDF, OTHER}
  {
  }

  /** What `groupDownloadsByType` reads of a download: its file name. */
  predicate IsDownload(r: Record) {
    r.Download?
  }

  function GroupOfRecord(r: Record): Group
    requires IsDownload(r)
  {
    GroupOf(FileType(r.filename))
  }

  /** The elements of `s` that `keep` accepts, in their order in `s`. */
  function Filter<T>(s: seq<T>, keep: T -> bool): (r: seq<T>)
    ensures |r| <= |s|
  {
    if s == [] then []
    else Filter(s[..|s| - 1], keep) + (if keep(s[|s| - 1]) then [s[|s| - 1]] else [])
  }

  /** Whether a record is a download of group `g`. */
  function InGroup(g: Group): Record -> bool {
    r => IsDownload(r) && GroupOfRecord(r) == g
  }

  /** The downloads of `s` that belong in group `g`, in their order in `s`. */
  function Select(s: seq<Record>, g: Group): seq<Record> {
    Filter(s, InGroup(g))
  }

  datatype Groups = Groups(documents: seq<Record>, videos: seq<Record>, images: seq<Record>, audio: seq<Record>)

  /** The downloads of group `g` in `groups`. */
  function Member(groups: Groups, g: Group): seq<Record> {
    match g
    case Documents => groups.documents
    case Videos => groups.videos
    case Images => groups.images
    case Audio => groups.audio
  }

  /**
   * `groupDownloadsByType(downloads)`: one pass that pushes each download
   * onto the end of its group.
   */
  method GroupDownloadsByType(downloads: seq<Record>) returns (groups: Groups)
    requires forall i :: 0 <= i < |downloads| ==> IsDownload(downloads[i])
    ensures forall g :: Member(groups, g) == Select(downloads, g)
  {
    groups := Groups([], [], [], []);
    for i := 0 to |downloads|
      invariant forall g :: Member(groups, g) == Select(downloads[..i], g)
    {
      var download := downloads[i];
      var group := GroupOf(FileType(download.filename));
      assert downloads[..i + 1] == downloads[..i] + [download];
      forall g
        ensures Select(downloads[..i + 1], g) == Select(downloads[..i], g) + (if g == group then [download] else [])
      {
        SelectSnoc(downloads[..i], download, g);
      }
      groups := Push(groups, group, download);
    }
    assert downloads[..|downloads|] == downloads;
  }

  /** `grouped[group].push(download)`. */
  function Push(groups: Groups, g: Group, x: Record): (r: Groups)
    ensures forall h :: Member(r, h) == Member(groups, h) + (if h == g then [x] else [])
  {
    match g
    case Documents => groups.(documents := groups.documents + [x])
    case Videos => groups.(videos := groups.videos + [x])
    case Images => groups.(images := groups.images + [x])
    case Audio => groups.(audio := groups.audio + [x])
  }

  lemma FilterSnoc<T>(p: seq<T>, x: T, keep: T -> bool)
    ensures Filter(p + [x], keep) == Filter(p, keep) + (if keep(x) then [x] else [])
  {
    var s := p + [x];
    assert s[..|s| - 1] == p && s[|s| - 1] == x;
  }

  /** `Filter` keeps only accepted elements. */
  lemma {:induction false} FilterOnly<T>(s: seq<T>, keep: T -> bool)
    ensures forall k :: 0 <= k < |Filter(s, keep)| ==> keep(Filter(s, keep)[k])
    decreases |s|
  {
    if s != [] {
      var p := s[..|s| - 1];
      FilterOnly(p, keep);
      var t, u := Filter(s, keep), Filter(p, keep);
      forall k | 0 <= k < |t|
        ensures keep(t[k])
      {
        if k < |u| {
          assert t[k] == u[k];
        }
      }
    }
  }

  /** `Filter` keeps each accepted element as often as `s` has it, and nothing else. */
  lemma {:induction false} FilterCount<T>(s: seq<T>, keep: T -> bool, x: T)
    ensures multiset(Filter(s, keep))[x] == if keep(x) then multiset(s)[x] else 0
    decreases |s|
  {
    if s != [] {
      var p, y := s[..|s| - 1], s[|s| - 1];
      assert s == p + [y];
      FilterCount(p, keep, x);
    }
  }

  /** Filtering a prefix gives a prefix of the filtered sequence. */
  lemma {:induction false} FilterPrefix<T>(s: seq<T>, keep: T -> bool, m: int)
    requires 0 <= m <= |s|
    ensures |Filter(s[..m], keep)| <= |Filter(s, keep)|
    ensures Filter(s[..m], keep) == Filter(s, keep)[..|Filter(s[..m], keep)|]
    decreases |s|
  {
    if m == |s| {
      assert s[..m] == s;
    } else {
      var p := s[..|s| - 1];
      assert p[..m] == s[..m];
      FilterPrefix(p, keep, m);
    }
  }

  /** An accepted element of `s` appears in the filtered sequence. */
  lemma {:induction false} FilterHas<T>(s: seq<T>, keep: T -> bool, i: int)
    requires 0 <= i < |s| && keep(s[i])
    ensures exists a :: 0 <= a < |Filter(s, keep)| && Filter(s, keep)[a] == s[i]
    decreases |s|
  {
    var p := s[..|s| - 1];
    var t, u := Filter(s, keep), Filter(p, keep);
    if i < |s| - 1 {
      FilterHas(p, keep, i);
      var a :| 0 <= a < |u| && u[a] == p[i];
      assert t[a] == s[i];
    } else {
      assert t[|u|] == s[i];
    }
  }

  /** Two accepted elements keep their relative order. */
  lemma FilterKeepsOrder<T>(s: seq<T>, keep: T -> bool, i: int, j: int)
    requires 0 <= i < j < |s| && keep(s[i]) && keep(s[j])
    ensures exists a, b :: 0 <= a < b < |Filter(s, keep)| && Filter(s, keep)[a] == s[i] && Filter(s, keep)[b] == s[j]
  {
    var q := s[..j + 1];
    var u, w := Filter(q[..j], keep), Filter(q, keep);
    assert q[..j] == s[..j];
    assert w == u + [s[j]];
    FilterHas(s[..j], keep, i);
    var a :| 0 <= a < |u| && u[a] == s[i];
    FilterPrefix(s, keep, j + 1);
    var t := Filter(s, keep);
    assert t[a] == w[a] == s[i] && t[|u|] == w[|u|] == s[j];
  }

  /** Group `g` holds downloads of group `g` only. */
  lemma SelectOnlyGroup(s: seq<Record>, g: Group)
    ensures forall k :: 0 <= k < |Select(s, g)| ==> IsDownload(Select(s, g)[k]) && GroupOfRecord(Select(s, g)[k]) == g
  {
    FilterOnly(s, InGroup(g));
  }

  /**
   * Every download lands in exactly one group: group `g` holds each
   * download of group `g` as often as `downloads` does, and nothing else.
   */
  lemma SelectCount(downloads: seq<Record>, g: Group, r: Record)
    ensures multiset(Select(downloads, g))[r] ==
              if IsDownload(r) && GroupOfRecord(r) == g then multiset(downloads)[r] else 0
  {
    FilterCount(downloads, InGroup(g), r);
  }

  /** No download is lost or duplicated: the four group sizes add up to the number of downloads. */
  lemma {:induction false} GroupsPartition(downloads: seq<Record>)
    requires forall i :: 0 <= i < |downloads| ==> IsDownload(downloads[i])
    ensures |Select(downloads, Documents)| + |Select(downloads, Videos)|
            + |Select(downloads, Images)| + |Select(downloads, Audio)| == |downloads|
    decreases |downloads|
  {
    if downloads != [] {
      var p, x := downloads[..|downloads| - 1], downloads[|downloads| - 1];
      assert downloads == p + [x];
      GroupsPartition(p);
      FilterSnoc(p, x, InGroup(Documents));
      FilterSnoc(p, x, InGroup(Videos));
      FilterSnoc(p, x, InGroup(Images));
      FilterSnoc(p, x, InGroup(Audio));
    }
  }

  /**
   * Grouping keeps the relative order: two downloads of one group appear in
   * it in the order they have in `downloads`.
   */
  lemma SelectKeepsOrder(s: seq<Record>, g: Group, i: int, j: int)
    requires 0 <= i < j < |s| && IsDownload(s[i]) && IsDownload(s[j])
    requires GroupOfRecord(s[i]) == g && GroupOfRecord(s[j]) == g
    ensures exists a, b :: 0 <= a < b < |Select(s, g)| && Select(s, g)[a] == s[i] && Select(s, g)[b] == s[j]
  {
    FilterKeepsOrder(s, InGroup(g), i, j);
    var t := Select(s, g);
    var a, b :| 0 <= a < b < |Filter(s, InGroup(g))| && Filter(s, InGroup(g))[a] == s[i] && Filter(s, InGroup(g))[b] == s[j];
    assert 0 <= a < b < |t| && t[a] == s[i] && t[b] == s[j];
  }

  lemma SelectSnoc(p: seq<Record>, x: Record, g: Group)
    requires IsDownload(x)
    ensures Select(p + [x], g) == Select(p, g) + (if GroupOfRecord(x) == g then [x] else [])
  {
    FilterSnoc(p, x, InGroup(g));
  }

  /** A `.download-item` as the page lists it: its `data-type`, its `h4` title and its `p` info text. */
  datatype Item = Item(kind: string, title: string, info: string)

  /** The filter buttons: an item stays visible iff the filter is `'all'` or names the item's type. */
  predicate ShownByFilter(filter: string, item: Item) {
    filter == "all" || item.kind == filter
  }

  /** The search box: an item stays visible iff its title or info contains the term, ignoring case. */
  predicate MatchesSearch(term: string, item: Item) {
    Contains(Lower(item.title), Lower(term)) || Contains(Lower(item.info), Lower(term))
  }

  /** The `'all'` filter shows every item; any other filter shows the items of one type only. */
  lemma FilterSelectsOneType(filter: string, other: string, item: Item)
    requires filter != "all" && other != "all" && filter != other
    ensures ShownByFilter("all", item)
    ensures !(ShownByFilter(filter, item) && ShownByFilter(other, item))
  {
  }

  /** The items a filter button leaves visible, in page order. */
  function Visible(filter: string, items: seq<Item>): seq<Item> {
    Filter(items, (item: Item) => ShownByFilter(filter, item))
  }

  /** `Filter` with a test every element passes keeps the whole sequence. */
  lemma {:induction false} FilterKeepsAll<T>(s: seq<T>, keep: T -> bool)
    requires forall x :: keep(x)
    ensures Filter(s, keep) == s
  {
    if s != [] {
      FilterKeepsAll(s[..|s| - 1], keep);
      assert s[..|s| - 1] + [s[|s| - 1]] == s;
    }
  }

  /**
   * The `'all'` button leaves the whole list visible. Any other button
   * leaves exactly the items of its type visible, each as often as listed.
   */
  lemma FilterShowsExactly(filter: string, items: seq<Item>, x: Item)
    ensures Visible("all", items) == items
    ensures filter != "all" ==> multiset(Visible(filter, items))[x] == if x.kind == filter then multiset(items)[x] else 0
  {
    FilterKeepsAll(items, (item: Item) => ShownByFilter("all", item));
    FilterCount(items, (item: Item) => ShownByFilter(filter, item), x);
  }

  /** An empty search box shows every item. */
  lemma EmptySearchShowsAll(item: Item)
    ensures MatchesSearch("", item)
  {
    assert StartsWith(Lower(item.title), Lower(""));
  }

  /** The search ignores the case of the term and of the item's text. */
  lemma SearchCaseInsensitive(term: string, item: Item)
    ensures MatchesSearch(Upper(term), item) == MatchesSearch(term, item)
    ensures MatchesSearch(term, Item(item.kind, Upper(item.title), Upper(item.info))) == MatchesSearch(term, item)
  {
    LowerUpper(term);
    LowerUpper(item.title);
    LowerUpper(item.info);
  }

  /** Typing more characters can only hide items: a match for `term + more` is a match for `term`. */
  lemma SearchNarrows(term: string, more: string, item: Item)
    requires MatchesSearch(term + more, item)
    ensures MatchesSearch(term, item)
  {
    LowerAppend(term, more);
    var t, m := Lower(term), Lower(more);
    assert (t + m)[..|t|] == t;
    assert Contains(t + m, t);
    if Contains(Lower(item.title), t + m) {
      ContainsTransitive(Lower(item.title), t + m, t);
    } else {
      ContainsTransitive(Lower(item.info), t + m, t);
    }
  }

  /** `download.title === title`: only a download record has a title. */
  predicate HasTitle(r: Record, title: string) {
    r.Download? && r.title == title
  }

  /** `downloads.find(d => d.title === title)`: the first record with that title. */
  function FirstWithTitle(s: seq<Record>, title: string): (r: Option<Record>)
    ensures r.None? <==> forall i :: 0 <= i < |s| ==> !HasTitle(s[i], title)
    ensures r.Some? ==> r.value in s && HasTitle(r.value, title)
  {
    if s == [] then None
    else if HasTitle(s[0], title) then Some(s[0])
    else FirstWithTitle(s[1..], title)
  }

  /** What `find` returns is the first match: every record before it lacks the title. */
  lemma {:induction false} FirstWithTitleIsFirst(s: seq<Record>, title: string)
    requires FirstWithTitle(s, title).Some?
    ensures exists i :: && 0 <= i < |s| && s[i] == FirstWithTitle(s, title).value
                        && forall j :: 0 <= j < i ==> !HasTitle(s[j], title)
  {
    if !HasTitle(s[0], title) {
      FirstWithTitleIsFirst(s[1..], title);
      var i :| && 0 <= i < |s[1..]| && s[1..][i] == FirstWithTitle(s, title).value
               && forall j :: 0 <= j < i ==> !HasTitle(s[1..][j], title);
      assert s[i + 1] == s[1..][i];
      forall j | 0 <= j < i + 1
        ensures !HasTitle(s[j], title)
      {
        if j > 0 {
          assert s[j] == s[1..][j - 1];
        }
      }
    } else {
      assert s[0] == FirstWithTitle(s, title).value;
    }
  }

  /** The keys of the records in `store` with title `title`. */
  function TitledKeys(store: Store, title: string): set<Key> {
    set k | k in store && HasTitle(store[k], title)
  }

  /**
   * `deleteFromIndexedDB(title)` leaves `after` from `before`: with no record
   * of that title nothing changes; otherwise exactly the titled record with
   * the least key is gone.
   */
  ghost predicate DeletedFirstTitled(before: Store, after: Store, title: string) {
    && (TitledKeys(before, title) == {} ==> after == before)
    && (TitledKeys(before, title) != {} ==>
          exists k :: && k in TitledKeys(before, title)
                      && (forall j :: j in TitledKeys(before, title) && j != k ==> Less(k, j))
                      && after == before - {k})
  }

  /**
   * In a key-ordered listing of the store, the first record with the title
   * is the titled record with the least key; there is none iff no record of
   * the store has the title.
   */
  lemma FirstTitledIsLeast(store: Store, s: seq<Record>, title: string)
    requires KeyedById(store) && Enumerates(store, s) && KeySorted(s)
    ensures FirstWithTitle(s, title).None? <==> TitledKeys(store, title) == {}
    ensures FirstWithTitle(s, title).Some? ==>
              var k := FirstWithTitle(s, title).value.id;
              && k in TitledKeys(store, title)
              && forall j :: j in TitledKeys(store, title) && j != k ==> Less(k, j)
  {
    var r := FirstWithTitle(s, title);
    if r.None? {
      forall k | k in store
        ensures !HasTitle(store[k], title)
      {
        assert store[k] in s;
      }
    } else {
      FirstWithTitleIsFirst(s, title);
      var i :| && 0 <= i < |s| && s[i] == r.value
               && forall j :: 0 <= j < i ==> !HasTitle(s[j], title);
      assert s[i].id in TitledKeys(store, title);
      forall j | j in TitledKeys(store, title) && j != s[i].id
        ensures Less(s[i].id, j)
      {
        assert store[j] in s;
        var m :| 0 <= m < |s| && s[m] == store[j];
        assert store[j].id == j && HasTitle(s[m], title);
        assert m >= i;
        assert m != i;
      }
    }
  }

  /**
   * `deleteFromIndexedDB(title)` once the IndexedDB request is awaited
   * properly: open the database, list the `downloads` store, find the first
   * record with the title and delete it by its `id`.
   */
  method DeleteFromIndexedDB(db: Database, title: string) returns (res: Outcome)
    requires db.Valid()
    modifies db
    ensures db.Valid()
    ensures !db.supported ==> res == Fail(Unsupported) && unchanged(db)
    ensures db.supported ==>
              && res == Pass
              && db.version == DB_VERSION && db.nextId == old(db.OpenedNextId())
              && DOWNLOADS in old(db.Opened()) && DOWNLOADS in db.stores
              && db.stores == old(db.Opened())[DOWNLOADS := db.stores[DOWNLOADS]]
              && DeletedFirstTitled(old(db.Opened())[DOWNLOADS], db.stores[DOWNLOADS], title)
  {
    var listing := db.GetAll(DOWNLOADS);
    if listing.Failure? {
      return Fail(listing.error);
    }
    ghost var before := db.stores;
    var found := FirstWithTitle(listing.value, title);
    FirstTitledIsLeast(db.stores[DOWNLOADS], listing.value, title);
    if found.None? {
      return Pass;
    }
    res := db.Delete(DOWNLOADS, found.value.id);
    assert db.stores[DOWNLOADS] == before[DOWNLOADS] - {found.value.id};
  }

  /**
   * `deleteFromIndexedDB(title)` as written: `await store.getAll()` yields
   * the IDBRequest itself, which has no `find` method, so the call throws a
   * TypeError once the database is open and nothing is deleted.
   */
  method DeleteFromIndexedDBAsWritten(db: Database, title: string) returns (res: Outcome)
    requires db.Valid()
    modifies db
    ensures db.Valid()
    ensures !db.supported ==> res == Fail(Unsupported) && unchanged(db)
    ensures db.supported ==>
              && res == Fail(TypeError)
              && db.stores == old(db.Opened()) && db.nextId == old(db.OpenedNextId())
  {
    var status := db.Open();
    if status.Fail? {
      return Fail(status.error);
    }
    return Fail(TypeError);
  }

  /**
   * Where a record has the title, the corrected deletion removes one and the
   * code as written (which leaves the store as it was) does not.
   */
  lemma TitledRecordRemoved(before: Store, after: Store, title: string)
    requires TitledKeys(before, title) != {} && DeletedFirstTitled(before, after, title)
    ensures after != before
    ensures |after| == |before| - 1
  {
    var k :| && k in TitledKeys(before, title)
             && (forall j :: j in TitledKeys(before, title) && j != k ==> Less(k, j))
             && after == before - {k};
    assert k in before && k !in after;
  }
}

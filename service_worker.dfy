/**
 * service-worker.js: the fetch router, the three caching strategies, the
 * size-bounded eviction `trimCache`, the 24-hour staleness test, install
 * (precaching the app shell) and activate (dropping old caches).
 *
 * The Cache API is a `Worker` object: cache names in creation order (the
 * order `caches.keys()` and `caches.match` use) and, per cache, its entries
 * in insertion order. The network is the outcome of the one `fetch` a
 * strategy makes, passed in; the clock is the parameter `now`.
 */
module ServiceWorker {
  import opened Common
  import opened Strings

  const STATIC_CACHE_NAME := "rvs-static-v1.0.0"
  const DYNAMIC_CACHE_NAME := "rvs-dynamic-v1.0.0"
  const MEDIA_CACHE_NAME := "rvs-media-v1.0.0"

  /** The app shell precached on install, as paths on the worker's own origin. */
  const APP_SHELL: seq<string> := [
    "/", "/index.html", "/manifest.json",
    "/css/main.css", "/css/responsive.css", "/css/themes.css",
    "/js/app.js", "/js/utils.js", "/js/offline.js",
    "/assets/images/rajasthan-logo.png", "/assets/images/india-emblem.png",
    "/assets/images/icons/icon-72x72.png", "/assets/images/icons/icon-96x96.png",
    "/assets/images/icons/icon-128x128.png", "/assets/images/icons/icon-144x144.png",
    "/assets/images/icons/icon-152x152.png", "/assets/images/icons/icon-192x192.png",
    "/assets/images/icons/icon-384x384.png", "/assets/images/icons/icon-512x512.png",
    "/pages/offline.html"
  ]

  const OFFLINE_PAGE := "/pages/offline.html"
  const IMAGE_PLACEHOLDER := "/assets/images/placeholder-image.png"
  const VIDEO_PLACEHOLDER := "/assets/images/video-placeholder.png"

  /** 100 MiB, in bytes. */
  const MAX_CACHE_SIZE := 100 * 1024 * 1024
  /** `trimCache` leaves a cache of at most this many entries alone. */
  const TRIM_THRESHOLD := 20
  /** 24 hours, in milliseconds. */
  const DAY := 24 * 60 * 60 * 1000

  const MEDIA_EXTENSIONS: seq<string> := ["jpg", "jpeg", "png", "gif", "webp", "mp4", "webm", "mp3", "wav"]
  const IMAGE_EXTENSIONS: seq<string> := ["jpg", "jpeg", "png", "gif", "webp"]
  const VIDEO_EXTENSIONS: seq<string> := ["mp4", "webm"]

  datatype ResponseType = Basic | Cors | Opaque | OpaqueRedirect | NetworkErrorType

  /** A response: its status, its `type`, and the size of its body in bytes. */
  datatype Response = Response(status: int, rtype: ResponseType, size: nat)

  datatype NetOutcome = Received(response: Response) | NetworkError

  /**
   * A request: its method (`verb`), its full URL (`request.url`), the origin and
   * pathname `new URL(request.url)` parses out of it, and its Accept header.
   */
  datatype Request = Request(verb: string, url: string, origin: string, pathname: string, accept: Option<string>)

  /**
   * What the fetch handler leads to: a strategy's promise settles to a
   * response, to `undefined` (a cache miss, which the browser turns into a
   * network error), or to a rejection; `NotHandled` is a request the handler
   * returns from without calling `respondWith`, which the browser then
   * fetches itself.
   */
  datatype Reply = Served(response: Response) | Undefined | Rejected | NotHandled

  datatype Strategy = NotIntercepted | NetworkFirst | CacheOnDemand | CacheFirst

  datatype Entry = Entry(url: string, response: Response)

  /** The URL ends, with letter case compared exactly, in `.` and one of `exts`. */
  predicate EndsWithExtension(url: string, exts: seq<string>) {
    exists i :: 0 <= i < |exts| && EndsWith(url, "." + exts[i])
  }

  /** `isMediaRequest`: the whole URL ends in a media extension, in any letter case. */
  predicate IsMediaRequest(url: string) {
    EndsWithExtension(Lower(url), MEDIA_EXTENSIONS)
  }

  lemma IsMediaRequestCaseInsensitive(url: string)
    ensures IsMediaRequest(Upper(url)) == IsMediaRequest(url)
    ensures IsMediaRequest(Lower(url)) == IsMediaRequest(url)
  {
    LowerUpper(url);
  }

  /** The fetch handler's choice of strategy, tested in this order. */
  function Route(req: Request, origin: string): (s: Strategy)
    ensures req.origin != origin <==> s == NotIntercepted
    ensures s == NetworkFirst <==> req.origin == origin && StartsWith(req.pathname, "/api/")
    ensures s == CacheOnDemand <==>
              req.origin == origin && !StartsWith(req.pathname, "/api/") && IsMediaRequest(req.url)
  {
    if req.origin != origin then NotIntercepted
    else if StartsWith(req.pathname, "/api/") then NetworkFirst
    else if IsMediaRequest(req.url) then CacheOnDemand
    else CacheFirst
  }

  /**
   * The placeholder used when a media fetch fails: the extension tests here
   * are case-sensitive, unlike `isMediaRequest`.
   */
  function MediaPlaceholder(url: string): (p: Option<string>)
    ensures p == Some(IMAGE_PLACEHOLDER) <==> EndsWithExtension(url, IMAGE_EXTENSIONS)
    ensures p == Some(VIDEO_PLACEHOLDER) <==>
              !EndsWithExtension(url, IMAGE_EXTENSIONS) && EndsWithExtension(url, VIDEO_EXTENSIONS)
    ensures p.Some? ==> IsMediaRequest(url)
  {
    if EndsWithExtension(url, IMAGE_EXTENSIONS) then
      EndsWithExtensionLower(url, IMAGE_EXTENSIONS, 0);
      Some(IMAGE_PLACEHOLDER)
    else if EndsWithExtension(url, VIDEO_EXTENSIONS) then
      EndsWithExtensionLower(url, VIDEO_EXTENSIONS, 5);
      Some(VIDEO_PLACEHOLDER)
    else None
  }

  /** Lower-casing a URL keeps a suffix that lower-casing does not change. */
  lemma LowerKeepsSuffix(url: string, t: string)
    requires EndsWith(url, t) && Lower(t) == t
    ensures EndsWith(Lower(url), t)
  {
    var lowered := Lower(url);
    forall k | 0 <= k < |t|
      ensures lowered[|lowered| - |t|..][k] == t[k]
    {
      assert url[|url| - |t| + k] == t[k];
      assert Lower(t)[k] == LowerChar(t[k]);
    }
  }

  /** The dotted media extensions are already in lower case. */
  lemma MediaExtensionLower(j: int)
    requires 0 <= j < |MEDIA_EXTENSIONS|
    ensures Lower("." + MEDIA_EXTENSIONS[j]) == "." + MEDIA_EXTENSIONS[j]
  {
    var t := "." + MEDIA_EXTENSIONS[j];
    forall k | 0 <= k < |t|
      ensures !('A' <= t[k] <= 'Z')
    {
    }
    LowerOfLowercase(t);
  }

  /** A lower-case extension match is also a (case-insensitive) media match. */
  lemma EndsWithExtensionLower(url: string, exts: seq<string>, offset: int)
    requires 0 <= offset && offset + |exts| <= |MEDIA_EXTENSIONS|
    requires forall i :: 0 <= i < |exts| ==> exts[i] == MEDIA_EXTENSIONS[offset + i]
    requires EndsWithExtension(url, exts)
    ensures IsMediaRequest(url)
  {
    var i :| 0 <= i < |exts| && EndsWith(url, "." + exts[i]);
    var j := offset + i;
    MediaExtensionLower(j);
    LowerKeepsSuffix(url, "." + MEDIA_EXTENSIONS[j]);
  }

  /** An upper-case media URL is routed to cache-on-demand but gets no placeholder. */
  lemma UpperCaseMediaHasNoPlaceholder()
    ensures IsMediaRequest("a.MP4") && MediaPlaceholder("a.MP4") == None
  {
    var url := "a.MP4";
    assert Lower(url) == "a.mp4" by {
      assert Lower(url)[0] == 'a' && Lower(url)[1] == '.' && Lower(url)[2] == 'm';
      assert Lower(url)[3] == 'p' && Lower(url)[4] == '4';
    }
    assert EndsWith(Lower(url), "." + MEDIA_EXTENSIONS[5]);
    forall i | 0 <= i < |IMAGE_EXTENSIONS|
      ensures !EndsWith(url, "." + IMAGE_EXTENSIONS[i])
    {
      assert url[|url| - 1] == '4';
    }
    forall i | 0 <= i < |VIDEO_EXTENSIONS|
      ensures !EndsWith(url, "." + VIDEO_EXTENSIONS[i])
    {
      assert url[|url| - 2] == 'P';
    }
  }

  /**
   * `request.headers.get('accept').includes('text/html')`. With no Accept
   * header `get` returns null and the call throws, which, like a non-HTML
   * Accept, ends in a rejection.
   */
  predicate AcceptsHtml(accept: Option<string>) {
    accept.Some? && Contains(accept.value, "text/html")
  }

  /** `metadata && now - metadata.timestamp > 24h`: strictly older than a day. */
  predicate IsStale(stored: Option<int>, now: int) {
    stored.Some? && now - stored.value > DAY
  }

  /** `cache.match`'s answer turned into a reply: a miss settles to `undefined`. */
  function FromCache(hit: Option<Response>): (r: Reply)
    ensures r.Served? <==> hit.Some?
    ensures hit.Some? ==> r.response == hit.value
  {
    if hit.Some? then Served(hit.value) else Undefined
  }

  /**
   * The `catch` block of `networkFirstStrategy`, given the cache hit for the
   * request, the time recorded for its URL and the offline page's reply:
   * a hit strictly older than a day gives the offline page, any other hit is
   * served, and a miss gives the offline page to an HTML request and
   * rejects anything else.
   */
  function NetworkFirstFallback(req: Request, cached: Option<Response>, stored: Option<int>, now: int, offline: Reply): (r: Reply)
    ensures cached.None? ==> r == (if AcceptsHtml(req.accept) then offline else Rejected)
    ensures cached.Some? && IsStale(stored, now) ==> r == offline
    ensures cached.Some? && !IsStale(stored, now) ==> r == Served(cached.value)
  {
    if cached.Some? then
      if IsStale(stored, now) then offline else Served(cached.value)
    else if AcceptsHtml(req.accept) then offline
    else Rejected
  }

  /**
   * `networkFirstStrategy` as written, on the reply it settles to. A 200
   * response is served only if `cache.put` resolves, and `cache.put` rejects
   * a non-GET request, so such a response falls to the `catch` block. The
   * metadata `getMetadata` reads is always absent: `localStorage` does not
   * exist in a service worker, and both metadata helpers swallow the error.
   */
  function NetworkFirstAsWritten(req: Request, net: NetOutcome, cached: Option<Response>, now: int, offline: Reply): (r: Reply)
  {
    if net.Received? && net.response.status == 200 && req.verb == "GET" then Served(net.response)
    else NetworkFirstFallback(req, cached, None, now, offline)
  }

  /** As written, the reply never depends on the time: no cached response is ever stale. */
  lemma AsWrittenNeverStale(req: Request, net: NetOutcome, cached: Option<Response>, now: int, later: int, offline: Reply)
    ensures NetworkFirstAsWritten(req, net, cached, now, offline) == NetworkFirstAsWritten(req, net, cached, later, offline)
    ensures cached.Some? && !(net.Received? && net.response.status == 200 && req.verb == "GET") ==>
              NetworkFirstAsWritten(req, net, cached, now, offline) == Served(cached.value)
  {
  }

  /**
   * A day and a millisecond after a GET response was stored, with the
   * network down, the code as written serves the stale copy; the corrected
   * fallback gives the offline page.
   */
  lemma StaleServedAsWritten(req: Request, stale: Response, offline: Reply)
    requires req.verb == "GET" && offline != Served(stale)
    ensures NetworkFirstAsWritten(req, NetworkError, Some(stale), DAY + 1, offline) == Served(stale)
    ensures NetworkFirstFallback(req, Some(stale), Some(0), DAY + 1, offline) == offline
    ensures NetworkFirstAsWritten(req, NetworkError, Some(stale), DAY + 1, offline) != NetworkFirstFallback(req, Some(stale), Some(0), DAY + 1, offline)
  {
  }

  /**
   * As written, a successful response to a non-GET request (which never
   * matches a cache) is not served: the reply is the offline page or a
   * rejection.
   */
  lemma NonGetSuccessLostAsWritten(req: Request, response: Response, now: int, offline: Reply)
    requires req.verb != "GET" && response.status == 200 && offline != Served(response)
    ensures NetworkFirstAsWritten(req, Received(response), None, now, offline) != Served(response)
    ensures NetworkFirstAsWritten(req, Received(response), None, now, offline) == (if AcceptsHtml(req.accept) then offline else Rejected)
  {
  }

  /** Each URL occurs at most once in a cache. */
  predicate UniqueUrls(entries: seq<Entry>) {
    forall i, j :: 0 <= i < j < |entries| ==> entries[i].url != entries[j].url
  }

  /** `cache.match(url)` on one cache. */
  function Lookup(entries: seq<Entry>, url: string): (r: Option<Response>)
    ensures r.Some? <==> exists i :: 0 <= i < |entries| && entries[i].url == url
    ensures r.Some? ==> Entry(url, r.value) in entries
  {
    if entries == [] then None
    else if entries[0].url == url then Some(entries[0].response)
    else
      var r := Lookup(entries[1..], url);
      assert forall i :: 1 <= i < |entries| ==> entries[i] == entries[1..][i - 1];
      r
  }

  /** The cache without the entry for `url` (`cache.delete(url)`). */
  function Without(entries: seq<Entry>, url: string): (r: seq<Entry>)
    ensures forall e :: e in r <==> e in entries && e.url != url
    ensures UniqueUrls(entries) ==> UniqueUrls(r)
    ensures |r| <= |entries|
  {
    if entries == [] then []
    else if entries[0].url == url then Without(entries[1..], url)
    else
      var rest := Without(entries[1..], url);
      assert forall e :: e in rest ==> e in entries[1..];
      [entries[0]] + rest
  }

  lemma WithoutFront(entries: seq<Entry>)
    requires UniqueUrls(entries) && entries != []
    ensures Without(entries, entries[0].url) == entries[1..]
  {
    WithoutAbsent(entries[1..], entries[0].url);
  }

  lemma {:induction false} WithoutAbsent(entries: seq<Entry>, url: string)
    requires forall i :: 0 <= i < |entries| ==> entries[i].url != url
    ensures Without(entries, url) == entries
  {
    if entries != [] {
      WithoutAbsent(entries[1..], url);
    }
  }

  /** `cache.put(url, response)`: any entry for the URL is replaced by one at the end. */
  function PutInto(entries: seq<Entry>, url: string, response: Response): (r: seq<Entry>)
    ensures UniqueUrls(entries) ==> UniqueUrls(r)
  {
    Without(entries, url) + [Entry(url, response)]
  }

  /** After a put, the URL finds the new response and every other URL finds what it found before. */
  lemma PutIntoLookup(entries: seq<Entry>, url: string, response: Response)
    ensures Lookup(PutInto(entries, url, response), url) == Some(response)
    ensures forall u :: u != url ==> Lookup(PutInto(entries, url, response), u) == Lookup(entries, u)
  {
    var rest := Without(entries, url);
    forall u | u != url
      ensures Lookup(rest + [Entry(url, response)], u) == Lookup(entries, u)
    {
      LookupWithout(entries, url, u);
      LookupAppend(rest, Entry(url, response), u);
    }
    LookupLast(rest, url, response);
  }

  lemma {:induction false} LookupWithout(entries: seq<Entry>, url: string, u: string)
    requires u != url
    ensures Lookup(Without(entries, url), u) == Lookup(entries, u)
  {
    if entries != [] {
      LookupWithout(entries[1..], url, u);
      if entries[0].url != url {
        var rest := Without(entries[1..], url);
        assert ([entries[0]] + rest)[1..] == rest;
      }
    }
  }

  lemma {:induction false} LookupAppend(entries: seq<Entry>, e: Entry, u: string)
    requires e.url != u
    ensures Lookup(entries + [e], u) == Lookup(entries, u)
  {
    if entries != [] {
      assert (entries + [e])[1..] == entries[1..] + [e];
      LookupAppend(entries[1..], e, u);
    } else {
      assert ([e])[1..] == [];
    }
  }

  lemma {:induction false} LookupLast(entries: seq<Entry>, url: string, response: Response)
    requires forall e :: e in entries ==> e.url != url
    ensures Lookup(entries + [Entry(url, response)], url) == Some(response)
  {
    if entries != [] {
      assert (entries + [Entry(url, response)])[1..] == entries[1..] + [Entry(url, response)];
      LookupLast(entries[1..], url, response);
    }
  }

  /** `caches.match(url)`: the first cache, in creation order, that holds the URL. */
  function FirstMatch(names: seq<string>, caches: map<string, seq<Entry>>, url: string): (r: Option<Response>)
    ensures r.None? <==> forall i :: 0 <= i < |names| && names[i] in caches ==> Lookup(caches[names[i]], url).None?
  {
    if names == [] then None
    else if names[0] in caches && Lookup(caches[names[0]], url).Some? then Lookup(caches[names[0]], url)
    else
      var r := FirstMatch(names[1..], caches, url);
      assert forall i :: 1 <= i < |names| ==> names[i] == names[1..][i - 1];
      r
  }

  /** What a write of `response` for `req` leaves in a cache: a non-GET request cannot be put. */
  function Written(req: Request, entries: seq<Entry>, response: Response): seq<Entry> {
    if req.verb == "GET" then PutInto(entries, req.url, response) else entries
  }

  lemma ReplaceTwice(m: map<string, seq<Entry>>, k: string, a: seq<Entry>, b: seq<Entry>)
    ensures m[k := a][k := b] == m[k := b]
  {
  }

  /** A URL held by some cache is found by `caches.match`. */
  lemma MatchFound(names: seq<string>, caches: map<string, seq<Entry>>, name: string, url: string)
    requires name in names && name in caches && Lookup(caches[name], url).Some?
    ensures FirstMatch(names, caches, url).Some?
  {
    var i :| 0 <= i < |names| && names[i] == name;
  }

  lemma OfflinePageInShell(origin: string)
    ensures origin + OFFLINE_PAGE in ShellUrls(origin)
  {
    assert ShellUrls(origin)[19] == origin + OFFLINE_PAGE;
  }

  /** The total body size of a cache's entries. */
  function Total(entries: seq<Entry>): nat {
    if entries == [] then 0 else Total(entries[..|entries| - 1]) + entries[|entries| - 1].response.size
  }

  lemma {:induction false} TotalFront(entries: seq<Entry>)
    requires entries != []
    ensures Total(entries) == entries[0].response.size + Total(entries[1..])
    decreases |entries|
  {
    if |entries| > 1 {
      var init := entries[..|entries| - 1];
      TotalFront(init);
      assert init[1..] == entries[1..][..|entries[1..]| - 1];
    } else {
      assert entries[1..] == [];
    }
  }

  /** The `while` loop of `trimCache`: drop the oldest entry while the total exceeds `maxSize`. */
  function Evict(entries: seq<Entry>, maxSize: int): seq<Entry>
    decreases |entries|
  {
    if entries != [] && Total(entries) > maxSize then Evict(entries[1..], maxSize) else entries
  }

  /** `trimCache(cacheName, maxSize)` on the cache's entries in enumeration order. */
  function Trimmed(entries: seq<Entry>, maxSize: int): seq<Entry> {
    if |entries| <= TRIM_THRESHOLD then entries else Evict(entries, maxSize)
  }

  /**
   * Eviction removes a prefix and keeps the rest unchanged; afterwards the
   * total is within `maxSize` or nothing is left; and it stops as soon as it
   * can: every longer suffix is still over the limit.
   */
  lemma {:induction false} EvictSpec(entries: seq<Entry>, maxSize: int)
    ensures var r := Evict(entries, maxSize);
            && |r| <= |entries|
            && r == entries[|entries| - |r|..]
            && (Total(r) <= maxSize || r == [])
            && (forall j :: 0 <= j < |entries| - |r| ==> Total(entries[j..]) > maxSize)
    decreases |entries|
  {
    if entries != [] && Total(entries) > maxSize {
      EvictSpec(entries[1..], maxSize);
      var r := Evict(entries[1..], maxSize);
      forall j | 0 <= j < |entries| - |r|
        ensures Total(entries[j..]) > maxSize
      {
        if j > 0 {
          assert entries[j..] == entries[1..][j - 1..];
        }
      }
    }
  }

  /** Removing the oldest entry: the total drops by its size and the rest is what `cache.delete` leaves. */
  lemma DropOldest(queue: seq<Entry>)
    requires UniqueUrls(queue) && queue != []
    ensures Total(queue) == queue[0].response.size + Total(queue[1..])
    ensures Without(queue, queue[0].url) == queue[1..]
    ensures UniqueUrls(queue[1..])
  {
    TotalFront(queue);
    WithoutFront(queue);
  }

  /** The `for` loop of `trimCache` that adds up the sizes of the cached responses. */
  method CacheSize(keys: seq<Entry>) returns (cacheSize: nat)
    ensures cacheSize == Total(keys)
  {
    cacheSize := 0;
    for i := 0 to |keys|
      invariant cacheSize == Total(keys[..i])
    {
      assert keys[..i + 1][..i] == keys[..i];
      cacheSize := cacheSize + keys[i].response.size;
    }
    assert keys[..|keys|] == keys;
  }

  /** A cache of at most 20 entries is never trimmed, whatever its size. */
  lemma SmallCacheUntouched(entries: seq<Entry>, maxSize: int)
    requires |entries| <= TRIM_THRESHOLD
    ensures Trimmed(entries, maxSize) == entries
  {
  }

  /** Trimming keeps a suffix, so URLs stay unique. */
  lemma TrimmedUnique(entries: seq<Entry>, maxSize: int)
    requires UniqueUrls(entries)
    ensures UniqueUrls(Trimmed(entries, maxSize))
  {
    EvictSpec(entries, maxSize);
    var r := Trimmed(entries, maxSize);
    var d := |entries| - |r|;
    forall i, j | 0 <= i < j < |r|
      ensures r[i].url != r[j].url
    {
      assert r[i] == entries[d + i] && r[j] == entries[d + j];
    }
  }

  /** No name occurs twice. */
  predicate Distinct(names: seq<string>) {
    forall i, j :: 0 <= i < j < |names| ==> names[i] != names[j]
  }

  predicate IsCurrent(name: string) {
    name == STATIC_CACHE_NAME || name == DYNAMIC_CACHE_NAME || name == MEDIA_CACHE_NAME
  }

  /** The cache names activate keeps, in their order. */
  function KeepCurrent(names: seq<string>): (r: seq<string>)
    ensures forall n :: n in r <==> n in names && IsCurrent(n)
  {
    if names == [] then []
    else KeepCurrent(names[..|names| - 1]) + (if IsCurrent(names[|names| - 1]) then [names[|names| - 1]] else [])
  }

  /** `names` with `name` taken out (`caches.delete(name)`). */
  function Erase(names: seq<string>, name: string): (r: seq<string>)
    ensures forall n :: n in r <==> n in names && n != name
  {
    if names == [] then []
    else (if names[0] == name then [] else [names[0]]) + Erase(names[1..], name)
  }

  lemma {:induction false} EraseAbsent(names: seq<string>, name: string)
    requires name !in names
    ensures Erase(names, name) == names
  {
    if names != [] {
      EraseAbsent(names[1..], name);
    }
  }

  lemma {:induction false} EraseMiddle(a: seq<string>, name: string, b: seq<string>)
    requires name !in a && name !in b
    ensures Erase(a + [name] + b, name) == a + b
  {
    if a == [] {
      assert ([name] + b)[0] == name && ([name] + b)[1..] == b;
      EraseAbsent(b, name);
    } else {
      var s := a + [name] + b;
      assert s[0] == a[0] && s[1..] == a[1..] + [name] + b;
      EraseMiddle(a[1..], name, b);
      assert a == [a[0]] + a[1..];
    }
  }

  /** The app shell's URLs on `origin`. */
  function ShellUrls(origin: string): (urls: seq<string>)
    ensures |urls| == |APP_SHELL|
    ensures forall i :: 0 <= i < |APP_SHELL| ==> urls[i] == origin + APP_SHELL[i]
  {
    seq(|APP_SHELL|, i requires 0 <= i < |APP_SHELL| => origin + APP_SHELL[i])
  }

  /**
   * The success condition of `cache.addAll(urls)`: every response is `ok`
   * (2xx) and none is a 206 partial response, which the Cache API refuses.
   */
  predicate AllOk(urls: seq<string>, net: string -> NetOutcome) {
    forall u :: u in urls ==>
      net(u).Received? && 200 <= net(u).response.status <= 299 && net(u).response.status != 206
  }

  /** `addAll` once every fetch succeeded: one `put` per URL, in list order. */
  function PutAll(entries: seq<Entry>, urls: seq<string>, net: string -> NetOutcome): (r: seq<Entry>)
    requires forall u :: u in urls ==> net(u).Received?
    ensures UniqueUrls(entries) ==> UniqueUrls(r)
    decreases |urls|
  {
    if urls == [] then entries
    else
      assert forall u :: u in urls[1..] ==> u in urls;
      PutAll(PutInto(entries, urls[0], net(urls[0]).response), urls[1..], net)
  }

  /** After `addAll`, a URL cached before can still be matched. */
  lemma {:induction false} PutAllKeeps(entries: seq<Entry>, urls: seq<string>, net: string -> NetOutcome, u: string)
    requires forall v :: v in urls ==> net(v).Received?
    requires Lookup(entries, u).Some?
    ensures Lookup(PutAll(entries, urls, net), u).Some?
    decreases |urls|
  {
    if urls != [] {
      assert forall v :: v in urls[1..] ==> v in urls;
      PutIntoLookup(entries, urls[0], net(urls[0]).response);
      PutAllKeeps(PutInto(entries, urls[0], net(urls[0]).response), urls[1..], net, u);
    }
  }

  /** After `addAll`, every listed URL can be matched. */
  lemma {:induction false} PutAllFinds(entries: seq<Entry>, urls: seq<string>, net: string -> NetOutcome, u: string)
    requires forall v :: v in urls ==> net(v).Received?
    requires u in urls
    ensures Lookup(PutAll(entries, urls, net), u).Some?
    decreases |urls|
  {
    assert forall v :: v in urls[1..] ==> v in urls;
    var next := PutInto(entries, urls[0], net(urls[0]).response);
    PutIntoLookup(entries, urls[0], net(urls[0]).response);
    if u == urls[0] {
      PutAllKeeps(next, urls[1..], net, u);
    } else {
      assert u in urls[1..] by {
        assert urls == [urls[0]] + urls[1..];
      }
      PutAllFinds(next, urls[1..], net, u);
    }
  }

  /** Once the shell is in the static cache, the offline page can be matched. */
  lemma InstalledOfflinePage(names: seq<string>, caches: map<string, seq<Entry>>, origin: string, net: string -> NetOutcome)
    requires AllOk(ShellUrls(origin), net)
    requires STATIC_CACHE_NAME in names && STATIC_CACHE_NAME in caches
    requires exists e :: caches[STATIC_CACHE_NAME] == PutAll(e, ShellUrls(origin), net)
    ensures FirstMatch(names, caches, origin + OFFLINE_PAGE).Some?
  {
    var e :| caches[STATIC_CACHE_NAME] == PutAll(e, ShellUrls(origin), net);
    OfflinePageInShell(origin);
    PutAllFinds(e, ShellUrls(origin), net, origin + OFFLINE_PAGE);
    MatchFound(names, caches, STATIC_CACHE_NAME, origin + OFFLINE_PAGE);
  }

  /**
   * The Cache API storage the worker sees, and the staleness metadata that
   * `storeMetadata`/`getMetadata` keep per URL (a map from URL to the time
   * the response was stored).
   */
  class Worker {
    const origin: string
    var names: seq<string>
    var caches: map<string, seq<Entry>>
    var metadata: map<string, int>

    ghost predicate Valid()
      reads this
    {
      && (forall n :: n in caches <==> n in names)
      && Distinct(names)
      && (forall n :: n in caches ==> UniqueUrls(caches[n]))
    }

    constructor (origin: string)
      ensures Valid()
      ensures this.origin == origin && names == [] && caches == map[] && metadata == map[]
    {
      this.origin := origin;
      names := [];
      caches := map[];
      metadata := map[];
    }

    /** `caches.match(url)`. */
    function Match(url: string): Option<Response>
      reads this
    {
      FirstMatch(names, caches, url)
    }

    /** `caches.match(request)`: only a GET request can match. */
    function MatchRequest(req: Request): Option<Response>
      reads this
    {
      if req.verb == "GET" then Match(req.url) else None
    }

    /** `caches.match('/pages/offline.html')`, resolved against the worker's origin. */
    function OfflinePage(): Reply
      reads this
    {
      FromCache(Match(origin + OFFLINE_PAGE))
    }

    /** The entries of cache `name`, empty if it does not exist yet. */
    function EntriesOf(name: string): seq<Entry>
      reads this
    {
      if name in caches then caches[name] else []
    }

    /** `caches.open(name)`: creates the cache, last in creation order, if it is absent. */
    method OpenCache(name: string)
      requires Valid()
      modifies this
      ensures Valid()
      ensures names == old(names) + (if name in old(caches) then [] else [name])
      ensures caches == old(caches)[name := old(EntriesOf(name))]
      ensures metadata == old(metadata)
    {
      if name !in caches {
        names := names + [name];
        caches := caches[name := []];
      }
    }

    /** The cache `name`, which exists, now holds `entries`: the effect of a completed write. */
    method SetEntries(name: string, entries: seq<Entry>)
      requires Valid() && name in caches && UniqueUrls(entries)
      modifies this
      ensures Valid()
      ensures names == old(names) && caches == old(caches)[name := entries] && metadata == old(metadata)
    {
      caches := caches[name := entries];
    }

    /**
     * `trimCache(name, maxSize)`: opens the cache, sums its sizes, then
     * deletes entries from the front while the running total is over the limit.
     */
    method TrimCache(name: string, maxSize: int)
      requires Valid()
      modifies this
      ensures Valid()
      ensures names == old(names) + (if name in old(caches) then [] else [name])
      ensures caches == old(caches)[name := Trimmed(old(EntriesOf(name)), maxSize)]
      ensures metadata == old(metadata)
    {
      ghost var start := caches;
      OpenCache(name);
      var keys := caches[name];
      if |keys| <= TRIM_THRESHOLD {
        return;
      }
      EvictOldest(name, maxSize);
      ReplaceTwice(start, name, keys, caches[name]);
    }

    /** The `while` loop of `trimCache`: delete the oldest entry while the total is over `maxSize`. */
    method EvictOldest(name: string, maxSize: int)
      requires Valid() && name in caches
      modifies this
      ensures Valid()
      ensures names == old(names) && metadata == old(metadata)
      ensures caches == old(caches)[name := Evict(old(caches[name]), maxSize)]
    {
      var keys := caches[name];
      var cacheSize := CacheSize(keys);
      ghost var others := caches;
      var queue := keys;
      while cacheSize > maxSize && |queue| > 0
        invariant cacheSize == Total(queue)
        invariant UniqueUrls(queue)
        invariant Evict(queue, maxSize) == Evict(keys, maxSize)
        invariant caches == others[name := queue]
        invariant Valid() && names == old(names) && metadata == old(metadata)
        decreases |queue|
      {
        var oldest := queue[0];
        DropOldest(queue);
        DeleteEntry(name, oldest.url);
        ReplaceTwice(others, name, queue, queue[1..]);
        queue := queue[1..];
        cacheSize := cacheSize - oldest.response.size;
      }
    }

    /** `cache.delete(url)` on the open cache `name`. */
    method DeleteEntry(name: string, url: string)
      requires Valid() && name in caches
      modifies this
      ensures Valid()
      ensures names == old(names) && metadata == old(metadata)
      ensures caches == old(caches)[name := Without(old(caches[name]), url)]
    {
      caches := caches[name := Without(caches[name], url)];
    }

    /**
     * `cacheFirstStrategy(request)`. A cache hit is served and nothing else
     * happens. Otherwise the network response is served; only a 200 `basic`
     * one is put in the dynamic cache (a non-GET request cannot be put), which
     * is then trimmed. A network failure gives the offline page to an HTML
     * request and rejects anything else.
     */
    method CacheFirstStrategy(req: Request, net: NetOutcome) returns (reply: Reply)
      requires Valid()
      modifies this
      ensures Valid()
      ensures metadata == old(metadata)
      ensures old(MatchRequest(req)).Some? ==>
                reply == Served(old(MatchRequest(req)).value) && unchanged(this)
      ensures old(MatchRequest(req)).None? && net.NetworkError? ==>
                reply == (if AcceptsHtml(req.accept) then old(OfflinePage()) else Rejected) && unchanged(this)
      ensures old(MatchRequest(req)).None? && net.Received? && !(net.response.status == 200 && net.response.rtype == Basic) ==>
                reply == Served(net.response) && unchanged(this)
      ensures old(MatchRequest(req)).None? && net.Received? && net.response.status == 200 && net.response.rtype == Basic ==>
                var written := if req.verb == "GET" then PutInto(old(EntriesOf(DYNAMIC_CACHE_NAME)), req.url, net.response)
                               else old(EntriesOf(DYNAMIC_CACHE_NAME));
                && reply == Served(net.response)
                && names == old(names) + (if DYNAMIC_CACHE_NAME in old(caches) then [] else [DYNAMIC_CACHE_NAME])
                && caches == old(caches)[DYNAMIC_CACHE_NAME := Trimmed(written, MAX_CACHE_SIZE)]
    {
      var cached := MatchRequest(req);
      if cached.Some? {
        return Served(cached.value);
      }
      if net.NetworkError? {
        if AcceptsHtml(req.accept) {
          return OfflinePage();
        }
        return Rejected;
      }
      var response := net.response;
      if response.status != 200 || response.rtype != Basic {
        return Served(response);
      }
      CacheAndTrim(req, response);
      return Served(response);
    }

    /**
     * The writing part of `cacheFirstStrategy`: open the dynamic cache, put
     * the response (a non-GET request cannot be put), then trim the cache.
     */
    method CacheAndTrim(req: Request, response: Response)
      requires Valid()
      modifies this
      ensures Valid()
      ensures metadata == old(metadata)
      ensures names == old(names) + (if DYNAMIC_CACHE_NAME in old(caches) then [] else [DYNAMIC_CACHE_NAME])
      ensures caches == old(caches)[DYNAMIC_CACHE_NAME := Trimmed(Written(req, old(EntriesOf(DYNAMIC_CACHE_NAME)), response), MAX_CACHE_SIZE)]
    {
      ghost var start := caches;
      ghost var written := Written(req, EntriesOf(DYNAMIC_CACHE_NAME), response);
      PutDynamic(req, response);
      TrimCache(DYNAMIC_CACHE_NAME, MAX_CACHE_SIZE);
      ReplaceTwice(start, DYNAMIC_CACHE_NAME, written, Trimmed(written, MAX_CACHE_SIZE));
    }

    /** Opens the dynamic cache and puts the response in it when the request is a GET. */
    method PutDynamic(req: Request, response: Response)
      requires Valid()
      modifies this
      ensures Valid()
      ensures metadata == old(metadata)
      ensures names == old(names) + (if DYNAMIC_CACHE_NAME in old(caches) then [] else [DYNAMIC_CACHE_NAME])
      ensures caches == old(caches)[DYNAMIC_CACHE_NAME := Written(req, old(EntriesOf(DYNAMIC_CACHE_NAME)), response)]
    {
      ghost var start := caches;
      OpenCache(DYNAMIC_CACHE_NAME);
      if req.verb == "GET" {
        ghost var emptyOrOld := caches[DYNAMIC_CACHE_NAME];
        SetEntries(DYNAMIC_CACHE_NAME, PutInto(caches[DYNAMIC_CACHE_NAME], req.url, response));
        ReplaceTwice(start, DYNAMIC_CACHE_NAME, emptyOrOld, caches[DYNAMIC_CACHE_NAME]);
      }
    }

    /** `storeMetadata(url, {url, timestamp: now})`: the latest store wins. */
    method StoreMetadata(url: string, now: int)
      modifies this
      ensures metadata == old(metadata)[url := now]
      ensures names == old(names) && caches == old(caches)
    {
      metadata := metadata[url := now];
    }

    /** `getMetadata(url)`: the time stored for the URL, if any. */
    method GetMetadata(url: string) returns (stored: Option<int>)
      ensures stored == (if url in metadata then Some(metadata[url]) else None)
    {
      if url in metadata {
        return Some(metadata[url]);
      }
      return None;
    }

    /**
     * `networkFirstStrategy(request)`, with the two corrections listed under
     * Findings: metadata is kept, and a non-GET response is served without
     * being cached. A 200 response is served. The dynamic cache is opened
     * (created if missing) for every 200 response, as the source does before
     * its `cache.put`; for a GET the response is then put there and its time
     * recorded. Anything else falls back to the
     * cache: a hit older than a day gives the offline page, a fresher hit (or
     * one with no recorded time) is served, and a miss gives the offline page
     * to an HTML request and rejects anything else.
     */
    method NetworkFirstStrategy(req: Request, net: NetOutcome, now: int) returns (reply: Reply)
      requires Valid()
      modifies this
      ensures Valid()
      ensures net.Received? && net.response.status == 200 ==>
                && reply == Served(net.response)
                && names == old(names) + (if DYNAMIC_CACHE_NAME in old(caches) then [] else [DYNAMIC_CACHE_NAME])
                && (req.verb == "GET" ==>
                      && caches == old(caches)[DYNAMIC_CACHE_NAME := PutInto(old(EntriesOf(DYNAMIC_CACHE_NAME)), req.url, net.response)]
                      && metadata == old(metadata)[req.url := now])
                && (req.verb != "GET" ==>
                      && caches == old(caches)[DYNAMIC_CACHE_NAME := old(EntriesOf(DYNAMIC_CACHE_NAME))]
                      && metadata == old(metadata))
      ensures !(net.Received? && net.response.status == 200) ==>
                && unchanged(this)
                && var stored := if req.url in metadata then Some(metadata[req.url]) else None;
                   reply == NetworkFirstFallback(req, MatchRequest(req), stored, now, OfflinePage())
    {
      if net.Received? && net.response.status == 200 {
        OpenCache(DYNAMIC_CACHE_NAME);
        if req.verb == "GET" {
          SetEntries(DYNAMIC_CACHE_NAME, PutInto(caches[DYNAMIC_CACHE_NAME], req.url, net.response));
          StoreMetadata(req.url, now);
        }
        return Served(net.response);
      }
      var cached := MatchRequest(req);
      if cached.Some? {
        var stored := GetMetadata(req.url);
        if IsStale(stored, now) {
          return OfflinePage();
        }
        return Served(cached.value);
      }
      if AcceptsHtml(req.accept) {
        return OfflinePage();
      }
      return Rejected;
    }

    /**
     * `cacheOnDemandStrategy(request)`: a hit is served, otherwise whatever
     * the network answers is served; nothing is ever written. A network
     * failure gives the image or video placeholder, chosen by a case-sensitive
     * extension test, and rejects otherwise.
     */
    method CacheOnDemandStrategy(req: Request, net: NetOutcome) returns (reply: Reply)
      ensures old(MatchRequest(req)).Some? ==> reply == Served(MatchRequest(req).value)
      ensures MatchRequest(req).None? && net.Received? ==> reply == Served(net.response)
      ensures MatchRequest(req).None? && net.NetworkError? ==>
                reply == (match MediaPlaceholder(req.url)
                          case Some(p) => FromCache(Match(origin + p))
                          case None => Rejected)
    {
      var cached := MatchRequest(req);
      if cached.Some? {
        return Served(cached.value);
      }
      if net.Received? {
        return Served(net.response);
      }
      var placeholder := MediaPlaceholder(req.url);
      if placeholder.Some? {
        return FromCache(Match(origin + placeholder.value));
      }
      return Rejected;
    }

    /** The `fetch` listener: route the request, then run the chosen strategy. */
    method HandleFetch(req: Request, net: NetOutcome, now: int) returns (strategy: Strategy, reply: Reply)
      requires Valid()
      modifies this
      ensures Valid()
      ensures strategy == Route(req, origin)
      ensures strategy == NotIntercepted ==> reply == NotHandled && unchanged(this)
      ensures strategy == CacheOnDemand ==> unchanged(this)
    {
      strategy := Route(req, origin);
      match strategy {
        case NotIntercepted =>
          reply := NotHandled;
        case NetworkFirst =>
          reply := NetworkFirstStrategy(req, net, now);
        case CacheOnDemand =>
          reply := CacheOnDemandStrategy(req, net);
        case CacheFirst =>
          reply := CacheFirstStrategy(req, net);
      }
    }

    /**
     * `cache.addAll(urls)` on the cache `name` after opening it: all or
     * nothing, and only when every fetch gave a 2xx response other than 206.
     */
    method AddAll(name: string, urls: seq<string>, net: string -> NetOutcome) returns (r: Outcome)
      requires Valid()
      modifies this
      ensures Valid()
      ensures metadata == old(metadata)
      ensures names == old(names) + (if name in old(caches) then [] else [name])
      ensures AllOk(urls, net) ==>
                r == Pass && caches == old(caches)[name := PutAll(old(EntriesOf(name)), urls, net)]
      ensures !AllOk(urls, net) ==>
                r == Fail(TypeError) && caches == old(caches)[name := old(EntriesOf(name))]
    {
      OpenCache(name);
      if !AllOk(urls, net) {
        return Fail(TypeError);
      }
      SetEntries(name, PutAll(caches[name], urls, net));
      return Pass;
    }

    /**
     * The `install` handler: `addAll` of the app shell into the static
     * cache. Once it passes, the offline page is in the cache storage.
     */
    method Install(net: string -> NetOutcome) returns (r: Outcome)
      requires Valid()
      modifies this
      ensures Valid()
      ensures metadata == old(metadata)
      ensures names == old(names) + (if STATIC_CACHE_NAME in old(caches) then [] else [STATIC_CACHE_NAME])
      ensures AllOk(ShellUrls(origin), net) ==>
                && r == Pass
                && caches == old(caches)[STATIC_CACHE_NAME := PutAll(old(EntriesOf(STATIC_CACHE_NAME)), ShellUrls(origin), net)]
                && Match(origin + OFFLINE_PAGE).Some?
      ensures !AllOk(ShellUrls(origin), net) ==>
                r == Fail(TypeError) && caches == old(caches)[STATIC_CACHE_NAME := old(EntriesOf(STATIC_CACHE_NAME))]
    {
      r := AddAll(STATIC_CACHE_NAME, ShellUrls(origin), net);
      if r == Pass {
        InstalledOfflinePage(names, caches, origin, net);
      }
    }

    /** `caches.delete(name)`. */
    method DeleteCache(name: string)
      requires Valid()
      modifies this
      ensures Valid()
      ensures names == Erase(old(names), name)
      ensures caches == old(caches) - {name}
      ensures metadata == old(metadata)
    {
      names := Erase(names, name);
      caches := caches - {name};
      EraseUnique(old(names), name);
    }

    /** The `activate` listener: delete every cache that is not one of the three current ones. */
    method Activate()
      requires Valid()
      modifies this
      ensures Valid()
      ensures names == KeepCurrent(old(names))
      ensures caches == map n | n in old(caches) && IsCurrent(n) :: old(caches)[n]
      ensures metadata == old(metadata)
    {
      var keyList := names;
      for i := 0 to |keyList|
        invariant Valid()
        invariant names == KeepCurrent(keyList[..i]) + keyList[i..]
        invariant caches == Retained(old(caches), keyList[..i])
        invariant metadata == old(metadata)
      {
        ActivateStep(keyList, i, old(caches));
        if !IsCurrent(keyList[i]) {
          DeleteCache(keyList[i]);
        }
      }
      RetainedAll(old(caches), keyList);
    }
  }

  /** The caches that survive once the names in `seen` have been visited by activate. */
  function Retained(c: map<string, seq<Entry>>, seen: seq<string>): map<string, seq<Entry>> {
    map n | n in c && (IsCurrent(n) || n !in seen) :: c[n]
  }

  lemma ActivateStep(keyList: seq<string>, i: int, c: map<string, seq<Entry>>)
    requires Distinct(keyList) && 0 <= i < |keyList|
    ensures var x := keyList[i];
            && keyList[..i + 1] == keyList[..i] + [x]
            && KeepCurrent(keyList[..i + 1]) == KeepCurrent(keyList[..i]) + (if IsCurrent(x) then [x] else [])
            && (IsCurrent(x) ==>
                  KeepCurrent(keyList[..i + 1]) + keyList[i + 1..] == KeepCurrent(keyList[..i]) + keyList[i..])
            && (!IsCurrent(x) ==>
                  Erase(KeepCurrent(keyList[..i]) + keyList[i..], x) == KeepCurrent(keyList[..i + 1]) + keyList[i + 1..])
            && Retained(c, keyList[..i + 1]) == RetainedStep(c, keyList[..i], x)
  {
    var x := keyList[i];
    var done := keyList[..i];
    assert keyList[..i + 1] == done + [x];
    assert keyList[..i + 1][..i] == done;
    assert keyList[i..] == [x] + keyList[i + 1..];
    if !IsCurrent(x) {
      assert x !in keyList[i + 1..] by {
        forall j | i + 1 <= j < |keyList|
          ensures keyList[j] != x
        {
        }
      }
      assert x !in KeepCurrent(done);
      EraseMiddle(KeepCurrent(done), x, keyList[i + 1..]);
      assert KeepCurrent(done) + [x] + keyList[i + 1..] == KeepCurrent(done) + keyList[i..];
    } else {
      assert KeepCurrent(done) + [x] + keyList[i + 1..] == KeepCurrent(done) + keyList[i..];
    }
  }

  /** Visiting `x` keeps a current cache and deletes any other. */
  function RetainedStep(c: map<string, seq<Entry>>, done: seq<string>, x: string): (r: map<string, seq<Entry>>)
    ensures r == Retained(c, done + [x])
    ensures IsCurrent(x) ==> r == Retained(c, done)
    ensures !IsCurrent(x) ==> r == Retained(c, done) - {x}
  {
    if IsCurrent(x) then Retained(c, done) else Retained(c, done) - {x}
  }

  lemma RetainedAll(c: map<string, seq<Entry>>, keyList: seq<string>)
    requires forall n :: n in c ==> n in keyList
    ensures keyList[..|keyList|] == keyList
    ensures Retained(c, keyList) == map n | n in c && IsCurrent(n) :: c[n]
  {
    assert keyList[..|keyList|] == keyList;
  }

  lemma {:induction false} EraseUnique(names: seq<string>, name: string)
    requires Distinct(names)
    ensures Distinct(Erase(names, name))
  {
    if names != [] {
      var tail := names[1..];
      assert Distinct(tail) by {
        forall i, j | 0 <= i < j < |tail|
          ensures tail[i] != tail[j]
        {
          assert tail[i] == names[i + 1] && tail[j] == names[j + 1];
        }
      }
      EraseUnique(tail, name);
      var rest := Erase(tail, name);
      var r := Erase(names, name);
      if names[0] != name {
        assert r == [names[0]] + rest;
        assert names[0] !in tail by {
          forall j | 0 <= j < |tail|
            ensures tail[j] != names[0]
          {
            assert tail[j] == names[j + 1];
          }
        }
        forall i, j | 0 <= i < j < |r|
          ensures r[i] != r[j]
        {
          assert r[j] == rest[j - 1] && rest[j - 1] in rest;
          if i > 0 {
            assert r[i] == rest[i - 1];
          }
        }
      } else {
        assert r == rest;
      }
    }
  }
}

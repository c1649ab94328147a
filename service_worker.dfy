/** The caching policy of the web app's service worker `flutter_service_worker.js`: which
    requests it answers and how, the two strategies with their fallbacks, the clean-up on
    activation, the precache on install and the `CACHE_URLS` message. The browser's cache
    storage is a class holding a map from cache names to caches, each a map from request
    URLs to stored responses; the network is an input per fetch. */
module ServiceWorker {
  import opened Wrappers

  const CacheName := "chekmate-cache-v1"
  const RuntimeCache := "chekmate-runtime-v1"
  const ImageCache := "chekmate-images-v1"

  /** The three caches of this version of the worker. */
  const CurrentCaches: set<string> := {CacheName, RuntimeCache, ImageCache}

  /** The paths cached on install. */
  const PrecacheAssets: seq<string> := [
    "/",
    "/index.html",
    "/manifest.json",
    "/favicon.png",
    "/icons/Icon-192.png",
    "/icons/Icon-512.png",
    "/icons/Icon-maskable-192.png",
    "/icons/Icon-maskable-512.png"
  ]

  /** A response: its status and body. */
  datatype Response = Response(status: int, body: string)

  /** `response.ok`: a status in 200..299. */
  predicate Ok(r: Response) {
    200 <= r.status <= 299
  }

  /** The status of a partial response. The Cache API refuses to store one: `put` rejects,
      and `addAll` rejects the whole batch. */
  const PartialContent := 206

  /** A response the Cache API stores: `ok` and not partial. */
  predicate Storable(r: Response) {
    Ok(r) && r.status != PartialContent
  }

  const OfflineImage := Response(503, "Offline - Image not available")
  const OfflineContent := Response(503, "Offline - Content not available")

  /** What `fetch` does for one request: it resolves with a response (of any status) or
      rejects with a network error. */
  datatype Fetched = Delivered(response: Response) | NetworkError

  /** The parts of a request the worker looks at. `url` is the absolute URL, the key under
      which responses are cached. */
  datatype Request = Request(verb: string, url: string, protocol: string, origin: string,
                             destination: string, mode: string)

  /** How the fetch handler answers a request. */
  datatype Strategy = Skip | CacheFirst(cacheName: string) | NetworkFirst(cacheName: string)

  predicate StartsWith(s: string, prefix: string) {
    |prefix| <= |s| && s[..|prefix|] == prefix
  }

  /** The fetch handler's choice for `request`, the worker running at `selfOrigin`. */
  function Route(request: Request, selfOrigin: string): (s: Strategy)
    ensures s.Skip? <==> request.verb != "GET" || !StartsWith(request.protocol, "http")
    ensures s.CacheFirst? <==> !s.Skip? && request.destination == "image"
    ensures s.CacheFirst? ==> s.cacheName == ImageCache
    ensures s.NetworkFirst? ==> s.cacheName == RuntimeCache
  {
    if request.verb != "GET" then Skip
    else if !StartsWith(request.protocol, "http") then Skip
    else if request.destination == "image" then CacheFirst(ImageCache)
    else if request.origin == selfOrigin then NetworkFirst(RuntimeCache)
    else NetworkFirst(RuntimeCache)
  }

  /** Same-origin and cross-origin requests are routed alike. */
  lemma RouteIgnoresOrigin(request: Request, selfOrigin: string, otherOrigin: string)
    ensures Route(request, selfOrigin) == Route(request, otherOrigin)
  {
  }

  /** The protocol test is a prefix test: any protocol beginning with `http` passes, and
      nothing else does. */
  lemma {:induction false} HttpPrefixOnly(request: Request, selfOrigin: string)
    requires request.verb == "GET"
    ensures Route(request, selfOrigin).Skip? <==> !(|request.protocol| >= 4 && request.protocol[..4] == "http")
  {
    assert |"http"| == 4;
  }

  /** The cache storage after `caches.open(name)`: the named cache, created empty if absent. */
  function Opened(caches: map<string, map<string, Response>>, name: string): (r: map<string, map<string, Response>>)
    ensures name in r && r.Keys == caches.Keys + {name}
    ensures forall n :: n in caches ==> r[n] == caches[n]
    ensures name !in caches ==> r[name] == map[]
  {
    if name in caches then caches else caches[name := map[]]
  }

  /** The storage after a fetch whose response is put in the cache when it is `ok`: it is
      stored when, and only when, the fetch delivered a storable response, since `put` of
      a partial response rejects and stores nothing. */
  function StoredIfStorable(caches: map<string, map<string, Response>>, name: string, url: string, fetched: Fetched)
    : (r: map<string, map<string, Response>>)
    requires name in caches
    ensures r.Keys == caches.Keys
    ensures forall n :: n in caches && n != name ==> r[n] == caches[n]
    ensures fetched.Delivered? && Storable(fetched.response) ==> r[name] == caches[name][url := fetched.response]
    ensures !(fetched.Delivered? && Storable(fetched.response)) ==> r == caches
  {
    if fetched.Delivered? && Storable(fetched.response) then caches[name := caches[name][url := fetched.response]]
    else caches
  }

  /** The caches that survive activation: exactly the current ones among those present. */
  function Kept(caches: map<string, map<string, Response>>): (r: map<string, map<string, Response>>)
    ensures r.Keys == caches.Keys * CurrentCaches
    ensures forall n :: n in r ==> r[n] == caches[n]
  {
    map n | n in caches && n in CurrentCaches :: caches[n]
  }

  /** Every response in storage is `ok`: the only writes are guarded by `response.ok`
      and `addAll`, which stores nothing unless every response is `ok`. */
  predicate AllOk(caches: map<string, map<string, Response>>) {
    forall n, u :: n in caches && u in caches[n] ==> Ok(caches[n][u])
  }

  /** Did every fetch deliver a storable response? */
  predicate AllStorable(fetched: seq<Fetched>) {
    forall i :: 0 <= i < |fetched| ==> fetched[i].Delivered? && Storable(fetched[i].response)
  }

  /** No URL occurs twice. */
  predicate Distinct(urls: seq<string>) {
    forall i, j :: 0 <= i < j < |urls| ==> urls[i] != urls[j]
  }

  /** The last position of `urls` holding `urls[i]` is `i`. */
  predicate LastAt(urls: seq<string>, i: int) {
    0 <= i < |urls| && forall j :: i < j < |urls| ==> urls[j] != urls[i]
  }

  /** `cache` with the responses for `urls` stored in order. */
  function StoreAll(cache: map<string, Response>, urls: seq<string>, fetched: seq<Fetched>): (r: map<string, Response>)
    requires |fetched| == |urls| && forall i :: 0 <= i < |fetched| ==> fetched[i].Delivered?
    ensures forall u :: u in r <==> u in cache || u in urls
  {
    if urls == [] then cache
    else
      var k := |urls| - 1;
      assert urls == urls[..k] + [urls[k]];
      StoreAll(cache, urls[..k], fetched[..k])[urls[k] := fetched[k].response]
  }

  /** Every URL gets the response fetched for its last occurrence, and the other entries are
      untouched. */
  lemma {:induction false} StoreAllValues(cache: map<string, Response>, urls: seq<string>, fetched: seq<Fetched>)
    requires |fetched| == |urls| && forall i :: 0 <= i < |fetched| ==> fetched[i].Delivered?
    ensures var r := StoreAll(cache, urls, fetched);
      (forall u :: u in cache && u !in urls ==> r[u] == cache[u])
      && forall i :: LastAt(urls, i) ==> r[urls[i]] == fetched[i].response
  {
    if urls != [] {
      var k := |urls| - 1;
      var init := StoreAll(cache, urls[..k], fetched[..k]);
      var r := StoreAll(cache, urls, fetched);
      StoreAllValues(cache, urls[..k], fetched[..k]);
      assert r == init[urls[k] := fetched[k].response];
      forall u | u in cache && u !in urls ensures r[u] == cache[u] {
        assert u !in urls[..k] && u != urls[k];
      }
      forall i | LastAt(urls, i) ensures r[urls[i]] == fetched[i].response {
        if i < k {
          assert urls[i] != urls[k];
          assert LastAt(urls[..k], i) by {
            forall j | i < j < k ensures urls[..k][j] != urls[..k][i] {
              assert urls[..k][j] == urls[j];
            }
          }
          assert urls[..k][i] == urls[i] && fetched[..k][i] == fetched[i];
        }
      }
    }
  }

  /** `StoreAll` keeps responses that are all `ok` when it adds `ok` ones. */
  lemma {:induction false} StoreAllOk(cache: map<string, Response>, urls: seq<string>, fetched: seq<Fetched>)
    requires |fetched| == |urls| && AllStorable(fetched)
    requires forall u :: u in cache ==> Ok(cache[u])
    ensures forall u :: u in StoreAll(cache, urls, fetched) ==> Ok(StoreAll(cache, urls, fetched)[u])
  {
    if urls != [] {
      var k := |urls| - 1;
      assert AllStorable(fetched[..k]) by {
        forall i | 0 <= i < k ensures fetched[..k][i] == fetched[i] { }
      }
      StoreAllOk(cache, urls[..k], fetched[..k]);
      var init := StoreAll(cache, urls[..k], fetched[..k]);
      var r := StoreAll(cache, urls, fetched);
      assert r == init[urls[k] := fetched[k].response];
      assert fetched[k].Delivered? && Ok(fetched[k].response);
      forall u | u in r ensures Ok(r[u]) {
        if u != urls[k] {
          assert u in init && r[u] == init[u];
        }
      }
    }
  }

  /** The answer of the cache-first strategy on a miss. */
  function FetchedOr(fetched: Fetched, offline: Response): (r: Response)
    ensures fetched.Delivered? ==> r == fetched.response
    ensures fetched.NetworkError? ==> r == offline
  {
    match fetched
    case Delivered(response) => response
    case NetworkError => offline
  }

  /** The URL the offline page is looked up under: `/index.html` resolved against the
      worker's origin. */
  function IndexUrl(selfOrigin: string): string {
    selfOrigin + "/index.html"
  }

  /** The network-first fallback AS WRITTEN when the network fails: the cached response for
      the request, then for navigations `/index.html` from the same cache, then a 503. */
  function OfflineFallbackAsWritten(caches: map<string, map<string, Response>>, name: string,
                                    request: Request, selfOrigin: string): (r: Response)
    requires name in caches
    ensures request.url in caches[name] ==> r == caches[name][request.url]
    ensures request.url !in caches[name] && request.mode == "navigate" && IndexUrl(selfOrigin) in caches[name] ==>
      r == caches[name][IndexUrl(selfOrigin)]
    ensures request.url !in caches[name] && !(request.mode == "navigate" && IndexUrl(selfOrigin) in caches[name]) ==>
      r == OfflineContent
  {
    var cache := caches[name];
    if request.url in cache then cache[request.url]
    else if request.mode == "navigate" && IndexUrl(selfOrigin) in cache then cache[IndexUrl(selfOrigin)]
    else OfflineContent
  }

  /** The fallback as intended: the offline page is also looked for in the main cache,
      where the install step put it. */
  function OfflineFallback(caches: map<string, map<string, Response>>, name: string,
                           request: Request, selfOrigin: string): (r: Response)
    requires name in caches
    ensures request.url in caches[name] ==> r == caches[name][request.url]
  {
    var cache := caches[name];
    var index := IndexUrl(selfOrigin);
    if request.url in cache then cache[request.url]
    else if request.mode == "navigate" && index in cache then cache[index]
    else if request.mode == "navigate" && CacheName in caches && index in caches[CacheName] then caches[CacheName][index]
    else OfflineContent
  }

  /** The offline page, once precached, is never out of reach: after a complete install, a
      navigation with the network down is answered from storage with an `ok` response. */
  lemma OfflineNavigationServed(caches: map<string, map<string, Response>>, name: string,
                                request: Request, selfOrigin: string)
    requires name in caches && AllOk(caches) && request.mode == "navigate"
    requires CacheName in caches && IndexUrl(selfOrigin) in caches[CacheName]
    ensures Ok(OfflineFallback(caches, name, request, selfOrigin))
  {
  }

  /** The written fallback misses the precached page: with `/index.html` in the main cache
      only, an offline navigation to another page gets the 503. */
  lemma OfflinePageMissed(page: Response)
    requires Ok(page)
    ensures var origin := "https://chekmate.app";
      var caches := map[CacheName := map[IndexUrl(origin) := page], RuntimeCache := map[]];
      var request := Request("GET", origin + "/feed", "https:", origin, "document", "navigate");
      OfflineFallbackAsWritten(caches, RuntimeCache, request, origin) == OfflineContent
      && Ok(OfflineFallback(caches, RuntimeCache, request, origin))
  {
    var origin := "https://chekmate.app";
    var caches := map[CacheName := map[IndexUrl(origin) := page], RuntimeCache := map[]];
    assert CacheName != RuntimeCache;
    assert caches[RuntimeCache] == map[];
  }

  /** The browser's cache storage. */
  class CacheStorage {
    var caches: map<string, map<string, Response>>

    constructor()
      ensures caches == map[]
    {
      caches := map[];
    }

    predicate Valid()
      reads this
    {
      AllOk(caches)
    }

    /** `caches.open(name)`. */
    method Open(name: string)
      requires Valid()
      modifies this
      ensures Valid()
      ensures caches == Opened(old(caches), name)
    {
      if name !in caches {
        caches := caches[name := map[]];
      }
    }

    /** `cache.put(url, response)` on an open cache: it replaces the URL's entry, except
        that a partial response is refused and nothing changes. */
    method Put(name: string, url: string, response: Response)
      requires name in caches
      modifies this
      ensures response.status != PartialContent ==> caches == old(caches)[name := old(caches)[name][url := response]]
      ensures response.status == PartialContent ==> caches == old(caches)
    {
      if response.status != PartialContent {
        caches := caches[name := caches[name][url := response]];
      }
    }

    /** `cacheFirstStrategy`: a stored response is returned without fetching; on a miss the
        fetched response is returned and put in the cache if `ok`; a failed fetch gives the 503. */
    method CacheFirstStrategy(request: Request, name: string, fetched: Fetched)
      returns (response: Response, usedNetwork: bool)
      requires Valid()
      modifies this
      ensures Valid()
      ensures var afterOpen := Opened(old(caches), name);
        if request.url in afterOpen[name] then
          response == afterOpen[name][request.url] && !usedNetwork && caches == afterOpen
        else
          usedNetwork && response == FetchedOr(fetched, OfflineImage)
          && caches == StoredIfStorable(afterOpen, name, request.url, fetched)
    {
      Open(name);
      if request.url in caches[name] {
        return caches[name][request.url], false;
      }
      usedNetwork := true;
      match fetched
      case Delivered(r) =>
        if Ok(r) {
          Put(name, request.url, r);
        }
        response := r;
      case NetworkError =>
        response := OfflineImage;
    }

    /** `networkFirstStrategy`: the fetched response is returned whatever its status and
        put in the cache only if `ok`; when the fetch fails the answer is looked up in the strategy's
        own cache only, as written, else it is the 503. */
    method NetworkFirstStrategy(request: Request, name: string, selfOrigin: string, fetched: Fetched)
      returns (response: Response)
      requires Valid()
      modifies this
      ensures Valid()
      ensures var afterOpen := Opened(old(caches), name);
        caches == StoredIfStorable(afterOpen, name, request.url, fetched)
        && response == (if fetched.Delivered? then fetched.response
                        else OfflineFallbackAsWritten(afterOpen, name, request, selfOrigin))
    {
      Open(name);
      match fetched
      case Delivered(r) =>
        if Ok(r) {
          Put(name, request.url, r);
        }
        response := r;
      case NetworkError =>
        var index := IndexUrl(selfOrigin);
        if request.url in caches[name] {
          response := caches[name][request.url];
        } else if request.mode == "navigate" && index in caches[name] {
          response := caches[name][index];
        } else {
          response := OfflineContent;
        }
    }

    /** The fetch listener: `None` where it does not call `respondWith`. */
    method HandleFetch(request: Request, selfOrigin: string, fetched: Fetched) returns (response: Option<Response>)
      requires Valid()
      modifies this
      ensures Valid()
      ensures Route(request, selfOrigin).Skip? <==> response.None?
      ensures Route(request, selfOrigin).Skip? ==> caches == old(caches)
      ensures Route(request, selfOrigin).NetworkFirst? ==>
        var afterOpen := Opened(old(caches), RuntimeCache);
        caches == StoredIfStorable(afterOpen, RuntimeCache, request.url, fetched)
        && response == Some(if fetched.Delivered? then fetched.response
                            else OfflineFallbackAsWritten(afterOpen, RuntimeCache, request, selfOrigin))
      ensures Route(request, selfOrigin).CacheFirst? ==>
        var afterOpen := Opened(old(caches), ImageCache);
        if request.url in afterOpen[ImageCache] then
          response == Some(afterOpen[ImageCache][request.url]) && caches == afterOpen
        else
          response == Some(FetchedOr(fetched, OfflineImage))
          && caches == StoredIfStorable(afterOpen, ImageCache, request.url, fetched)
    {
      match Route(request, selfOrigin)
      case Skip =>
        response := None;
      case CacheFirst(name) =>
        var r, _ := CacheFirstStrategy(request, name, fetched);
        response := Some(r);
      case NetworkFirst(name) =>
        var r := NetworkFirstStrategy(request, name, selfOrigin, fetched);
        response := Some(r);
    }

    /** The activate listener: deletes every cache whose name is not one of the three
        current ones, one name at a time. */
    method Activate()
      requires Valid()
      modifies this
      ensures Valid()
      ensures caches == Kept(old(caches))
    {
      var names := caches.Keys;
      while names != {}
        invariant names <= old(caches).Keys
        invariant caches == map n | n in old(caches) && (n in names || n in CurrentCaches) :: old(caches)[n]
        decreases names
      {
        var n :| n in names;
        if n != CacheName && n != RuntimeCache && n != ImageCache {
          caches := caches - {n};
        }
        names := names - {n};
      }
      assert forall n :: n in caches ==> n in old(caches) && caches[n] == old(caches)[n];
    }

    /** `cache.addAll(urls)`: every URL is fetched; only when all of them deliver `ok`,
        non-partial responses and no URL is requested twice are they stored, otherwise nothing is. The
        cache is opened first either way. */
    method AddAll(name: string, urls: seq<string>, fetched: seq<Fetched>) returns (stored: bool)
      requires Valid() && |fetched| == |urls|
      modifies this
      ensures Valid()
      ensures stored == AddAllSucceeds(urls, fetched)
      ensures caches == AddedAll(old(caches), name, urls, fetched)
    {
      Open(name);
      stored := true;
      for i := 0 to |fetched|
        invariant stored == AllStorable(fetched[..i])
      {
        if !(fetched[i].Delivered? && Storable(fetched[i].response)) {
          stored := false;
        }
        assert forall j :: 0 <= j < i ==> fetched[..i + 1][j] == fetched[..i][j];
      }
      assert fetched[..|fetched|] == fetched;
      if !Distinct(urls) {
        stored := false;
      }
      if stored {
        var cache := StoreAll(caches[name], urls, fetched);
        StoreAllOk(caches[name], urls, fetched);
        caches := caches[name := cache];
        assert forall n :: n in caches && n != name ==> caches[n] == old(caches)[n];
      }
    }

    /** The install listener: precaches `PRECACHE_ASSETS`, resolved against the worker's
        origin, into the main cache. */
    method Install(selfOrigin: string, fetched: seq<Fetched>) returns (installed: bool)
      requires Valid() && |fetched| == |PrecacheAssets|
      modifies this
      ensures Valid()
      ensures installed == AllStorable(fetched)
      ensures caches == AddedAll(old(caches), CacheName, PrecacheUrls(selfOrigin), fetched)
    {
      PrecacheUrlsDistinct(selfOrigin);
      installed := AddAll(CacheName, PrecacheUrls(selfOrigin), fetched);
    }

    /** The message listener's `CACHE_URLS` branch: the message's `urls` (none when absent)
        are added to the runtime cache. Other messages leave storage as it is. */
    method CacheUrls(data: Option<MessageData>, fetched: seq<Fetched>) returns (stored: bool)
      requires Valid() && |fetched| == |MessageUrls(data)|
      modifies this
      ensures Valid()
      ensures !IsCacheUrls(data) ==> caches == old(caches) && !stored
      ensures IsCacheUrls(data) ==>
        stored == AddAllSucceeds(MessageUrls(data), fetched)
        && caches == AddedAll(old(caches), RuntimeCache, MessageUrls(data), fetched)
    {
      stored := false;
      if IsCacheUrls(data) {
        stored := AddAll(RuntimeCache, MessageUrls(data), fetched);
      }
    }
  }

  /** Does `cache.addAll(urls)` resolve? Every response must be delivered, `ok` and not partial, and the
      batch must not hold the same request twice. */
  predicate AddAllSucceeds(urls: seq<string>, fetched: seq<Fetched>) {
    AllStorable(fetched) && Distinct(urls)
  }

  /** The storage after `caches.open(name)` and `cache.addAll(urls)`: the named cache exists,
      and holds the fetched responses when the batch succeeds; nothing else changes. */
  function AddedAll(caches: map<string, map<string, Response>>, name: string, urls: seq<string>, fetched: seq<Fetched>)
    : (r: map<string, map<string, Response>>)
    requires |fetched| == |urls|
    ensures name in r && r.Keys == caches.Keys + {name}
    ensures forall n :: n in caches && n != name ==> r[n] == caches[n]
    ensures AddAllSucceeds(urls, fetched) ==>
      forall i :: 0 <= i < |urls| ==> urls[i] in r[name] && r[name][urls[i]] == fetched[i].response
    ensures !AddAllSucceeds(urls, fetched) ==> r == Opened(caches, name)
  {
    var afterOpen := Opened(caches, name);
    if AddAllSucceeds(urls, fetched) then
      StoreAllValues(afterOpen[name], urls, fetched);
      assert forall i :: 0 <= i < |urls| ==> LastAt(urls, i);
      afterOpen[name := StoreAll(afterOpen[name], urls, fetched)]
    else afterOpen
  }

  /** The URLs `PRECACHE_ASSETS` names, resolved against the worker's origin. */
  function PrecacheUrls(selfOrigin: string): (urls: seq<string>)
    ensures |urls| == |PrecacheAssets|
    ensures forall i :: 0 <= i < |urls| ==> urls[i] == selfOrigin + PrecacheAssets[i]
  {
    seq(|PrecacheAssets|, i requires 0 <= i < |PrecacheAssets| => selfOrigin + PrecacheAssets[i])
  }

  /** The precache list names every asset once, so `addAll` does not reject it as a batch
      with a repeated request. */
  lemma PrecacheUrlsDistinct(selfOrigin: string)
    ensures Distinct(PrecacheUrls(selfOrigin))
  {
    var urls := PrecacheUrls(selfOrigin);
    assert Distinct(PrecacheAssets);
    forall i, j | 0 <= i < j < |urls| ensures urls[i] != urls[j] {
      assert urls[i][|selfOrigin|..] == PrecacheAssets[i];
      assert urls[j][|selfOrigin|..] == PrecacheAssets[j];
    }
  }

  /** The `data` of a message event: its `type` and, possibly, its `urls`. */
  datatype MessageData = MessageData(kind: string, urls: Option<seq<string>>)

  predicate IsCacheUrls(data: Option<MessageData>) {
    data.Some? && data.value.kind == "CACHE_URLS"
  }

  /** `event.data.urls || []`. */
  function MessageUrls(data: Option<MessageData>): (urls: seq<string>)
    ensures IsCacheUrls(data) && data.value.urls.Some? ==> urls == data.value.urls.value
    ensures !IsCacheUrls(data) || data.value.urls.None? ==> urls == []
  {
    if IsCacheUrls(data) && data.value.urls.Some? then data.value.urls.value else []
  }

  /** Activation keeps exactly the current caches that exist, untouched. */
  lemma ActivationKeepsCurrent(caches: map<string, map<string, Response>>, n: string)
    requires n in caches
    ensures n in Kept(caches) <==> n == CacheName || n == RuntimeCache || n == ImageCache
    ensures n in Kept(caches) ==> Kept(caches)[n] == caches[n]
  {
  }
}

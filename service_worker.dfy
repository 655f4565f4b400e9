/**
 * The offline-cache manager of the service worker (build/sw.js).
 *
 * Cache storage is a `CacheStorage` object holding the named stores, each a
 * map from request URL to response. The worker's three handlers become its
 * methods: `Install` (open the store `CACHE_NAME` and `addAll` the URL list),
 * `Activate` (delete every other store) and `OnFetch` (cache first, then the
 * network, then the offline fallbacks). The network, and whether a `cache.put`
 * succeeds, are inputs. The store name and the generated URL list are
 * parameters; `CacheName` and `ManualCache` are the values the worker is
 * built with.
 */
module ServiceWorker {
  import opened Seqs
  import opened Fetch

  /**
   * Cache keys: absolute request URLs. The URL lists are taken as already
   * resolved against the worker's location, so the key `addAll` writes for a
   * URL is the key a later request for it looks up.
   */
  type Key = string
  type Store = map<Key, Response>

  /** `CACHE_NAME`. */
  const CacheName: string := "calculadora-v1"

  /** The offline page served to navigations when the network is down. */
  const OfflinePage: string := "./offline.html"

  /** `manualCache`: resources that must be cached whatever the build produced. */
  const ManualCache: seq<string> := [
    "./", "./graficos", "./manifest.webmanifest", "./offline.html",
    "./pwa-192x192.png", "./pwa-512x512.png",
    "./about", "./contacto", "./otra-ruta"
  ]

  // ---------------------------------------------------------------------------
  // The URL list

  /**
   * `Array.from(new Set(s))`: the distinct elements of `s`, each at the place
   * of its first occurrence.
   */
  function Dedup(s: seq<string>): (r: seq<string>)
    ensures NoDup(r)
    ensures forall x :: x in r <==> x in s
    decreases |s|
  {
    if s == [] then []
    else
      var init := Dedup(s[..|s| - 1]);
      assert forall x :: x in s <==> x in s[..|s| - 1] || x == s[|s| - 1] by {
        assert s == s[..|s| - 1] + [s[|s| - 1]];
      }
      if s[|s| - 1] in init then init else init + [s[|s| - 1]]
  }

  /**
   * `urlsToCache`: the manual list followed by the generated one, without
   * repetitions. The generated list is what the build script writes; note that
   * the script assigns it to `self.dynamicUrlsToCache` while the worker spreads
   * `self.urlsToCache`, which is then undefined, so the worker's top level
   * throws a TypeError instead of falling back to an empty list. The model
   * takes the generated list as a parameter and does not model that lookup.
   */
  function UrlsToCache(manual: seq<string>, generated: seq<string>): (r: seq<string>)
    ensures NoDup(r)
    ensures forall x :: x in r <==> x in manual || x in generated
  {
    Dedup(manual + generated)
  }

  /** Later elements never disturb the order of earlier ones. */
  lemma {:induction false} DedupPrefix(a: seq<string>, b: seq<string>)
    ensures Dedup(a) <= Dedup(a + b)
    decreases |b|
  {
    if b != [] {
      var b' := b[..|b| - 1];
      assert (a + b)[..|a + b| - 1] == a + b';
      DedupPrefix(a, b');
    } else {
      assert a + b == a;
    }
  }

  /** A list with no repetitions is its own de-duplication. */
  lemma {:induction false} DedupOfDistinct(s: seq<string>)
    requires NoDup(s)
    ensures Dedup(s) == s
    decreases |s|
  {
    if s != [] {
      var init := s[..|s| - 1];
      assert NoDup(init);
      DedupOfDistinct(init);
      assert s[|s| - 1] !in init;
      assert s == init + [s[|s| - 1]];
    }
  }

  /** The URL list starts with the manual entries, in their order. */
  lemma UrlsToCacheStartsWithManual(manual: seq<string>, generated: seq<string>)
    requires NoDup(manual)
    ensures |manual| <= |UrlsToCache(manual, generated)|
    ensures UrlsToCache(manual, generated)[..|manual|] == manual
  {
    DedupPrefix(manual, generated);
    DedupOfDistinct(manual);
  }

  /** The hand-written list has no repetitions. */
  lemma ManualCacheDistinct()
    ensures NoDup(ManualCache)
  {
  }

  // ---------------------------------------------------------------------------
  // Install: `cache.addAll(urlsToCache)`

  /** The Cache `addAll()` check on each fetched response: not a network error, an ok status, not 206. */
  predicate AddAllAccepts(o: NetworkOutcome)
  {
    o.Fetched? && o.response.kind != Error && 200 <= o.response.status <= 299 && o.response.status != 206
  }

  /**
   * `addAll` resolves exactly when every fetch is accepted and no request
   * occurs twice in the batch (a repeated request is an InvalidStateError).
   */
  predicate AddAllSucceeds(urls: seq<Key>, net: seq<NetworkOutcome>)
  {
    |urls| == |net| && NoDup(urls) && forall i :: 0 <= i < |net| ==> AddAllAccepts(net[i])
  }

  /** The entries a batch writes: each URL with its fetched response. */
  function Staged(urls: seq<Key>, net: seq<NetworkOutcome>): (r: Store)
    requires |urls| == |net|
    requires forall i :: 0 <= i < |net| ==> net[i].Fetched?
    ensures forall u :: u in r <==> u in urls
    ensures NoDup(urls) ==> forall i :: 0 <= i < |urls| ==> r[urls[i]] == net[i].response
    decreases |urls|
  {
    if urls == [] then map[]
    else
      var n := |urls| - 1;
      assert urls == urls[..n] + [urls[n]];
      var init := Staged(urls[..n], net[..n]);
      assert NoDup(urls) ==> NoDup(urls[..n]) && urls[n] !in urls[..n];
      init[urls[n] := net[n].response]
  }

  /** A map holding exactly each URL with its own response is the staged batch. */
  lemma StagedIsEntries(urls: seq<Key>, net: seq<NetworkOutcome>, m: Store)
    requires |urls| == |net| && NoDup(urls)
    requires forall i :: 0 <= i < |net| ==> net[i].Fetched?
    requires forall u :: u in m <==> exists j :: 0 <= j < |urls| && urls[j] == u
    requires forall j :: 0 <= j < |urls| ==> urls[j] in m && m[urls[j]] == net[j].response
    ensures m == Staged(urls, net)
  {
  }

  /** With the URL list the worker builds, install can fail only because of the network. */
  lemma InstallFailsOnlyOnNetwork(manual: seq<string>, generated: seq<string>, net: seq<NetworkOutcome>)
    requires |net| == |UrlsToCache(manual, generated)|
    ensures AddAllSucceeds(UrlsToCache(manual, generated), net) <==>
              forall i :: 0 <= i < |net| ==> AddAllAccepts(net[i])
  {
  }

  /** Without the de-duplication, a generated list that repeats a manual entry makes install fail. */
  lemma RepeatedUrlFailsInstall(manual: seq<string>, generated: seq<string>, net: seq<NetworkOutcome>)
    requires exists u :: u in manual && u in generated
    ensures !AddAllSucceeds(manual + generated, net)
  {
    var u :| u in manual && u in generated;
    var i :| 0 <= i < |manual| && manual[i] == u;
    var j :| 0 <= j < |generated| && generated[j] == u;
    assert (manual + generated)[i] == (manual + generated)[|manual| + j];
  }

  // ---------------------------------------------------------------------------
  // The storage, as pure values

  /** The store `name` as `caches.open(name)` yields it: the existing one, or a new empty one. */
  function StoreOf(stores: map<string, Store>, name: string): (s: Store)
    ensures name in stores ==> s == stores[name]
    ensures name !in stores ==> s == map[]
  {
    if name in stores then stores[name] else map[]
  }

  /** The stores after activation: only `current` remains, untouched. */
  function Evict(stores: map<string, Store>, current: string): (r: map<string, Store>)
    ensures r.Keys <= {current}
    ensures current in stores ==> current in r && r[current] == stores[current]
    ensures forall n :: n in r ==> n in stores && r[n] == stores[n]
  {
    map n | n in stores && n == current :: stores[n]
  }

  /** Activating twice is activating once. */
  lemma EvictIdempotent(stores: map<string, Store>, current: string)
    ensures Evict(Evict(stores, current), current) == Evict(stores, current)
  {
  }

  /** Every response stored under `key`, in any store. */
  function MatchResults(stores: map<string, Store>, key: Key): (rs: set<Response>)
    ensures forall r :: r in rs <==> exists n :: n in stores && key in stores[n] && stores[n][key] == r
  {
    set n | n in stores && key in stores[n] :: stores[n][key]
  }

  /** `r` is a possible result of `caches.match(key)`: some stored response, or none when there is none. */
  predicate Matches(stores: map<string, Store>, key: Key, r: Option<Response>)
  {
    (r.Some? <==> MatchResults(stores, key) != {}) && (r.Some? ==> r.value in MatchResults(stores, key))
  }

  /** After activation at most one store remains, so `caches.match` has at most one answer. */
  lemma MatchAfterEvict(stores: map<string, Store>, current: string, key: Key)
    ensures MatchResults(Evict(stores, current), key) ==
              if current in stores && key in stores[current] then {stores[current][key]} else {}
  {
  }

  /** `caches.open(name).then(cache => cache.put(key, resp))`: the store is opened (created if need be) even when the put fails. */
  function PutInto(stores: map<string, Store>, name: string, key: Key, resp: Response, succeeds: bool): (r: map<string, Store>)
    ensures r.Keys == stores.Keys + {name}
    ensures forall n :: n in stores && n != name ==> r[n] == stores[n]
    ensures succeeds ==> r[name] == StoreOf(stores, name)[key := resp]
    ensures !succeeds ==> r[name] == StoreOf(stores, name)
  {
    var ready := stores[name := StoreOf(stores, name)];
    if succeeds then ready[name := ready[name][key := resp]] else ready
  }

  // ---------------------------------------------------------------------------
  // The fetch handler's decision

  /** A network response worth caching: status 200 and type "basic". */
  predicate Qualifies(resp: Response)
  {
    resp.status == 200 && resp.kind == Basic
  }

  /** The URL parses and its protocol is "http:" or "https:". */
  predicate CachesScheme(url: string)
  {
    Protocol(url) == Some("http:") || Protocol(url) == Some("https:")
  }

  /** `new Response('', { status: 503, statusText: 'Offline' })`. */
  const OfflineResponse: Response := Response(503, "Offline", Default, "")

  /** What the handler responds with, and the response it puts into `CACHE_NAME`, if any. */
  datatype FetchResult = FetchResult(response: Option<Response>, toCache: Option<Response>)

  /**
   * The decision the fetch handler makes for `req`, given what `caches.match`
   * found for it, what the network did, and (used only on a failed
   * navigation) what `caches.match('./offline.html')` found.
   */
  function HandleFetch(req: Request, cached: Option<Response>, net: NetworkOutcome, offline: Option<Response>): (d: FetchResult)
    ensures cached.Some? ==> d == FetchResult(cached, None)
    ensures cached.None? && net.Fetched? ==> d.response == Some(net.response)
    ensures d.toCache.Some? <==> cached.None? && net.Fetched? && Qualifies(net.response) && CachesScheme(req.url)
    ensures d.toCache.Some? ==> d.toCache.value == net.response
    ensures cached.None? && net.Rejected? ==>
              d.response == (if req.mode == Navigate then offline else Some(OfflineResponse))
  {
    match cached
    case Some(_) => FetchResult(cached, None)
    case None =>
      match net
      case Rejected =>
        if req.mode == Navigate then FetchResult(offline, None) else FetchResult(Some(OfflineResponse), None)
      case Fetched(resp) =>
        if Qualifies(resp) && CachesScheme(req.url) then FetchResult(Some(resp), Some(resp))
        else FetchResult(Some(resp), None)
  }

  /** On a hit the network is not consulted: its outcome cannot change the result. */
  lemma HitIgnoresNetwork(req: Request, hit: Response, net1: NetworkOutcome, net2: NetworkOutcome,
                          off1: Option<Response>, off2: Option<Response>)
    ensures HandleFetch(req, Some(hit), net1, off1) == HandleFetch(req, Some(hit), net2, off2)
  {
  }

  /** Lower-casing one character. */
  lemma LowerAt(s: string, j: nat)
    requires j < |s|
    ensures ToAsciiLower(s)[j] == (if 'A' <= s[j] <= 'Z' then (s[j] as int + 32) as char else s[j])
  {
  }

  /** A lower-case scheme name, such as "http". */
  predicate IsLowerName(scheme: string)
  {
    |scheme| > 0 && forall j :: 0 <= j < |scheme| ==> 'a' <= scheme[j] <= 'z'
  }

  /** A URL whose protocol is `scheme:` starts with that scheme and a colon, in either case. */
  lemma ProtocolIsPrefix(url: string, scheme: string)
    requires IsLowerName(scheme)
    requires Protocol(url) == Some(scheme + ":")
    ensures |url| > |scheme| && ToAsciiLower(url[..|scheme| + 1]) == scheme + ":"
  {
  }

  /** A URL that starts with `scheme:`, in either case, has protocol `scheme:`. */
  lemma {:induction false} PrefixIsProtocol(url: string, scheme: string)
    requires IsLowerName(scheme)
    requires |url| > |scheme| && ToAsciiLower(url[..|scheme| + 1]) == scheme + ":"
    ensures Protocol(url) == Some(scheme + ":")
  {
    var k := |scheme|;
    var low := ToAsciiLower(url[..k + 1]);
    forall j | 0 <= j <= k
      ensures j == k ==> url[j] == ':'
      ensures j < k ==> IsAsciiAlpha(url[j])
    {
      LowerAt(url[..k + 1], j);
      assert low[j] == (scheme + ":")[j];
    }
    assert SchemeOfLength(url, k);
    forall j | 0 <= j < k ensures ToAsciiLower(url[..k])[j] == scheme[j] {
      LowerAt(url[..k + 1], j);
      LowerAt(url[..k], j);
      assert low[j] == (scheme + ":")[j];
    }
    assert |ToAsciiLower(url[..k])| == |scheme|;
    assert ToAsciiLower(url[..k]) == scheme;
  }

  /** The protocol is `scheme:` exactly when the URL starts with `scheme:`, in either case. */
  lemma ProtocolIs(url: string, scheme: string)
    requires IsLowerName(scheme)
    ensures Protocol(url) == Some(scheme + ":") <==>
              |url| > |scheme| && ToAsciiLower(url[..|scheme| + 1]) == scheme + ":"
  {
    if Protocol(url) == Some(scheme + ":") {
      ProtocolIsPrefix(url, scheme);
    }
    if |url| > |scheme| && ToAsciiLower(url[..|scheme| + 1]) == scheme + ":" {
      PrefixIsProtocol(url, scheme);
    }
  }

  /** A URL is cached only when it starts with "http:" or "https:" (in either case). */
  lemma SchemeGuard(url: string)
    ensures CachesScheme(url) <==>
              (|url| >= 5 && ToAsciiLower(url[..5]) == "http:") ||
              (|url| >= 6 && ToAsciiLower(url[..6]) == "https:")
  {
    assert "http" + ":" == "http:" && "https" + ":" == "https:";
    ProtocolIs(url, "http");
    ProtocolIs(url, "https");
  }

  /** A `chrome-extension:` request is never written to the cache, even with a qualifying response. */
  lemma ChromeExtensionNotCached(path: string, resp: Response)
    requires Qualifies(resp)
    ensures HandleFetch(Request("chrome-extension://" + path, SameOrigin), None, Fetched(resp), None).toCache == None
  {
  }

  /**
   * The first half of `addAll`: check every fetched response and every
   * request, and collect the entries to write. Nothing is written yet.
   */
  method FetchBatch(urls: seq<Key>, net: seq<NetworkOutcome>) returns (ok: bool, staged: Store)
    requires |net| == |urls|
    ensures ok == AddAllSucceeds(urls, net)
    ensures ok ==> staged == Staged(urls, net)
  {
    staged := map[];
    var i := 0;
    while i < |urls|
      invariant 0 <= i <= |urls|
      invariant forall j :: 0 <= j < i ==> AddAllAccepts(net[j])
      invariant forall j, k :: 0 <= j < k < i ==> urls[j] != urls[k]
      invariant forall u :: u in staged <==> exists j :: 0 <= j < i && urls[j] == u
      invariant forall j :: 0 <= j < i ==> urls[j] in staged && staged[urls[j]] == net[j].response
    {
      if !AddAllAccepts(net[i]) {
        return false, staged;
      }
      if urls[i] in staged {
        return false, staged;
      }
      staged := staged[urls[i] := net[i].response];
      i := i + 1;
    }
    ok := true;
    StagedIsEntries(urls, net, staged);
  }

  // ---------------------------------------------------------------------------
  // The storage object

  class CacheStorage {
    /** The stores by name. */
    var stores: map<string, Store>

    constructor (initial: map<string, Store>)
      ensures stores == initial
    {
      stores := initial;
    }

    /** `caches.open(name)`: creates an empty store when there is none. */
    method Open(name: string)
      modifies this
      ensures stores == old(stores)[name := StoreOf(old(stores), name)]
    {
      if name !in stores {
        stores := stores[name := map[]];
      }
    }

    /** `caches.delete(name)`: resolves with whether there was such a store. */
    method Delete(name: string) returns (deleted: bool)
      modifies this
      ensures deleted == (name in old(stores))
      ensures stores == old(stores) - {name}
    {
      deleted := name in stores;
      stores := stores - {name};
    }

    /** `caches.match(key)`: a response stored under `key` in some store, if any. */
    method Match(key: Key) returns (r: Option<Response>)
      ensures Matches(stores, key, r)
    {
      var todo := stores.Keys;
      r := None;
      while todo != {} && r.None?
        invariant todo <= stores.Keys
        invariant r.None? ==> forall n :: n in stores && n !in todo ==> key !in stores[n]
        invariant r.Some? ==> r.value in MatchResults(stores, key)
        decreases todo
      {
        var n :| n in todo;
        if key in stores[n] {
          r := Some(stores[n][key]);
        }
        todo := todo - {n};
      }
    }

    /** `cache.addAll(urls)` on the open store `name`: all entries are written, or none. */
    method AddAll(name: string, urls: seq<Key>, net: seq<NetworkOutcome>) returns (ok: bool)
      requires |net| == |urls|
      requires name in stores
      modifies this
      ensures ok == AddAllSucceeds(urls, net)
      ensures ok ==> stores == old(stores)[name := old(stores)[name] + Staged(urls, net)]
      ensures !ok ==> stores == old(stores)
    {
      var staged;
      ok, staged := FetchBatch(urls, net);
      if ok {
        stores := stores[name := stores[name] + staged];
      }
    }

    /** The install handler: open `cacheName`, then `addAll` the list. */
    method Install(cacheName: string, urls: seq<Key>, net: seq<NetworkOutcome>) returns (ok: bool)
      requires |net| == |urls|
      modifies this
      ensures ok == AddAllSucceeds(urls, net)
      ensures ok ==> stores == old(stores)[cacheName := StoreOf(old(stores), cacheName) + Staged(urls, net)]
      ensures !ok ==> stores == old(stores)[cacheName := StoreOf(old(stores), cacheName)]
      ensures ok ==> forall u :: u in urls ==> cacheName in stores && u in stores[cacheName]
    {
      Open(cacheName);
      ok := AddAll(cacheName, urls, net);
    }

    /** The activate handler: delete every store but `current`. */
    method Activate(current: string)
      modifies this
      ensures stores == Evict(old(stores), current)
    {
      var todo := stores.Keys;
      while todo != {}
        invariant todo <= old(stores).Keys
        invariant forall n :: n in stores <==> n in old(stores) && (n == current || n in todo)
        invariant forall n :: n in stores ==> stores[n] == old(stores)[n]
        decreases todo
      {
        var n :| n in todo;
        if n != current {
          var _ := Delete(n);
        }
        todo := todo - {n};
      }
      assert stores.Keys == Evict(old(stores), current).Keys;
    }

    /**
     * The fetch handler for `req`: cache first, then the network `net`; a
     * qualifying http(s) response is put into `cacheName`, and `putSucceeds`
     * says whether that write succeeds.
     */
    method OnFetch(cacheName: string, req: Request, net: NetworkOutcome, putSucceeds: bool)
      returns (resp: Option<Response>)
      modifies this
      ensures MatchResults(old(stores), req.url) != {} ==>
                resp.Some? && resp.value in MatchResults(old(stores), req.url) && stores == old(stores)
      ensures MatchResults(old(stores), req.url) == {} && net.Fetched? ==>
                resp == Some(net.response) &&
                stores == if Qualifies(net.response) && CachesScheme(req.url)
                          then PutInto(old(stores), cacheName, req.url, net.response, putSucceeds)
                          else old(stores)
      ensures MatchResults(old(stores), req.url) == {} && net.Rejected? ==>
                stores == old(stores) &&
                if req.mode == Navigate then Matches(old(stores), OfflinePage, resp)
                else resp == Some(OfflineResponse)
    {
      var cached := Match(req.url);
      var offline: Option<Response> := None;
      if cached.None? && net.Rejected? && req.mode == Navigate {
        offline := Match(OfflinePage);
      }
      var d := HandleFetch(req, cached, net, offline);
      if d.toCache.Some? {
        Open(cacheName);
        if putSucceeds {
          stores := stores[cacheName := stores[cacheName][req.url := d.toCache.value]];
        }
      }
      resp := d.response;
    }
  }

  // ---------------------------------------------------------------------------
  // End-to-end properties

  /** After a successful install of the worker's list, the offline page is in the store. */
  lemma OfflinePageInstalled(stores: map<string, Store>, cacheName: string, generated: seq<string>,
                             net: seq<NetworkOutcome>)
    requires AddAllSucceeds(UrlsToCache(ManualCache, generated), net)
    ensures MatchResults(stores[cacheName := StoreOf(stores, cacheName) + Staged(UrlsToCache(ManualCache, generated), net)],
                         OfflinePage) != {}
  {
    var urls := UrlsToCache(ManualCache, generated);
    assert OfflinePage == ManualCache[3];
    var after := stores[cacheName := StoreOf(stores, cacheName) + Staged(urls, net)];
    assert OfflinePage in after[cacheName];
    assert after[cacheName][OfflinePage] in MatchResults(after, OfflinePage);
  }

  /**
   * A new generation replaces the previous one: installing `CacheName` over a
   * storage holding an older store and then activating leaves only `CacheName`.
   * A worker whose install fails is discarded and never activates, so both
   * stores remain.
   */
  method UpgradeFromPreviousGeneration(previous: string, stale: Store, generated: seq<string>,
                                       net: seq<NetworkOutcome>)
    returns (installed: bool, names: set<string>)
    requires previous != CacheName
    requires |net| == |UrlsToCache(ManualCache, generated)|
    ensures installed <==> forall i :: 0 <= i < |net| ==> AddAllAccepts(net[i])
    ensures installed ==> names == {CacheName}
    ensures !installed ==> names == {previous, CacheName}
  {
    var caches := new CacheStorage(map[previous := stale]);
    installed := caches.Install(CacheName, UrlsToCache(ManualCache, generated), net);
    if installed {
      caches.Activate(CacheName);
    }
    names := caches.stores.Keys;
  }
}

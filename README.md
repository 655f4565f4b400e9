# Offline cache of the calculator front-end, in Dafny

The front-end's service worker keeps an offline copy of the static site. It
precaches a list of URLs into one versioned cache store (`calculadora-v1`) on
install. On activate it deletes every other store. It serves each request from
the cache first, then from the network, and stores qualifying network
responses as it goes. When the network is down it falls back to the offline
page for navigations and to an empty 503 response for everything else. A
build-time Node script produces part of that URL list. It walks the build
directory depth-first and drops source maps.

The project models both pieces:

- `cache_list.dfy` (module `CacheList`) models `generate-cache-list.cjs`. The
  file system is an in-memory tree (`Dir`, `Entry`). `WalkDir` is the
  recursive `walkDir` loop, proved against the specification function
  `Listing`. `RelPath` is the `relPath` normalisation and `DropSourceMaps` is
  the `.map` filter.
- `fetch.dfy` (module `Fetch`) holds the response and request records and the
  `protocol` getter of the WHATWG URL Standard, reduced to the scheme. Response
  status and type follow section 2.2.6 ("Responses") of the WHATWG Fetch
  Standard.
- `service_worker.dfy` (module `ServiceWorker`) models `build/sw.js`. It holds
  the URL union `UrlsToCache`, the class `CacheStorage` (a map from store name
  to store, each store a map from URL to response) with the `Install`,
  `Activate` and `OnFetch` handlers, and the pure decision `HandleFetch` the
  fetch handler makes.
- `seqs.dfy` (module `Seqs`) holds `NoDup`, which both programs use.

Inputs that come from outside the worker are parameters:

- the outcome of each network fetch (`NetworkOutcome`);
- whether a `cache.put` succeeds;
- the store name (`CacheName` is the built-in value);
- the generated URL list.

The generator writes its list to `self.dynamicUrlsToCache`
(proyecto-interfaces-master/generate-cache-list.cjs:28). The worker spreads
`self.urlsToCache` (proyecto-interfaces-master/build/sw.js:5, 23). That property
is undefined, so the spread throws a TypeError when the worker script loads. A
missing list is therefore not silently treated as empty. The model takes the
generated list as an explicit parameter and does not model the global lookup.

What the code does, in four places where a reader might expect otherwise:

- A missing generated list does not degrade to an empty one. The spread of the
  undefined `self.urlsToCache` throws, as explained above.
- `caches.match` searches every store, not only `calculadora-v1`, so `Match`
  ranges over all stores. `MatchAfterEvict` shows that after activation only
  the current store can answer.
- `Array.from(new Set(...))` keeps the first occurrence of each URL in its
  place, and `Dedup` keeps that order too.
- The Cache `addAll()` method of the W3C Service Workers specification rejects
  more than an unreachable resource: a response of type "error", a status
  outside 200–299, a 206, and a batch that names the same request twice (an
  InvalidStateError from its Batch Cache Operations algorithm). `AddAllSucceeds`
  includes all of these, and `RepeatedUrlFailsInstall` shows why the
  de-duplication in line 23 matters.

## Model

| member | source | states |
|---|---|---|
| `CacheList.ToSlashes` | proyecto-interfaces-master/generate-cache-list.cjs:15 | the replacement keeps the length, turns each backslash into '/' and leaves every other character as it was; the result holds no backslash |
| `CacheList.RelPath` | proyecto-interfaces-master/generate-cache-list.cjs:15 | a relPath starts with "./", holds no backslash, and after "./" is the slash-normalised path of the file relative to the base directory |
| `CacheList.WalkDir` | proyecto-interfaces-master/generate-cache-list.cjs:11-23 | the loop over a directory's entries, recursing into subdirectories with `baseDir` unchanged, returns exactly `Listing` of the directory |
| `CacheList.ListingIsUrlPaths` | proyecto-interfaces-master/generate-cache-list.cjs:15-19 | every path the walk emits starts with "./" and holds no backslash |
| `CacheList.FilePathsUnder` | proyecto-interfaces-master/generate-cache-list.cjs:14-17 | every file the walk meets lies below the directory being walked, under one of the entries visited so far |
| `CacheList.FilePathsComplete` | proyecto-interfaces-master/generate-cache-list.cjs:16-20 | the walk meets a path exactly when the tree holds a file (not a directory) there: files only, and every file |
| `CacheList.FilePathsNoDup` | proyecto-interfaces-master/generate-cache-list.cjs:16-20 | in a tree whose directories have distinct entry names, the walk meets each file exactly once |
| `CacheList.ListingOfFilePaths` | proyecto-interfaces-master/generate-cache-list.cjs:15-19 | the k-th emitted string is the relPath, relative to the root base directory, of the k-th file met; one string per file |
| `CacheList.ListingOfPrefix` | proyecto-interfaces-master/generate-cache-list.cjs:13 | after visiting n entries the listing depends only on those n entries |
| `CacheList.ListingSplit` | proyecto-interfaces-master/generate-cache-list.cjs:13-20 | depth-first order: listing the entries `front + back` gives the listing of `front` followed by that of `back` |
| `CacheList.ListingOfSubdir` | proyecto-interfaces-master/generate-cache-list.cjs:16-17 | a subdirectory contributes its own full listing at its position |
| `CacheList.DropSourceMaps` | proyecto-interfaces-master/generate-cache-list.cjs:25-26 | a path survives the filter exactly when it was in the input and does not end in ".map" |
| `CacheList.DropSourceMapsAppend` | proyecto-interfaces-master/generate-cache-list.cjs:26 | the filter of a concatenation is the concatenation of the filters, so relative order is kept |
| `CacheList.DropSourceMapsSingle` | proyecto-interfaces-master/generate-cache-list.cjs:26 | a single path is kept exactly when it does not end in ".map" |
| `CacheList.DropSourceMapsKeepsOthers` | proyecto-interfaces-master/generate-cache-list.cjs:26 | a list without ".map" paths passes the filter unchanged |
| `CacheList.GenerateCacheList` | proyecto-interfaces-master/generate-cache-list.cjs:25-26 | the generated list is the filtered walk of the build directory as its own base, and every entry starts with "./", holds no backslash and does not end in ".map" |
| `Fetch.Protocol` | proyecto-interfaces-master/build/sw.js:64-65 | `new URL(url)` succeeds exactly when the URL starts with a scheme (a letter, then letters, digits, '+', '-' or '.') and a colon; the protocol is then the lower-cased scheme followed by ':' |
| `ServiceWorker.Dedup` | proyecto-interfaces-master/build/sw.js:23 | `Array.from(new Set(s))` has no repetitions and holds exactly the elements of `s` |
| `ServiceWorker.UrlsToCache` | proyecto-interfaces-master/build/sw.js:8-23 | the effective list has no repetitions and holds exactly the members of the manual and generated lists |
| `ServiceWorker.DedupPrefix` | proyecto-interfaces-master/build/sw.js:23 | adding elements at the end never reorders the de-duplication of what came before |
| `ServiceWorker.DedupOfDistinct` | proyecto-interfaces-master/build/sw.js:23 | a list without repetitions is its own de-duplication |
| `ServiceWorker.UrlsToCacheStartsWithManual` | proyecto-interfaces-master/build/sw.js:8-23 | the effective list begins with the manual entries in their original order |
| `ServiceWorker.ManualCacheDistinct` | proyecto-interfaces-master/build/sw.js:8-20 | the hand-written list has no repetitions |
| `ServiceWorker.Staged` | proyecto-interfaces-master/build/sw.js:30 | the batch `addAll` writes has an entry for exactly the listed URLs, each with its own fetched response |
| `ServiceWorker.StagedIsEntries` | proyecto-interfaces-master/build/sw.js:30 | a map holding exactly each listed URL with its own response is that batch |
| `ServiceWorker.FetchBatch` | proyecto-interfaces-master/build/sw.js:30 | the fetch-and-check phase of `addAll` succeeds exactly when every response is accepted and no URL repeats, and it then yields the batch |
| `ServiceWorker.InstallFailsOnlyOnNetwork` | proyecto-interfaces-master/build/sw.js:23-30 | with the de-duplicated list, `addAll` succeeds exactly when every fetch is accepted |
| `ServiceWorker.RepeatedUrlFailsInstall` | proyecto-interfaces-master/build/sw.js:23-30 | without de-duplication, a URL in both lists would make `addAll` reject |
| `ServiceWorker.Evict` | proyecto-interfaces-master/build/sw.js:38-44 | after activation the store names are a subset of {current}, the current store is kept unchanged if it existed, and nothing else remains |
| `ServiceWorker.EvictIdempotent` | proyecto-interfaces-master/build/sw.js:38-44 | activating twice is the same as activating once |
| `ServiceWorker.MatchAfterEvict` | proyecto-interfaces-master/build/sw.js:54 | after activation, `caches.match` has at most one possible answer: the current store's entry |
| `ServiceWorker.PutInto` | proyecto-interfaces-master/build/sw.js:67-71 | the put opens (creating if need be) the named store; it writes the entry only if the put succeeds and leaves every other store unchanged |
| `ServiceWorker.HandleFetch` | proyecto-interfaces-master/build/sw.js:54-85 | a hit returns the cached response and caches nothing. A miss with a network response returns that response unmodified. It is cached exactly when it has status 200 and type basic and the URL's protocol is http: or https:. A rejection gives the offline-page lookup for navigations and the empty 503 "Offline" response otherwise |
| `ServiceWorker.HitIgnoresNetwork` | proyecto-interfaces-master/build/sw.js:54-55 | on a hit, the network outcome cannot change the result |
| `ServiceWorker.ProtocolIs` | proyecto-interfaces-master/build/sw.js:64-65 | the protocol is `scheme:` exactly when the URL starts with that scheme and a colon, in either case |
| `ServiceWorker.SchemeGuard` | proyecto-interfaces-master/build/sw.js:62-65 | a URL qualifies for caching exactly when it starts with "http:" or "https:", in either case |
| `ServiceWorker.ChromeExtensionNotCached` | proyecto-interfaces-master/build/sw.js:62-72 | a `chrome-extension:` request with a qualifying response is never written to the cache |
| `ServiceWorker.CacheStorage.Open` | proyecto-interfaces-master/build/sw.js:28 | `caches.open` creates an empty store when none exists under the name and changes nothing else |
| `ServiceWorker.CacheStorage.Delete` | proyecto-interfaces-master/build/sw.js:43 | `caches.delete` removes the named store and reports whether it existed |
| `ServiceWorker.CacheStorage.Match` | proyecto-interfaces-master/build/sw.js:54 | `caches.match` returns a response stored under the key in some store, and returns none only when no store holds the key |
| `ServiceWorker.CacheStorage.AddAll` | proyecto-interfaces-master/build/sw.js:30 | all or nothing: on success every URL's response is written into the store; on failure the storage is unchanged |
| `ServiceWorker.CacheStorage.Install` | proyecto-interfaces-master/build/sw.js:26-33 | install succeeds exactly when `addAll` does. Afterwards every listed URL has an entry in the `CACHE_NAME` store. On failure the entries of every store are unchanged, and only the opened store may have been created |
| `ServiceWorker.CacheStorage.Activate` | proyecto-interfaces-master/build/sw.js:36-49 | the loop over store names deletes each one that is not the current name, and leaves exactly `Evict` of the old stores |
| `ServiceWorker.CacheStorage.OnFetch` | proyecto-interfaces-master/build/sw.js:52-88 | A hit returns a stored response and leaves the storage unchanged. A miss with a network response returns that response whether or not the put succeeds. The storage changes only for a qualifying http(s) response. A rejection leaves the storage unchanged and yields the offline-page lookup for navigations and the 503 response otherwise |
| `ServiceWorker.OfflinePageInstalled` | proyecto-interfaces-master/build/sw.js:8-30 | after a successful install of the worker's list, './offline.html' is in the cache, so an offline navigation finds the fallback page |
| `ServiceWorker.UpgradeFromPreviousGeneration` | proyecto-interfaces-master/build/sw.js:26-49 | installing `calculadora-v1` over an older store succeeds exactly when every fetch is accepted; after a successful install, activation leaves only `calculadora-v1`; after a failed one the worker never activates and both stores remain |

## Left out

- `importScripts` and the global `self.urlsToCache` lookup (sw.js lines 4 and 23). They are host plumbing, so the generated list is a parameter. The name mismatch is described above.
- `event.waitUntil`, `event.respondWith` and promise scheduling are not modelled. The `cache.put` that the handler does not await is modelled as a write that completes before the handler returns. `Promise.all` over the deletions becomes a sequential loop, and deletions of distinct names commute. This is concurrency, which the model does not capture.
- Real `fetch` is not modelled: each network outcome is an input. A response is a record of status, status text, type and body. Headers, streams and `clone()` are not modelled.
- `HandleFetch`: the `!networkResponse` test is not modelled. `fetch` settles with a Response object or rejects, so that branch cannot fire.
- `CacheStorage.Match`: the platform searches stores in creation order, which the model does not record. `Match` may return the entry of any store that holds the key. After activation only one store remains, so the answer is unique.
- Cache keys are absolute request URLs, and the URL lists are taken as already resolved against the worker's location, so install and a later lookup use the same keys. The resolution itself is not modelled. Request methods, `Vary` and the query options of cache matching are not modelled either.
- `Fetch.Protocol`: `new URL` may also reject a string that has a valid scheme, for example `http://` with an empty host. This is not modelled. `request.url` is always a serialised absolute URL, so its scheme always parses.
- `CacheStorage.AddAll`: the Cache `addAll()` checks on request method and on a `Vary: *` header are not modelled. The worker's list consists of GET requests for its own files.
- `console.log` and `console.warn` in both files are logging only.
- The file system is an in-memory tree. `fs.readdirSync`, `fs.statSync`, `path.join` normalisation (`.` and `..`), `writeFileSync` and `copyFileSync` are not modelled. This is I/O and library code.
- `CacheList.ListingOfFilePaths`: the emitted strings are distinct only when file names contain no separator characters. For example, on POSIX a file named `a\b` and a file `b` in directory `a` both become `./a/b`. `FilePathsNoDup` states uniqueness of the files met, not of the strings.
- `svelte.config.js` is static configuration with no logic.

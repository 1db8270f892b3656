# Pushup tracker service worker, modelled in Dafny

The pushup tracker's service worker (`sw.js`) keeps an offline copy of the
app shell. It handles three events:

- **install** opens the cache bucket `pushup-tracker-v2` and fills it with the
  five app-shell paths through `cache.addAll`;
- **activate** deletes every bucket whose name is not `pushup-tracker-v2`;
- **fetch** leaves non-GET requests and requests for Google API, sign-in and
  static hosts to the browser. For any other request it answers from the
  cache when any bucket holds the URL. On a miss it goes to the network and
  writes back `200`/`basic` responses. If the network fails it falls back to
  the cached `/index.html`.

The browser's Cache Storage and `fetch` are replaced by values. This makes
every handler a pure function from the store (and the network) to the new
store and the answer.

- `strings.dfy` (`Strings`): `String.prototype.includes`, proved equal to
  "occurs at some index".
- `http.dfy` (`Http`): requests, responses with status and type, network
  outcomes (`Rejected`, `ResolvedEmpty`, `Resolved`). It also defines
  `Network = string -> NetOutcome`, the network as a parameter.
- `cache_storage.dfy` (`CacheStorage`): the store is a sequence of named
  buckets in creation order. `caches.match` searches buckets in that order.
  Each bucket maps a URL to a response. The module defines `caches.open`,
  `caches.delete`, `caches.match`, `cache.put` and `caches.keys`.
- `service_worker.dfy` (`ServiceWorker`): the constants and the three handlers.
- `worker_properties.dfy` (`WorkerProperties`): properties that span several
  events.

Three behaviours of `sw.js` that are easy to misread:

- The fetch handler looks a request up in every bucket (`caches.match`,
  sw.js:55), not only in `pushup-tracker-v2`.
- The denylist test (sw.js:48-50) is substring containment on the whole URL,
  not a host comparison. `DenylistedBySubstring` states this looseness.
- Install opens the bucket before `addAll` runs (sw.js:13-16). A failed
  install therefore still leaves a `pushup-tracker-v2` bucket: empty if it was
  new, with its old contents otherwise.

## Model

| member | source | states |
|---|---|---|
| `Strings.Includes` | sw.js:48-50 | `url.includes(needle)` holds exactly when `needle` occurs at some index of `url` |
| `Strings.IncludesInfix` | sw.js:48-50 | any string of the form `pre + needle + post` includes `needle` |
| `CacheStorage.Match` | sw.js:55 | `caches.match(url)` finds nothing iff no bucket holds `url`; otherwise it returns the entry of the first bucket, in creation order, that holds it |
| `CacheStorage.Open` | sw.js:74 | `caches.open(name)` leaves an existing bucket as it is, or appends a new empty one; no other bucket and no `caches.match` answer changes |
| `CacheStorage.Put` | sw.js:76 | `cache.put(url, resp)` makes the bucket map `url` to `resp`; every other bucket/URL lookup and the bucket names are unchanged; `caches.match` changes only for `url`, and returns `resp` there if no bucket held `url` before |
| `CacheStorage.Names` | sw.js:25 | `caches.keys()` lists one name per bucket in creation order; a name is listed iff a bucket has it; the store is valid iff no name is listed twice |
| `CacheStorage.Delete` | sw.js:30 | `caches.delete(name)` removes that bucket, adds no name, and leaves every other bucket's contents unchanged |
| `CacheStorage.DeleteKeepsOrder` | sw.js:30 | after `caches.delete(name)` the names are the old names, in the same order, with `name` dropped |
| `ServiceWorker.SeedUrls` | sw.js:2-8 | the app-shell paths resolved against the origin, one URL per path, no URL twice |
| `ServiceWorker.AddAll` | sw.js:16 | `cache.addAll` succeeds iff every URL's fetch gives a non-error response with a 2xx status other than 206; on success each URL maps to its response and every other entry is kept |
| `ServiceWorker.Install` | sw.js:1-19 | install succeeds iff all five app-shell URLs are storable; afterwards bucket `pushup-tracker-v2` exists and maps each of them to its fetched response, other entries of that bucket and all other buckets are unchanged; on failure the bucket keeps its old contents (or is new and empty) |
| `ServiceWorker.DeleteStale` | sw.js:25-33 | after deleting over a list of keys, no key other than the current name is left, no name is added, and the current bucket is unchanged |
| `ServiceWorker.Activate` | sw.js:23-36 | after activate the store is exactly the `pushup-tracker-v2` bucket with its old contents if that bucket existed, and the empty store otherwise; every remaining name is `pushup-tracker-v2` |
| `ServiceWorker.HandleFetch` | sw.js:39-87 | non-GET and denylisted requests are passed through with no cache access and no fetch; the network is used exactly on a miss; a hit returns the stored response with the store unchanged; a 200/basic miss is returned and written to bucket `pushup-tracker-v2` only (appended to the names if missing), after which `caches.match` finds it and answers every other URL as before; any other settled miss is returned with nothing written; a rejected fetch yields the `/index.html` lookup across buckets, store unchanged |
| `WorkerProperties.RepeatedGetHits` | sw.js:54-79 | after a cacheable miss the same request is a hit on the written-back response, with no fetch, whatever the network does next |
| `WorkerProperties.NetworkOnlyOnMiss` | sw.js:42-60 | on pass-through and on a hit the handler's result does not depend on the network |
| `WorkerProperties.DenylistedBySubstring` | sw.js:47-52 | any URL that contains one of the three host strings, with any method, is passed through with the store untouched |
| `WorkerProperties.InstallIdempotent` | sw.js:11-19 | installing twice over the same network gives the same result as installing once, after a successful or a failed install (one entry per app-shell URL) |
| `WorkerProperties.ActivateIdempotent` | sw.js:23-36 | activating twice gives the same store as activating once |
| `WorkerProperties.ShellHoldsSeed` | sw.js:2-16 | after install and activate, `caches.match` returns each app-shell URL's installed response |
| `WorkerProperties.ShellServedFromCache` | sw.js:55-60 | after install and activate, a GET for an app-shell URL not on the denylist is answered from the cache without a fetch |
| `WorkerProperties.OfflineFallsBackToShell` | sw.js:80-83 | after install and activate, an intercepted request that misses while the network rejects gets the installed `/index.html` |

## Left out

- `config.example.js`: a credential template with no logic.
- Logging (`console.log`) has no effect on the cache or the answer.
- `event.waitUntil`, `self.skipWaiting()` and `self.clients.claim()` are left out. They are the host's lifecycle scheduling. So is what the host does with a worker whose install failed.
- `request.clone()` and `response.clone()` are left out. They exist only because bodies can be read once; a response is a value here.
- `ServiceWorker.HandleFetch`: the un-awaited `caches.open(...).then(put)` write-back is taken to complete before the next event. Its loss (page closed, write failure) and interleavings with other requests are not modelled.
- `CacheStorage.Match`: entries are keyed by URL alone. `Vary` headers, `ignoreSearch` and fragment stripping of the real Cache API matching are not modelled.
- `ServiceWorker.AddAll`: the host's extra checks (duplicate requests, non-HTTP schemes, `Vary: *`) are not modelled; `SeedUrls` proves the app-shell list has no duplicate, and its paths resolve against the worker's own origin. Its all-or-nothing behaviour is modelled as the library guarantees it, not derived.
- `ServiceWorker.AddAll`: a storage failure while writing (for example a quota error) makes the host's `addAll` reject even when every fetch is storable; the model has no storage failures, so its "succeeds iff every fetch is storable" holds only for a store that accepts every write.
- `ServiceWorker.Install`: inherits the storage-failure gap of `AddAll`: a quota error fails the real install although every app-shell fetch is storable.
- Deleting a bucket in activate is taken to succeed; a failed deletion would only waste storage.
- Method normalisation (`get` to `GET`) is the host's job; requests arrive with the method already normalised.
- URL resolution is reduced to `origin + path` for the root-relative app-shell paths and `/index.html`.

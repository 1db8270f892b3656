/**
 The pushup tracker's service worker: an app-shell cache seeded on install,
 old generations dropped on activate, and a cache-first fetch handler.
 Every handler is a pure transition of the cache store; the network is an
 argument.
 */
module ServiceWorker {
  import opened Strings
  import opened Http
  import opened CacheStorage

  /** The current cache generation. */
  const CacheName: string := "pushup-tracker-v2"

  /** The app shell, as paths relative to the worker's origin. */
  const UrlsToCache: seq<string> := ["/", "/index.html", "/manifest.json", "/icon-192.svg", "/icon-512.svg"]

  /** The document served when the network is unreachable. */
  const OfflinePage: string := "/index.html"

  // ---------------------------------------------------------------- install

  /**
   `cache.addAll` accepts only responses that are not network errors, have an
   ok (2xx) status, and are not partial (206).
   */
  predicate Storable(o: NetOutcome) {
    o.Resolved? && o.response.kind != Error && 200 <= o.response.status <= 299 && o.response.status != 206
  }

  /**
   `cache.addAll(urls)`: all or nothing. Every URL is fetched; if any outcome
   is not storable nothing is written, otherwise every URL is stored.
   */
  function AddAll(e: Entries, urls: seq<string>, net: Network): (r: Option<Entries>)
    ensures r.Some? <==> forall i :: 0 <= i < |urls| ==> Storable(net(urls[i]))
    ensures r.Some? ==> forall i :: 0 <= i < |urls| ==> urls[i] in r.value && r.value[urls[i]] == net(urls[i]).response
    ensures r.Some? ==> forall u :: u !in urls ==> (u in r.value <==> u in e) && (u in e ==> r.value[u] == e[u])
    decreases |urls|
  {
    if |urls| == 0 then Some(e)
    else if !Storable(net(urls[0])) then None
    else
      var r := AddAll(e[urls[0] := net(urls[0]).response], urls[1..], net);
      assert forall i :: 1 <= i < |urls| ==> urls[i] == urls[1..][i - 1];
      assert forall u :: u in urls[1..] ==> u in urls;
      r
  }

  /** The seed list as absolute URLs: one per app-shell path, no URL twice. */
  function SeedUrls(origin: string): (r: seq<string>)
    ensures |r| == |UrlsToCache|
    ensures forall i :: 0 <= i < |r| ==> r[i] == Resolve(origin, UrlsToCache[i])
    ensures forall i, j :: 0 <= i < j < |r| ==> r[i] != r[j]
  {
    var r := seq(|UrlsToCache|, i requires 0 <= i < |UrlsToCache| => Resolve(origin, UrlsToCache[i]));
    assert forall i :: 0 <= i < |r| ==> r[i][|origin|..] == UrlsToCache[i];
    r
  }

  datatype InstallResult = Installed(store: Store) | InstallFailed(store: Store)

  /**
   The install handler: open bucket `CacheName`, then `addAll` the app shell.
   The bucket is opened before `addAll` runs, so it exists even when
   installation fails; its contents are then what they were.
   */
  function Install(s: Store, origin: string, net: Network): (r: InstallResult)
    requires Valid(s)
    ensures Valid(r.store) && Has(r.store, CacheName)
    ensures r.Installed? <==> forall p :: p in UrlsToCache ==> Storable(net(Resolve(origin, p)))
    ensures r.Installed? ==> forall p :: p in UrlsToCache ==>
      Lookup(r.store, CacheName, Resolve(origin, p)) == Some(net(Resolve(origin, p)).response)
    ensures r.Installed? ==> forall u :: u !in SeedUrls(origin) ==>
      Lookup(r.store, CacheName, u) == Lookup(s, CacheName, u)
    ensures r.InstallFailed? ==> Find(r.store, CacheName) == (if Has(s, CacheName) then Find(s, CacheName) else Some(map[]))
    ensures forall n :: n != CacheName ==> Find(r.store, n) == Find(s, n)
  {
    var withBucket := Open(s, CacheName);
    var urls := SeedUrls(origin);
    assert forall p :: p in UrlsToCache ==> Resolve(origin, p) in urls by {
      forall p | p in UrlsToCache
        ensures Resolve(origin, p) in urls
      {
        var i :| 0 <= i < |UrlsToCache| && UrlsToCache[i] == p;
        assert urls[i] == Resolve(origin, p);
      }
    }
    match AddAll(Find(withBucket, CacheName).value, urls, net)
    case None => InstallFailed(withBucket)
    case Some(e) => Installed(Replace(withBucket, CacheName, e))
  }

  // --------------------------------------------------------------- activate

  /**
   For each of `keys`, delete the bucket of that name unless it is the current
   generation (the callback mapped over `caches.keys()`).
   */
  function DeleteStale(s: Store, keys: seq<string>): (r: Store)
    requires Valid(s)
    ensures Valid(r)
    ensures forall i :: 0 <= i < |keys| && keys[i] != CacheName ==> !Has(r, keys[i])
    ensures forall n :: Has(r, n) ==> Has(s, n)
    ensures Find(r, CacheName) == Find(s, CacheName)
    ensures forall n :: n !in keys ==> Find(r, n) == Find(s, n)
    decreases |keys|
  {
    if |keys| == 0 then s
    else
      var t := if keys[0] != CacheName then Delete(s, keys[0]) else s;
      assert forall i :: 1 <= i < |keys| ==> keys[i] == keys[1..][i - 1];
      DeleteStale(t, keys[1..])
  }

  /** The activate handler: only the current generation survives, with its contents. */
  function Activate(s: Store): (r: Store)
    requires Valid(s)
    ensures Valid(r)
    ensures forall i :: 0 <= i < |r| ==> r[i].name == CacheName
    ensures r == if Has(s, CacheName) then [Bucket(CacheName, Find(s, CacheName).value)] else []
  {
    var r := DeleteStale(s, Names(s));
    assert |r| > 1 ==> r[0].name != r[1].name;
    assert forall i :: 0 <= i < |r| ==> r[i].name == CacheName by {
      forall i | 0 <= i < |r|
        ensures r[i].name == CacheName
      {
        assert Has(r, r[i].name);
        var k :| 0 <= k < |s| && s[k].name == r[i].name;
        assert Names(s)[k] == r[i].name;
      }
    }
    assert |r| == 1 ==> Has(r, CacheName);
    r
  }

  // ------------------------------------------------------------------ fetch

  /** Third-party hosts that must always reach the network (plain substring tests on the URL). */
  predicate Denylisted(url: string) {
    || Includes(url, "googleapis.com")
    || Includes(url, "google.com/gsi")
    || Includes(url, "gstatic.com")
  }

  /** The worker answers only GET requests off the denylist. */
  predicate Intercepted(req: Request) {
    req.verb == "GET" && !Denylisted(req.url)
  }

  /** A network response the worker writes back: status 200 and same-origin (`basic`). */
  predicate Cacheable(o: NetOutcome) {
    o.Resolved? && o.response.status == 200 && o.response.kind == Basic
  }

  /**
   What the handler did with the event: left it to the browser (no
   `respondWith`), or answered it with a response or with nothing (a failed
   request for the page).
   */
  datatype Outcome = PassThrough | RespondWith(response: Option<Response>)

  /** The handler's answer, the store afterwards, and whether it called `fetch`. */
  datatype FetchResult = FetchResult(outcome: Outcome, store: Store, usedNetwork: bool)

  /** The network outcome as the `then` callback sees it: the response, or nothing. */
  function Settled(o: NetOutcome): Option<Response>
    requires !o.Rejected?
  {
    if o.Resolved? then Some(o.response) else None
  }

  /** The fetch handler, with the background write-back taken to complete. */
  function HandleFetch(s: Store, origin: string, req: Request, net: Network): (r: FetchResult)
    requires Valid(s)
    ensures Valid(r.store)
    // Non-GET and denylisted requests: no answer, no cache access, no fetch.
    ensures r.outcome.PassThrough? <==> !Intercepted(req)
    ensures !Intercepted(req) ==> r.store == s && !r.usedNetwork
    // The network is consulted exactly on a cache miss.
    ensures r.usedNetwork <==> Intercepted(req) && Match(s, req.url).None?
    // Hit: the stored response, store unchanged.
    ensures Intercepted(req) && Match(s, req.url).Some? ==>
      r.outcome == RespondWith(Match(s, req.url)) && r.store == s
    // Cacheable miss: returned, and written to bucket `CacheName` only.
    ensures r.usedNetwork && Cacheable(net(req.url)) ==>
      && r.outcome == RespondWith(Some(net(req.url).response))
      && Lookup(r.store, CacheName, req.url) == Some(net(req.url).response)
      && (forall n, u :: (n != CacheName || u != req.url) ==> Lookup(r.store, n, u) == Lookup(s, n, u))
      && Names(r.store) == Names(s) + (if Has(s, CacheName) then [] else [CacheName])
      && Match(r.store, req.url) == Some(net(req.url).response)
      && (forall u :: u != req.url ==> Match(r.store, u) == Match(s, u))
    // Any other settled miss: returned as it is, nothing written.
    ensures r.usedNetwork && !Cacheable(net(req.url)) && !net(req.url).Rejected? ==>
      r.outcome == RespondWith(Settled(net(req.url))) && r.store == s
    // Network failure: the offline page from any bucket, if there is one.
    ensures r.usedNetwork && net(req.url).Rejected? ==>
      r.outcome == RespondWith(Match(s, Resolve(origin, OfflinePage))) && r.store == s
  {
    if req.verb != "GET" then FetchResult(PassThrough, s, false)
    else if Denylisted(req.url) then FetchResult(PassThrough, s, false)
    else
      match Match(s, req.url)
      case Some(hit) => FetchResult(RespondWith(Some(hit)), s, false)
      case None =>
        var o := net(req.url);
        if o.Rejected? then
          FetchResult(RespondWith(Match(s, Resolve(origin, OfflinePage))), s, true)
        else if !Cacheable(o) then
          FetchResult(RespondWith(Settled(o)), s, true)
        else
          var withBucket := Open(s, CacheName);
          FetchResult(RespondWith(Some(o.response)), Put(withBucket, CacheName, req.url, o.response), true)
  }
}

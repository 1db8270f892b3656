/**
 Properties of the service worker that relate several events: a written-back
 response is served on the next request, install and activate can be
 repeated harmlessly, and the app shell they leave behind answers offline.
 */
module WorkerProperties {
  import opened Strings
  import opened Http
  import opened CacheStorage
  import opened ServiceWorker

  /** After a cacheable miss, the same GET is a hit on the written-back response, whatever the network does. */
  lemma RepeatedGetHits(s: Store, origin: string, req: Request, net: Network, later: Network)
    requires Valid(s) && Intercepted(req)
    requires Match(s, req.url).None? && Cacheable(net(req.url))
    ensures HandleFetch(HandleFetch(s, origin, req, net).store, origin, req, later)
      == FetchResult(RespondWith(Some(net(req.url).response)), HandleFetch(s, origin, req, net).store, false)
  {
  }

  /** The network's behaviour matters to the handler only on a cache miss of an intercepted request. */
  lemma NetworkOnlyOnMiss(s: Store, origin: string, req: Request, net: Network, other: Network)
    requires Valid(s)
    requires !Intercepted(req) || Match(s, req.url).Some?
    ensures HandleFetch(s, origin, req, net) == HandleFetch(s, origin, req, other)
  {
  }

  /** A URL containing a denylisted host string anywhere is passed through, the store untouched. */
  lemma DenylistedBySubstring(s: Store, origin: string, verb: string, pre: string, host: string, post: string, net: Network)
    requires Valid(s)
    requires host == "googleapis.com" || host == "google.com/gsi" || host == "gstatic.com"
    ensures HandleFetch(s, origin, Request(verb, pre + host + post), net) == FetchResult(PassThrough, s, false)
  {
    IncludesInfix(pre, host, post);
  }

  /** Re-storing what a bucket already holds leaves `addAll`'s result equal to the bucket. */
  lemma {:induction false} AddAllStable(e: Entries, urls: seq<string>, net: Network)
    requires forall i :: 0 <= i < |urls| ==>
      Storable(net(urls[i])) && urls[i] in e && e[urls[i]] == net(urls[i]).response
    ensures AddAll(e, urls, net) == Some(e)
    decreases |urls|
  {
    if |urls| > 0 {
      assert e[urls[0] := net(urls[0]).response] == e;
      assert forall i :: 1 <= i < |urls| ==> urls[1..][i - 1] == urls[i];
      AddAllStable(e, urls[1..], net);
    }
  }

  /**
   Installing the same generation twice over the same network gives the same
   result as installing once, whether that install succeeded or failed.
   */
  lemma {:induction false} InstallIdempotent(s: Store, origin: string, net: Network)
    requires Valid(s)
    ensures Install(Install(s, origin, net).store, origin, net) == Install(s, origin, net)
  {
    var t := Install(s, origin, net).store;
    assert Open(t, CacheName) == t;
    if Install(s, origin, net).Installed? {
      var urls := SeedUrls(origin);
      var e := Find(t, CacheName).value;
      forall i | 0 <= i < |urls|
        ensures Storable(net(urls[i])) && urls[i] in e && e[urls[i]] == net(urls[i]).response
      {
        assert UrlsToCache[i] in UrlsToCache;
        assert Lookup(t, CacheName, Resolve(origin, UrlsToCache[i])) == Some(net(urls[i]).response);
      }
      AddAllStable(e, urls, net);
      ReplaceSame(t, CacheName);
    } else {
      assert t == Open(s, CacheName);
    }
  }

  /** Activating twice is the same as activating once. */
  lemma ActivateIdempotent(s: Store)
    requires Valid(s)
    ensures Activate(Activate(s)) == Activate(s)
  {
  }

  /** Every app-shell URL fetches to something `addAll` stores: the condition for a successful install. */
  predicate ShellReachable(origin: string, net: Network) {
    forall p :: p in UrlsToCache ==> Storable(net(Resolve(origin, p)))
  }

  /** The store left by a successful install followed by activate. */
  function Shell(s: Store, origin: string, net: Network): Store
    requires Valid(s) && ShellReachable(origin, net)
  {
    Activate(Install(s, origin, net).store)
  }

  /** After install and activate, `caches.match` finds each app-shell URL with the response install stored. */
  lemma ShellHoldsSeed(s: Store, origin: string, net: Network, p: string)
    requires Valid(s) && ShellReachable(origin, net)
    requires p in UrlsToCache
    ensures Match(Shell(s, origin, net), Resolve(origin, p)) == Some(net(Resolve(origin, p)).response)
  {
  }

  /** After install and activate, every app-shell URL is served from the cache without a fetch. */
  lemma ShellServedFromCache(s: Store, origin: string, net: Network, p: string, later: Network)
    requires Valid(s) && ShellReachable(origin, net)
    requires p in UrlsToCache && !Denylisted(Resolve(origin, p))
    ensures HandleFetch(Shell(s, origin, net), origin, Request("GET", Resolve(origin, p)), later)
      == FetchResult(RespondWith(Some(net(Resolve(origin, p)).response)), Shell(s, origin, net), false)
  {
  }

  /** After install and activate, an intercepted request that misses while offline gets the installed `/index.html`. */
  lemma OfflineFallsBackToShell(s: Store, origin: string, net: Network, req: Request, later: Network)
    requires Valid(s) && ShellReachable(origin, net)
    requires Intercepted(req) && later(req.url).Rejected?
    ensures Match(Shell(s, origin, net), req.url).None? ==>
      HandleFetch(Shell(s, origin, net), origin, req, later).outcome
        == RespondWith(Some(net(Resolve(origin, OfflinePage)).response))
  {
  }
}

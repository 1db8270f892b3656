/**
 The browser's Cache Storage: named buckets, in creation order, each mapping
 a request URL to a stored response. Entries are keyed by URL alone.
 */
module CacheStorage {
  import opened Http

  type Entries = map<string, Response>

  datatype Bucket = Bucket(name: string, entries: Entries)

  /** Buckets in the order they were created; `caches.match` searches them in this order. */
  type Store = seq<Bucket>

  /** The host keeps cache names unique. */
  predicate Valid(s: Store) {
    forall i, j :: 0 <= i < j < |s| ==> s[i].name != s[j].name
  }

  /** `caches.has(name)`. */
  predicate Has(s: Store, name: string) {
    exists i :: 0 <= i < |s| && s[i].name == name
  }

  /** `caches.keys()`: the bucket names in creation order, one per bucket, each once in a valid store. */
  function Names(s: Store): (r: seq<string>)
    ensures |r| == |s|
    ensures forall i :: 0 <= i < |s| ==> r[i] == s[i].name
    ensures forall n :: n in r <==> Has(s, n)
    ensures Valid(s) <==> forall i, j :: 0 <= i < j < |r| ==> r[i] != r[j]
  {
    seq(|s|, i requires 0 <= i < |s| => s[i].name)
  }

  /** The contents of the bucket called `name`, if there is one. */
  function Find(s: Store, name: string): (r: Option<Entries>)
    ensures r.None? <==> !Has(s, name)
    ensures Valid(s) ==> forall i :: 0 <= i < |s| && s[i].name == name ==> r == Some(s[i].entries)
  {
    if |s| == 0 then None
    else if s[0].name == name then Some(s[0].entries)
    else
      assert forall i :: 1 <= i < |s| ==> s[i] == s[1..][i - 1];
      Find(s[1..], name)
  }

  /** `cache.match(url)` on the bucket called `name`. */
  function Lookup(s: Store, name: string, url: string): Option<Response> {
    match Find(s, name)
    case None => None
    case Some(e) => if url in e then Some(e[url]) else None
  }

  /** Bucket `i` is the first bucket holding `url`. */
  ghost predicate FirstHolder(s: Store, url: string, i: int) {
    0 <= i < |s| && url in s[i].entries && forall j :: 0 <= j < i ==> url !in s[j].entries
  }

  /** `caches.match(url)`: the entry for `url` in the first bucket that has one. */
  function Match(s: Store, url: string): (r: Option<Response>)
    ensures r.None? <==> forall i :: 0 <= i < |s| ==> url !in s[i].entries
    ensures r.Some? ==> exists i :: FirstHolder(s, url, i) && r.value == s[i].entries[url]
  {
    if |s| == 0 then None
    else if url in s[0].entries then
      assert FirstHolder(s, url, 0);
      Some(s[0].entries[url])
    else
      var r := Match(s[1..], url);
      assert forall i :: 1 <= i < |s| ==> s[i] == s[1..][i - 1];
      assert r.Some? ==> exists i :: FirstHolder(s, url, i) && r.value == s[i].entries[url] by {
        if r.Some? {
          var k :| FirstHolder(s[1..], url, k) && r.value == s[1..][k].entries[url];
          assert FirstHolder(s, url, k + 1);
        }
      }
      r
  }

  /** `caches.open(name)`: the bucket is created, empty and last, only if it is missing. */
  function Open(s: Store, name: string): (r: Store)
    requires Valid(s)
    ensures Valid(r)
    ensures Has(r, name)
    ensures Has(s, name) ==> r == s
    ensures forall n :: Has(r, n) <==> Has(s, n) || n == name
    ensures !Has(s, name) ==> Names(r) == Names(s) + [name] && Find(r, name) == Some(map[])
    ensures forall n :: n != name ==> Find(r, n) == Find(s, n)
    ensures forall u :: Match(r, u) == Match(s, u)
  {
    if Has(s, name) then s
    else
      var r := s + [Bucket(name, map[])];
      assert r[|s|].name == name;
      assert forall i :: 0 <= i < |s| ==> r[i] == s[i];
      assert Names(r) == Names(s) + [name];
      forall n | n != name
        ensures Find(r, n) == Find(s, n)
      {
        FindAppend(s, Bucket(name, map[]), n);
      }
      forall u
        ensures Match(r, u) == Match(s, u)
      {
        MatchAppendEmpty(s, name, u);
      }
      r
  }

  lemma {:induction false} FindAppend(s: Store, b: Bucket, n: string)
    requires b.name != n
    ensures Find(s + [b], n) == Find(s, n)
    decreases |s|
  {
    if |s| > 0 && s[0].name != n {
      assert (s + [b])[1..] == s[1..] + [b];
      FindAppend(s[1..], b, n);
    }
  }

  lemma {:induction false} MatchAppendEmpty(s: Store, name: string, u: string)
    ensures Match(s + [Bucket(name, map[])], u) == Match(s, u)
    decreases |s|
  {
    if |s| > 0 && u !in s[0].entries {
      assert (s + [Bucket(name, map[])])[1..] == s[1..] + [Bucket(name, map[])];
      MatchAppendEmpty(s[1..], name, u);
    }
  }

  /** Overwrite the contents of the bucket called `name`; its place in the order is kept. */
  function Replace(s: Store, name: string, e: Entries): (r: Store)
    requires Valid(s) && Has(s, name)
    ensures Valid(r) && Names(r) == Names(s)
    ensures forall n :: Has(r, n) <==> Has(s, n)
    ensures Find(r, name) == Some(e)
    ensures forall n :: n != name ==> Find(r, n) == Find(s, n)
    ensures |r| == |s| && forall i :: 0 <= i < |s| && s[i].name != name ==> r[i] == s[i]
  {
    var i :| 0 <= i < |s| && s[i].name == name;
    var r := s[i := Bucket(name, e)];
    assert Names(r) == Names(s);
    r
  }

  /** Replacing a bucket's contents by what it already holds changes nothing. */
  lemma ReplaceSame(s: Store, name: string)
    requires Valid(s) && Has(s, name)
    ensures Replace(s, name, Find(s, name).value) == s
  {
  }

  /** Two stores whose buckets agree, one by one, on the entry for `u` give the same `caches.match(u)`. */
  lemma MatchAgrees(s: Store, t: Store, u: string)
    requires |s| == |t|
    requires forall i :: 0 <= i < |s| ==> (u in s[i].entries <==> u in t[i].entries)
    requires forall i :: 0 <= i < |s| && u in s[i].entries ==> s[i].entries[u] == t[i].entries[u]
    ensures Match(s, u) == Match(t, u)
  {
  }

  /**
   `cache.put(url, resp)` on the existing bucket called `name`. Only that
   bucket's entry for `url` changes, so `caches.match` changes only for `url`,
   and finds `resp` there if no bucket had `url` before.
   */
  function Put(s: Store, name: string, url: string, resp: Response): (r: Store)
    requires Valid(s) && Has(s, name)
    ensures Valid(r) && Names(r) == Names(s)
    ensures forall n :: Has(r, n) <==> Has(s, n)
    ensures Lookup(r, name, url) == Some(resp)
    ensures forall n, u :: (n != name || u != url) ==> Lookup(r, n, u) == Lookup(s, n, u)
    ensures forall u :: u != url ==> Match(r, u) == Match(s, u)
    ensures Match(s, url).None? ==> Match(r, url) == Some(resp)
  {
    MatchAfterReplace(s, name, url, resp);
    Replace(s, name, Find(s, name).value[url := resp])
  }

  /** The effect on `caches.match` of overwriting one bucket's entry for `url`. */
  lemma MatchAfterReplace(s: Store, name: string, url: string, resp: Response)
    requires Valid(s) && Has(s, name)
    ensures var r := Replace(s, name, Find(s, name).value[url := resp]);
      && (forall u :: u != url ==> Match(r, u) == Match(s, u))
      && (Match(s, url).None? ==> Match(r, url) == Some(resp))
  {
    var r := Replace(s, name, Find(s, name).value[url := resp]);
    var k :| 0 <= k < |s| && s[k].name == name;
    assert Find(r, name) == Some(r[k].entries);
    forall u | u != url
      ensures Match(r, u) == Match(s, u)
    {
      MatchAgrees(r, s, u);
    }
    if Match(s, url).None? {
      assert FirstHolder(r, url, k);
    }
  }

  lemma NamesCons(b: Bucket, t: Store)
    ensures Names([b] + t) == [b.name] + Names(t)
  {
  }

  /** `caches.delete(name)` keeps the other buckets in their creation order. */
  lemma {:induction false} DeleteKeepsOrder(s: Store, name: string)
    requires Valid(s)
    ensures Names(Delete(s, name)) == Without(Names(s), name)
    decreases |s|
  {
    if |s| > 0 {
      assert s == [s[0]] + s[1..];
      NamesCons(s[0], s[1..]);
      DeleteKeepsOrder(s[1..], name);
      if s[0].name != name {
        NamesCons(s[0], Delete(s[1..], name));
      }
    }
  }

  /** `names` with every occurrence of `name` dropped, the rest in order. */
  function Without(names: seq<string>, name: string): seq<string> {
    if |names| == 0 then []
    else if names[0] == name then Without(names[1..], name)
    else [names[0]] + Without(names[1..], name)
  }

  /** `caches.delete(name)`: the bucket goes, the others keep their contents and order. */
  function Delete(s: Store, name: string): (r: Store)
    requires Valid(s)
    ensures Valid(r)
    ensures !Has(r, name)
    ensures forall n :: Has(r, n) ==> Has(s, n)
    ensures forall n :: n != name ==> Find(r, n) == Find(s, n)
  {
    if |s| == 0 then s
    else
      assert forall i :: 1 <= i < |s| ==> s[i] == s[1..][i - 1];
      var t := Delete(s[1..], name);
      if s[0].name == name then
        t
      else
        var r := [s[0]] + t;
        assert forall i :: 1 <= i < |r| ==> r[i] == t[i - 1];
        assert forall n :: Has(r, n) ==> n == s[0].name || Has(t, n) by {
          forall n | Has(r, n)
            ensures n == s[0].name || Has(t, n)
          {
            var i :| 0 <= i < |r| && r[i].name == n;
            if i > 0 {
              assert t[i - 1].name == n;
            }
          }
        }
        assert forall j :: 0 <= j < |t| ==> Has(s[1..], t[j].name);
        r
  }
}

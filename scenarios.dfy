/**
 * Clients of the handlers: the end-to-end behaviour a user of the service sees,
 * derived from the handlers' contracts alone.
 */
module Scenarios {
  import opened Referrers
  import opened UrlController

  /** The path segment of a short URL: what the client sends back to be redirected. */
  function PathOf(shortUrl: string, protocol: string, host: string): string
  {
    var prefix := ShortUrl(protocol, host, "");
    if |prefix| <= |shortUrl| then shortUrl[|prefix|..] else ""
  }

  /** The short URL built by the handlers gives back its identifier. */
  lemma PathOfShortUrl(protocol: string, host: string, shortId: string)
    ensures PathOf(ShortUrl(protocol, host, shortId), protocol, host) == shortId
  {
    assert ShortUrl(protocol, host, shortId) == ShortUrl(protocol, host, "") + shortId;
  }

  /** A document found by a stored shortId is the one holding it, as shortIds are unique. */
  lemma FindStored(store: Store, i: nat)
    requires store.Valid() && i < |store.records|
    ensures FindOne(store.records, ShortId, store.records[i].shortId) == Some(i)
  {
    var j := FindOne(store.records, ShortId, store.records[i].shortId).value;
    Unique(store.records, store.counter, i, j);
  }

  /**
   * Shortening a non-empty URL and then following the short URL leads back to that
   * URL, unless the referrer key is one the Map refuses, in which case the redirect
   * answers 500.
   */
  method ShortenThenRedirect(store: Store, longUrl: string, protocol: string, host: string,
                             referer: Option<string>, now: Timestamp)
    returns (shortened: Reply<Shortened>, target: Reply<string>)
    requires store.Valid() && longUrl != ""
    modifies store
    ensures store.Valid()
    ensures shortened.Ok? && shortened.value.longUrl == longUrl
    ensures MapKeyAllowed(ReferrerKey(referer)) ==> target == Ok(longUrl)
    ensures !MapKeyAllowed(ReferrerKey(referer)) ==> target == ServerError
  {
    shortened := store.ShortenUrl(longUrl, protocol, host);
    ghost var i :| 0 <= i < |store.records| && store.records[i].longUrl == longUrl &&
      shortened.value.shortUrl == ShortUrl(protocol, host, store.records[i].shortId);
    var shortId := PathOf(shortened.value.shortUrl, protocol, host);
    PathOfShortUrl(protocol, host, store.records[i].shortId);
    FindStored(store, i);
    target := store.RedirectUrl(shortId, referer, now);
  }

  /** Shortening a URL that is already stored returns its existing short URL and changes nothing. */
  method ShortenStored(store: Store, longUrl: string, protocol: string, host: string, ghost i: nat)
    returns (reply: Reply<Shortened>)
    requires store.Valid() && i < |store.records| && store.records[i].longUrl == longUrl
    modifies store
    ensures store.Valid()
    ensures store.records == old(store.records) && store.counter == old(store.counter)
    ensures reply == Ok(Shortened(ShortUrl(protocol, host, store.records[i].shortId), longUrl))
  {
    assert FieldOf(store.records[i], LongUrl) == longUrl;
    ghost var j := FindOne(store.records, LongUrl, longUrl).value;
    Unique(store.records, store.counter, i, j);
    reply := store.ShortenUrl(longUrl, protocol, host);
  }

  /** Shortening the empty URL answers 500, advances the counter and creates no document. */
  method ShortenEmpty(store: Store, protocol: string, host: string) returns (reply: Reply<Shortened>)
    requires store.Valid()
    modifies store
    ensures store.Valid()
    ensures store.records == old(store.records) && store.counter == old(store.counter) + 1
    ensures reply == ServerError
  {
    assert forall j :: 0 <= j < |store.records| ==> FieldOf(store.records[j], LongUrl) != "";
    reply := store.ShortenUrl("", protocol, host);
  }

  /**
   * Shortening the same URL twice gives the same answer and creates at most one
   * document; for the empty URL both answers are 500 and no document is created.
   */
  method ShortenTwice(store: Store, longUrl: string, protocol: string, host: string)
    returns (first: Reply<Shortened>, second: Reply<Shortened>)
    requires store.Valid()
    modifies store
    ensures store.Valid()
    ensures first == second
    ensures first.ServerError? <==> longUrl == ""
    ensures |old(store.records)| <= |store.records| <= |old(store.records)| + 1
    ensures longUrl == "" ==> store.records == old(store.records)
    ensures longUrl != "" ==> exists i :: 0 <= i < |store.records| && store.records[i].longUrl == longUrl
    ensures longUrl != "" ==>
      |store.records| == |old(store.records)| + (if FindOne(old(store.records), LongUrl, longUrl).None? then 1 else 0)
  {
    if longUrl == "" {
      first := ShortenEmpty(store, protocol, host);
      second := ShortenEmpty(store, protocol, host);
      return;
    }
    first := store.ShortenUrl(longUrl, protocol, host);
    ghost var i :| 0 <= i < |store.records| && store.records[i].longUrl == longUrl &&
      first.value.shortUrl == ShortUrl(protocol, host, store.records[i].shortId);
    assert first == Ok(Shortened(ShortUrl(protocol, host, store.records[i].shortId), longUrl));
    second := ShortenStored(store, longUrl, protocol, host, i);
  }

  /** The first URL shortened on a fresh store gets the identifier of counter value 1 (EncodeOne: "1"). */
  method FirstShorten(longUrl: string, protocol: string, host: string) returns (store: Store, shortened: Reply<Shortened>)
    requires longUrl != ""
    ensures fresh(store) && store.Valid()
    ensures store.records == [UrlRecord(Base62.Encode(1), longUrl, 0, None, [])]
    ensures shortened == Ok(Shortened(ShortUrl(protocol, host, Base62.Encode(1)), longUrl))
  {
    store := new Store();
    assert FindOne(store.records, LongUrl, longUrl).None?;
    shortened := store.ShortenUrl(longUrl, protocol, host);
  }

  /**
   * Following the short URL of a document no one has visited yet, with a referrer
   * key the Map accepts: the redirect target, one click at the visit's time, and
   * that key as the only referrer.
   */
  method VisitAccepted(store: Store, shortId: string, longUrl: string, referer: Option<string>, now: Timestamp)
    returns (target: Reply<string>)
    requires store.Valid() && store.records == [UrlRecord(shortId, longUrl, 0, None, [])]
    requires MapKeyAllowed(ReferrerKey(referer))
    modifies store
    ensures store.Valid() && target == Ok(longUrl)
    ensures store.records == [UrlRecord(shortId, longUrl, 1, Some(now), [Entry(ReferrerKey(referer), 1)])]
  {
    var key := ReferrerKey(referer);
    ghost var created := store.records[0];
    assert FindOne(store.records, ShortId, shortId) == Some(0);
    target := store.RedirectUrl(shortId, referer, now);
    assert store.records == [Visited(created, key, now)];
    FirstVisit(shortId, longUrl, key, now);
  }

  /** The same with a referrer key the Map refuses: a 500, and the document is untouched. */
  method VisitRefused(store: Store, shortId: string, longUrl: string, referer: Option<string>, now: Timestamp)
    returns (target: Reply<string>)
    requires store.Valid() && store.records == [UrlRecord(shortId, longUrl, 0, None, [])]
    requires !MapKeyAllowed(ReferrerKey(referer))
    modifies store
    ensures store.Valid() && target == ServerError
    ensures store.records == old(store.records)
  {
    assert FindOne(store.records, ShortId, shortId) == Some(0);
    target := store.RedirectUrl(shortId, referer, now);
  }

  /** The statistics of the only document of a store are that document's report. */
  lemma StatsOfOnly(store: Store, rec: UrlRecord)
    requires store.Valid() && store.records == [rec]
    ensures Consistent(rec) && store.GetStats(rec.shortId) == Ok(StatsOf(rec))
  {
    assert FindOne(store.records, ShortId, rec.shortId) == Some(0);
  }

  /**
   * On a fresh store: shorten a non-empty URL, follow it once, and ask for its
   * statistics. A referrer key the Map accepts gives one click, the visit's time,
   * and that key as the only referrer; without a Referer header the key is
   * "direct". A refused key answers 500 and leaves the zero statistics.
   */
  method FirstVisitStats(longUrl: string, protocol: string, host: string, referer: Option<string>, now: Timestamp)
    returns (target: Reply<string>, stats: Reply<Stats>)
    requires longUrl != ""
    ensures MapKeyAllowed(ReferrerKey(referer)) ==>
      target == Ok(longUrl) && stats == Ok(Stats(1, Some(now), [ReferrerKey(referer)]))
    ensures !MapKeyAllowed(ReferrerKey(referer)) ==>
      target == ServerError && stats == Ok(Stats(0, None, []))
    ensures referer.None? ==> target == Ok(longUrl) && stats == Ok(Stats(1, Some(now), ["direct"]))
  {
    var store, shortened := FirstShorten(longUrl, protocol, host);
    var id := Base62.Encode(1);
    var shortId := PathOf(shortened.value.shortUrl, protocol, host);
    PathOfShortUrl(protocol, host, id);
    var key := ReferrerKey(referer);
    if referer.None? {
      DirectAllowed();
    }
    if MapKeyAllowed(key) {
      target := VisitAccepted(store, shortId, longUrl, referer, now);
      var visited := UrlRecord(shortId, longUrl, 1, Some(now), [Entry(key, 1)]);
      FirstVisit(shortId, longUrl, key, now);
      StatsOfOnly(store, visited);
      stats := store.GetStats(shortId);
    } else {
      target := VisitRefused(store, shortId, longUrl, referer, now);
      var created := UrlRecord(shortId, longUrl, 0, None, []);
      StatsOfOnly(store, created);
      stats := store.GetStats(shortId);
    }
  }
}

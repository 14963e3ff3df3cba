/**
 * The three request handlers of the URL shortener (shorten, redirect, stats)
 * over an in-memory model of the document store: the Url collection, in the
 * order its documents were created, and the sequence number of the single
 * "url_counter" document. Request and response objects become parameters and
 * results; the clock reading is supplied by the caller.
 */
module UrlController {
  import Base62
  import opened Referrers

  datatype Option<T> = None | Some(value: T)

  /** A reading of the caller's clock; the model never looks inside it. */
  datatype Timestamp = Timestamp(millis: int)

  /** One Url document. */
  datatype UrlRecord = UrlRecord(
    shortId: string,
    longUrl: string,
    clickCount: nat,
    lastAccessed: Option<Timestamp>,
    referrers: seq<Entry>)

  /** A handler's answer: the 404 "URL not found" branch, the 500 branch, or a value. */
  datatype Reply<T> = NotFound | ServerError | Ok(value: T)

  /** The JSON body returned by the shorten handler. */
  datatype Shortened = Shortened(shortUrl: string, longUrl: string)

  /** The JSON body returned by the stats handler. */
  datatype Stats = Stats(clickCount: nat, lastAccessed: Option<Timestamp>, topReferrers: seq<string>)

  /** The document field a query matches on. */
  datatype Field = ShortId | LongUrl

  function FieldOf(rec: UrlRecord, f: Field): string
  {
    match f
    case ShortId => rec.shortId
    case LongUrl => rec.longUrl
  }

  /** findOne({ f: value }): the first document, in collection order, whose field f equals value. */
  function FindOne(records: seq<UrlRecord>, f: Field, value: string): (r: Option<nat>)
    ensures r.Some? ==> r.value < |records| && FieldOf(records[r.value], f) == value
    ensures r.Some? ==> forall j :: 0 <= j < r.value ==> FieldOf(records[j], f) != value
    ensures r.None? <==> forall j :: 0 <= j < |records| ==> FieldOf(records[j], f) != value
  {
    if records == [] then None
    else if FieldOf(records[0], f) == value then Some(0)
    else
      match FindOne(records[1..], f, value)
      case None => None
      case Some(i) => Some(i + 1)
  }

  /** The short URL composed from the request's protocol and host. */
  function ShortUrl(protocol: string, host: string, shortId: string): (s: string)
    ensures |s| == |protocol| + |host| + |shortId| + 4
    ensures s[..|protocol|] == protocol && s[|s| - |shortId|..] == shortId
  {
    protocol + "://" + host + "/" + shortId
  }

  /**
   * req.get("referer") || "direct". The parameter is what req.get("referer") returns:
   * the Referrer header when the request has one, otherwise the Referer header. The
   * key is that value, or "direct" when it is absent or empty.
   */
  function ReferrerKey(referer: Option<string>): (key: string)
    ensures key != ""
    ensures referer.Some? && referer.value != "" ==> key == referer.value
    ensures referer.None? || referer.value == "" ==> key == "direct"
  {
    if referer.Some? && referer.value != "" then referer.value else "direct"
  }

  /** The fallback key "direct" is one the Map accepts. */
  lemma DirectAllowed()
    ensures MapKeyAllowed("direct")
  {
    var d := "direct";
    assert d == ['d', 'i', 'r', 'e', 'c', 't'];
    assert forall i :: 0 <= i < |d| ==> d[i] != '.';
  }

  /** A document's analytics agree: one referrer entry per key, and the clicks are their sum. */
  predicate Consistent(rec: UrlRecord)
  {
    DistinctKeys(rec.referrers) && rec.clickCount == Total(rec.referrers)
  }

  /** The record one visit with referrer key `key` at time `now` leaves behind. */
  function Visited(rec: UrlRecord, key: string, now: Timestamp): (r: UrlRecord)
    ensures r.shortId == rec.shortId && r.longUrl == rec.longUrl
    ensures r.clickCount == rec.clickCount + 1 && r.lastAccessed == Some(now)
    ensures Count(r.referrers, key) == Count(rec.referrers, key) + 1
  {
    rec.(clickCount := rec.clickCount + 1, lastAccessed := Some(now), referrers := Bump(rec.referrers, key))
  }

  /** A visit keeps the analytics consistent. */
  lemma VisitedConsistent(rec: UrlRecord, key: string, now: Timestamp)
    requires Consistent(rec)
    ensures Consistent(Visited(rec, key, now))
  {
    BumpTotal(rec.referrers, key);
    BumpDistinct(rec.referrers, key);
  }

  /**
   * A visit raises the count of its key by one and leaves every other count alone;
   * the key joins the end of the key order only if it was not there yet.
   */
  lemma VisitedReferrers(rec: UrlRecord, key: string, now: Timestamp)
    ensures forall k :: Count(Visited(rec, key, now).referrers, k) == Count(rec.referrers, k) + (if k == key then 1 else 0)
    ensures Keys(Visited(rec, key, now).referrers) ==
      if key in Keys(rec.referrers) then Keys(rec.referrers) else Keys(rec.referrers) + [key]
  {
    forall k
      ensures Count(Bump(rec.referrers, key), k) == Count(rec.referrers, k) + (if k == key then 1 else 0)
    {
      BumpCount(rec.referrers, key, k);
    }
    BumpKeys(rec.referrers, key);
  }

  /** The statistics report of one document. */
  function StatsOf(rec: UrlRecord): (s: Stats)
    requires Consistent(rec)
    ensures s.clickCount == rec.clickCount && s.lastAccessed == rec.lastAccessed
    ensures |s.topReferrers| <= 5
    ensures forall i :: 0 <= i < |s.topReferrers| ==> s.topReferrers[i] in Keys(rec.referrers)
  {
    Stats(rec.clickCount, rec.lastAccessed, TopReferrers(rec.referrers))
  }

  /**
   * The first visit to a freshly created document: one click, that visit's time,
   * a single referrer entry, and that key as the whole top-referrer list.
   */
  lemma FirstVisit(id: string, longUrl: string, key: string, now: Timestamp)
    ensures Consistent(UrlRecord(id, longUrl, 0, None, []))
    ensures Visited(UrlRecord(id, longUrl, 0, None, []), key, now) == UrlRecord(id, longUrl, 1, Some(now), [Entry(key, 1)])
    ensures Consistent(UrlRecord(id, longUrl, 1, Some(now), [Entry(key, 1)]))
    ensures StatsOf(UrlRecord(id, longUrl, 1, Some(now), [Entry(key, 1)])) == Stats(1, Some(now), [key])
  {
    var e := Entry(key, 1);
    assert Bump([], key) == [e];
    assert Total([e]) == 1;
    assert DistinctKeys([e]);
    TopOfOne(e);
  }

  class Store {
    /** The Url collection, in creation order. */
    var records: seq<UrlRecord>
    /** The counter document's seq field; 0 while the document does not exist yet. */
    var counter: nat

    /** The store invariant. */
    ghost predicate Valid()
      reads this
    {
      StoreInvariant(records, counter)
    }

    /** An empty collection and no counter document. */
    constructor ()
      ensures Valid() && records == [] && counter == 0
    {
      records := [];
      counter := 0;
    }

    /**
     * POST /shorten. A longUrl already in the collection gets its existing short URL
     * back and nothing changes. Otherwise the counter is incremented and its new
     * value encoded in base 62; a document with zeroed analytics is created, unless
     * the longUrl is empty: the required validator of Url.create then rejects it,
     * after the counter has advanced, and the handler answers 500.
     */
    method ShortenUrl(longUrl: string, protocol: string, host: string) returns (reply: Reply<Shortened>)
      requires Valid()
      modifies this
      ensures Valid()
      ensures reply.Ok? || reply.ServerError?
      ensures reply.Ok? ==> reply.value.longUrl == longUrl
      ensures reply.Ok? ==>
        exists i :: (0 <= i < |records| && records[i].longUrl == longUrl &&
                     reply.value.shortUrl == ShortUrl(protocol, host, records[i].shortId))
      ensures FindOne(old(records), LongUrl, longUrl).Some? ==>
        var existing := old(records)[FindOne(old(records), LongUrl, longUrl).value];
        && records == old(records) && counter == old(counter)
        && existing.longUrl == longUrl
        && reply == Ok(Shortened(ShortUrl(protocol, host, existing.shortId), existing.longUrl))
      ensures FindOne(old(records), LongUrl, longUrl).None? && longUrl == "" ==>
        counter == old(counter) + 1 && records == old(records) && reply == ServerError
      ensures FindOne(old(records), LongUrl, longUrl).None? && longUrl != "" ==>
        && counter == old(counter) + 1
        && records == old(records) + [UrlRecord(Base62.Encode(counter), longUrl, 0, None, [])]
        && reply == Ok(Shortened(ShortUrl(protocol, host, Base62.Encode(counter)), longUrl))
    {
      var existing := FindOne(records, LongUrl, longUrl);
      if existing.Some? {
        var i := existing.value;
        var doc := records[i];
        assert FieldOf(doc, LongUrl) == longUrl;
        reply := Ok(Shortened(ShortUrl(protocol, host, doc.shortId), doc.longUrl));
        assert 0 <= i < |records| && records[i].longUrl == longUrl &&
               reply.value.shortUrl == ShortUrl(protocol, host, records[i].shortId);
        return;
      }
      reply := Allocate(longUrl, protocol, host);
      if reply.Ok? {
        var last := |records| - 1;
        assert records[last].longUrl == longUrl;
        assert 0 <= last < |records| && records[last].longUrl == longUrl &&
               reply.value.shortUrl == ShortUrl(protocol, host, records[last].shortId);
      }
    }

    /**
     * The allocating half of POST /shorten, for a longUrl not in the collection:
     * increment the counter, encode its new value, create the document. An empty
     * longUrl fails the required validator of Url.create after the increment.
     */
    method Allocate(longUrl: string, protocol: string, host: string) returns (reply: Reply<Shortened>)
      requires Valid() && FindOne(records, LongUrl, longUrl).None?
      modifies this
      ensures Valid()
      ensures counter == old(counter) + 1
      ensures longUrl == "" ==> records == old(records) && reply == ServerError
      ensures longUrl != "" ==>
        && records == old(records) + [UrlRecord(Base62.Encode(counter), longUrl, 0, None, [])]
        && reply == Ok(Shortened(ShortUrl(protocol, host, Base62.Encode(counter)), longUrl))
    {
      if longUrl == "" {
        AdvancePreserves(records, counter);
        counter := counter + 1;
        assert StoreInvariant(records, counter);
        return ServerError;
      }
      ghost var before, issued := records, counter;
      counter := counter + 1;
      var shortId := Base62.Base62Encode(counter);
      var newUrl := UrlRecord(shortId, longUrl, 0, None, []);
      CreatePreserves(before, issued, newUrl);
      records := records + [newUrl];
      reply := Ok(Shortened(ShortUrl(protocol, host, shortId), newUrl.longUrl));
    }

    /**
     * GET /:shortId. An unknown identifier is NotFound and changes nothing. For a
     * known one, a referrer key the Map refuses makes the set throw before the save,
     * so the handler answers 500 and nothing changes; otherwise the document's
     * clicks, last access and referrer count are updated, and its longUrl is the
     * redirect target.
     */
    method RedirectUrl(shortId: string, referer: Option<string>, now: Timestamp) returns (reply: Reply<string>)
      requires Valid()
      modifies this
      ensures Valid()
      ensures counter == old(counter) && |records| == |old(records)|
      ensures FindOne(old(records), ShortId, shortId).None? ==> reply == NotFound && records == old(records)
      ensures FindOne(old(records), ShortId, shortId).Some? && !MapKeyAllowed(ReferrerKey(referer)) ==>
        reply == ServerError && records == old(records)
      ensures FindOne(old(records), ShortId, shortId).Some? && MapKeyAllowed(ReferrerKey(referer)) ==>
        var i := FindOne(old(records), ShortId, shortId).value;
        var key := ReferrerKey(referer);
        && reply == Ok(old(records)[i].longUrl)
        && records == old(records)[i := Visited(old(records)[i], key, now)]
        && records[i].shortId == shortId
        && records[i].longUrl == old(records)[i].longUrl
        && records[i].clickCount == old(records)[i].clickCount + 1
        && records[i].lastAccessed == Some(now)
        && (forall k :: Count(records[i].referrers, k) == Count(old(records)[i].referrers, k) + (if k == key then 1 else 0))
        && Keys(records[i].referrers) ==
             if key in Keys(old(records)[i].referrers) then Keys(old(records)[i].referrers)
             else Keys(old(records)[i].referrers) + [key]
    {
      var found := FindOne(records, ShortId, shortId);
      if found.None? {
        return NotFound;
      }
      var i := found.value;
      var urlDoc := records[i];
      var key := ReferrerKey(referer);
      if !MapKeyAllowed(key) {
        return ServerError;
      }
      VisitedReferrers(urlDoc, key, now);
      VisitPreserves(records, counter, i, key, now);
      records := records[i := Visited(urlDoc, key, now)];
      reply := Ok(urlDoc.longUrl);
    }

    /**
     * GET /stats/:shortId. A read: the document's clicks, last access and top five
     * referrer keys, or NotFound.
     */
    function GetStats(shortId: string): (reply: Reply<Stats>)
      requires Valid()
      reads this
      ensures reply.NotFound? || reply.Ok?
      ensures reply.NotFound? <==> forall j :: 0 <= j < |records| ==> records[j].shortId != shortId
      ensures reply.Ok? ==>
        exists i :: 0 <= i < |records| && records[i].shortId == shortId &&
          reply.value.clickCount == records[i].clickCount &&
          reply.value.lastAccessed == records[i].lastAccessed &&
          reply.value.topReferrers == TopReferrers(records[i].referrers)
    {
      match FindOne(records, ShortId, shortId)
      case None => NotFound
      case Some(i) =>
        assert FieldOf(records[i], ShortId) == shortId;
        Ok(StatsOf(records[i]))
    }
  }

  /**
   * The store invariant: every document's analytics are consistent and its longUrl
   * is present (non-empty, as the schema requires), no two documents
   * share a shortId or a longUrl, and every shortId is the encoding of a counter value
   * already handed out.
   */
  ghost predicate StoreInvariant(records: seq<UrlRecord>, counter: nat)
  {
    && (forall i :: 0 <= i < |records| ==> Consistent(records[i]) && records[i].longUrl != "")
    && (forall i, j :: 0 <= i < j < |records| ==> records[i].shortId != records[j].shortId)
    && (forall i, j :: 0 <= i < j < |records| ==> records[i].longUrl != records[j].longUrl)
    && (forall i :: 0 <= i < |records| ==> Issued(records[i].shortId, counter))
  }

  /** Under the invariant a longUrl and a shortId each identify at most one document. */
  lemma Unique(records: seq<UrlRecord>, counter: nat, i: nat, j: nat)
    requires StoreInvariant(records, counter) && i < |records| && j < |records|
    ensures records[i].longUrl == records[j].longUrl ==> i == j
    ensures records[i].shortId == records[j].shortId ==> i == j
  {
    if i < j {
      assert records[i].longUrl != records[j].longUrl && records[i].shortId != records[j].shortId;
    } else if j < i {
      assert records[j].longUrl != records[i].longUrl && records[j].shortId != records[i].shortId;
    }
  }

  /** id is the encoding of one of the counter values 1..counter. */
  ghost predicate Issued(id: string, counter: nat)
  {
    exists k :: 1 <= k <= counter && id == Base62.Encode(k)
  }

  /** The identifier of the next counter value has not been issued yet. */
  lemma FreshShortId(id: string, counter: nat)
    requires Issued(id, counter)
    ensures id != Base62.Encode(counter + 1)
  {
    var k :| 1 <= k <= counter && id == Base62.Encode(k);
    Base62.EncodeInjective(k, counter + 1);
  }

  /** An identifier issued under one counter value stays issued when the counter grows. */
  lemma IssuedGrows(id: string, counter: nat)
    requires Issued(id, counter)
    ensures Issued(id, counter + 1)
  {
    var k :| 1 <= k <= counter && id == Base62.Encode(k);
    assert 1 <= k <= counter + 1;
  }

  /** The identifier of the next counter value is issued once the counter reaches it. */
  lemma IssuedNext(counter: nat)
    ensures Issued(Base62.Encode(counter + 1), counter + 1)
  {
    var k := counter + 1;
    assert 1 <= k <= counter + 1 && Base62.Encode(counter + 1) == Base62.Encode(k);
  }

  /** Advancing the counter without creating a document keeps the invariant. */
  lemma AdvancePreserves(records: seq<UrlRecord>, counter: nat)
    requires StoreInvariant(records, counter)
    ensures StoreInvariant(records, counter + 1)
  {
    forall i | 0 <= i < |records|
      ensures Issued(records[i].shortId, counter + 1)
    {
      IssuedGrows(records[i].shortId, counter);
    }
  }

  /** Creating the document for a longUrl not yet stored, under the next counter value, keeps the invariant. */
  lemma CreatePreserves(records: seq<UrlRecord>, counter: nat, doc: UrlRecord)
    requires StoreInvariant(records, counter)
    requires FindOne(records, LongUrl, doc.longUrl).None? && doc.longUrl != ""
    requires doc == UrlRecord(Base62.Encode(counter + 1), doc.longUrl, 0, None, [])
    ensures StoreInvariant(records + [doc], counter + 1)
  {
    var longUrl := doc.longUrl;
    IssuedNext(counter);
    forall i | 0 <= i < |records|
      ensures records[i].shortId != doc.shortId && records[i].longUrl != doc.longUrl
    {
      NewDocDiffers(records, counter, longUrl, i);
    }
    AppendPreserves(records, counter, doc);
  }

  /**
   * Appending a consistent document whose shortId is issued under the next counter
   * value and whose keys are new keeps the invariant under that counter value.
   */
  lemma AppendPreserves(records: seq<UrlRecord>, counter: nat, doc: UrlRecord)
    requires StoreInvariant(records, counter)
    requires Consistent(doc) && doc.longUrl != "" && Issued(doc.shortId, counter + 1)
    requires forall i :: 0 <= i < |records| ==> records[i].shortId != doc.shortId && records[i].longUrl != doc.longUrl
    ensures StoreInvariant(records + [doc], counter + 1)
  {
    var r := records + [doc];
    assert r[|records|] == doc;
    forall i | 0 <= i < |records|
      ensures Issued(r[i].shortId, counter + 1)
    {
      assert r[i] == records[i];
      IssuedGrows(records[i].shortId, counter);
    }
    forall i, j | 0 <= i < j < |r|
      ensures r[i].shortId != r[j].shortId && r[i].longUrl != r[j].longUrl
    {
      assert r[i] == records[i];
      if j < |records| {
        assert r[j] == records[j];
      }
    }
  }

  /** The document created for a longUrl not yet stored differs from every stored one in both keys. */
  lemma NewDocDiffers(records: seq<UrlRecord>, counter: nat, longUrl: string, i: nat)
    requires StoreInvariant(records, counter)
    requires FindOne(records, LongUrl, longUrl).None?
    requires i < |records|
    ensures records[i].shortId != Base62.Encode(counter + 1) && records[i].longUrl != longUrl
  {
    assert FieldOf(records[i], LongUrl) != longUrl;
    FreshShortId(records[i].shortId, counter);
  }

  /** Recording a visit to one document keeps the invariant. */
  lemma VisitPreserves(records: seq<UrlRecord>, counter: nat, i: nat, key: string, now: Timestamp)
    requires StoreInvariant(records, counter) && i < |records|
    ensures StoreInvariant(records[i := Visited(records[i], key, now)], counter)
  {
    VisitedConsistent(records[i], key, now);
    var r := records[i := Visited(records[i], key, now)];
    assert forall j :: 0 <= j < |r| ==> r[j].shortId == records[j].shortId && r[j].longUrl == records[j].longUrl;
  }
}

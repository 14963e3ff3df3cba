# URL shortener core in Dafny

A verified model of the sequential logic behind the URL shortener's Express handlers:

- **Base62** (`base62.dfy`): the base-62 encoder that turns the allocation counter into a short
  identifier: positional notation over `0-9a-zA-Z`, most significant symbol first, `0` encoded as `"0"`.
  `Base62Encode` is the source's `while (num > 0)` loop, proved equal to the recursive specification
  `Encode`. The lemmas about `Encode` (round trip against the positional decoder `Decode`,
  injectivity, alphabet, no leading zero, minimal length, `Encode(Decode(s)) == s` for well-formed
  identifiers) are stated for every natural number.
- **Snowflake** (`snowflake.dfy`): the loop of `generateSnowflakeId` that folds the generator's byte
  buffer into an arbitrary-precision integer. `GenerateSnowflakeId` is proved equal to the big-endian
  value `BigEndian`. It is bounded by `256^len`, so an 8-byte buffer gives a value below `2^64`, and the
  fold is injective over equal-length buffers.
- **Referrers** (`referrers.dfy`): a document's `referrers` Map from referrer string to click count.
  It is kept as its entries in insertion order, which is the order a JavaScript Map iterates in. The
  file also covers the `Map.set(key, (get(key) || 0) + 1)` bump and the statistics pipeline:
  entries, sort by descending count with a stable sort, first five, keys.
- **UrlController** (`controller.dfy`): the three handlers over an in-memory store. The store is a
  class holding two fields:
  - the Url collection, in creation order;
  - the `seq` field of the `url_counter` document, where 0 stands for a missing document.

  `ShortenUrl` is find-or-create; for an empty longUrl the schema's `required` validator fails the
  create after the counter has advanced, and the handler answers 500. `RedirectUrl` records a visit,
  unless the referrer key is one a Mongoose Map refuses in `set` (it contains `'.'` or starts with
  `'$'`): then the handler answers 500 and nothing is saved. `GetStats` is a read-only function.
  The store keeps an invariant:
  - analytics are consistent: one entry per referrer key, and `clickCount` equals the sum of counts;
  - every `longUrl` is non-empty, as the schema requires;
  - no two documents share a `longUrl` or a `shortId`;
  - every `shortId` is the encoding of a counter value already handed out.
- **Scenarios** (`scenarios.dfy`): end-to-end consequences of the handler contracts:
  - shorten-then-redirect returns the original URL, or 500 for a refused referrer key;
  - shortening twice is idempotent, and the empty URL is refused both times;
  - the statistics after a first visit to the first URL of a fresh store.

Inputs that the source takes from the outside world are parameters of the model:
- the request's protocol and host;
- the value of `req.get("referer")`, which is the `Referrer` header when the request has one and
  otherwise the `Referer` header;
- the clock reading, an uninterpreted `Timestamp`;
- the buffer returned by `flake.next()`.

A handler's 404 branch is the `NotFound` alternative of `Reply`, its 500 branch `ServerError`, and a
successful answer `Ok`.

## Model

| member | source | states |
|---|---|---|
| Base62.SymbolValue | utils/base62.js:1 | the digit value of an alphanumeric character is below 62 |
| Base62.Symbol | utils/base62.js:1 | the character for digit value d is alphanumeric and has digit value d, so `SymbolValue` inverts it |
| Base62.SymbolOfValue | utils/base62.js:1 | every alphanumeric character is the character of its own digit value |
| Base62.SymbolAt | utils/base62.js:1 | the alphabet literal holds at index d the character of digit value d |
| Base62.SymbolIndex | utils/base62.js:1 | every alphanumeric character sits in the alphabet at the index of its digit value |
| Base62.Digits | utils/base62.js:6-9 | the digit string of n is non-empty exactly when n > 0 |
| Base62.Encode | utils/base62.js:4-10 | the identifier is never empty, for every n >= 0 |
| Base62.Base62Encode | utils/base62.js:3-11 | the loop returns `Encode(n)`, and returns `"0"` exactly when n == 0; its invariant says the digits of the unprocessed `num` followed by `str` are the digits of n, and `num` strictly decreases |
| Base62.DigitsAreSymbols | utils/base62.js:6-9 | every digit the loop emits is a symbol of the alphabet |
| Base62.EncodeSymbols | utils/base62.js:4-10 | every identifier consists of alphanumeric symbols only |
| Base62.EncodeInAlphabet | utils/base62.js:1-10 | every character of every identifier is one of the 62 characters of `BASE62` |
| Base62.DecodeDigits | utils/base62.js:6-9 | reading the digits of n back positionally gives n |
| Base62.RoundTrip | utils/base62.js:4-10 | decoding `Encode(n)`, each symbol worth its index in the alphabet, gives n |
| Base62.EncodeInjective | utils/base62.js:4-10 | distinct counter values get distinct identifiers |
| Base62.DigitsLead | utils/base62.js:6-9 | the digit string of n > 0 does not start with `'0'` |
| Base62.NoLeadingZero | utils/base62.js:6-9 | for n > 0 the identifier does not start with `'0'` |
| Base62.LengthBounds | utils/base62.js:6-9 | for n > 0, `62^(len-1) <= n < 62^len` where len is the identifier's length |
| Base62.DigitsOfDecode | utils/base62.js:6-9 | a symbol string without a leading `'0'` is the digit string of its own value |
| Base62.DigitsStep | utils/base62.js:6-9 | appending the symbol of r < 62 to the digits of q gives the digits of `62 * q + r`: one loop step read backwards |
| Base62.DigitsSnoc | utils/base62.js:6-9 | a digit string followed by one more symbol is again the digit string of its value, unless the result would be a lone `'0'` |
| Base62.EncodeDecode | utils/base62.js:4-10 | every non-empty symbol string that is `"0"` or has no leading `'0'` is the encoding of its value, so encode and decode are inverse on identifiers |
| Base62.EncodeOne | utils/base62.js:3-11 | counter value 1, the first one handed out, is written `"1"` |
| Snowflake.GenerateSnowflakeId | backend/utils/snowflake.js:6-13 | the shift-and-add loop returns the big-endian value of the buffer; an empty buffer gives 0; the result is below `256^len` |
| Snowflake.BigEndianAppend | backend/utils/snowflake.js:10 | step law: folding `bytes + [b]` gives `256 * fold(bytes) + b` |
| Snowflake.BigEndianBound | backend/utils/snowflake.js:8-11 | the value of n bytes is below `256^n` |
| Snowflake.FlakeBound | backend/utils/snowflake.js:7-11 | the value of the generator's 8-byte buffer is below `2^64` |
| Snowflake.BigEndianInjective | backend/utils/snowflake.js:8-11 | equal-length buffers with equal values are equal |
| Snowflake.ShiftUnique | backend/utils/snowflake.js:10 | one shift-and-add step determines both the earlier value and the byte added |
| Referrers.Keys | controllers/urlController.js:84 | one key per entry, in entry order; KeysCons gives its step law |
| Referrers.KeysCons | controllers/urlController.js:84 | the keys of an entry followed by more entries are that entry's key followed by their keys |
| Referrers.Count | controllers/urlController.js:61 | `get(key) \|\| 0` is 0 for a key with no entry; EntryLookup gives the count of a key that has one |
| Referrers.Bump | controllers/urlController.js:61 | the bumped key's count goes up by one; BumpCount, BumpTotal, BumpKeys and BumpDistinct add that no other count changes, the sum grows by one, the insertion order is kept and keys stay distinct |
| Referrers.BumpCount | controllers/urlController.js:61 | bumping key raises that key's count by one, starting from 0 when the key is absent, and leaves every other key's count unchanged |
| Referrers.BumpTotal | controllers/urlController.js:57-61 | bumping raises the sum of all counts by exactly one, in step with `clickCount += 1` |
| Referrers.BumpKeys | controllers/urlController.js:61 | Map insertion order: an existing key keeps its place, a new key is appended last |
| Referrers.BumpDistinct | controllers/urlController.js:61 | after a bump no key occurs twice, as in a Map |
| Referrers.EntryLookup | controllers/urlController.js:61 | in a Map, the entry for a key is the one `get(key)` finds, at that key's insertion position |
| Referrers.Insert | controllers/urlController.js:82 | one insertion step of the sort keeps every entry and adds exactly one |
| Referrers.SortByCount | controllers/urlController.js:81-82 | sorting permutes the entries: the multiset of entries is unchanged |
| Referrers.RankedCons | controllers/urlController.js:82 | putting in front of a sorted sequence an entry that belongs before all of it keeps the sequence sorted |
| Referrers.InsertRanked | controllers/urlController.js:82 | inserting an entry that belongs before every entry whose count it reaches keeps the sequence sorted |
| Referrers.SortRanked | controllers/urlController.js:81-82 | the sorted entries are in descending count order, with equal counts kept in insertion order (the sort is stable) |
| Referrers.TopReferrers | controllers/urlController.js:80-84 | the result holds `min(5, number of keys)` keys; each is a Map key and none repeats; they are in descending count order, ties in insertion order; every key left out comes after every key reported |
| Referrers.TopReferrersOrder | controllers/urlController.js:80-84 | the keys taken from the front of the sorted entries have all the properties `TopReferrers` promises |
| Referrers.PrefixKeys | controllers/urlController.js:83-84 | `slice(0, n)` then `map` keeps the first n keys, in order |
| Referrers.PrefixInKeys | controllers/urlController.js:80-84 | the reported keys are keys of the Map |
| Referrers.PrefixOrder | controllers/urlController.js:82-84 | the reported keys are distinct and each is reported before the next by count, then by insertion order |
| Referrers.PrefixBeatsRest | controllers/urlController.js:82-83 | every reported key comes before every Map key cut off by `slice(0, 5)` |
| Referrers.SortedLookup | controllers/urlController.js:80-81 | the sorted entries have as many elements as the Map, and each is the Map's entry for its key |
| Referrers.LeftOut | controllers/urlController.js:83 | a Map key missing from the reported keys sits past the cut in the sorted entries |
| Referrers.TopOfOne | controllers/urlController.js:80-84 | a Map with a single entry reports just that entry's key |
| UrlController.FindOne | controllers/urlController.js:12 | `findOne` returns the first document, in collection order, whose field equals the value, and fails exactly when no document matches |
| UrlController.ShortUrl | controllers/urlController.js:39 | the template `${protocol}://${host}/${shortId}`, also used at line 15: it starts with the protocol, ends with the shortId and is four characters longer than its three parts; PathOfShortUrl reads the shortId back |
| UrlController.ReferrerKey | controllers/urlController.js:60 | the referrer key is never empty; it is the value of `req.get("referer")` (the `Referrer` header, else the `Referer` header) when that is present and non-empty, and `"direct"` otherwise |
| UrlController.DirectAllowed | controllers/urlController.js:60-61 | the fallback key `"direct"` is one the Map's `set` accepts |
| UrlController.Visited | controllers/urlController.js:57-61 | one visit keeps shortId and longUrl, adds one click, sets lastAccessed to now and raises the key's count by one; VisitedConsistent and VisitedReferrers state the rest |
| UrlController.VisitedReferrers | controllers/urlController.js:61 | a visit raises its key's count by one and leaves every other count alone; the key order is kept, or the new key is appended |
| UrlController.VisitedConsistent | controllers/urlController.js:57-61 | a visit keeps `clickCount` equal to the sum of the referrer counts and keeps the referrer keys distinct |
| UrlController.StatsOf | controllers/urlController.js:86-90 | the report copies clickCount and lastAccessed and lists at most five keys, each a key of the document's Map; TopReferrers gives their order |
| UrlController.FirstVisit | controllers/urlController.js:57-90 | the first visit to a new document leaves one click, the visit's time and a single entry with count 1, and the report then lists just that key |
| UrlController.Store.constructor | controllers/urlController.js:21-25 | a new store has no documents and no counter document, so its counter reads 0; the invariant holds |
| UrlController.Store.ShortenUrl | controllers/urlController.js:7-45 | a stored longUrl gets back its existing short URL, built from protocol, host and shortId, and nothing changes. Otherwise the counter advances by exactly one. An empty longUrl then fails the `required` validator of `backend/models/Url.js`: the reply is `ServerError` and no document is created. Any other longUrl gets a new document with shortId `Encode(counter)`, zero clicks, no last access and no referrers, and the reply carries that short URL and the longUrl. Every `Ok` reply's short URL is that of a document holding the longUrl; the reply is never `NotFound`; the invariant holds |
| UrlController.Store.Allocate | controllers/urlController.js:20-41 | for a longUrl not stored: the counter advances by exactly one; an empty longUrl gets `ServerError` and no document; any other gets a document with shortId `Encode(counter)` and zeroed analytics appended, and the composed short URL; the invariant holds |
| UrlController.Store.RedirectUrl | controllers/urlController.js:49-69 | an unknown shortId is `NotFound` and the store is unchanged. For a known one whose referrer key the Map's `set` refuses (a `'.'` in it, or a leading `'$'`), the reply is `ServerError` and the store is unchanged. Otherwise the reply is the stored longUrl and only that document is replaced: clickCount + 1, lastAccessed = now, the referrer key's count + 1 while all other counts stay the same, key order kept or the new key appended, shortId and longUrl unchanged. The counter is unchanged and the invariant holds |
| UrlController.Store.GetStats | controllers/urlController.js:72-94 | `NotFound` exactly when no document has the shortId, otherwise `Ok` with that document's clickCount, lastAccessed and top five referrer keys; being a function, it changes nothing |
| UrlController.Unique | controllers/urlController.js:12-28 | under the invariant a longUrl, and likewise a shortId, identifies at most one document |
| UrlController.FreshShortId | controllers/urlController.js:21-28 | the encoding of the next counter value differs from every identifier issued so far |
| UrlController.IssuedGrows | controllers/urlController.js:21-25 | an identifier stays issued when the counter advances |
| UrlController.IssuedNext | controllers/urlController.js:21-28 | the encoding of the new counter value is issued under it |
| UrlController.AdvancePreserves | controllers/urlController.js:21-25 | advancing the counter without creating a document, as the failed create of an empty longUrl does, keeps the invariant |
| UrlController.NewDocDiffers | controllers/urlController.js:12-28 | the document created for an unstored longUrl differs from every stored document in both longUrl and shortId |
| UrlController.AppendPreserves | controllers/urlController.js:30-36 | appending a consistent document with new keys and a freshly issued shortId keeps the invariant under the advanced counter |
| UrlController.CreatePreserves | controllers/urlController.js:12-36 | the create branch of shorten, for a non-empty longUrl not yet stored, keeps the store invariant: distinct longUrls, distinct shortIds, consistent analytics, issued shortIds |
| UrlController.VisitPreserves | controllers/urlController.js:57-63 | recording a visit keeps the store invariant |
| Scenarios.PathOfShortUrl | controllers/urlController.js:39 | the path segment of a composed short URL is its shortId |
| Scenarios.FindStored | controllers/urlController.js:52 | looking up a stored shortId finds the document that holds it |
| Scenarios.ShortenStored | controllers/urlController.js:12-17 | shortening a stored longUrl returns that document's short URL and changes nothing |
| Scenarios.ShortenEmpty | controllers/urlController.js:20-44 | shortening `""` answers 500, uses up one counter value and creates no document |
| Scenarios.ShortenThenRedirect | controllers/urlController.js:7-69 | shortening a non-empty longUrl succeeds, and following the returned short URL redirects to that longUrl, or answers 500 when the referrer key is one the Map refuses |
| Scenarios.ShortenTwice | controllers/urlController.js:12-44 | shortening the same longUrl twice gives equal replies; both replies are 500 exactly when the longUrl is empty, and then no document is created. For a non-empty longUrl a document holding it exists afterwards, and it is the only one by the store invariant. The collection grows by exactly one document when the longUrl was not stored before, and otherwise not at all |
| Scenarios.FirstShorten | controllers/urlController.js:12-41 | on a fresh store the first longUrl gets shortId `Encode(1)` and its document is the only one |
| Scenarios.VisitAccepted | controllers/urlController.js:49-65 | following the short URL of a document not yet visited, with an accepted referrer key, redirects to its longUrl and leaves one click, the visit's time and a single entry for that key |
| Scenarios.VisitRefused | controllers/urlController.js:60-67 | the same visit with a refused referrer key answers 500 and leaves the document untouched |
| Scenarios.StatsOfOnly | controllers/urlController.js:72-90 | the stats of a store's only document are that document's report |
| Scenarios.FirstVisitStats | controllers/urlController.js:7-94 | on a fresh store: shorten, one visit, then stats. An accepted referrer key gives the redirect, one click, the visit's time and that key as the only referrer; with no Referer the key is `"direct"`. A refused key gives 500 and zero statistics |

## Left out

- HTTP wiring is not modelled: Express request and response objects, `res.json`, `res.redirect`, status codes. Handler inputs are parameters; the 404 branch is `NotFound`.
- Two 500 branches are modelled: an empty longUrl rejected by the `required` validator of `Url.create`, and a referrer key the Map's `set` refuses. Other store failures (a lost connection, a rejected save) are outside the model.
- Concurrency is not modelled; the model is sequential. This covers:
  - the atomicity of the `$inc` upsert on the counter document;
  - the non-atomic `findOne`-then-`save` in the redirect handler;
  - the race between the existence check and `create` in the shorten handler.
- `flake.next()` is foreign and depends on the clock and the worker id, so its buffer is a parameter. The generator's epoch constant is therefore not modelled either.
- `new Date()` is not modelled; the clock reading is a `Timestamp` parameter. The model does not inspect it, nor how it is serialised in JSON.
- The counter and click counts are mathematical integers. JavaScript `Number` precision beyond 2^53 is not modelled, and neither is how `Math.floor` behaves there.
- UrlController.Store.ShortenUrl: of the schema's validation only `required` on longUrl is modelled; it rejects the empty string after the `$inc` at lines 21-25, so the counter value is used up. The handler itself validates nothing and has no 400 branch. A request body without `longUrl`, or with a non-string one, is not modelled: the model's longUrl is always a string.
- UrlController.Store.RedirectUrl: a referrer key is counted only if the Map's `set` accepts it, so any Referer with a dotted host takes the 500 branch, as in the source. Any key check beyond these two is not modelled (some Mongoose versions also refuse reserved names such as `__proto__`); such a key is counted.
- Referrers.TopReferrers: does not model that `Object.fromEntries`/`Object.entries` enumerate integer-like keys first, in ascending numeric order. The model keeps Map insertion order for every key.
- The controller imports `models/Url.js`, whose schema nests the analytics. The handlers read and write `clickCount`, `lastAccessed` and `referrers` at the top level of the document. The record therefore takes the flat shape of `backend/models/Url.js`, lines 4-8. The model follows that flat shape on purpose. Under the nested `models/Url.js` schema as wired, strict mode would drop the top-level `clickCount`, `lastAccessed` and `referrers` at `Url.create` (controllers/urlController.js:30-36). Then `urlDoc.referrers` would be undefined at line 61, so every redirect to a known id would answer 500, and `Object.fromEntries` would throw at line 80, so every stats request for a known id would answer 500 too.
- Mongoose's `unique: true` index on `shortId` is not modelled as a separate check. Distinct shortIds follow from the store invariant instead.

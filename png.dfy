/** The `GET /png/:url` route: a KV lookup under a key derived from the URL,
    and on a miss a dispatch on the oEmbed document's `type` — render and
    store for `rich`, redirect for `photo`, 400 for everything else.

    `Outcome` is the specification: the response and the new store as
    functions of the old store, the network and the renderer. `Handle` is the
    route, with its KV calls, proved to produce exactly that outcome. */
module Png {

  import opened Wrappers
  import opened JsValue
  import opened LinkHandler
  import opened Http
  import opened OEmbed
  import opened Kv
  import Base64

  /** The headless-browser session: the screenshot taken after
      `setContent(html)`, as PNG bytes. */
  type Renderer = Option<Json> -> Base64.Bytes

  const CacheKeyPrefix := "png-"

  /** `ttl` when the document names no `cache_age`. */
  const DefaultTtl: real := 14400.0

  /** The `max-age` a cache hit is served with. */
  const HitMaxAge: real := 14400.0

  /** `` `png-${btoa(url)}` ``: `None` when `btoa` throws. */
  function CacheKey(url: string): (key: Option<string>)
    ensures key.Some? <==> Base64.IsLatin1(url)
    ensures key.Some? ==> |key.value| >= |CacheKeyPrefix| && key.value[..|CacheKeyPrefix|] == CacheKeyPrefix
  {
    match Base64.Btoa(url)
    case None => None
    case Some(encoded) => Some(CacheKeyPrefix + encoded)
  }

  /** Different URLs never share a cache key, so one URL's image is never
      served for another. */
  lemma CacheKeyInjective(url: string, other: string)
    requires CacheKey(url).Some? && CacheKey(url) == CacheKey(other)
    ensures url == other
  {
    var key := CacheKey(url).value;
    var n := |CacheKeyPrefix|;
    assert Base64.Btoa(url).value == key[n..];
    assert Base64.Btoa(other).value == key[n..];
    Base64.BtoaInjective(url, other);
  }

  /** `oembed['cache_age'] ?? 14400`: the default only for a missing or `null`
      `cache_age`; any other value, `0` included, is kept as it is. */
  function Ttl(oembed: Json): (ttl: Json)
    ensures Property(oembed, "cache_age").None? ==> ttl == JNumber(DefaultTtl)
    ensures Property(oembed, "cache_age") == Some(JNull) ==> ttl == JNumber(DefaultTtl)
    ensures Property(oembed, "cache_age") == Some(JNumber(0.0)) ==> ttl == JNumber(0.0)
    ensures forall v :: Property(oembed, "cache_age") == Some(v) && v != JNull ==> ttl == v
  {
    Coalesce(Property(oembed, "cache_age"), JNumber(DefaultTtl))
  }

  function Max(a: real, b: real): real
  {
    if a >= b then a else b
  }

  /** `(ttl/1000) > 60 ? (ttl/1000) : 60`, the `expirationTtl` handed to KV.
      For a number it is the larger of `ttl/1000` and 60. The model treats a
      value that is not a number as NaN, which is not above 60; JavaScript's
      coercion of such values to numbers is not modelled. */
  function ExpirationTtl(ttl: Json): (cfTtl: real)
    ensures cfTtl >= MinimumTtl
    ensures ttl.JNumber? ==> cfTtl == Max(ttl.n / 1000.0, MinimumTtl)
    ensures ttl.JNumber? && ttl.n / 1000.0 > MinimumTtl ==> cfTtl == ttl.n / 1000.0
    ensures !ttl.JNumber? ==> cfTtl == MinimumTtl
  {
    match ttl
    case JNumber(n) => if n / 1000.0 > 60.0 then n / 1000.0 else 60.0
    case _ => 60.0
  }

  datatype EmbedKind = Rich | Photo | Unsupported

  /** `switch (oembed?.type)`: strict equality with the strings `'rich'` and
      `'photo'`; `'video'`, `'link'`, any other value, a missing `type` and a
      `null` document all fall to the default. */
  function KindOf(oembed: Json): (kind: EmbedKind)
    ensures kind == Rich <==> Property(oembed, "type") == Some(JString("rich"))
    ensures kind == Photo <==> Property(oembed, "type") == Some(JString("photo"))
  {
    match Property(oembed, "type")
    case Some(JString(t)) =>
      if t == "rich" then Rich else if t == "photo" then Photo else Unsupported
    case _ => Unsupported
  }

  datatype Outcome = Outcome(response: Response, store: map<string, Entry>)

  /** A miss: what the route answers and stores for the document it fetched. */
  function OnMiss(oembed: Json, key: string, render: Renderer, store: map<string, Entry>): Outcome
  {
    match KindOf(oembed)
    case Rich =>
      var img := render(Property(oembed, "html"));
      var ttl := Ttl(oembed);
      Outcome(Image(img, ttl), store[key := Entry(img, ExpirationTtl(ttl))])
    case Photo =>
      var photoUrl := Property(oembed, "url");
      if TruthyOpt(photoUrl) then Outcome(Redirect(photoUrl.value), store)
      else Outcome(Error(400, NoPhotoUrlMessage), store)
    case Unsupported =>
      Outcome(Error(400, NoOEmbedMessage), store)
  }

  /** The whole route: key, lookup, and on a miss the dispatch above. A key that
      holds anything is a hit: an `ArrayBuffer`, even an empty one, is truthy. */
  function RouteOutcome(store: map<string, Entry>, web: Web, render: Renderer, url: string): Outcome
  {
    match CacheKey(url)
    case None => Outcome(Uncaught(InvalidCharacterError), store)
    case Some(key) =>
      if key in store then Outcome(Image(store[key].value, JNumber(HitMaxAge)), store)
      else OnMiss(OEmbedOf(web, url), key, render, store)
  }

  /** `GET /png/:url` against the KV namespace `kv`. */
  method Handle(kv: KvNamespace, web: Web, render: Renderer, url: string) returns (resp: Response)
    requires kv.Valid()
    modifies kv
    ensures kv.Valid()
    ensures resp == RouteOutcome(old(kv.entries), web, render, url).response
    ensures kv.entries == RouteOutcome(old(kv.entries), web, render, url).store
  {
    var cacheKey := CacheKey(url);
    if cacheKey.None? {
      return Uncaught(InvalidCharacterError);
    }
    var cachedResult := kv.Get(cacheKey.value);
    if cachedResult.Some? {
      return Image(cachedResult.value, JNumber(HitMaxAge));
    }
    var oembed := GetOembed(web, url);
    match KindOf(oembed)
    case Rich =>
      var img := render(Property(oembed, "html"));
      var ttl := Ttl(oembed);
      var cfTtl := ExpirationTtl(ttl);
      kv.Put(cacheKey.value, img, cfTtl);
      resp := Image(img, ttl);
    case Photo =>
      var photoUrl := Property(oembed, "url");
      if TruthyOpt(photoUrl) {
        resp := Redirect(photoUrl.value);
      } else {
        resp := Error(400, NoPhotoUrlMessage);
      }
    case Unsupported =>
      resp := Error(400, NoOEmbedMessage);
  }

  // Properties of the route.

  /** A hit answers with the stored bytes and `max-age=14400`, writes nothing,
      and neither the network nor the renderer has any say in it. */
  lemma HitShortCircuits(store: map<string, Entry>, web: Web, render: Renderer,
                         otherWeb: Web, otherRender: Renderer, url: string)
    requires CacheKey(url).Some? && CacheKey(url).value in store
    ensures RouteOutcome(store, web, render, url) ==
            Outcome(Image(store[CacheKey(url).value].value, JNumber(HitMaxAge)), store)
    ensures RouteOutcome(store, otherWeb, otherRender, url) == RouteOutcome(store, web, render, url)
  {
  }

  /** A `rich` miss answers with the rendered image and `max-age` = `ttl`
      undivided, and stores that same image under the lookup key with an
      expiration of at least 60 seconds. */
  lemma RichMissRendersAndStores(store: map<string, Entry>, web: Web, render: Renderer, url: string)
    requires CacheKey(url).Some? && CacheKey(url).value !in store
    requires KindOf(OEmbedOf(web, url)) == Rich
    ensures var oembed := OEmbedOf(web, url);
            var img := render(Property(oembed, "html"));
            var o := RouteOutcome(store, web, render, url);
            o.response == Image(img, Ttl(oembed)) &&
            o.store == store[CacheKey(url).value := Entry(img, ExpirationTtl(Ttl(oembed)))] &&
            o.store[CacheKey(url).value].expirationTtl >= MinimumTtl
  {
  }

  /** Only a `rich` miss writes to the store; every other path leaves it as it was. */
  lemma OnlyRichMissWrites(store: map<string, Entry>, web: Web, render: Renderer, url: string)
    ensures RouteOutcome(store, web, render, url).store != store ==>
      CacheKey(url).Some? && CacheKey(url).value !in store && KindOf(OEmbedOf(web, url)) == Rich
  {
  }

  /** The route keeps the store invariant: whatever it writes carries a TTL
      KV accepts. */
  lemma RouteKeepsFloor(store: map<string, Entry>, web: Web, render: Renderer, url: string)
    requires EntriesRespectFloor(store)
    ensures EntriesRespectFloor(RouteOutcome(store, web, render, url).store)
  {
  }

  /** The lookup and the write use the same key: once a `rich` miss has stored
      its image, the next request for the same URL, while KV still holds the
      entry, is a hit served with that image, however the network or the
      renderer have changed since. */
  lemma SecondRequestIsHit(store: map<string, Entry>, web: Web, render: Renderer,
                           laterWeb: Web, laterRender: Renderer, url: string)
    requires CacheKey(url).Some? && CacheKey(url).value !in store
    requires KindOf(OEmbedOf(web, url)) == Rich
    ensures var first := RouteOutcome(store, web, render, url);
            RouteOutcome(first.store, laterWeb, laterRender, url) ==
            Outcome(Image(first.response.bytes, JNumber(HitMaxAge)), first.store)
  {
  }

  /** A request for one URL never changes what is stored for another URL. */
  lemma OtherUrlsUntouched(store: map<string, Entry>, web: Web, render: Renderer,
                           url: string, other: string)
    requires url != other && CacheKey(other).Some?
    ensures var key := CacheKey(other).value;
            var after := RouteOutcome(store, web, render, url).store;
            (key in after <==> key in store) && (key in store ==> after[key] == store[key])
  {
    if CacheKey(url).Some? && CacheKey(url) == CacheKey(other) {
      CacheKeyInjective(url, other);
    }
  }

  /** A `photo` document redirects to its truthy `url` and otherwise answers
      400; neither writes to the store. */
  lemma PhotoRedirectsOrFails(store: map<string, Entry>, web: Web, render: Renderer, url: string)
    requires CacheKey(url).Some? && CacheKey(url).value !in store
    requires KindOf(OEmbedOf(web, url)) == Photo
    ensures var photoUrl := Property(OEmbedOf(web, url), "url");
            RouteOutcome(store, web, render, url) ==
            if TruthyOpt(photoUrl) then Outcome(Redirect(photoUrl.value), store)
            else Outcome(Error(400, NoPhotoUrlMessage), store)
  {
  }

  /** `video`, `link`, any other type and a missing document answer 400
      "No oEmbed available." and write nothing. */
  lemma UnsupportedIsError(store: map<string, Entry>, web: Web, render: Renderer, url: string)
    requires CacheKey(url).Some? && CacheKey(url).value !in store
    requires KindOf(OEmbedOf(web, url)) == Unsupported
    ensures RouteOutcome(store, web, render, url) == Outcome(Error(400, NoOEmbedMessage), store)
  {
  }

  /** A page without a matching `<link>` gets no image on a miss: 400 and no write. */
  lemma NoLinkNoImage(store: map<string, Entry>, web: Web, render: Renderer, url: string)
    requires CacheKey(url).Some? && CacheKey(url).value !in store
    requires forall j :: 0 <= j < |web.linksAt(url)| ==> !IsOEmbedLink(web.linksAt(url)[j])
    ensures RouteOutcome(store, web, render, url) == Outcome(Error(400, NoOEmbedMessage), store)
  {
    NoLinkNoOEmbed(web, url);
  }

  /** A URL `btoa` rejects throws before the store is read: nothing is written. */
  lemma NonLatin1UrlThrows(store: map<string, Entry>, web: Web, render: Renderer, url: string)
    requires !Base64.IsLatin1(url)
    ensures RouteOutcome(store, web, render, url) == Outcome(Uncaught(InvalidCharacterError), store)
  {
  }

  /** The two lifetimes disagree in unit: on a `rich` miss whose document
      names no `cache_age`, the response says `max-age=14400` while the entry
      written to KV expires after 60 seconds. */
  lemma DefaultTtlLifetimes(store: map<string, Entry>, web: Web, render: Renderer, url: string)
    requires CacheKey(url).Some? && CacheKey(url).value !in store
    requires KindOf(OEmbedOf(web, url)) == Rich
    requires Property(OEmbedOf(web, url), "cache_age").None?
    ensures var o := RouteOutcome(store, web, render, url);
            o.response.Image? && o.response.maxAge == JNumber(14400.0) &&
            CacheKey(url).value in o.store &&
            o.store[CacheKey(url).value].expirationTtl == 60.0
  {
  }
}

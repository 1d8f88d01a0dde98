# oembed-imagifier, modelled in Dafny

The worker answers `GET /png/:url` with a PNG "screenshot" of the oEmbed embed
of a web page, and `GET /oembed/:url` with the page's raw oEmbed document. This
project models the decision logic of those two routes, which all lives in
`src/index.ts`:

- **oEmbed discovery** (`OEmbedLinkHandler`, `getOembed`). The page's `<link>`
  elements stream through a handler with one field, `oembedUrl`. Every element
  with `rel="alternate"` and `type="application/json+oembed"` overwrites that
  field with its `href`, and the pass never stops early, so the **last** match
  wins. A missing or empty URL means there is no oEmbed document and no second
  fetch. Modules `LinkHandler` (the handler class and the scanning loop) and
  `OEmbed` (`getOembed` and the `/oembed` route).
- **The `/png` route** (module `Png`), over a Workers KV namespace modelled as a
  class holding a `map` (module `Kv`).
  - The cache key is `"png-" + btoa(url)`. `btoa` is written out as the Base 64
    encoding of section 4 of RFC 4648 over Latin-1 strings (module `Base64`).
  - A hit answers with the stored bytes and `max-age=14400`.
  - A miss dispatches on the document's `type`. `rich` renders, answers with
    `max-age` set to `ttl = cache_age ?? 14400`, and writes the image to KV with
    `expirationTtl = ttl/1000` raised to at least 60. `photo` redirects to its
    `url` or answers 400. Every other type answers 400.
- **JavaScript values** (module `JsValue`). The parsed JSON document, together
  with the truthiness, property access and `??` rules the routes apply to it.

The network and the browser are parameters. `OEmbed.Web` gives the `<link>`
elements of the page at a URL and the JSON value that the document at a URL
parses to. `Png.Renderer` gives the PNG bytes that the headless browser
captures for a document's `html`.

`Png.RouteOutcome` is a pure function that gives the response and the new
store. `Png.Handle` is the route written as statements with its `get` and `put`
calls, and it is proved to produce exactly that outcome. The lemmas state the
route's properties in terms of `RouteOutcome`. They cover the hit short-circuit,
the single write on a `rich` miss, the TTL floor, agreement between the lookup
key and the write key, and the injectivity of the key.

Four behaviours of the worker shape the model:

- The worker takes the **last** matching `<link>`, not the first: the scan
  never stops early.
- Concurrent misses for one URL each render and each `put`. Nothing
  coordinates them.
- Failures of `fetch`, `json()` and Puppeteer are uncaught exceptions, not typed
  outcomes.
- The KV expiration is `max(ttl/1000, 60)`, while `Cache-Control` gets `ttl`.

The two lifetimes therefore disagree in unit. `Cache-Control` uses `ttl`
undivided (seconds), while KV receives `ttl/1000`. With the default `ttl` of
14400, browsers are told 4 hours but KV keeps the image for 60 seconds
(`Png.DefaultTtlLifetimes`). The model keeps the code's arithmetic.

## Model

| member | source | states |
|---|---|---|
| `LinkHandler.OEmbedLinkHandler.constructor` | src/index.ts:12-14 | a new handler holds no URL (`null`) |
| `LinkHandler.OEmbedLinkHandler.OnElement` | src/index.ts:16-23 | the `element` callback: a link with `rel === 'alternate'` and `type === 'application/json+oembed'` sets `oembedUrl` to its `href` (`null` when it has none); any other element leaves `oembedUrl` unchanged |
| `LinkHandler.SelectedHref` | src/index.ts:9-23 | the URL selected after a sequence of links is either none or the `href` of some matching link of that sequence |
| `LinkHandler.ScanLinks` | src/index.ts:28-36 | a fresh handler fed every `<link>` in document order ends holding `SelectedHref` of the whole sequence (loop invariant: of the prefix seen so far) |
| `LinkHandler.SelectedHrefIsLastMatch` | src/index.ts:20-22 | a matching link followed only by non-matching links decides the selection: it is that link's `href`, whatever precedes it |
| `LinkHandler.SelectedHrefWithoutMatch` | src/index.ts:12-22 | when no link matches, the selection stays `null` |
| `LinkHandler.NonMatchingSuffixIgnored` | src/index.ts:20-22 | appending links that do not match never changes the selection |
| `OEmbed.GetOembed` | src/index.ts:26-45 | `getOembed` returns the document at the selected URL when that URL is truthy, and `null` otherwise |
| `OEmbed.OEmbedFromLastLink` | src/index.ts:38-41 | the document fetched is the one at the `href` of the last matching link, when that `href` is non-empty |
| `OEmbed.NoLinkNoOEmbed` | src/index.ts:38-44 | a page without a matching link yields `null` |
| `OEmbed.UnusableLinkSkipsSecondFetch` | src/index.ts:38-44 | when the selected URL is missing or empty, the result is `null` whatever the network would serve at any other URL, so no second fetch matters |
| `OEmbed.OembedRoute` | src/index.ts:51-60 | `/oembed` answers the document as JSON when it is truthy, and otherwise 400 `{error: 'No oEmbed available.'}` |
| `Base64.Encode` | src/index.ts:66 | RFC 4648 section 4: the output has 4·⌈n/3⌉ characters, all from the alphabet or the pad `=` |
| `Base64.DecodeEncode` | src/index.ts:66 | decoding an encoding gives back the original bytes (round trip) |
| `Base64.EncodeInjective` | src/index.ts:66 | two byte strings with the same encoding are equal |
| `Base64.Btoa` | src/index.ts:66 | `btoa` succeeds exactly on Latin-1 strings (every code point ≤ 0xFF), and its output length is 4·⌈n/3⌉ |
| `Base64.Latin1BytesInjective` | src/index.ts:66 | two Latin-1 strings with the same bytes are equal, so `btoa` loses nothing before encoding |
| `Base64.BtoaInjective` | src/index.ts:66 | two strings that `btoa` accepts and encodes alike are equal |
| `Png.CacheKey` | src/index.ts:66 | the key exists exactly when `btoa` accepts the URL, and it starts with `png-` |
| `Png.CacheKeyInjective` | src/index.ts:66 | distinct URLs have distinct cache keys |
| `Kv.KvNamespace.Get` | src/index.ts:68 | `get` returns the stored bytes exactly when the key is present, and `null` otherwise |
| `Kv.KvNamespace.Put` | src/index.ts:102-105 | `put` (which KV allows only for a TTL of at least 60 s) replaces that one key's entry, leaves all other keys unchanged, and keeps every entry's TTL at or above 60 |
| `Png.Ttl` | src/index.ts:101 | `ttl` is 14400 exactly when `cache_age` is missing or `null`; any other value, including 0, is kept |
| `Png.ExpirationTtl` | src/index.ts:102 | `cfTtl` is always at least 60. For a number it is `max(ttl/1000, 60)`, so it equals `ttl/1000` whenever `ttl/1000 > 60`; for a non-number it is 60 |
| `Png.KindOf` | src/index.ts:80-81 | the switch selects `rich` or `photo` exactly when `type` is that string; any other value falls to the default |
| `Png.Handle` | src/index.ts:62-124 | the route's response and the new KV contents are those of `RouteOutcome`, and the KV TTL invariant is kept |
| `Png.HitShortCircuits` | src/index.ts:68-75 | on a hit the response is the stored bytes with `max-age=14400`, nothing is written, and neither the network nor the renderer affects the result |
| `Png.RichMissRendersAndStores` | src/index.ts:81-110 | a `rich` miss answers with the rendered image and `max-age = ttl` undivided, and stores that same image under the lookup key with `cfTtl` ≥ 60 |
| `Png.OnlyRichMissWrites` | src/index.ts:80-122 | the store changes only on a miss whose document is `rich` |
| `Png.RouteKeepsFloor` | src/index.ts:101-105 | if every stored TTL is at least 60 before a request, the same holds after it |
| `Png.SecondRequestIsHit` | src/index.ts:66-75 | after a `rich` miss stores its image, the next request for the same URL, while KV still holds the entry, is a hit that serves that image, whatever the network and renderer do then |
| `Png.OtherUrlsUntouched` | src/index.ts:66-105 | a request for one URL never adds, removes or changes the entry of any other URL |
| `Png.PhotoRedirectsOrFails` | src/index.ts:113-116 | a `photo` miss redirects to a truthy `url`; otherwise it answers 400 `'Invalid oEmbed - no url provided for type photo'`; the store is unchanged |
| `Png.UnsupportedIsError` | src/index.ts:118-122 | `video`, `link`, any other type or a `null` document answers 400 `'No oEmbed available.'`; the store is unchanged |
| `Png.NoLinkNoImage` | src/index.ts:77-122 | on a miss, a page without a matching link answers 400 `'No oEmbed available.'` without writing |
| `Png.NonLatin1UrlThrows` | src/index.ts:63-66 | a URL with a character above 0xFF makes `btoa` throw before the store is read; nothing is written |
| `Png.DefaultTtlLifetimes` | src/index.ts:101-108 | on a `rich` miss with no `cache_age`, the route's response says `max-age=14400` while the entry it writes to KV expires after 60 s |

## Left out

- Hono routing, parameter extraction and the `GET /` greeting: framework plumbing. Each route is a method taking the `url` parameter.
- `fetch`, HTMLRewriter's streaming and `json()` parsing: network and parsing. `OEmbed.Web` gives each page's `<link>` elements and each URL's parsed document. Their failures are uncaught exceptions in the worker and are not modelled.
- HTML attribute names are taken as already lower-cased by the parser. Attribute values are compared exactly, as `===` does.
- The Puppeteer session (launch, 600×600 viewport, CSP bypass, `setContent`, `waitForNetworkIdle` with 1000 ms idle time, the extra 1000 ms delay, the `body div` target and `fullPage`): a headless-browser call with timing. `Png.Renderer` stands for its screenshot. Launch, load and capture failures are not modelled.
- KV expiry, eviction and metadata: an entry records its `expirationTtl` and stays readable. No clock is simulated.
- Concurrency: the worker has no coordination between concurrent requests, and the model handles one request at a time.
- JSON numbers are `real`. IEEE-754 rounding of `ttl/1000` and NaN are not modelled.
- Png.ExpirationTtl: treats every non-number `ttl` as NaN, which gives the 60 s floor. JavaScript would coerce a numeric string, or an array that holds one, to a number, and that number could exceed 60 after division. This coercion is not modelled.
- The `X-Debug-Cache-Control` header carries the same value as `Cache-Control`, so it is not recorded separately. Likewise `Content-Type: image/png` is implied by an `Image` response.
- The status the framework sends for an uncaught exception (`Http.Response.Uncaught`) is not modelled.
- The URL-validation and OpenGraph-fallback TODOs (src/index.ts:63, src/index.ts:121) are not implemented in the worker.

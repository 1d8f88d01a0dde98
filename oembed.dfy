/** `getOembed` and the `/oembed/:url` route.

    The network is a parameter: `Web` says which `<link>` elements the page at a
    URL carries and which JSON value the document at a URL parses to. Within
    one request it answers the same question the same way. */
module OEmbed {

  import opened Wrappers
  import opened JsValue
  import opened LinkHandler
  import opened Http

  datatype Web = Web(linksAt: string -> seq<Element>, documentAt: string -> Json)

  /** `handler.oembedUrl` truthy: present and not the empty string. */
  predicate IsUsableUrl(href: Option<string>)
  {
    href.Some? && href.value != ""
  }

  /** What `getOembed(url)` returns: the parsed document behind the selected
      discovery link, or `null` when no usable link was selected. A document
      that itself parses to `null` is indistinguishable from "none", as in
      the worker. */
  function OEmbedOf(web: Web, url: string): Json
  {
    var href := SelectedHref(web.linksAt(url));
    if IsUsableUrl(href) then web.documentAt(href.value) else JNull
  }

  /** The document comes from the `href` of the last matching `<link>`. */
  lemma OEmbedFromLastLink(web: Web, url: string, k: int)
    requires 0 <= k < |web.linksAt(url)| && IsOEmbedLink(web.linksAt(url)[k])
    requires forall j :: k < j < |web.linksAt(url)| ==> !IsOEmbedLink(web.linksAt(url)[j])
    requires IsUsableUrl(web.linksAt(url)[k].GetAttribute("href"))
    ensures OEmbedOf(web, url) == web.documentAt(web.linksAt(url)[k].attributes["href"])
  {
    SelectedHrefIsLastMatch(web.linksAt(url), k);
  }

  /** A page without a matching `<link>` has no oEmbed document. */
  lemma NoLinkNoOEmbed(web: Web, url: string)
    requires forall j :: 0 <= j < |web.linksAt(url)| ==> !IsOEmbedLink(web.linksAt(url)[j])
    ensures OEmbedOf(web, url) == JNull
  {
    SelectedHrefWithoutMatch(web.linksAt(url));
  }

  /** When the selected URL is missing or empty the second fetch is not made:
      the result is `null` whatever any other URL would serve. */
  lemma UnusableLinkSkipsSecondFetch(web: Web, other: Web, url: string)
    requires web.linksAt(url) == other.linksAt(url)
    requires !IsUsableUrl(SelectedHref(web.linksAt(url)))
    ensures OEmbedOf(web, url) == JNull && OEmbedOf(other, url) == JNull
  {
  }

  /** `getOembed(url)`: fetch the page, stream its `<link>` elements through an
      `OEmbedLinkHandler`, and fetch and parse the selected URL if it is truthy. */
  method GetOembed(web: Web, url: string) returns (oembed: Json)
    ensures oembed == OEmbedOf(web, url)
  {
    var oembedUrl := ScanLinks(web.linksAt(url));
    if IsUsableUrl(oembedUrl) {
      oembed := web.documentAt(oembedUrl.value);
    } else {
      oembed := JNull;
    }
  }

  /** `GET /oembed/:url`: the document as JSON when it is truthy, otherwise
      400 with `{error: 'No oEmbed available.'}`. */
  method OembedRoute(web: Web, url: string) returns (resp: Response)
    ensures Truthy(OEmbedOf(web, url)) ==> resp == JsonBody(OEmbedOf(web, url))
    ensures !Truthy(OEmbedOf(web, url)) ==> resp == Error(400, NoOEmbedMessage)
  {
    var oembed := GetOembed(web, url);
    if Truthy(oembed) {
      resp := JsonBody(oembed);
    } else {
      resp := Error(400, NoOEmbedMessage);
    }
  }
}

/** oEmbed discovery: the `OEmbedLinkHandler` that the worker registers on every
    `<link>` element of the fetched page, and the single pass that streams the
    page's `<link>` elements through it.

    HTML parsing is not modelled: the page is given as the sequence of its
    `<link>` elements in document order, each with its attributes. */
module LinkHandler {

  import opened Wrappers

  const AlternateRel := "alternate"
  const OEmbedJsonType := "application/json+oembed"

  /** One `<link>` element: its attribute names (already lower-cased by the
      HTML parser) mapped to their values. */
  datatype Element = Element(attributes: map<string, string>)
  {
    /** `element.getAttribute(name)`: `None` is the `null` it returns for an
        attribute the element does not carry. */
    function GetAttribute(name: string): Option<string>
    {
      if name in attributes then Some(attributes[name]) else None
    }
  }

  /** The handler's test: `rel === 'alternate' && type === 'application/json+oembed'`,
      exact and case-sensitive on the values. */
  predicate IsOEmbedLink(e: Element)
  {
    e.GetAttribute("rel") == Some(AlternateRel) && e.GetAttribute("type") == Some(OEmbedJsonType)
  }

  /** The URL the handler holds after seeing `links`: the `href` of the last
      matching element (`None` if that element has no `href`), or `None` when no
      element matches. */
  function SelectedHref(links: seq<Element>): (r: Option<string>)
    ensures r.Some? ==>
      exists i :: 0 <= i < |links| && IsOEmbedLink(links[i]) && links[i].GetAttribute("href") == r
  {
    if links == [] then None
    else
      var last := links[|links| - 1];
      if IsOEmbedLink(last) then last.GetAttribute("href")
      else SelectedHref(links[..|links| - 1])
  }

  /** The selection is the last match: a matching element followed only by
      non-matching ones decides the result, whatever came before it. */
  lemma {:induction false} SelectedHrefIsLastMatch(links: seq<Element>, k: int)
    requires 0 <= k < |links| && IsOEmbedLink(links[k])
    requires forall j :: k < j < |links| ==> !IsOEmbedLink(links[j])
    ensures SelectedHref(links) == links[k].GetAttribute("href")
    decreases |links|
  {
    if k < |links| - 1 {
      var prefix := links[..|links| - 1];
      assert prefix[k] == links[k];
      SelectedHrefIsLastMatch(prefix, k);
    }
  }

  /** A page with no matching `<link>` selects nothing: the contract of
      `SelectedHref` leaves no other possibility. */
  lemma SelectedHrefWithoutMatch(links: seq<Element>)
    requires forall j :: 0 <= j < |links| ==> !IsOEmbedLink(links[j])
    ensures SelectedHref(links) == None
  {
  }

  /** Elements that do not match leave the selection as it was, wherever they
      stand after the elements already seen. */
  lemma {:induction false} NonMatchingSuffixIgnored(seen: seq<Element>, suffix: seq<Element>)
    requires forall j :: 0 <= j < |suffix| ==> !IsOEmbedLink(suffix[j])
    ensures SelectedHref(seen + suffix) == SelectedHref(seen)
    decreases |suffix|
  {
    if suffix != [] {
      var all := seen + suffix;
      var shorter := suffix[..|suffix| - 1];
      assert all[|all| - 1] == suffix[|suffix| - 1];
      assert !IsOEmbedLink(all[|all| - 1]);
      assert all[..|all| - 1] == seen + shorter;
      assert SelectedHref(all) == SelectedHref(seen + shorter);
      NonMatchingSuffixIgnored(seen, shorter);
    } else {
      assert seen + suffix == seen;
    }
  }

  /** `OEmbedLinkHandler`: one field, `oembedUrl`, overwritten by each matching
      element the page streams through `element`. */
  class OEmbedLinkHandler {
    var oembedUrl: Option<string>

    constructor ()
      ensures oembedUrl == None
    {
      oembedUrl := None;
    }

    /** The HTMLRewriter callback for one `<link>` element: a matching element
        overwrites `oembedUrl` with its `href` (`None` if it has none); any
        other element changes nothing. */
    method OnElement(e: Element)
      modifies this
      ensures IsOEmbedLink(e) ==> oembedUrl == e.GetAttribute("href")
      ensures !IsOEmbedLink(e) ==> oembedUrl == old(oembedUrl)
    {
      var rel := e.GetAttribute("rel");
      var linkType := e.GetAttribute("type");
      if rel == Some(AlternateRel) && linkType == Some(OEmbedJsonType) {
        oembedUrl := e.GetAttribute("href");
      }
    }
  }

  /** The rewriter pass of `getOembed`: a fresh handler sees every `<link>`
      element in document order; the pass never stops early. */
  method ScanLinks(links: seq<Element>) returns (oembedUrl: Option<string>)
    ensures oembedUrl == SelectedHref(links)
  {
    var handler := new OEmbedLinkHandler();
    var i := 0;
    while i < |links|
      invariant 0 <= i <= |links|
      invariant handler.oembedUrl == SelectedHref(links[..i])
    {
      assert links[..i + 1][..i] == links[..i];
      handler.OnElement(links[i]);
      i := i + 1;
    }
    assert links[..|links|] == links;
    oembedUrl := handler.oembedUrl;
  }
}

/**
 * Concrete documents: the usage the class's own doc comment describes,
 * and the corner cases of the substring test and of repeated rewriting.
 */
module Scenarios {
  import opened Wrappers
  import opened Strings
  import opened Config
  import opened Query
  import opened Dom
  import opened UrlQualifier
  import opened Replacer
  import opened Walker

  /** A whitelisted absolute link gets `?x=1`; nothing else changes. */
  lemma WhitelistedAnchor(e: Element, cfg: Config)
    requires cfg.domains == ["http://example.com"] && cfg.appendGet == "x=1"
    requires "href" in e.attrs && e.attrs["href"] == "http://example.com/page"
    ensures RewriteElement(e, cfg) == (SetAttribute(e, "href", "http://example.com/page?x=1"), true)
  {
    var d, path := "http://example.com", "/page";
    assert d + path == e.attrs["href"];
    WhitelistedUrl(d, path, cfg);
    assert d + path + "?" + "x=1" == "http://example.com/page?x=1";
    HrefRewrittenSkipsAction(e, cfg);
  }

  /** The URL of `WhitelistedAnchor`: full, whitelisted, without `?`. */
  lemma WhitelistedUrl(d: string, path: string, cfg: Config)
    requires d == "http://example.com" && path == "/page"
    requires cfg.domains == [d] && cfg.appendGet == "x=1"
    ensures cfg.WellFormed()
    ensures ReplaceUrl(d + path, cfg) == Some(d + path + "?" + "x=1")
  {
    var url := d + path;
    assert url[..7] == d[..7] == "http://";
    assert OccursAt(url, "http://", 0);
    assert url[..|d|] == d;
    PrefixIsIPrefix(d, url);
    assert d in cfg.domains;
    assert Eligible(url, cfg);
    assert '?' !in url;
    SeparatorChoice(url, cfg);
  }

  /** A relative link passes when relative URLs are allowed. */
  lemma RelativeAnchor(url: string, cfg: Config)
    requires url == "/local" && cfg == Config([], "x=1", true)
    ensures ReplaceUrl(url, cfg) == Some("/local?x=1")
  {
    NoColonIsRelative(url);
    ReplaceUrlEligible(url, cfg);
    SeparatorChoice(url, cfg);
    assert url + "?" + "x=1" == "/local?x=1";
  }

  /**
   * The scheme test is case-sensitive: an upper-case scheme makes the URL
   * relative, so with relative URLs allowed it is tagged although no
   * domain of the whitelist matches.
   */
  lemma UpperCaseSchemeCountsAsRelative(host: string, cfg: Config)
    requires cfg.WellFormed() && cfg.allowRelativeUrls
    requires ':' !in host && '?' !in host
    ensures ReplaceUrl("HTTP://" + host, cfg) == Some("HTTP://" + host + "?" + cfg.appendGet)
  {
    var url := "HTTP://" + host;
    UpperCaseSchemeNoOccurrence(host, "http://");
    UpperCaseSchemeNoOccurrence(host, "https://");
    ReplaceUrlEligible(url, cfg);
    ContainsChar(url, '?');
    SeparatorChoice(url, cfg);
  }

  /** Neither lower-case scheme occurs in `HTTP://` followed by a host without `:`. */
  lemma UpperCaseSchemeNoOccurrence(host: string, scheme: string)
    requires ':' !in host
    requires scheme == "http://" || scheme == "https://"
    ensures !Contains("HTTP://" + host, scheme)
  {
    var url := "HTTP://" + host;
    var colon := if scheme == "http://" then 4 else 5;
    assert scheme[colon] == ':' && scheme[0] == 'h';
    if Contains(url, scheme) {
      var j := IndexOf(url, scheme).value;
      OccurrenceHasChar(url, scheme, j, colon);
      assert false;
    }
  }

  /**
   * `http://` inside a query value makes a relative link count as full, so
   * it is measured against the whitelist and rejected.
   */
  lemma EmbeddedSchemeMakesUrlFull(url: string, cfg: Config)
    requires url == "/go?to=http://other.org" && cfg == Config(["http://example.com"], "x=1", true)
    ensures ReplaceUrl(url, cfg) == None
  {
    assert url[7..14] == "http://";
    assert OccursAt(url, "http://", 7);
    assert !IPrefix(cfg.domains[0], url) by {
      assert LowerChar(url[0]) != LowerChar(cfg.domains[0][0]);
    }
  }

  /**
   * An empty fragment still appends the separator: an accepted relative
   * link without `?` comes back with a bare `?`.
   */
  lemma EmptyFragmentAppendsSeparator(url: string, cfg: Config)
    requires cfg.WellFormed() && cfg.appendGet == [] && cfg.allowRelativeUrls
    requires ':' !in url && '?' !in url
    ensures ReplaceUrl(url, cfg) == Some(url + "?")
  {
    NoColonIsRelative(url);
    ReplaceUrlEligible(url, cfg);
    ContainsChar(url, '?');
    SeparatorChoice(url, cfg);
    assert url + "?" + cfg.appendGet == url + "?";
  }

  /** A GET form keeps its action and receives `<input type="hidden" name="mobileapp" value="1">`. */
  lemma GetFormScenario(e: Element, cfg: Config)
    requires cfg.WellFormed() && cfg.appendGet == "mobileapp=1"
    requires "href" !in e.attrs && "action" in e.attrs && e.children == []
    requires "method" in e.attrs && e.attrs["method"] == "get"
    ensures RewriteElement(e, cfg) == (Element(e.attrs, [HiddenInput("mobileapp", "1")]), false)
  {
    GetFormSpelling(e);
    MobileAppInputs(cfg);
    GetFormAppendsHiddenInputs(e, cfg);
  }

  /** `mobileapp=1` yields the one hidden input `mobileapp` = `1`. */
  lemma MobileAppInputs(cfg: Config)
    requires cfg.appendGet == "mobileapp=1"
    ensures HiddenInputs(ParseQuery(cfg.appendGet)) == [HiddenInput("mobileapp", "1")]
  {
    var k, v := "mobileapp", "1";
    assert k + "=" + v == cfg.appendGet;
    SinglePair(k, v);
  }

  /** The same form sent by POST has its action rewritten and counts. */
  lemma PostFormScenario(e: Element, cfg: Config)
    requires cfg.WellFormed() && cfg.allowRelativeUrls && cfg.appendGet == "mobileapp=1"
    requires "href" !in e.attrs && "action" in e.attrs && e.attrs["action"] == "/submit"
    requires "method" in e.attrs && e.attrs["method"] == "post"
    ensures RewriteElement(e, cfg) == (SetAttribute(e, "action", "/submit?mobileapp=1"), true)
  {
    var url := e.attrs["action"];
    GetFormSpelling(e);
    NoColonIsRelative(url);
    ReplaceUrlEligible(url, cfg);
    ContainsChar(url, '?');
    SeparatorChoice(url, cfg);
    assert url + "?" + "mobileapp=1" == "/submit?mobileapp=1";
    NonGetActionRewritten(e, cfg);
  }

  /**
   * A relative link whose fragment carries `http://` is eligible once but
   * not twice: the first rewrite turns it into a full URL outside the
   * whitelist.
   */
  lemma FragmentWithSchemeStopsSecondRewrite(url: string, cfg: Config)
    requires url == "/x" && cfg == Config(["http://a.org"], "u=http://b.org", true)
    ensures ReplaceUrl(url, cfg) == Some("/x?u=http://b.org")
    ensures ReplaceUrl(ReplaceUrl(url, cfg).value, cfg) == None
  {
    NoColonIsRelative(url);
    ReplaceUrlEligible(url, cfg);
    SeparatorChoice(url, cfg);
    assert url + "?" + cfg.appendGet == "/x?u=http://b.org";
    NotWhitelisted(ReplaceUrl(url, cfg).value, cfg);
  }

  /** The rewritten link holds `http://` but does not start with the one domain. */
  lemma NotWhitelisted(r: string, cfg: Config)
    requires r == "/x?u=http://b.org" && cfg.domains == ["http://a.org"]
    ensures ReplaceUrl(r, cfg) == None
  {
    assert r[5..12] == "http://";
    assert OccursAt(r, "http://", 5);
    assert !IPrefix(cfg.domains[0], r) by {
      assert LowerChar(r[0]) != LowerChar(cfg.domains[0][0]);
    }
  }

  /**
   * The configuration of the usage example in the class's doc comment:
   * three whitelisted domains, the fragment `mobileapp=1`, relative URLs
   * allowed.
   */
  predicate DocExampleConfig(cfg: Config) {
    cfg == Config(["http://foobar.com", "http://example.com", "https://example.org"], "mobileapp=1", true)
  }

  /**
   * Under the doc example's configuration a link to the third domain,
   * written in another letter case and already holding a query, gets
   * `&mobileapp=1`.
   */
  lemma DocExampleTagsWhitelistedLink(url: string, cfg: Config)
    requires DocExampleConfig(cfg) && url == "https://EXAMPLE.org/a?b=1"
    ensures ReplaceUrl(url, cfg) == Some(url + "&" + "mobileapp=1")
  {
    SecureDomainMatches(url, cfg.domains[2]);
    WhitelistedQueryLink(url, cfg, 2);
  }

  /** A link starting with `https://` and a whitelisted domain, holding `?`, gets `&` and the fragment. */
  lemma WhitelistedQueryLink(url: string, cfg: Config, i: nat)
    requires cfg.WellFormed() && i < |cfg.domains|
    requires OccursAt(url, "https://", 0) && IPrefix(cfg.domains[i], url) && '?' in url
    ensures ReplaceUrl(url, cfg) == Some(url + "&" + cfg.appendGet)
  {
    assert cfg.domains[i] in cfg.domains;
    assert Eligible(url, cfg);
    SeparatorChoice(url, cfg);
  }

  /** The link of `DocExampleTagsWhitelistedLink` is full, matches the domain and holds `?`. */
  lemma SecureDomainMatches(url: string, d: string)
    requires url == "https://EXAMPLE.org/a?b=1" && d == "https://example.org"
    ensures OccursAt(url, "https://", 0) && IPrefix(d, url) && '?' in url
  {
    assert url[..8] == "https://";
    forall i | 0 <= i < |d|
      ensures LowerChar(url[i]) == LowerChar(d[i])
    {
    }
    assert url[21] == '?';
  }

  /** Under the doc example's configuration a link to another host is left alone. */
  lemma DocExampleRejectsOtherHost(url: string, cfg: Config)
    requires DocExampleConfig(cfg) && url == "http://other.com/"
    ensures ReplaceUrl(url, cfg) == None
  {
    assert url[..7] == "http://";
    assert OccursAt(url, "http://", 0);
    assert !IPrefix(cfg.domains[0], url) by {
      assert LowerChar(url[7]) != LowerChar(cfg.domains[0][7]);
    }
    assert !IPrefix(cfg.domains[1], url) by {
      assert LowerChar(url[7]) != LowerChar(cfg.domains[1][7]);
    }
    assert !IPrefix(cfg.domains[2], url) by {
      assert LowerChar(url[4]) != LowerChar(cfg.domains[2][4]);
    }
    ReplaceUrlEligible(url, cfg);
  }
}

/**
 * `replaceUrl`: decides whether one URL may be tagged and, if so, appends
 * the configured query fragment to it. `None` is the method's `false`.
 */
module UrlQualifier {
  import opened Wrappers
  import opened Strings
  import opened Config

  /**
   * The URL counts as full when `http://` or `https://` occurs anywhere in
   * it, not only at the start.
   */
  predicate HasFullUrl(url: string) {
    Contains(url, "http://") || Contains(url, "https://")
  }

  /**
   * The whitelist loop: walks `domains` in order and stops at the first one
   * that `stripos` finds at index 0 of `url`.
   */
  function InWhitelist(url: string, domains: seq<string>): (b: bool)
    decreases |domains|
    ensures b <==> exists i :: 0 <= i < |domains| && IPrefix(domains[i], url)
  {
    if |domains| == 0 then false
    else if StrIPos(url, domains[0]) == Some(0) then true
    else
      var b := InWhitelist(url, domains[1..]);
      assert forall i :: 1 <= i < |domains| ==> domains[i] == domains[1..][i - 1];
      b
  }

  /**
   * `replaceUrl($url)`: `None` for a relative URL when relative URLs are
   * not allowed and for a full URL outside the whitelist; otherwise the
   * URL followed by `&` (when it already holds a `?`) or `?`, then the
   * configured fragment.
   */
  function ReplaceUrl(url: string, cfg: Config): (r: Option<string>)
    requires cfg.WellFormed()
    ensures r.Some? ==> |url| < |r.value| && r.value[..|url|] == url
    ensures r.Some? ==> r.value[|url|] in "?&" && r.value[|url| + 1..] == cfg.appendGet
  {
    var hasFullUrl := HasFullUrl(url);
    if !cfg.allowRelativeUrls && !hasFullUrl then None
    else if hasFullUrl && !InWhitelist(url, cfg.domains) then None
    else if Contains(url, "?") then Some(url + "&" + cfg.appendGet)
    else Some(url + "?" + cfg.appendGet)
  }

  /**
   * Reference definition of eligibility, stated with occurrences and
   * prefixes instead of the string searches `ReplaceUrl` performs.
   */
  ghost predicate Eligible(url: string, cfg: Config) {
    if (exists j :: OccursAt(url, "http://", j)) || (exists j :: OccursAt(url, "https://", j))
    then exists d :: d in cfg.domains && IPrefix(d, url)
    else cfg.allowRelativeUrls
  }

  /** `ReplaceUrl` answers with a URL exactly for the eligible ones. */
  lemma ReplaceUrlEligible(url: string, cfg: Config)
    requires cfg.WellFormed()
    ensures ReplaceUrl(url, cfg).Some? <==> Eligible(url, cfg)
  {
    assert HasFullUrl(url) <==>
      (exists j :: OccursAt(url, "http://", j)) || (exists j :: OccursAt(url, "https://", j));
    assert (exists i :: 0 <= i < |cfg.domains| && IPrefix(cfg.domains[i], url))
       <==> (exists d :: d in cfg.domains && IPrefix(d, url));
  }

  /** Both schemes contain `:`, so a URL without `:` is relative. */
  lemma NoColonIsRelative(url: string)
    requires ':' !in url
    ensures !HasFullUrl(url)
  {
    if Contains(url, "http://") {
      OccurrenceHasChar(url, "http://", IndexOf(url, "http://").value, 4);
      assert false;
    }
    if Contains(url, "https://") {
      OccurrenceHasChar(url, "https://", IndexOf(url, "https://").value, 5);
      assert false;
    }
  }

  /** With relative URLs disallowed, a URL without `http(s)://` is rejected. */
  lemma RelativeRejectedWhenDisallowed(url: string, cfg: Config)
    requires cfg.WellFormed() && !cfg.allowRelativeUrls
    requires forall j :: !OccursAt(url, "http://", j) && !OccursAt(url, "https://", j)
    ensures ReplaceUrl(url, cfg) == None
  {
  }

  /** A full URL is rejected unless some domain is a case-insensitive prefix of it. */
  lemma FullUrlNeedsWhitelistedPrefix(url: string, cfg: Config)
    requires cfg.WellFormed() && HasFullUrl(url)
    ensures ReplaceUrl(url, cfg).Some? <==> exists d :: d in cfg.domains && IPrefix(d, url)
  {
    ReplaceUrlEligible(url, cfg);
  }

  /** An empty whitelist rejects every full URL. */
  lemma EmptyWhitelistRejectsFullUrls(url: string, cfg: Config)
    requires cfg.domains == [] && HasFullUrl(url)
    ensures ReplaceUrl(url, cfg) == None
  {
  }

  /** With relative URLs allowed, a relative URL is eligible whatever the whitelist. */
  lemma RelativeAcceptedWhenAllowed(url: string, cfg: Config)
    requires cfg.WellFormed() && cfg.allowRelativeUrls && !HasFullUrl(url)
    ensures ReplaceUrl(url, cfg).Some?
  {
  }

  /** The default configuration rejects every URL. */
  lemma DefaultConfigRejectsAll(url: string)
    ensures ReplaceUrl(url, FromOptions(NoOptions)) == None
  {
    DefaultsWellFormed();
  }

  /** The separator is `&` when the URL already holds a `?`, and `?` otherwise. */
  lemma SeparatorChoice(url: string, cfg: Config)
    requires cfg.WellFormed() && Eligible(url, cfg)
    ensures '?' in url ==> ReplaceUrl(url, cfg) == Some(url + "&" + cfg.appendGet)
    ensures '?' !in url ==> ReplaceUrl(url, cfg) == Some(url + "?" + cfg.appendGet)
  {
    ReplaceUrlEligible(url, cfg);
    ContainsChar(url, '?');
  }

  /**
   * The result is never the input: even an empty fragment appends a
   * separator. So the `$newurl !== $url` test after an eligible URL always
   * passes.
   */
  lemma RewriteAlwaysChanges(url: string, cfg: Config)
    requires cfg.WellFormed()
    ensures ReplaceUrl(url, cfg) != Some(url)
  {
  }

  /** Rewriting an already rewritten URL, when eligible, appends again with `&`. */
  lemma SecondRewriteUsesAmpersand(url: string, cfg: Config)
    requires cfg.WellFormed() && ReplaceUrl(url, cfg).Some?
    requires ReplaceUrl(ReplaceUrl(url, cfg).value, cfg).Some?
    ensures ReplaceUrl(ReplaceUrl(url, cfg).value, cfg)
         == Some(ReplaceUrl(url, cfg).value + "&" + cfg.appendGet)
  {
    var r := ReplaceUrl(url, cfg).value;
    assert r[|url|] in "?&";
    assert r[|url|] == '?' || r[|url|] == '&';
    if r[|url|] == '&' {
      assert '?' in url by { ContainsChar(url, '?'); }
    }
    assert '?' in r by { assert r[|url|] == '?' || '?' in r[..|url|]; }
    ReplaceUrlEligible(r, cfg);
    SeparatorChoice(r, cfg);
  }

  /**
   * A full whitelisted URL, or a relative one whose fragment holds no
   * `http(s)://`, stays eligible after rewriting, so a second rewrite
   * appends the fragment once more: the rewrite is not idempotent.
   */
  lemma RewriteStaysEligible(url: string, cfg: Config)
    requires cfg.WellFormed() && ReplaceUrl(url, cfg).Some?
    requires HasFullUrl(url) || !HasFullUrl(cfg.appendGet)
    ensures ReplaceUrl(ReplaceUrl(url, cfg).value, cfg)
         == Some(ReplaceUrl(url, cfg).value + "&" + cfg.appendGet)
  {
    var r := ReplaceUrl(url, cfg).value;
    var sep := r[|url|];
    assert r == url + [sep] + cfg.appendGet;
    if HasFullUrl(url) {
      FullUrlStaysEligible(url, [sep] + cfg.appendGet, cfg);
      assert url + ([sep] + cfg.appendGet) == r;
    } else {
      RelativeStaysRelative(url, sep, cfg.appendGet);
    }
    SecondRewriteUsesAmpersand(url, cfg);
  }

  /** Extending a whitelisted full URL keeps it full and whitelisted. */
  lemma FullUrlStaysEligible(url: string, tail: string, cfg: Config)
    requires cfg.WellFormed() && ReplaceUrl(url, cfg).Some? && HasFullUrl(url)
    ensures ReplaceUrl(url + tail, cfg).Some?
  {
    if Contains(url, "http://") {
      ContainsExtend(url, tail, "http://");
    } else {
      ContainsExtend(url, tail, "https://");
    }
    var i :| 0 <= i < |cfg.domains| && IPrefix(cfg.domains[i], url);
    assert IPrefix(cfg.domains[i], url + tail);
  }

  /** Joining two relative URLs with `?` or `&` gives a relative URL. */
  lemma RelativeStaysRelative(url: string, sep: char, tail: string)
    requires sep in "?&" && !HasFullUrl(url) && !HasFullUrl(tail)
    ensures !HasFullUrl(url + [sep] + tail)
  {
    var r := url + [sep] + tail;
    if Contains(r, "http://") {
      ContainsAcrossSeparator(url, sep, tail, "http://");
    }
    if Contains(r, "https://") {
      ContainsAcrossSeparator(url, sep, tail, "https://");
    }
  }
}

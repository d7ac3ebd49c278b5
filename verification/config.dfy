/**
 * The replacer's options. The constructor reads `domains`, `append_get`
 * and `allow_relative_urls` from an option array, any of which may be
 * missing; the model takes typed optional fields and fills the gaps with
 * the constructor's defaults.
 */
module Config {
  import opened Wrappers

  /** The options a caller may pass; `None` is an absent array key. */
  datatype Options = Options(
    domains: Option<seq<string>>,
    appendGet: Option<string>,
    allowRelativeUrls: Option<bool>)

  /** The configuration every rewrite consults; fixed after construction. */
  datatype Config = Config(
    domains: seq<string>,
    appendGet: string,
    allowRelativeUrls: bool)
  {
    /**
     * Every whitelisted domain is non-empty: `stripos` with an empty
     * needle differs between PHP versions, so the model excludes it.
     */
    predicate WellFormed() {
      forall i :: 0 <= i < |domains| ==> |domains[i]| > 0
    }
  }

  /** The options of `new JKDomLinkReplacer()` with no argument. */
  const NoOptions := Options(None, None, None)

  /**
   * The constructor: a missing `domains` is the empty list, a missing
   * `append_get` the empty string, a missing `allow_relative_urls` false;
   * given values are kept as they are.
   */
  function FromOptions(o: Options): (c: Config)
    ensures o.domains.Some? ==> c.domains == o.domains.value
    ensures o.domains.None? ==> c.domains == []
    ensures o.appendGet.Some? ==> c.appendGet == o.appendGet.value
    ensures o.appendGet.None? ==> c.appendGet == []
    ensures c.allowRelativeUrls <==> o.allowRelativeUrls == Some(true)
  {
    Config(o.domains.GetOr([]), o.appendGet.GetOr([]), o.allowRelativeUrls.GetOr(false))
  }

  /** With no options the whitelist is empty, so the configuration is well formed. */
  lemma DefaultsWellFormed()
    ensures FromOptions(NoOptions) == Config([], [], false)
    ensures FromOptions(NoOptions).WellFormed()
  {
  }
}

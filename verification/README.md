# JKDomLinkReplacer in Dafny

A model of the URL-tagging core of `JKDomLinkReplacer`, a PHP class that
appends a fixed query fragment (for example `mobileapp=1`) to every
qualifying `href` and form `action` of an HTML document.

The model has two parts:

- **`replaceUrl`** (`UrlQualifier.ReplaceUrl`). This is a pure decision on one URL. A URL is
  "full" when `http://` or `https://` occurs anywhere in it. A full URL must
  start with a whitelisted domain, compared ASCII-case-insensitively as
  `stripos(...) === 0` does. A relative URL passes only when
  `allow_relative_urls` is set. An eligible URL gets `&` and the fragment
  when it already holds a `?`, and `?` and the fragment otherwise. PHP's
  `false` is `None`.
- **The element loop of `replaceAll`** (`Replacer.ProcessAttributes`, `Replacer.ReplaceAll`,
  with the generic outer loop in `Walker`). It runs over an explicit sequence
  of elements. Each element is an attribute map plus its child nodes. The
  attributes `href` and `action` are visited in that order. The `action` of
  a form whose method upper-cases to `GET` is left alone, and one hidden
  input per `append_get` pair is appended instead. Any other present
  attribute whose URL is eligible is rewritten and counted, and the visit of
  that element ends there. The result is the elements after their visits
  plus the count.

Modules: `Wrappers` (Option), `Strings` (`strpos`, `stripos`,
`strtoupper`, splitting), `Config` (the constructor's options and defaults),
`Query` (the `parse_str` of the GET-form path), `Dom` (elements, attributes,
appended children), `UrlQualifier`, `Walker`, `Replacer`, and `Scenarios`
(concrete documents, including the usage example in the class's doc
comment).

Details of the code that the model keeps:

- The GET-form branch does not increment the counter and does not `break`
  (JKDomLinkReplacer.class.php:126-136). `Replacer.GetFormAppendsHiddenInputs`
  states this behaviour.
- That branch never calls `replaceUrl`. A GET form whose `action` points
  outside the whitelist still receives the hidden inputs.
- The `$newurl !== $url` test (line 139) is kept. `UrlQualifier.RewriteAlwaysChanges`
  shows that it always passes for an eligible URL.
- The scheme test uses case-sensitive `strpos`, while the domain test uses
  case-insensitive `stripos`. A URL that starts with `HTTP://` and holds no
  lower-case `http://` or `https://` anywhere therefore counts as relative.
  With relative URLs allowed it is tagged whatever the whitelist says
  (`Scenarios.UpperCaseSchemeCountsAsRelative`, for a host without `:`).

## Model

| member | source | states |
|---|---|---|
| Config.FromOptions | JKDomLinkReplacer.class.php:66-75 | a missing `domains` is the empty list, a missing `append_get` the empty string, a missing `allow_relative_urls` false; given options are kept |
| Config.DefaultsWellFormed | JKDomLinkReplacer.class.php:73-75 | with no options the configuration is (no domains, empty fragment, no relative URLs) and has no empty domain |
| Strings.IndexOf | JKDomLinkReplacer.class.php:160-161 | `strpos`: the result is an occurrence with no earlier one, and there is no result exactly when the pattern occurs nowhere |
| Strings.Contains | JKDomLinkReplacer.class.php:184 | `strpos($s, $pat) !== false`: `IndexOf` finds the pattern; `Strings.IndexOf` states when |
| Strings.ContainsChar | JKDomLinkReplacer.class.php:184 | `strpos($url, '?') !== false` holds exactly when `?` is one of the URL's characters |
| Strings.StrIPos | JKDomLinkReplacer.class.php:174 | `stripos($url, $domain) === 0` holds exactly when the domain is an ASCII-case-insensitive prefix of the URL |
| Strings.SplitOn | JKDomLinkReplacer.class.php:128 | cutting at a character gives at least one piece, and no piece holds that character |
| Strings.ToUpper | JKDomLinkReplacer.class.php:126 | `strtoupper`: same length, each character upper-cased in ASCII |
| Strings.JoinSplit | JKDomLinkReplacer.class.php:128 | cutting the fragment at `&` loses nothing: joining the pieces with `&` gives the fragment back |
| UrlQualifier.HasFullUrl | JKDomLinkReplacer.class.php:160-162 | `$has_full_url`: `http://` or `https://` is found anywhere in the URL |
| UrlQualifier.InWhitelist | JKDomLinkReplacer.class.php:171-182 | the whitelist loop with `break` answers true exactly when some domain is a case-insensitive prefix of the URL |
| UrlQualifier.ReplaceUrl | JKDomLinkReplacer.class.php:159-190 | an accepted URL is a strict prefix of the result, which continues with one `?` or `&` and then exactly the fragment |
| UrlQualifier.ReplaceUrlEligible | JKDomLinkReplacer.class.php:160-182 | `replaceUrl` returns a URL exactly for the eligible ones: full and whitelisted, or relative with relative URLs allowed |
| UrlQualifier.NoColonIsRelative | JKDomLinkReplacer.class.php:160-162 | a URL without `:` never counts as full |
| UrlQualifier.RelativeRejectedWhenDisallowed | JKDomLinkReplacer.class.php:160-167 | with relative URLs disallowed, a URL without `http://` or `https://` anywhere gives `false` |
| UrlQualifier.FullUrlNeedsWhitelistedPrefix | JKDomLinkReplacer.class.php:171-182 | a full URL is accepted exactly when some domain is a case-insensitive prefix of it at index 0 |
| UrlQualifier.EmptyWhitelistRejectsFullUrls | JKDomLinkReplacer.class.php:171-182 | with no domains every full URL gives `false` |
| UrlQualifier.RelativeAcceptedWhenAllowed | JKDomLinkReplacer.class.php:164-188 | with relative URLs allowed, a relative URL is accepted whatever the whitelist holds |
| UrlQualifier.DefaultConfigRejectsAll | JKDomLinkReplacer.class.php:159-182 | with the constructor's defaults no URL is ever accepted |
| UrlQualifier.SeparatorChoice | JKDomLinkReplacer.class.php:184-188 | an eligible URL holding `?` becomes `url&fragment`; one without `?` becomes `url?fragment` |
| UrlQualifier.RewriteAlwaysChanges | JKDomLinkReplacer.class.php:139 | the result is never the input URL, even with an empty fragment |
| UrlQualifier.SecondRewriteUsesAmpersand | JKDomLinkReplacer.class.php:184-188 | rewriting a rewritten URL, when it is accepted, appends `&` and the fragment again |
| UrlQualifier.RewriteStaysEligible | JKDomLinkReplacer.class.php:159-188 | a rewritten full URL, or a rewritten relative URL whose fragment holds no scheme, is accepted again, so the rewrite is not idempotent |
| UrlQualifier.FullUrlStaysEligible | JKDomLinkReplacer.class.php:171-182 | appending to an accepted full URL keeps it full and whitelisted |
| UrlQualifier.RelativeStaysRelative | JKDomLinkReplacer.class.php:160-162 | joining two relative strings with `?` or `&` cannot create `http://` or `https://` |
| Query.RawPairs | JKDomLinkReplacer.class.php:128 | every kept key is non-empty and holds no `=`; `Query.RawPairsAppend` and `Query.RawPairsOne` fix which pairs come out and in what order |
| Query.RawPairsAppend | JKDomLinkReplacer.class.php:128 | the pairs of two runs of pieces are the pairs of the first run followed by those of the second, so the pieces are taken in order |
| Query.RawPairsOne | JKDomLinkReplacer.class.php:128 | one piece gives its cut pair when the key is non-empty, and nothing when the key is empty |
| Query.Merge | JKDomLinkReplacer.class.php:128 | assigns the pairs one after the other into an empty array; its properties are `Query.MergeLastWins` and `Query.MergeFirstOccurrenceOrder` |
| Query.ParseQuery | JKDomLinkReplacer.class.php:128 | `parse_str($append_get)`: split at `&`, cut each piece at `=`, then merge; its properties are `Query.ParseQueryLastWins` and `Query.ParseQueryFirstOccurrenceOrder` |
| Query.ParsePair | JKDomLinkReplacer.class.php:128 | a piece is cut at its first `=`: the key holds no `=`, and key, `=`, value rebuild the piece; a piece without `=` has the empty value |
| Query.Upsert | JKDomLinkReplacer.class.php:128 | assigning a key gives that key the new value and leaves every other key's value alone; keys stay distinct; an existing key keeps its place and every key keeps its position; a new key goes at the end |
| Query.FirstIndex | JKDomLinkReplacer.class.php:128 | the position of the first pair with a given key, or the length when there is none |
| Query.MergeKeysOccur | JKDomLinkReplacer.class.php:128 | the merged keys are exactly the keys that occur among the pairs |
| Query.MergeFirstOccurrenceOrder | JKDomLinkReplacer.class.php:128 | the merged keys appear in the order of their first occurrence, as overwriting assignments into a PHP array leave them |
| Query.ParseQueryFirstOccurrenceOrder | JKDomLinkReplacer.class.php:128-129 | `parse_str` lists the keys, and so the `foreach` visits them, in the order of their first piece in the fragment, and lists every key that has a piece |
| Query.MergeLastWins | JKDomLinkReplacer.class.php:128 | the parsed keys are distinct, and each holds the value of its last occurrence |
| Query.ParseQueryLastWins | JKDomLinkReplacer.class.php:128 | `parse_str` of the fragment yields distinct keys, none empty, each with its last value |
| Query.SinglePair | JKDomLinkReplacer.class.php:128 | a fragment `k=v` with a non-empty key and no `&` parses to the single pair (k, v) |
| Query.EmptyFragment | JKDomLinkReplacer.class.php:128 | an empty fragment yields no pairs |
| Dom.GetAttribute | JKDomLinkReplacer.class.php:122 | `getAttribute` gives the attribute's value, or the empty string when the attribute is absent |
| Dom.IsGetForm | JKDomLinkReplacer.class.php:126 | `strtoupper($element->getAttribute('method')) == 'GET'`; `Dom.GetFormSpelling` states which methods pass |
| Dom.HiddenInput | JKDomLinkReplacer.class.php:130-133 | an `input` node whose `type` is `hidden` and whose `name` and `value` are the pair's key and value |
| Dom.HiddenInputs | JKDomLinkReplacer.class.php:129-135 | one hidden input per parsed pair, in the pairs' order |
| Dom.SetAttribute | JKDomLinkReplacer.class.php:140 | `setAttribute` changes that one attribute and keeps the children |
| Dom.AppendChildren | JKDomLinkReplacer.class.php:134 | `appendChild` keeps the attributes and the existing children, and puts the new nodes after them in order |
| Dom.GetFormSpelling | JKDomLinkReplacer.class.php:126 | a form is a GET form exactly when its method is g, e, t in any letter case; a missing method is not GET |
| Replacer.ReplaceAttributes | JKDomLinkReplacer.class.php:59 | the attributes visited, in order: `href`, then `action` |
| Replacer.FormInputs | JKDomLinkReplacer.class.php:128-135 | the hidden inputs of a GET form: one per pair that `parse_str` gives for the fragment, in order |
| Replacer.ProcessAttributes | JKDomLinkReplacer.class.php:120-149 | a visit keeps the attribute names and the existing children; without a replacement the attributes are unchanged; with one, exactly one visited attribute changed, to what `replaceUrl` made of it |
| Replacer.RewriteElement | JKDomLinkReplacer.class.php:120-149 | one element's visit: the attribute loop over `href` then `action`; its properties are the `Replacer` lemmas below |
| Replacer.HrefRewrittenSkipsAction | JKDomLinkReplacer.class.php:120-147 | an eligible `href` is rewritten and counted, and `action` and the children are never touched |
| Replacer.HrefRejectedTriesAction | JKDomLinkReplacer.class.php:120-149 | an absent or rejected `href` passes the element on to the `action` step unchanged |
| Replacer.GetFormAppendsHiddenInputs | JKDomLinkReplacer.class.php:126-136 | a GET form keeps every attribute, receives one hidden input per parsed pair after its children, in order, and is not counted |
| Replacer.NonGetActionRewritten | JKDomLinkReplacer.class.php:137-148 | any other `action` is rewritten and counted when eligible, and the element is otherwise left as it was |
| Replacer.CountedIffRewritable | JKDomLinkReplacer.class.php:120-149 | an element counts exactly when its `href` is eligible or it has an eligible `action` on a form not sent by GET |
| Replacer.RejectedElementUnchanged | JKDomLinkReplacer.class.php:120-149 | an element none of whose URL attributes applies is left exactly as it was and not counted |
| Replacer.ReplaceAll | JKDomLinkReplacer.class.php:108-153 | returns, in order, each input element as its own visit left it, and the number of rewritten elements as the count |
| Replacer.ReplaceAllCount | JKDomLinkReplacer.class.php:117-152 | the count is the number of positions whose element was rewritten |
| Replacer.ReplaceAllElementwise | JKDomLinkReplacer.class.php:117-152 | each output element is its input element's own visit; the count is zero exactly when no element was rewritten |
| Replacer.RejectedElementsUnchanged | JKDomLinkReplacer.class.php:117-152 | elements none of whose URL attributes applies come out of the whole pass unchanged |
| Walker.Fold | JKDomLinkReplacer.class.php:117-152 | the outer loop keeps one element per input element and counts at most one replacement per element |
| Walker.FoldElementwise | JKDomLinkReplacer.class.php:118-151 | position i is the visit of element i; the count is 0 exactly when no visit replaced, and the length exactly when all did |
| Walker.FoldCount | JKDomLinkReplacer.class.php:117-152 | the count is the number of positions whose visit replaced |
| Walker.FoldCountIs | JKDomLinkReplacer.class.php:117-152 | the count is the size of the set of positions whose visit reported a replacement |
| Walker.VisitAll | JKDomLinkReplacer.class.php:117-152 | the loop with its counter computes the fold |
| Scenarios.WhitelistedAnchor | JKDomLinkReplacer.class.php:120-146 | `href="http://example.com/page"` with that domain whitelisted and fragment `x=1` becomes `http://example.com/page?x=1` and counts |
| Scenarios.WhitelistedUrl | JKDomLinkReplacer.class.php:171-187 | `http://example.com/page` is full, whitelisted and has no `?` |
| Scenarios.RelativeAnchor | JKDomLinkReplacer.class.php:164-187 | `/local` with relative URLs allowed becomes `/local?x=1` |
| Scenarios.UpperCaseSchemeCountsAsRelative | JKDomLinkReplacer.class.php:160-164 | `HTTP://host` counts as relative and, with relative URLs allowed, is tagged whatever the whitelist |
| Scenarios.UpperCaseSchemeNoOccurrence | JKDomLinkReplacer.class.php:160-161 | neither lower-case scheme occurs in `HTTP://host` when the host has no `:` |
| Scenarios.EmbeddedSchemeMakesUrlFull | JKDomLinkReplacer.class.php:160-182 | `/go?to=http://other.org` counts as full and is rejected by a whitelist it does not start with |
| Scenarios.EmptyFragmentAppendsSeparator | JKDomLinkReplacer.class.php:164-188 | with an empty fragment and relative URLs allowed, a relative URL without `?` or `:` becomes the URL followed by a bare `?` |
| Scenarios.GetFormScenario | JKDomLinkReplacer.class.php:126-136 | a GET form with fragment `mobileapp=1` keeps its action and gains the one hidden input `mobileapp`=`1`, uncounted |
| Scenarios.MobileAppInputs | JKDomLinkReplacer.class.php:128-135 | `mobileapp=1` gives exactly one hidden input |
| Scenarios.PostFormScenario | JKDomLinkReplacer.class.php:137-146 | a POST form's action `/submit` becomes `/submit?mobileapp=1` and counts |
| Scenarios.FragmentWithSchemeStopsSecondRewrite | JKDomLinkReplacer.class.php:159-188 | `/x` with fragment `u=http://b.org` is tagged once, but the tagged URL is full and not whitelisted, so a second rewrite gives `false` |
| Scenarios.NotWhitelisted | JKDomLinkReplacer.class.php:171-182 | `/x?u=http://b.org` is full and does not start with `http://a.org` |
| Scenarios.DocExampleTagsWhitelistedLink | JKDomLinkReplacer.class.php:7-16 | under the doc comment's configuration, `https://EXAMPLE.org/a?b=1` matches `https://example.org` case-insensitively and becomes the URL followed by `&mobileapp=1` |
| Scenarios.SecureDomainMatches | JKDomLinkReplacer.class.php:171-177 | `https://EXAMPLE.org/a?b=1` holds `https://` at index 0, has `https://example.org` as a case-insensitive prefix, and holds `?` |
| Scenarios.WhitelistedQueryLink | JKDomLinkReplacer.class.php:171-185 | a URL holding `https://` at index 0 and a whitelisted prefix, with a `?` in it, gets `&` and the fragment |
| Scenarios.DocExampleRejectsOtherHost | JKDomLinkReplacer.class.php:171-181 | under the doc comment's configuration, `http://other.com/` starts with none of the three domains and gives `false` |

## Left out

- HTML parsing and serialisation (`load_dom`, `getHtml`, `getDomDoc`): they belong to the DOM library. The model works on element values instead of live nodes.
- The XPath selection `//*[@href | @action]` (`load_xpath`, `fetch_replacement_elements`) and the re-fetch when `replaceAll` receives an empty argument: the elements are an input. The `is_null` early return is covered by the empty sequence.
- The `html` constructor option, the `(array)`/`(string)`/`(bool)` casts and the `@` error suppression: options are typed, and an absent option takes its default.
- `parse_str` is simplified. It splits on `&`, skips empty pieces, cuts each piece at its first `=`, drops empty keys, and keeps the last value of a repeated key in that key's first position. Percent-decoding, `+` as a space, `a[]=` array keys and the rewriting of `.` and spaces in keys are not modelled.
- `stripos` with an empty needle behaves differently across PHP versions. `UrlQualifier.ReplaceUrl` therefore requires every whitelisted domain to be non-empty (`Config.WellFormed`).
- Case mapping covers ASCII only, as PHP 8's `strtolower`/`strtoupper` do. Multibyte strings are sequences of characters, not bytes.
- The order in which `setAttribute` adds `type`, `name` and `value` to a hidden input is not kept, because attributes are a map.
- Creating hidden inputs when no document was loaded: `$this->doc` is then null, and `createElement` on it is a PHP "call to a member function on null" error. The model always has an element to append to.

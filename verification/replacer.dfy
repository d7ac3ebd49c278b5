/**
 * `replaceAll`: for each candidate element, the attributes `href` and
 * `action` are visited in that order. The `action` of a GET form is left
 * alone and hidden inputs carrying the fragment's pairs are appended
 * instead; that neither counts nor ends the visit. Any other present
 * attribute whose URL `ReplaceUrl` accepts is rewritten, counted, and ends
 * the visit of that element.
 */
module Replacer {
  import opened Wrappers
  import opened Config
  import opened Query
  import opened Dom
  import opened UrlQualifier
  import opened Walker

  /** The attributes visited, in order. */
  const ReplaceAttributes: seq<string> := ["href", "action"]

  /** The hidden inputs a GET form receives. */
  function FormInputs(cfg: Config): seq<Node> {
    HiddenInputs(ParseQuery(cfg.appendGet))
  }

  /**
   * `after` differs from `before` only in one attribute among `names`,
   * which now holds what `ReplaceUrl` made of its old value.
   */
  predicate RewroteOne(before: Element, after: Element, names: seq<string>, cfg: Config)
    requires cfg.WellFormed()
  {
    exists i :: 0 <= i < |names| && RewroteAttribute(before, after, names[i], cfg)
  }

  predicate RewroteAttribute(before: Element, after: Element, name: string, cfg: Config)
    requires cfg.WellFormed()
  {
    && name in before.attrs && name in after.attrs
    && ReplaceUrl(before.attrs[name], cfg) == Some(after.attrs[name])
    && after.attrs == before.attrs[name := after.attrs[name]]
  }

  /**
   * The inner attribute loop over `names`, returning the element and
   * whether a URL attribute was rewritten (the loop's `break`).
   */
  function ProcessAttributes(e: Element, names: seq<string>, cfg: Config): (r: (Element, bool))
    requires cfg.WellFormed()
    decreases |names|
    ensures r.0.attrs.Keys == e.attrs.Keys
    ensures |e.children| <= |r.0.children| && r.0.children[..|e.children|] == e.children
    ensures !r.1 ==> r.0.attrs == e.attrs
    ensures r.1 ==> RewroteOne(e, r.0, names, cfg)
  {
    if |names| == 0 then (e, false)
    else
      var attr := names[0];
      if attr !in e.attrs then
        var r := ProcessAttributes(e, names[1..], cfg);
        assert forall i :: 0 <= i < |names[1..]| ==> names[1..][i] == names[i + 1];
        r
      else if attr == "action" && IsGetForm(e) then
        var e' := AppendChildren(e, FormInputs(cfg));
        var r := ProcessAttributes(e', names[1..], cfg);
        assert forall i :: 0 <= i < |names[1..]| ==> names[1..][i] == names[i + 1];
        assert r.0.children[..|e.children|] == r.0.children[..|e'.children|][..|e.children|];
        r
      else
        var url := e.attrs[attr];
        var newUrl := ReplaceUrl(url, cfg);
        if newUrl.Some? && newUrl.value != url then
          (SetAttribute(e, attr, newUrl.value), true)
        else
          var r := ProcessAttributes(e, names[1..], cfg);
          assert forall i :: 0 <= i < |names[1..]| ==> names[1..][i] == names[i + 1];
          r
  }

  /** One element's visit: the element after it, and whether it counts. */
  function RewriteElement(e: Element, cfg: Config): (Element, bool)
    requires cfg.WellFormed()
  {
    ProcessAttributes(e, ReplaceAttributes, cfg)
  }

  /** `href` is absent or holds a URL `ReplaceUrl` rejects. */
  predicate HrefRejected(e: Element, cfg: Config)
    requires cfg.WellFormed()
  {
    "href" !in e.attrs || ReplaceUrl(e.attrs["href"], cfg).None?
  }

  /** `action` is absent, or belongs to a non-GET form and holds a rejected URL. */
  predicate ActionRejected(e: Element, cfg: Config)
    requires cfg.WellFormed()
  {
    "action" !in e.attrs || (!IsGetForm(e) && ReplaceUrl(e.attrs["action"], cfg).None?)
  }

  /** An eligible `href` is rewritten and the visit ends: `action` and the children are untouched. */
  lemma HrefRewrittenSkipsAction(e: Element, cfg: Config)
    requires cfg.WellFormed() && !HrefRejected(e, cfg)
    ensures var r := RewriteElement(e, cfg);
      && r.1
      && r.0 == SetAttribute(e, "href", ReplaceUrl(e.attrs["href"], cfg).value)
      && GetAttribute(r.0, "action") == GetAttribute(e, "action")
      && r.0.children == e.children
  {
  }

  /** A rejected or absent `href` hands the element on to the `action` step. */
  lemma HrefRejectedTriesAction(e: Element, cfg: Config)
    requires cfg.WellFormed() && HrefRejected(e, cfg)
    ensures RewriteElement(e, cfg) == ProcessAttributes(e, ["action"], cfg)
  {
    assert ReplaceAttributes[1..] == ["action"];
  }

  /**
   * A GET form whose `href` was not rewritten keeps its `action` and every
   * attribute, receives one hidden input per fragment pair after its
   * existing children, and is not counted. `ReplaceUrl` is never asked, so
   * this happens even when the action URL is outside the whitelist.
   */
  lemma GetFormAppendsHiddenInputs(e: Element, cfg: Config)
    requires cfg.WellFormed() && HrefRejected(e, cfg)
    requires "action" in e.attrs && IsGetForm(e)
    ensures var r := RewriteElement(e, cfg);
      && !r.1
      && r.0.attrs == e.attrs
      && r.0.children == e.children + HiddenInputs(ParseQuery(cfg.appendGet))
  {
    HrefRejectedTriesAction(e, cfg);
    assert ["action"][1..] == [];
  }

  /**
   * Any other `action` behaves like `href`: rewritten and counted when
   * eligible, otherwise the element is left as it was.
   */
  lemma NonGetActionRewritten(e: Element, cfg: Config)
    requires cfg.WellFormed() && HrefRejected(e, cfg)
    requires "action" in e.attrs && !IsGetForm(e)
    ensures var r := RewriteElement(e, cfg);
      && (r.1 <==> ReplaceUrl(e.attrs["action"], cfg).Some?)
      && (r.1 ==> r.0 == SetAttribute(e, "action", ReplaceUrl(e.attrs["action"], cfg).value))
      && (!r.1 ==> r.0 == e)
      && r.0.children == e.children
  {
    HrefRejectedTriesAction(e, cfg);
    assert ["action"][1..] == [];
    RewriteAlwaysChanges(e.attrs["action"], cfg);
  }

  /** `action` is present on a form not sent by GET and holds a URL `ReplaceUrl` accepts. */
  predicate ActionRewritable(e: Element, cfg: Config)
    requires cfg.WellFormed()
  {
    "action" in e.attrs && !IsGetForm(e) && ReplaceUrl(e.attrs["action"], cfg).Some?
  }

  /**
   * An element counts exactly when its `href` is eligible or its `action`
   * is eligible on a form not sent by GET.
   */
  lemma CountedIffRewritable(e: Element, cfg: Config)
    requires cfg.WellFormed()
    ensures Counted(e, cfg) <==> !HrefRejected(e, cfg) || ActionRewritable(e, cfg)
  {
    if !HrefRejected(e, cfg) {
      HrefRewrittenSkipsAction(e, cfg);
    } else if "action" !in e.attrs {
      RejectedElementUnchanged(e, cfg);
    } else if IsGetForm(e) {
      GetFormAppendsHiddenInputs(e, cfg);
    } else {
      NonGetActionRewritten(e, cfg);
    }
  }

  /** An element none of whose URL attributes applies is left exactly as it was. */
  lemma RejectedElementUnchanged(e: Element, cfg: Config)
    requires cfg.WellFormed() && HrefRejected(e, cfg) && ActionRejected(e, cfg)
    ensures RewriteElement(e, cfg) == (e, false)
  {
    HrefRejectedTriesAction(e, cfg);
    assert ["action"][1..] == [];
  }

  /** The element's visit rewrote one of its URL attributes. */
  predicate Counted(e: Element, cfg: Config)
    requires cfg.WellFormed()
  {
    RewriteElement(e, cfg).1
  }

  /** One element's visit as a value, for the outer loop. */
  function Visitor(cfg: Config): (visit: Element -> (Element, bool))
    requires cfg.WellFormed()
    ensures forall e :: visit(e) == RewriteElement(e, cfg)
  {
    e => RewriteElement(e, cfg)
  }

  /**
   * `replaceAll($elements)`: visits the elements in order and returns them
   * after their visits, together with the number of rewritten elements.
   */
  method ReplaceAll(elements: seq<Element>, cfg: Config) returns (out: seq<Element>, count: nat)
    requires cfg.WellFormed()
    ensures (out, count) == Fold(elements, Visitor(cfg))
    ensures |out| == |elements| && count <= |elements|
    ensures forall i :: 0 <= i < |elements| ==> out[i] == RewriteElement(elements[i], cfg).0
    ensures count == 0 <==> forall i :: 0 <= i < |elements| ==> !Counted(elements[i], cfg)
    ensures count == |set i | 0 <= i < |elements| && Counted(elements[i], cfg)|
  {
    out, count := VisitAll(elements, Visitor(cfg));
    ReplaceAllElementwise(elements, cfg);
    ReplaceAllCount(elements, cfg);
  }

  /**
   * Each element comes out of `replaceAll` as its own visit left it; the
   * count is zero exactly when no element was rewritten.
   */
  lemma ReplaceAllElementwise(es: seq<Element>, cfg: Config)
    requires cfg.WellFormed()
    ensures forall i :: 0 <= i < |es| ==> Fold(es, Visitor(cfg)).0[i] == RewriteElement(es[i], cfg).0
    ensures Fold(es, Visitor(cfg)).1 == 0 <==> forall i :: 0 <= i < |es| ==> !Counted(es[i], cfg)
  {
    FoldElementwise(es, Visitor(cfg));
  }

  /** The count of `replaceAll` is the number of rewritten elements. */
  lemma ReplaceAllCount(es: seq<Element>, cfg: Config)
    requires cfg.WellFormed()
    ensures Fold(es, Visitor(cfg)).1 == |set i | 0 <= i < |es| && Counted(es[i], cfg)|
  {
    var rewritten := set i | 0 <= i < |es| && Counted(es[i], cfg);
    CountedPositions(es, cfg, rewritten);
    FoldCountIs(es, Visitor(cfg), rewritten);
  }

  /** The positions of the counted elements are those whose visit reports a replacement. */
  lemma CountedPositions(es: seq<Element>, cfg: Config, rewritten: set<int>)
    requires cfg.WellFormed()
    requires rewritten == set i | 0 <= i < |es| && Counted(es[i], cfg)
    ensures forall i :: i in rewritten <==> 0 <= i < |es| && Visitor(cfg)(es[i]).1
  {
  }

  /** Elements none of whose URL attributes applies come out unchanged. */
  lemma RejectedElementsUnchanged(es: seq<Element>, cfg: Config, i: nat)
    requires cfg.WellFormed() && i < |es|
    requires HrefRejected(es[i], cfg) && ActionRejected(es[i], cfg)
    ensures Fold(es, Visitor(cfg)).0[i] == es[i]
  {
    ReplaceAllElementwise(es, cfg);
    RejectedElementUnchanged(es[i], cfg);
  }
}

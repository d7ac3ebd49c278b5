/**
 * The slice of the DOM the replacer touches: an element's attributes and
 * the children appended to it. Parsing, serialising and tree queries
 * belong to the DOM library and are not modelled.
 */
module Dom {
  import opened Strings

  /** A child node created by the replacer: a tag name and its attributes. */
  datatype Node = Node(tag: string, attrs: map<string, string>)

  /** A candidate element: its attributes and its children, in order. */
  datatype Element = Element(attrs: map<string, string>, children: seq<Node>)

  /** `getAttribute`: the value, or the empty string for a missing attribute. */
  function GetAttribute(e: Element, name: string): string {
    if name in e.attrs then e.attrs[name] else ""
  }

  /** `setAttribute`: this attribute gets the value, nothing else changes. */
  function SetAttribute(e: Element, name: string, value: string): (e': Element)
    ensures e'.children == e.children
    ensures e'.attrs.Keys == e.attrs.Keys + {name}
    ensures GetAttribute(e', name) == value
    ensures forall a :: a != name ==> GetAttribute(e', a) == GetAttribute(e, a)
  {
    e.(attrs := e.attrs[name := value])
  }

  /** The element is a form submitted with GET: `strtoupper(method) == 'GET'`. */
  predicate IsGetForm(e: Element) {
    ToUpper(GetAttribute(e, "method")) == "GET"
  }

  /** `<input type="hidden" name="key" value="val">`. */
  function HiddenInput(key: string, val: string): Node {
    Node("input", map["type" := "hidden", "name" := key, "value" := val])
  }

  /** One hidden input per pair, in the pairs' order. */
  function HiddenInputs(pairs: seq<(string, string)>): (ns: seq<Node>)
    ensures |ns| == |pairs|
    ensures forall i :: 0 <= i < |pairs| ==> ns[i] == HiddenInput(pairs[i].0, pairs[i].1)
  {
    seq(|pairs|, i requires 0 <= i < |pairs| => HiddenInput(pairs[i].0, pairs[i].1))
  }

  /** `appendChild` of each node in turn. */
  function AppendChildren(e: Element, ns: seq<Node>): (e': Element)
    ensures e'.attrs == e.attrs
    ensures |e'.children| == |e.children| + |ns|
    ensures e'.children[..|e.children|] == e.children
    ensures e'.children[|e.children|..] == ns
  {
    e.(children := e.children + ns)
  }

  /**
   * A GET form is one whose method is the three letters g, e, t in any
   * letter case; a missing method is not GET.
   */
  lemma GetFormSpelling(e: Element)
    ensures IsGetForm(e) <==>
      var m := GetAttribute(e, "method");
      |m| == 3 && m[0] in "gG" && m[1] in "eE" && m[2] in "tT"
  {
    var m := GetAttribute(e, "method");
    var u := ToUpper(m);
    if |m| == 3 {
      assert u == "GET" <==> u[0] == 'G' && u[1] == 'E' && u[2] == 'T';
    }
  }
}

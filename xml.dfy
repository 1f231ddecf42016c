/** The parsed-document tree that `xml.etree.ElementTree` hands to the search,
    with the three queries the search makes of it: serialization
    (`ET.tostring`), descendant search (`findall('.//tag')`) and direct-child
    lookup (`find(tag)`). */
module Xml {
  import opened Wrappers
  import opened Strings

  /** One `name="value"` pair of a start tag, in document order. */
  datatype Attribute = Attribute(name: string, value: string)

  /** An element: its tag, attributes, text before the first child, children,
      and tail (the text after its end tag, up to the next sibling). */
  datatype Element = Element(
    tag: string,
    attributes: seq<Attribute>,
    text: Option<string>,
    children: seq<Element>,
    tail: Option<string>)

  /** The outcome of `ET.parse` on one file: a tree, or a document that is not
      well-formed. */
  datatype Document = Parsed(root: Element) | Malformed

  /** Python truthiness of an optional text: neither `None` nor `''`. */
  predicate HasText(t: Option<string>) {
    t.Some? && t.value != ""
  }

  /** What the serializer writes for an optional text: nothing when it is falsy. */
  function Written(t: Option<string>): (r: string)
    ensures HasText(t) <==> r != []
    ensures HasText(t) ==> r == t.value
  {
    if HasText(t) then t.value else ""
  }

  function SerializeAttributes(attrs: seq<Attribute>): string {
    if attrs == [] then ""
    else " " + attrs[0].name + "=\"" + attrs[0].value + "\"" + SerializeAttributes(attrs[1..])
  }

  /** `ET.tostring(e, encoding='unicode')`: the start tag with its attributes,
      the text, the children, the end tag, then the element's own tail. An
      element without text or children is written as an empty-element tag. */
  function Serialize(e: Element): (r: string)
    ensures StartsWith(r, "<" + e.tag)
    decreases e, 1
  {
    "<" + e.tag + SerializeAttributes(e.attributes)
    + (if !HasText(e.text) && e.children == [] then " />"
       else ">" + Written(e.text) + SerializeAll(e.children) + "</" + e.tag + ">")
    + Written(e.tail)
  }

  function SerializeAll(cs: seq<Element>): string
    decreases cs, 0
  {
    if cs == [] then "" else Serialize(cs[0]) + SerializeAll(cs[1..])
  }

  /** The proper descendants of `e`, in document (pre-)order. */
  function Descendants(e: Element): (r: seq<Element>)
    ensures forall d :: d in r ==> d < e
    ensures forall c :: c in e.children ==> c in r
    ensures forall d, c :: d in r && c in d.children ==> c in r
    decreases e, 1
  {
    DescendantsOfAll(e.children)
  }

  /** Each element of `cs` followed by its descendants, in order. */
  function DescendantsOfAll(cs: seq<Element>): (r: seq<Element>)
    ensures forall d :: d in r ==> exists c :: c in cs && (d == c || d < c)
    ensures forall c :: c in cs ==> c in r
    ensures forall d, c :: d in r && c in d.children ==> c in r
    decreases cs, 0
  {
    if cs == [] then []
    else
      assert cs[0] in cs && forall c :: c in cs[1..] ==> c in cs;
      [cs[0]] + Descendants(cs[0]) + DescendantsOfAll(cs[1..])
  }

  /** The elements of `es` whose tag is `tag`, order kept. */
  function WithTag(es: seq<Element>, tag: string): (r: seq<Element>)
    ensures forall x :: x in r <==> x in es && x.tag == tag
    ensures |r| <= |es|
  {
    if es == [] then []
    else (if es[0].tag == tag then [es[0]] else []) + WithTag(es[1..], tag)
  }

  /** `root.findall('.//' + tag)`: the proper descendants with that tag, in
      document order. */
  function FindAll(root: Element, tag: string): seq<Element> {
    WithTag(Descendants(root), tag)
  }

  /** The first element of `cs` whose tag is `tag`. */
  function FirstWithTag(cs: seq<Element>, tag: string): (r: Option<Element>)
    ensures r.None? <==> forall c :: c in cs ==> c.tag != tag
    ensures r.Some? ==> exists i :: 0 <= i < |cs| && cs[i] == r.value && r.value.tag == tag
                                   && forall j :: 0 <= j < i ==> cs[j].tag != tag
  {
    if cs == [] then None
    else if cs[0].tag == tag then Some(cs[0])
    else
      var r := FirstWithTag(cs[1..], tag);
      if r.Some? then
        var i :| 0 <= i < |cs[1..]| && cs[1..][i] == r.value && r.value.tag == tag
                 && forall j :: 0 <= j < i ==> cs[1..][j].tag != tag;
        assert cs[i + 1] == r.value;
        r
      else r
  }

  /** `e.find(tag)` for a plain tag: the first direct child with that tag. */
  function FindChild(e: Element, tag: string): Option<Element> {
    FirstWithTag(e.children, tag)
  }
}

/** The parts of an already-parsed XML tree that the flow-statistics export
    looks at: an element's tag, its attribute dictionary and its direct
    children, plus the two lookups the export uses on them (`attrib.get`
    with a default and `find`, the first direct child with a given tag). */
module Xml {

  datatype Option<+T> = None | Some(value: T)

  /** Attribute names to attribute values, both kept as the raw strings of the document. */
  type Attributes = map<string, string>

  /** One element: its tag, its attributes and its direct children in document order. */
  datatype Element = Element(tag: string, attrib: Attributes, children: seq<Element>)

  /** `attrib.get(key, default)`: the attribute's value when present, otherwise the default. */
  function AttrGet(attrib: Attributes, key: string, default: string): (r: string)
    ensures key in attrib ==> r == attrib[key]
    ensures key !in attrib ==> r == default
  {
    if key in attrib then attrib[key] else default
  }

  /** Index of the first element of `children` whose tag is `tag`, if any. */
  function FirstWithTag(children: seq<Element>, tag: string): (r: Option<nat>)
    ensures r.Some? ==> r.value < |children| && children[r.value].tag == tag
    ensures r.Some? ==> forall j :: 0 <= j < r.value ==> children[j].tag != tag
    ensures r.None? <==> forall j :: 0 <= j < |children| ==> children[j].tag != tag
  {
    if |children| == 0 then None
    else if children[0].tag == tag then Some(0)
    else
      match FirstWithTag(children[1..], tag)
      case None => None
      case Some(i) => Some(i + 1)
  }

  /** `element.find(tag)`: the first direct child carrying `tag`, or nothing.
      Grandchildren are never searched. */
  function Find(e: Element, tag: string): (r: Option<Element>)
    ensures r.None? <==> forall j :: 0 <= j < |e.children| ==> e.children[j].tag != tag
    ensures r.Some? ==> r.value.tag == tag
    ensures r.Some? ==> exists i :: 0 <= i < |e.children| && e.children[i] == r.value
                          && forall j :: 0 <= j < i ==> e.children[j].tag != tag
  {
    match FirstWithTag(e.children, tag)
    case None => None
    case Some(i) => Some(e.children[i])
  }

  /** Whatever follows the first child carrying `tag` does not affect `Find`. */
  lemma {:induction false} FindFirstOnly(e: Element, tag: string, before: seq<Element>, c: Element, after: seq<Element>)
    requires e.children == before + [c] + after
    requires c.tag == tag
    requires forall j :: 0 <= j < |before| ==> before[j].tag != tag
    ensures Find(e, tag) == Some(c)
  {
    assert forall j :: 0 <= j < |before| ==> e.children[j] == before[j];
    assert e.children[|before|] == c;
  }
}

/** The already-parsed registry document, in ElementTree's shape, and the
    few path queries the generator runs over it. */
module Tree {
  import opened Base

  /** An ElementTree element: its tag, attributes, the text before its first
      child, the text after its own end tag, and its children in document order. */
  datatype Element = Element(
    tag: string,
    attrs: map<string, string>,
    text: Option<string>,
    tail: Option<string>,
    children: seq<Element>)

  /** `findall(tag)` over a child list: the children carrying `tag`, in document order. */
  function FindAll(es: seq<Element>, tag: string): (r: seq<Element>)
    ensures |r| <= |es|
    ensures forall e :: e in r <==> e in es && e.tag == tag
    decreases |es|
  {
    if es == [] then []
    else
      var last := es[|es| - 1];
      assert es == es[..|es| - 1] + [last];
      FindAll(es[..|es| - 1], tag) + (if last.tag == tag then [last] else [])
  }

  /** Position of the first child carrying `tag`, or `|es|` when there is none. */
  function FirstIndex(es: seq<Element>, tag: string): (k: nat)
    ensures k <= |es|
    ensures k < |es| ==> es[k].tag == tag
    ensures forall j :: 0 <= j < k ==> es[j].tag != tag
    decreases |es|
  {
    if es == [] then 0 else if es[0].tag == tag then 0 else 1 + FirstIndex(es[1..], tag)
  }

  /** `find(tag)` over a child list: the first child carrying `tag`. */
  function Find(es: seq<Element>, tag: string): Option<Element>
  {
    var k := FirstIndex(es, tag);
    if k < |es| then Some(es[k]) else None
  }

  /** The last child carrying `tag`: the one a loop that overwrites on every match keeps. */
  function LastTagged(es: seq<Element>, tag: string): (r: Option<Element>)
    ensures r.Some? ==> r.value in es && r.value.tag == tag
    ensures r.None? ==> forall j :: 0 <= j < |es| ==> es[j].tag != tag
    decreases |es|
  {
    if es == [] then None
    else if es[|es| - 1].tag == tag then Some(es[|es| - 1])
    else LastTagged(es[..|es| - 1], tag)
  }

  /** Every child of every element of `es`, in document order. */
  function AllChildren(es: seq<Element>): seq<Element>
    decreases |es|
  {
    if es == [] then [] else AllChildren(es[..|es| - 1]) + es[|es| - 1].children
  }

  /** The path query `outer/inner` below one element: the `inner` children of
      each `outer` child, in document order. */
  function FindPath(e: Element, outer: string, inner: string): seq<Element>
  {
    FindAllChildren(FindAll(e.children, outer), inner)
  }

  function FindAllChildren(es: seq<Element>, tag: string): seq<Element>
    decreases |es|
  {
    if es == [] then [] else FindAllChildren(es[..|es| - 1], tag) + FindAll(es[|es| - 1].children, tag)
  }
}

/** A parsed XML document as the standard library's element tree presents it,
    with the path queries the core uses: `find`/`findall` on `'.//T'`
    (descendants in document order), `'T'` (children) and `'A/B'`. */
module XmlTree {
  import opened Common

  /** One element: its tag, attributes, the text before its first child, the
      text after its own end tag (`tail`) and its children. Both texts are
      absent (`None`) where the parser gives no text at all. */
  datatype Element = Element(
    tag: string,
    attrib: map<string, string>,
    text: Option<string>,
    tail: Option<string>,
    children: seq<Element>)

  /** Every element strictly below `e`, in document (pre-)order. */
  function Descendants(e: Element): seq<Element>
    decreases e
  {
    SubtreesOf(e.children)
  }

  /** The elements of the forest `cs`, each followed by its descendants. */
  function SubtreesOf(cs: seq<Element>): seq<Element>
    decreases cs
  {
    if cs == [] then [] else [cs[0]] + Descendants(cs[0]) + SubtreesOf(cs[1..])
  }

  function First<T>(s: seq<T>): (r: Option<T>)
    ensures r.None? <==> s == []
    ensures r.Some? ==> r.value == s[0]
  {
    if s == [] then None else Some(s[0])
  }

  /** The concatenation of a sequence of sequences. */
  function Flatten<T>(ss: seq<seq<T>>): seq<T>
  {
    if ss == [] then [] else ss[0] + Flatten(ss[1..])
  }

  /** The elements of `es` with the given tag, in order. */
  function Tagged(es: seq<Element>, tag: string): seq<Element>
  {
    if es == [] then [] else (if es[0].tag == tag then [es[0]] else []) + Tagged(es[1..], tag)
  }

  lemma {:induction false} TaggedMember(es: seq<Element>, tag: string, x: Element)
    ensures x in Tagged(es, tag) <==> x in es && x.tag == tag
  {
    if es != [] {
      TaggedMember(es[1..], tag, x);
      assert es == [es[0]] + es[1..];
    }
  }

  /** `e.findall(tag)`: the children of `e` with that tag. */
  function ChildrenTagged(e: Element, tag: string): seq<Element>
  {
    Tagged(e.children, tag)
  }

  /** `e.find(tag)` */
  function FindChild(e: Element, tag: string): Option<Element>
  {
    First(ChildrenTagged(e, tag))
  }

  /** `e.findall('.//' + tag)` */
  function FindAllDeep(e: Element, tag: string): seq<Element>
  {
    Tagged(Descendants(e), tag)
  }

  /** `e.find('.//' + tag)` */
  function FindDeep(e: Element, tag: string): Option<Element>
  {
    First(FindAllDeep(e, tag))
  }

  /** The `child`-tagged children of each element of `es`, in that order. */
  function ChildrenOfAll(es: seq<Element>, child: string): seq<Element>
  {
    Flatten(seq(|es|, k requires 0 <= k < |es| => ChildrenTagged(es[k], child)))
  }

  /** `e.findall('.//' + parent + '/' + child)` */
  function FindAllDeepPath(e: Element, parent: string, child: string): seq<Element>
  {
    ChildrenOfAll(FindAllDeep(e, parent), child)
  }

  /** `e.find('.//' + parent + '/' + child)` */
  function FindDeepPath(e: Element, parent: string, child: string): Option<Element>
  {
    First(FindAllDeepPath(e, parent, child))
  }

  /** `e.findall(parent + '/' + child)` */
  function FindAllPath(e: Element, parent: string, child: string): seq<Element>
  {
    ChildrenOfAll(ChildrenTagged(e, parent), child)
  }

  /** `e.findall('.//' + outer + '//' + inner)` */
  function FindAllDeepDeep(e: Element, outer: string, inner: string): seq<Element>
  {
    var os := FindAllDeep(e, outer);
    Flatten(seq(|os|, k requires 0 <= k < |os| => FindAllDeep(os[k], inner)))
  }

  /** The text of an optional element (`elem.text if elem is not None else default`). */
  function TextOr(e: Option<Element>, default: Option<string>): Option<string>
  {
    if e.Some? then e.value.text else default
  }

  lemma {:induction false} FlattenMember<T>(ss: seq<seq<T>>, x: T)
    ensures x in Flatten(ss) <==> exists k :: 0 <= k < |ss| && x in ss[k]
  {
    if ss != [] {
      FlattenMember(ss[1..], x);
      assert forall k :: 1 <= k < |ss| ==> ss[k] == ss[1..][k - 1];
      if x in Flatten(ss[1..]) {
        var k :| 0 <= k < |ss[1..]| && x in ss[1..][k];
        assert x in ss[k + 1];
      }
    }
  }

  /** Every element a `'.//A/B'` query yields is a `B` child of an `A` below `e`. */
  lemma DeepPathSound(e: Element, parent: string, child: string, x: Element)
    requires x in FindAllDeepPath(e, parent, child)
    ensures x.tag == child
    ensures exists p :: p in Descendants(e) && p.tag == parent && x in p.children
  {
    var os := FindAllDeep(e, parent);
    var ss := seq(|os|, k requires 0 <= k < |os| => ChildrenTagged(os[k], child));
    FlattenMember(ss, x);
    var k :| 0 <= k < |ss| && x in ss[k];
    assert os[k] in os;
    TaggedMember(Descendants(e), parent, os[k]);
    TaggedMember(os[k].children, child, x);
  }
}

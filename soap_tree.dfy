/**
 * The SOAP document tree the NVRAM handler builds its responses in and reads its
 * requests from.  The tree engine itself is not part of this model: this module
 * states the contract its call sites rely on.  Elements live in an arena addressed
 * by index: the envelope is element 0, the body element 1 and body children follow
 * from 2 on, so a lookup answer below 2 never names a child; -1 means "none".  The
 * arena has a fixed capacity and an append beyond it fails with -1.
 */
module SoapTree {
  import opened Wrappers

  datatype Attribute = Attribute(name: string, value: string)

  /** One element: the index of its parent (-1 for the envelope), its tag, its text
      content (NULL when it has none) and its attributes in insertion order. */
  datatype Element = Element(parent: int, name: string, text: Option<string>, attrs: seq<Attribute>)

  /** The engine's element capacity is at least the size of the largest fixed-shape
      response the handler builds (the Fault sub-tree: seven elements). */
  const MinCapacity: nat := 7

  predicate IsChild(e: Element, parent: int, name: string) {
    e.parent == parent && e.name == name
  }

  /** The first `name` child of `parent` at index `k` or later, or -1. */
  function FindFrom(es: seq<Element>, parent: int, k: nat, name: string): (r: int)
    ensures r == -1 || (k <= r < |es| && IsChild(es[r], parent, name))
    ensures forall j :: k <= j < |es| && (r == -1 || j < r) ==> !IsChild(es[j], parent, name)
    decreases |es| - k
  {
    if k >= |es| then -1
    else if IsChild(es[k], parent, name) then k
    else FindFrom(es, parent, k + 1, name)
  }

  /** `ezcfg_soap_get_element_index(soap, parent, after, name)`: the first `name`
      child of `parent` that comes after index `after` (from the start when `after`
      is -1), or -1 when there is none or `parent` itself is -1. */
  function FindChild(es: seq<Element>, parent: int, after: int, name: string): (r: int)
    ensures r == -1 || (0 <= r < |es| && after < r && IsChild(es[r], parent, name))
    ensures parent >= 0 ==>
      forall j :: 0 <= j < |es| && after < j && (r == -1 || j < r) ==> !IsChild(es[j], parent, name)
  {
    if parent < 0 then -1 else FindFrom(es, parent, if after < 0 then 0 else after + 1, name)
  }

  /** `ezcfg_soap_get_element_content_by_index`: the text of element `i`, NULL when
      `i` names no element or the element has no text. */
  function Content(es: seq<Element>, i: int): (r: Option<string>)
    ensures r.Some? ==> 0 <= i < |es| && es[i].text == r
  {
    if 0 <= i < |es| then es[i].text else None
  }

  /** `ezcfg_soap_get_body_index`: 1 once the body has been set. */
  function BodyIndex(es: seq<Element>): (r: int)
    ensures r == 1 <==> |es| >= 2
    ensures r != 1 ==> r == -1
  {
    if |es| >= 2 then 1 else -1
  }

  /** `es` with one more attribute on element `i`; nothing changes when `i` names no
      element. */
  function WithAttribute(es: seq<Element>, i: int, a: Attribute): (r: seq<Element>)
    ensures |r| == |es|
    ensures forall j :: 0 <= j < |es| && j != i ==> r[j] == es[j]
    ensures 0 <= i < |es| ==> r[i] == es[i].(attrs := es[i].attrs + [a])
  {
    if 0 <= i < |es| then es[i := es[i].(attrs := es[i].attrs + [a])] else es
  }

  class Tree {
    const capacity: nat
    /** `ezcfg_soap_write_message`: the serialised document of a tree.  The XML
        writer is not part of this model, so it is a parameter of the tree. */
    const render: seq<Element> -> string
    var elements: seq<Element>
    var versionMajor: nat
    var versionMinor: nat

    ghost predicate Valid()
      reads this
    {
      MinCapacity <= capacity && |elements| <= capacity
    }

    constructor (capacity: nat, render: seq<Element> -> string)
      requires MinCapacity <= capacity
      ensures Valid() && elements == [] && this.capacity == capacity && this.render == render
    {
      this.capacity := capacity;
      this.render := render;
      elements := [];
      versionMajor := 0;
      versionMinor := 0;
    }

    /** `ezcfg_soap_reset_attributes`: an empty tree. */
    method Reset()
      modifies this`elements
      ensures elements == []
    {
      elements := [];
    }

    method SetVersion(major: nat, minor: nat)
      modifies this`versionMajor, this`versionMinor
      ensures versionMajor == major && versionMinor == minor
    {
      versionMajor := major;
      versionMinor := minor;
    }

    /** `ezcfg_soap_set_envelope` on an empty tree: the root, element 0. */
    method SetEnvelope(name: string)
      requires Valid() && elements == []
      modifies this`elements
      ensures Valid() && elements == [Element(-1, name, None, [])]
    {
      elements := [Element(-1, name, None, [])];
    }

    /** `ezcfg_soap_set_body` right after the envelope: element 1, under the root. */
    method SetBody(name: string) returns (index: int)
      requires Valid() && |elements| == 1
      modifies this`elements
      ensures Valid() && elements == old(elements) + [Element(0, name, None, [])] && index == 1
    {
      elements := elements + [Element(0, name, None, [])];
      index := 1;
    }

    /** `ezcfg_soap_add_envelope_attribute` and `ezcfg_soap_add_body_child_attribute`. */
    method AddAttribute(index: int, name: string, value: string)
      requires Valid()
      modifies this`elements
      ensures Valid() && elements == WithAttribute(old(elements), index, Attribute(name, value))
    {
      if 0 <= index < |elements| {
        elements := elements[index := elements[index].(attrs := elements[index].attrs + [Attribute(name, value)])];
      }
    }

    /** `ezcfg_soap_add_body_child(soap, parent, -1, name, text)`: append a child of
        `parent` and return its index; -1, with nothing added, when the arena is full
        or `parent` names no element. */
    method AddBodyChild(parent: int, name: string, text: Option<string>) returns (index: int)
      requires Valid()
      modifies this`elements
      ensures Valid()
      ensures |old(elements)| < capacity && 0 <= parent < |old(elements)| ==>
        elements == old(elements) + [Element(parent, name, text, [])] && index == |old(elements)|
      ensures !(|old(elements)| < capacity && 0 <= parent < |old(elements)|) ==>
        elements == old(elements) && index == -1
    {
      if |elements| < capacity && 0 <= parent < |elements| {
        index := |elements|;
        elements := elements + [Element(parent, name, text, [])];
      } else {
        index := -1;
      }
    }
  }
}

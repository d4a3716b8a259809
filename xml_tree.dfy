/**
 * The element tree a configuration document is parsed into (the shape
 * elementtree gives it): every element has a qualified name, an attribute
 * dictionary, a text payload and an ordered list of children. Qualified names
 * such as "foo:bar" are opaque strings; namespace URIs play no part.
 *
 * Besides the datatype, this module holds the elementtree queries the merge
 * and its callers use: findall/find on a plain tag and remove.
 */
module XmlTree {
  import opened Wrappers

  datatype Element = Element(tag: string, attrs: map<string, string>, text: string, children: seq<Element>)

  /** Number of elements in a tree; the termination measure of the merge. */
  function Size(e: Element): nat
  {
    1 + SeqSize(e.children)
  }

  function SeqSize(cs: seq<Element>): nat
  {
    if cs == [] then 0 else Size(cs[0]) + SeqSize(cs[1..])
  }

  /** `findall(tag)`: the children whose qualified name is exactly `tag`, in document order. */
  function FindAll(cs: seq<Element>, tag: string): (r: seq<Element>)
    ensures |r| <= |cs|
    ensures forall x :: x in r ==> x in cs && x.tag == tag
    ensures forall x :: x in cs && x.tag == tag ==> x in r
  {
    if cs == [] then []
    else if cs[0].tag == tag then [cs[0]] + FindAll(cs[1..], tag)
    else FindAll(cs[1..], tag)
  }

  /** `findall(tag).length` */
  function Count(cs: seq<Element>, tag: string): (r: nat)
    ensures r <= |cs|
  {
    |FindAll(cs, tag)|
  }

  /** The children whose qualified name is not `tag`, in document order. */
  function WithoutTag(cs: seq<Element>, tag: string): (r: seq<Element>)
    ensures forall x :: x in r ==> x in cs && x.tag != tag
    ensures forall x :: x in cs && x.tag != tag ==> x in r
    ensures |r| + Count(cs, tag) == |cs|
  {
    if cs == [] then []
    else if cs[0].tag == tag then WithoutTag(cs[1..], tag)
    else [cs[0]] + WithoutTag(cs[1..], tag)
  }

  /** Position of the first child named `tag`, if any. */
  function FirstIndex(cs: seq<Element>, tag: string): (r: Option<nat>)
    ensures r.Some? ==> r.value < |cs| && cs[r.value].tag == tag
    ensures r.Some? ==> forall k :: 0 <= k < r.value ==> cs[k].tag != tag
    ensures r.None? ==> forall k :: 0 <= k < |cs| ==> cs[k].tag != tag
  {
    if cs == [] then None
    else if cs[0].tag == tag then Some(0)
    else match FirstIndex(cs[1..], tag)
      case Some(j) => Some(j + 1)
      case None => None
  }

  /** `find(tag)`: the first child named `tag`, if any. */
  function Find(cs: seq<Element>, tag: string): (r: Option<Element>)
    ensures r.Some? <==> FindAll(cs, tag) != []
    ensures r.Some? ==> r.value == FindAll(cs, tag)[0]
  {
    FindAllHead(cs, tag);
    match FirstIndex(cs, tag)
    case Some(j) => Some(cs[j])
    case None => None
  }

  /** `remove(x)`: drops the first child equal to `x`; nothing changes when there is none. */
  function Remove(cs: seq<Element>, x: Element): (r: seq<Element>)
    ensures x in cs ==> |r| == |cs| - 1 && multiset(r) == multiset(cs) - multiset{x}
    ensures x !in cs ==> r == cs
  {
    if cs == [] then []
    else
      assert cs == [cs[0]] + cs[1..];
      if cs[0] == x then cs[1..]
      else
        var rest := Remove(cs[1..], x);
        assert multiset([cs[0]] + rest) == multiset{cs[0]} + multiset(rest);
        [cs[0]] + rest
  }

  lemma {:induction false} FindAllHead(cs: seq<Element>, tag: string)
    ensures FirstIndex(cs, tag).Some? <==> FindAll(cs, tag) != []
    ensures FirstIndex(cs, tag).Some? ==> FindAll(cs, tag)[0] == cs[FirstIndex(cs, tag).value]
  {
    if cs != [] && cs[0].tag != tag {
      FindAllHead(cs[1..], tag);
    }
  }

  /** findall distributes over concatenation of child lists. */
  lemma {:induction false} FindAllAppend(a: seq<Element>, b: seq<Element>, tag: string)
    ensures FindAll(a + b, tag) == FindAll(a, tag) + FindAll(b, tag)
  {
    if a == [] {
      assert a + b == b;
    } else {
      assert (a + b)[1..] == a[1..] + b;
      FindAllAppend(a[1..], b, tag);
    }
  }

  /**
   * Replacing one child by an element with the same qualified name keeps the
   * number of children with every name, and keeps the children with any other
   * name exactly as they were.
   */
  lemma {:induction false} FindAllUpdate(cs: seq<Element>, j: nat, x: Element, tag: string)
    requires j < |cs| && x.tag == cs[j].tag
    ensures Count(cs[j := x], tag) == Count(cs, tag)
    ensures tag != x.tag ==> FindAll(cs[j := x], tag) == FindAll(cs, tag)
  {
    if j > 0 {
      assert cs[j := x][1..] == cs[1..][j - 1 := x];
      FindAllUpdate(cs[1..], j - 1, x, tag);
    }
  }

  lemma {:induction false} FindAllNone(cs: seq<Element>, tag: string)
    requires forall k :: 0 <= k < |cs| ==> cs[k].tag != tag
    ensures FindAll(cs, tag) == []
  {
    if cs != [] {
      FindAllNone(cs[1..], tag);
    }
  }

  /** findall of a tag is empty exactly when no child has that tag. */
  lemma FindAllEmpty(cs: seq<Element>, tag: string)
    ensures FindAll(cs, tag) == [] <==> forall k :: 0 <= k < |cs| ==> cs[k].tag != tag
  {
    if forall k :: 0 <= k < |cs| ==> cs[k].tag != tag {
      FindAllNone(cs, tag);
    }
  }

  lemma {:induction false} FindAllEvery(cs: seq<Element>, tag: string)
    requires forall k :: 0 <= k < |cs| ==> cs[k].tag == tag
    ensures FindAll(cs, tag) == cs
  {
    if cs != [] {
      FindAllEvery(cs[1..], tag);
    }
  }

  /** After `WithoutTag`, findall of that tag is empty. */
  lemma WithoutTagLeavesNone(cs: seq<Element>, tag: string)
    ensures FindAll(WithoutTag(cs, tag), tag) == []
  {
    var w := WithoutTag(cs, tag);
    FindAllNone(w, tag);
  }

  /** A child list with no child named `tag` is its own `WithoutTag`. */
  lemma {:induction false} WithoutAbsentTag(cs: seq<Element>, tag: string)
    requires FindAll(cs, tag) == []
    ensures WithoutTag(cs, tag) == cs
  {
    if cs != [] {
      WithoutAbsentTag(cs[1..], tag);
    }
  }

  /**
   * Removing the first element that findall(tag) returned takes it off the
   * front of the findall list and leaves every other child where it was.
   */
  lemma {:induction false} RemoveFirstFound(cs: seq<Element>, tag: string)
    requires FindAll(cs, tag) != []
    ensures FindAll(Remove(cs, FindAll(cs, tag)[0]), tag) == FindAll(cs, tag)[1..]
    ensures WithoutTag(Remove(cs, FindAll(cs, tag)[0]), tag) == WithoutTag(cs, tag)
  {
    if cs[0].tag != tag {
      RemoveFirstFound(cs[1..], tag);
    }
  }

  /**
   * The loop that removes, one by one, every element that findall(tag)
   * returned: afterwards exactly the children with other names are left, in
   * their order, and the element's own name, attributes and text are as before.
   */
  method RemoveTagged(e: Element, tag: string) returns (r: Element)
    ensures r == e.(children := WithoutTag(e.children, tag))
  {
    var found := FindAll(e.children, tag);
    r := e;
    var i := 0;
    while i < |found|
      invariant 0 <= i <= |found|
      invariant r == e.(children := r.children)
      invariant FindAll(r.children, tag) == found[i..]
      invariant WithoutTag(r.children, tag) == WithoutTag(e.children, tag)
    {
      RemoveFirstFound(r.children, tag);
      r := r.(children := Remove(r.children, found[i]));
      i := i + 1;
    }
    WithoutAbsentTag(r.children, tag);
  }
}

/**
 * What the merge guarantees for every pair of documents: how platform
 * overlays behave, that singletons never multiply, that elements of other
 * names are never touched, and that re-merging repeatable elements does not
 * duplicate them.
 */
module MergeLaws {
  import opened Wrappers
  import opened XmlTree
  import opened ConfigMerge

  /** Processing `xs + ys` is processing `xs`, then `ys` against the result. */
  lemma {:induction false} MergeChildrenConcat(xs: seq<Element>, ys: seq<Element>, d: Element, p: string, clobber: bool)
    ensures MergeChildren(xs + ys, d, p, clobber) == MergeChildren(ys, MergeChildren(xs, d, p, clobber), p, clobber)
  {
    if xs == [] {
      assert xs + ys == ys;
    } else {
      assert (xs + ys)[1..] == xs[1..] + ys;
      MergeChildrenConcat(xs[1..], ys, MergeChild(xs[0], d, p, clobber), p, clobber);
    }
  }

  lemma MergeChildrenSingle(c: Element, d: Element, p: string, clobber: bool)
    ensures MergeChildren([c], d, p, clobber) == MergeChild(c, d, p, clobber)
  {
    assert [c][1..] == [];
  }

  /** Processing `pre + [c] + post` splits into the three parts. */
  lemma Split3(pre: seq<Element>, c: Element, post: seq<Element>, d: Element, p: string, clobber: bool)
    ensures MergeChildren(pre + [c] + post, d, p, clobber)
         == MergeChildren(post, MergeChild(c, MergeChildren(pre, d, p, clobber), p, clobber), p, clobber)
  {
    MergeChildrenConcat(pre + [c], post, d, p, clobber);
    MergeChildrenConcat(pre, [c], d, p, clobber);
    MergeChildrenSingle(c, MergeChildren(pre, d, p, clobber), p, clobber);
  }

  /** A platform wrapper for another platform can be dropped from the source without any effect. */
  lemma OtherPlatformOverlayInert(src: Element, pre: seq<Element>, w: Element, post: seq<Element>,
                                  d: Element, p: string, clobber: bool)
    requires w.tag == PlatformTag && !IsOverlayFor(w, p)
    ensures Merge(src.(children := pre + [w] + post), d, p, clobber) == Merge(src.(children := pre + post), d, p, clobber)
  {
    var root := d.(attrs := MergeAttrs(src.attrs, d.attrs, clobber), text := MergeText(src.text, d.text, clobber));
    Split3(pre, w, post, root, p, clobber);
    MergeChildrenConcat(pre, post, root, p, clobber);
  }

  /** A platform wrapper for the merged platform behaves exactly as its children placed where it stands. */
  lemma SelectedOverlayFlattens(src: Element, pre: seq<Element>, w: Element, post: seq<Element>,
                                d: Element, p: string, clobber: bool)
    requires IsOverlayFor(w, p)
    ensures Merge(src.(children := pre + [w] + post), d, p, clobber)
         == Merge(src.(children := pre + w.children + post), d, p, clobber)
  {
    var root := d.(attrs := MergeAttrs(src.attrs, d.attrs, clobber), text := MergeText(src.text, d.text, clobber));
    Split3(pre, w, post, root, p, clobber);
    MergeChildrenConcat(pre + w.children, post, root, p, clobber);
    MergeChildrenConcat(pre, w.children, root, p, clobber);
  }

  /** Source children that are all wrappers for other platforms change nothing. */
  lemma {:induction false} InertChildren(cs: seq<Element>, d: Element, p: string, clobber: bool)
    requires forall k :: 0 <= k < |cs| ==> cs[k].tag == PlatformTag && !IsOverlayFor(cs[k], p)
    ensures MergeChildren(cs, d, p, clobber) == d
  {
    if cs != [] {
      InertChildren(cs[1..], d, p, clobber);
    }
  }

  /**
   * A source with no attributes, no text and only wrappers for other
   * platforms leaves the destination exactly as it was; with no children at
   * all this is the empty document.
   */
  lemma InertSource(src: Element, d: Element, p: string, clobber: bool)
    requires src.attrs == map[] && src.text == ""
    requires forall k :: 0 <= k < |src.children| ==> src.children[k].tag == PlatformTag && !IsOverlayFor(src.children[k], p)
    ensures Merge(src, d, p, clobber) == d
  {
    assert MergeAttrs(src.attrs, d.attrs, clobber) == d.attrs;
    InertChildren(src.children, d.(attrs := d.attrs, text := d.text), p, clobber);
  }

  /** Children that keep their names position by position have the same counts. */
  lemma {:induction false} CountSameNames(a: seq<Element>, b: seq<Element>, t: string)
    requires |a| == |b| && forall i :: 0 <= i < |a| ==> a[i].tag == b[i].tag
    ensures Count(a, t) == Count(b, t)
  {
    if a != [] {
      CountSameNames(a[1..], b[1..], t);
    }
  }

  /** Extending a child list never lowers the count of any name. */
  lemma CountExtends(r: seq<Element>, d: seq<Element>, t: string)
    requires Extends(r, d)
    ensures Count(d, t) <= Count(r, t)
  {
    assert r == r[..|d|] + r[|d|..];
    FindAllAppend(r[..|d|], r[|d|..], t);
    CountSameNames(r[..|d|], d, t);
  }

  /** No merge removes an element: the count of every name can only grow. */
  lemma CountsNeverDrop(src: Element, d: Element, p: string, clobber: bool, t: string)
    ensures Count(d.children, t) <= Count(Merge(src, d, p, clobber).children, t)
  {
    CountExtends(Merge(src, d, p, clobber).children, d.children, t);
  }

  lemma {:induction false} SingletonUniqueChildren(cs: seq<Element>, d: Element, p: string, clobber: bool, t: string)
    requires t in Singletons && Count(d.children, t) <= 1
    ensures Count(MergeChildren(cs, d, p, clobber).children, t) <= 1
    decreases SeqSize(cs), 1
  {
    if cs != [] {
      SingletonUniqueChild(cs[0], d, p, clobber, t);
      SingletonUniqueChildren(cs[1..], MergeChild(cs[0], d, p, clobber), p, clobber, t);
    }
  }

  lemma {:induction false} SingletonUniqueChild(c: Element, d: Element, p: string, clobber: bool, t: string)
    requires t in Singletons && Count(d.children, t) <= 1
    ensures Count(MergeChild(c, d, p, clobber).children, t) <= 1
    decreases Size(c), 0
  {
    if c.tag == PlatformTag {
      if IsOverlayFor(c, p) {
        SingletonUniqueChildren(c.children, d, p, clobber, t);
      }
    } else if c.tag in Singletons {
      match FirstIndex(d.children, c.tag)
      case Some(j) =>
        FindAllUpdate(d.children, j, Merge(c, d.children[j], p, clobber), t);
      case None =>
        FindAllAppend(d.children, [c], t);
        if c.tag == t {
          FindAllHead(d.children, t);
        }
    } else if !HasExactDuplicate(d.children, c) {
      FindAllAppend(d.children, [c], t);
    }
  }

  /** Singleton elements never multiply: at most one before the merge means at most one after. */
  lemma SingletonsStayUnique(src: Element, d: Element, p: string, clobber: bool, t: string)
    requires t in Singletons && Count(d.children, t) <= 1
    ensures Count(Merge(src, d, p, clobber).children, t) <= 1
    ensures Count(d.children, t) == 1 ==> Count(Merge(src, d, p, clobber).children, t) == 1
  {
    var root := d.(attrs := MergeAttrs(src.attrs, d.attrs, clobber), text := MergeText(src.text, d.text, clobber));
    SingletonUniqueChildren(src.children, root, p, clobber, t);
    CountsNeverDrop(src, d, p, clobber, t);
  }

  /** True when some child of `cs` named `u` would be processed (directly or inside any wrapper). */
  function Mentions(cs: seq<Element>, u: string): bool
  {
    if cs == [] then false
    else
      var here := if cs[0].tag == PlatformTag then Mentions(cs[0].children, u) else cs[0].tag == u;
      here || Mentions(cs[1..], u)
  }

  lemma {:induction false} UntouchedChildren(cs: seq<Element>, d: Element, p: string, clobber: bool, u: string)
    requires !Mentions(cs, u)
    ensures FindAll(MergeChildren(cs, d, p, clobber).children, u) == FindAll(d.children, u)
    decreases SeqSize(cs), 1
  {
    if cs != [] {
      UntouchedChild(cs[0], d, p, clobber, u);
      UntouchedChildren(cs[1..], MergeChild(cs[0], d, p, clobber), p, clobber, u);
    }
  }

  lemma {:induction false} UntouchedChild(c: Element, d: Element, p: string, clobber: bool, u: string)
    requires if c.tag == PlatformTag then !Mentions(c.children, u) else c.tag != u
    ensures FindAll(MergeChild(c, d, p, clobber).children, u) == FindAll(d.children, u)
    decreases Size(c), 0
  {
    if c.tag == PlatformTag {
      if IsOverlayFor(c, p) {
        UntouchedChildren(c.children, d, p, clobber, u);
      }
    } else if c.tag in Singletons {
      match FirstIndex(d.children, c.tag)
      case Some(j) =>
        FindAllUpdate(d.children, j, Merge(c, d.children[j], p, clobber), u);
      case None =>
        FindAllAppend(d.children, [c], u);
    } else if !HasExactDuplicate(d.children, c) {
      FindAllAppend(d.children, [c], u);
    }
  }

  /**
   * Elements are matched by their full qualified name: the destination
   * children named `u` are exactly as before when no source child (directly
   * or in a wrapper) is named `u`. So `foo:bar` never touches `bar`.
   */
  lemma OtherNamesUntouched(src: Element, d: Element, p: string, clobber: bool, u: string)
    requires !Mentions(src.children, u)
    ensures FindAll(Merge(src, d, p, clobber).children, u) == FindAll(d.children, u)
  {
    var root := d.(attrs := MergeAttrs(src.attrs, d.attrs, clobber), text := MergeText(src.text, d.text, clobber));
    UntouchedChildren(src.children, root, p, clobber, u);
  }

  /** Source children that are neither wrappers nor singletons. */
  predicate RepeatableOnly(cs: seq<Element>)
  {
    forall k :: 0 <= k < |cs| ==> cs[k].tag != PlatformTag && cs[k].tag !in Singletons
  }

  /** A repeatable child is appended exactly when no destination child is an exact duplicate of it. */
  lemma RepeatableChildRule(c: Element, d: Element, p: string, clobber: bool)
    requires c.tag != PlatformTag && c.tag !in Singletons
    ensures var r := MergeChild(c, d, p, clobber);
      && (HasExactDuplicate(d.children, c) <==> r == d)
      && (!HasExactDuplicate(d.children, c) ==> r.children == d.children + [c])
  {
    if !HasExactDuplicate(d.children, c) {
      var r := MergeChild(c, d, p, clobber);
      assert r.children[|d.children|] == c;
      assert HasExactDuplicate(r.children, c);
    }
  }

  /** The first child named `t` is at `j` when `cs[j]` is named `t` and no earlier child is. */
  lemma {:induction false} FirstIndexAt(cs: seq<Element>, t: string, j: nat)
    requires j < |cs| && cs[j].tag == t
    requires forall k :: 0 <= k < j ==> cs[k].tag != t
    ensures FirstIndex(cs, t) == Some(j)
  {
    if j > 0 {
      assert cs[0].tag != t;
      forall k | 0 <= k < j - 1 ensures cs[1..][k].tag != t {
        assert cs[1..][k] == cs[k + 1];
      }
      FirstIndexAt(cs[1..], t, j - 1);
    }
  }

  /**
   * A singleton child is merged, by the root rules, into the first destination
   * child with its name, which keeps its position; every child of another name
   * stays where it is, unchanged. With no such child it is appended as is.
   */
  lemma SingletonChildRule(c: Element, d: Element, p: string, clobber: bool)
    requires c.tag in Singletons
    ensures var r := MergeChild(c, d, p, clobber);
      && (Find(d.children, c.tag).Some? ==>
            && |r.children| == |d.children|
            && Find(r.children, c.tag) == Some(Merge(c, Find(d.children, c.tag).value, p, clobber))
            && Count(r.children, c.tag) == Count(d.children, c.tag)
            && forall k :: 0 <= k < |d.children| && k != FirstIndex(d.children, c.tag).value ==> r.children[k] == d.children[k])
      && (Find(d.children, c.tag).None? ==> r.children == d.children + [c])
  {
    var r := MergeChild(c, d, p, clobber);
    match FirstIndex(d.children, c.tag)
    case Some(j) =>
      var m := Merge(c, d.children[j], p, clobber);
      assert r.children == d.children[j := m];
      FirstIndexAt(r.children, c.tag, j);
      FindAllUpdate(d.children, j, m, c.tag);
    case None =>
  }

  /** The duplicate test compares names and attributes only: text and children play no part. */
  lemma DuplicateIgnoresContent(cs: seq<Element>, c: Element, t: string, ch: seq<Element>)
    ensures HasExactDuplicate(cs, c.(text := t, children := ch)) == HasExactDuplicate(cs, c)
  {
  }

  /** Duplicates of repeatable elements survive every later merge. */
  lemma PresencePersists(r: seq<Element>, d: seq<Element>, x: Element)
    requires Extends(r, d) && x.tag !in Singletons && HasExactDuplicate(d, x)
    ensures HasExactDuplicate(r, x)
  {
    var k :| 0 <= k < |d| && d[k].tag == x.tag && d[k].attrs == x.attrs;
    assert r[k] == d[k];
  }

  lemma {:induction false} MergedArePresent(cs: seq<Element>, d: Element, p: string, clobber: bool)
    requires RepeatableOnly(cs)
    ensures forall k :: 0 <= k < |cs| ==> HasExactDuplicate(MergeChildren(cs, d, p, clobber).children, cs[k])
  {
    if cs != [] {
      var d1 := MergeChild(cs[0], d, p, clobber);
      var r := MergeChildren(cs[1..], d1, p, clobber);
      MergedArePresent(cs[1..], d1, p, clobber);
      assert HasExactDuplicate(d1.children, cs[0]) by {
        RepeatableChildRule(cs[0], d, p, clobber);
        if !HasExactDuplicate(d.children, cs[0]) {
          assert d1.children[|d.children|] == cs[0];
        }
      }
      PresencePersists(r.children, d1.children, cs[0]);
      forall k | 0 <= k < |cs| ensures HasExactDuplicate(r.children, cs[k]) {
        if k > 0 {
          assert cs[k] == cs[1..][k - 1];
        }
      }
    }
  }

  lemma {:induction false} PresentChildrenNoChange(cs: seq<Element>, d: Element, p: string, clobber: bool)
    requires RepeatableOnly(cs)
    requires forall k :: 0 <= k < |cs| ==> HasExactDuplicate(d.children, cs[k])
    ensures MergeChildren(cs, d, p, clobber) == d
  {
    if cs != [] {
      assert MergeChild(cs[0], d, p, clobber) == d;
      PresentChildrenNoChange(cs[1..], d, p, clobber);
    }
  }

  lemma MergeAttrsIdempotent(s: map<string, string>, d: map<string, string>, clobber: bool)
    ensures MergeAttrs(s, MergeAttrs(s, d, clobber), clobber) == MergeAttrs(s, d, clobber)
  {
  }

  /** The text rule applied twice with the same source gives the same text as once. */
  lemma MergeTextIdempotent(s: string, d: string, clobber: bool)
    ensures MergeText(s, MergeText(s, d, clobber), clobber) == MergeText(s, d, clobber)
  {
  }

  /**
   * Merging the same document twice is merging it once, when its children are
   * all repeatable: literal re-declarations are not duplicated across runs.
   */
  lemma RepeatableMergeIdempotent(src: Element, d: Element, p: string, clobber: bool)
    requires RepeatableOnly(src.children)
    ensures Merge(src, Merge(src, d, p, clobber), p, clobber) == Merge(src, d, p, clobber)
  {
    var d1 := Merge(src, d, p, clobber);
    var root := d.(attrs := MergeAttrs(src.attrs, d.attrs, clobber), text := MergeText(src.text, d.text, clobber));
    MergedArePresent(src.children, root, p, clobber);
    MergeAttrsIdempotent(src.attrs, d.attrs, clobber);
    MergeTextIdempotent(src.text, d.text, clobber);
    assert d1.(attrs := MergeAttrs(src.attrs, d1.attrs, clobber), text := MergeText(src.text, d1.text, clobber)) == d1;
    PresentChildrenNoChange(src.children, d1, p, clobber);
  }
}

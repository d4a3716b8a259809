/**
 * The configuration-document merge `_mergeXml(src, dst, platform, clobber)`
 * of the prepare stage. It merges the element tree `src` into `dst`:
 *
 *  - root attributes are added when `dst` lacks them and overwritten only
 *    under `clobber`; root text is replaced only under `clobber` and only by
 *    a non-empty source text;
 *  - a `<platform name=…>` child is a transparent wrapper: its children are
 *    processed as if they stood directly in `src` when `name` is the platform
 *    being merged for, and it is ignored otherwise;
 *  - a singleton child (a name in `Singletons`) is merged recursively into the
 *    first destination child with that name, or appended when there is none;
 *  - any other child is appended unless a destination child with the same
 *    qualified name has an exactly equal attribute dictionary.
 *
 * The source changes `dst` in place. Here `Merge` returns the new destination
 * and callers thread it from one merge to the next; `MergeXml` is the loop
 * over the source children, proved to compute `Merge`.
 */
module ConfigMerge {
  import opened Wrappers
  import opened XmlTree

  /** Qualified name of the platform overlay wrapper. */
  const PlatformTag := "platform"

  /** Names merged into an existing element rather than appended. */
  const Singletons: set<string> := {"author"}

  /** Root attribute rule: absent keys are added, present ones overwritten only under `clobber`. */
  function MergeAttrs(src: map<string, string>, dst: map<string, string>, clobber: bool): (r: map<string, string>)
    ensures r.Keys == src.Keys + dst.Keys
    ensures forall k :: k in src && (clobber || k !in dst) ==> r[k] == src[k]
    ensures forall k :: k in dst && !(clobber && k in src) ==> r[k] == dst[k]
  {
    if clobber then dst + src else src + dst
  }

  /** Root text rule: replaced only under `clobber` and by a non-empty source text. */
  function MergeText(src: string, dst: string, clobber: bool): (r: string)
    ensures r == src || r == dst
    ensures !clobber || src == "" ==> r == dst
    ensures clobber && src != "" ==> r == src
  {
    if clobber && src != "" then src else dst
  }

  /**
   * A wrapper whose children apply when merging for `platform`. The empty
   * platform id (a merge called without a platform) selects no wrapper.
   */
  predicate IsOverlayFor(c: Element, platform: string): (r: bool)
    ensures platform == "" ==> !r
    ensures r ==> c.tag == PlatformTag && "name" in c.attrs && c.attrs["name"] == platform
    ensures c.tag != PlatformTag || "name" !in c.attrs ==> !r
    ensures platform != "" && c.tag == PlatformTag && "name" in c.attrs && c.attrs["name"] == platform ==> r
  {
    platform != "" && c.tag == PlatformTag && "name" in c.attrs && c.attrs["name"] == platform
  }

  /** Exact-duplicate test: same qualified name and equal attribute dictionary; text is not compared. */
  predicate HasExactDuplicate(cs: seq<Element>, c: Element): (r: bool)
    ensures c in cs ==> r
    ensures r <==> exists x :: x in FindAll(cs, c.tag) && x.attrs == c.attrs
  {
    exists k :: 0 <= k < |cs| && cs[k].tag == c.tag && cs[k].attrs == c.attrs
  }

  /**
   * `r` keeps every child of `d` at its position with its name, and every
   * child of `d` that is not a singleton unchanged; it may have more children.
   */
  ghost predicate Extends(r: seq<Element>, d: seq<Element>)
  {
    && |d| <= |r|
    && forall i :: 0 <= i < |d| ==> r[i].tag == d[i].tag && (d[i].tag !in Singletons ==> r[i] == d[i])
  }

  /** Merges `src` into `dst`: the root rules, then every source child in order. */
  function Merge(src: Element, dst: Element, platform: string, clobber: bool): (r: Element)
    ensures r.tag == dst.tag
    ensures r.attrs == MergeAttrs(src.attrs, dst.attrs, clobber)
    ensures r.text == MergeText(src.text, dst.text, clobber)
    ensures Extends(r.children, dst.children)
    decreases Size(src), 0
  {
    var root := dst.(attrs := MergeAttrs(src.attrs, dst.attrs, clobber), text := MergeText(src.text, dst.text, clobber));
    MergeChildren(src.children, root, platform, clobber)
  }

  /** Processes the source children `cs` in order against the children of `dst`. */
  function MergeChildren(cs: seq<Element>, dst: Element, platform: string, clobber: bool): (r: Element)
    ensures r.tag == dst.tag && r.attrs == dst.attrs && r.text == dst.text
    ensures Extends(r.children, dst.children)
    decreases SeqSize(cs), 2
  {
    if cs == [] then dst
    else MergeChildren(cs[1..], MergeChild(cs[0], dst, platform, clobber), platform, clobber)
  }

  /** Processes one source child `c` against the children of `dst`. */
  function MergeChild(c: Element, dst: Element, platform: string, clobber: bool): (r: Element)
    ensures r.tag == dst.tag && r.attrs == dst.attrs && r.text == dst.text
    ensures Extends(r.children, dst.children)
    decreases Size(c), 1
  {
    if c.tag == PlatformTag then
      if IsOverlayFor(c, platform) then MergeChildren(c.children, dst, platform, clobber) else dst
    else if c.tag in Singletons then
      match FirstIndex(dst.children, c.tag)
      case Some(j) => dst.(children := dst.children[j := Merge(c, dst.children[j], platform, clobber)])
      case None => dst.(children := dst.children + [c])
    else if HasExactDuplicate(dst.children, c) then dst
    else dst.(children := dst.children + [c])
  }

  /** The merge as the source runs it: the root rules, then a loop over the source children. */
  method MergeXml(src: Element, dst: Element, platform: string, clobber: bool) returns (merged: Element)
    ensures merged == Merge(src, dst, platform, clobber)
  {
    merged := dst.(attrs := MergeAttrs(src.attrs, dst.attrs, clobber), text := MergeText(src.text, dst.text, clobber));
    var i := 0;
    while i < |src.children|
      invariant 0 <= i <= |src.children|
      invariant MergeChildren(src.children[i..], merged, platform, clobber) == Merge(src, dst, platform, clobber)
    {
      assert src.children[i..][1..] == src.children[i + 1..];
      merged := MergeChild(src.children[i], merged, platform, clobber);
      i := i + 1;
    }
  }
}

/**
 * The fixture document of the `_mergeXml` test suite and one lemma per test
 * case: each merges the case's source into a fresh copy of the fixture and
 * states what the test reads back from the destination.
 */
module MergeCases {
  import opened Wrappers
  import opened XmlTree
  import opened ConfigMerge
  import opened MergeLaws

  const AuthorText := "\n        Apache Cordova Team\n    "

  const FixtureAuthor := Element("author", map["href" := "http://cordova.io", "email" := "dev@cordova.apache.org"], AuthorText, [])

  /** The children of the fixture before its two `preference` elements. */
  const FixtureHead := [
    Element("name", map[], "Hello Cordova", []),
    Element("description", map[], "\n        A sample Apache Cordova application that responds to the deviceready event.\n    ", []),
    FixtureAuthor,
    Element("content", map["src" := "index.html"], "", []),
    Element("access", map["origin" := "*"], "", []) ]

  const FixturePrefs := [
    Element("preference", map["name" := "fullscreen", "value" := "true"], "", []),
    Element("preference", map["name" := "webviewbounce", "value" := "true"], "", []) ]

  /** The `widget` document every case starts from. */
  const Fixture := Element(
    "widget",
    map["xmlns" := "http://www.w3.org/ns/widgets",
        "xmlns:cdv" := "http://cordova.apache.org/ns/1.0",
        "id" := "io.cordova.hellocordova",
        "version" := "0.0.1"],
    "\n    ",
    FixtureHead + FixturePrefs)

  /** A source document that is only a `widget` root with the given children. */
  function Widget(children: seq<Element>): Element
  {
    Element("widget", map[], "", children)
  }

  /** A bare `widget` source only processes its children. */
  lemma MergeWidget(cs: seq<Element>, d: Element, p: string, clobber: bool)
    ensures Merge(Widget(cs), d, p, clobber) == MergeChildren(cs, d, p, clobber)
  {
    assert MergeAttrs(map[], d.attrs, clobber) == d.attrs;
    assert d.(attrs := d.attrs, text := d.text) == d;
  }

  /** The two attribute dictionaries disagree at `key`: it is missing on one side, or its values differ. */
  predicate DiffersAt(a: map<string, string>, b: map<string, string>, key: string)
  {
    (key in a) != (key in b) || (key in a && key in b && a[key] != b[key])
  }

  /** A key on which every same-named child disagrees with `c` rules out an exact duplicate. */
  lemma DistinguishedByKey(cs: seq<Element>, c: Element, key: string)
    requires forall k :: 0 <= k < |cs| && cs[k].tag == c.tag ==> DiffersAt(cs[k].attrs, c.attrs, key)
    ensures !HasExactDuplicate(cs, c)
  {
  }

  /** Merging a single repeatable child that is not an exact duplicate appends it. */
  lemma AppendsOne(c: Element, d: Element, p: string, clobber: bool, key: string)
    requires c.tag != PlatformTag && c.tag !in Singletons
    requires forall k :: 0 <= k < |d.children| && d.children[k].tag == c.tag ==> DiffersAt(d.children[k].attrs, c.attrs, key)
    ensures Merge(Widget([c]), d, p, clobber) == d.(children := d.children + [c])
    ensures Count(Merge(Widget([c]), d, p, clobber).children, c.tag) == Count(d.children, c.tag) + 1
  {
    MergeWidget([c], d, p, clobber);
    MergeChildrenSingle(c, d, p, clobber);
    DistinguishedByKey(d.children, c, key);
    RepeatableChildRule(c, d, p, clobber);
    FindAllAppend(d.children, [c], c.tag);
  }

  const RootSource := Element("widget", map["foo" := "bar", "id" := "NOTANID"], "TEXT", [])

  lemma RootMergeWithoutClobber()
    ensures var r := Merge(RootSource, Fixture, "", false);
      && r.attrs["foo"] == "bar"
      && r.attrs["id"] == "io.cordova.hellocordova"
      && r.text == Fixture.text
      && r.children == Fixture.children
  {
  }

  lemma RootMergeWithClobber()
    ensures var r := Merge(RootSource, Fixture, "foo", true);
      && r.attrs["foo"] == "bar"
      && r.attrs["id"] == "NOTANID"
      && r.text == "TEXT"
      && r.children == Fixture.children
  {
  }

  const TestElement := Element("testElement", map["testAttrib" := "value"], "testTEXT", [])

  const BarOverlay := Widget([Element("platform", map["name" := "bar"], "", [TestElement])])

  lemma OverlayForOtherPlatformIgnored()
    ensures Merge(BarOverlay, Fixture, "foo", true) == Fixture
  {
    InertSource(BarOverlay, Fixture, "foo", true);
  }

  lemma OverlayForThisPlatformMerged()
    ensures var r := Merge(BarOverlay, Fixture, "bar", true);
      && r != Fixture
      && Find(r.children, "testElement") == Some(TestElement)
      && r.children == Fixture.children + [TestElement]
      && Count(r.children, "platform") == 0
  {
    SelectedOverlayFlattens(BarOverlay, [], BarOverlay.children[0], [], Fixture, "bar", true);
    assert [] + [BarOverlay.children[0]] + [] == BarOverlay.children;
    assert [] + [TestElement] + [] == [TestElement];
    FixtureLacksKey(TestElement, "testAttrib");
    AppendsOne(TestElement, Fixture, "bar", true, "testAttrib");
    TestElementAppended(Merge(BarOverlay, Fixture, "bar", true));
  }

  lemma TestElementAppended(r: Element)
    requires r == Fixture.(children := Fixture.children + [TestElement])
    ensures r != Fixture
    ensures Find(r.children, "testElement") == Some(TestElement)
    ensures Count(r.children, "platform") == 0
  {
    FindAllNone(Fixture.children, "testElement");
    FindAllNone(Fixture.children, "platform");
    FindAllAppend(Fixture.children, [TestElement], "testElement");
    FindAllAppend(Fixture.children, [TestElement], "platform");
    assert |r.children| != |Fixture.children|;
  }

  const NewAuthor := Element("author", map["testAttrib" := "value", "href" := "http://www.nowhere.com"], "SUPER_AUTHOR", [])

  /** Merging the new author goes into the fixture's author, in place. */
  lemma AuthorMergedInPlace(clobber: bool)
    ensures Merge(Widget([NewAuthor]), Fixture, "", clobber)
         == Fixture.(children := Fixture.children[2 := Merge(NewAuthor, FixtureAuthor, "", clobber)])
  {
    MergeWidget([NewAuthor], Fixture, "", clobber);
    MergeChildrenSingle(NewAuthor, Fixture, "", clobber);
    assert Fixture.children[2] == FixtureAuthor;
    assert FirstIndex(Fixture.children, "author") == Some(2);
  }

  /** Whatever replaces the fixture's author is then its only author. */
  lemma OnlyAuthor(m: Element)
    requires m.tag == "author"
    ensures FindAll(Fixture.children[2 := m], "author") == [m]
  {
    var cs := Fixture.children[2 := m];
    assert cs == FixtureHead[..2] + [m] + (FixtureHead[3..] + FixturePrefs);
    FindAllNone(FixtureHead[..2], "author");
    FindAllNone(FixtureHead[3..] + FixturePrefs, "author");
    FindAllAppend(FixtureHead[..2] + [m], FixtureHead[3..] + FixturePrefs, "author");
    FindAllAppend(FixtureHead[..2], [m], "author");
  }

  /** The fields of the author once the new one is merged into the fixture's. */
  lemma AuthorFields(a: Element, clobber: bool)
    requires a.attrs == MergeAttrs(NewAuthor.attrs, FixtureAuthor.attrs, clobber)
    requires a.text == MergeText(NewAuthor.text, FixtureAuthor.text, clobber)
    ensures a.attrs["testAttrib"] == "value"
    ensures a.attrs["href"] == (if clobber then "http://www.nowhere.com" else "http://cordova.io")
    ensures a.attrs["email"] == "dev@cordova.apache.org"
    ensures a.text == (if clobber then "SUPER_AUTHOR" else AuthorText)
  {
  }

  lemma SingletonMerged(clobber: bool)
    ensures var r := Merge(Widget([NewAuthor]), Fixture, "", clobber);
      && Count(r.children, "author") == 1
      && var a := FindAll(r.children, "author")[0];
      && "testAttrib" in a.attrs && a.attrs["testAttrib"] == "value"
      && "href" in a.attrs && a.attrs["href"] == (if clobber then "http://www.nowhere.com" else "http://cordova.io")
      && "email" in a.attrs && a.attrs["email"] == "dev@cordova.apache.org"
      && a.text == (if clobber then "SUPER_AUTHOR" else AuthorText)
  {
    AuthorMergedInPlace(clobber);
    SingletonFacts(Merge(Widget([NewAuthor]), Fixture, "", clobber), Merge(NewAuthor, FixtureAuthor, "", clobber), clobber);
  }

  lemma SingletonFacts(r: Element, a: Element, clobber: bool)
    requires r == Fixture.(children := Fixture.children[2 := a])
    requires a.tag == "author"
    requires a.attrs == MergeAttrs(NewAuthor.attrs, FixtureAuthor.attrs, clobber)
    requires a.text == MergeText(NewAuthor.text, FixtureAuthor.text, clobber)
    ensures Count(r.children, "author") == 1
    ensures FindAll(r.children, "author")[0] == a
    ensures a.attrs["testAttrib"] == "value"
    ensures a.attrs["href"] == (if clobber then "http://www.nowhere.com" else "http://cordova.io")
    ensures a.attrs["email"] == "dev@cordova.apache.org"
    ensures a.text == (if clobber then "SUPER_AUTHOR" else AuthorText)
  {
    OnlyAuthor(a);
    AuthorFields(a, clobber);
  }

  lemma SingletonMergedWithoutClobber()
    ensures var r := Merge(Widget([NewAuthor]), Fixture, "", false);
      && Count(r.children, "author") == 1
      && var a := FindAll(r.children, "author")[0];
      && "testAttrib" in a.attrs && a.attrs["testAttrib"] == "value"
      && "href" in a.attrs && a.attrs["href"] == "http://cordova.io"
      && "email" in a.attrs && a.attrs["email"] == "dev@cordova.apache.org"
      && a.text == AuthorText
  {
    SingletonMerged(false);
  }

  lemma SingletonMergedWithClobber()
    ensures var r := Merge(Widget([NewAuthor]), Fixture, "", true);
      && Count(r.children, "author") == 1
      && var a := FindAll(r.children, "author")[0];
      && "testAttrib" in a.attrs && a.attrs["testAttrib"] == "value"
      && "href" in a.attrs && a.attrs["href"] == "http://www.nowhere.com"
      && "email" in a.attrs && a.attrs["email"] == "dev@cordova.apache.org"
      && a.text == "SUPER_AUTHOR"
  {
    SingletonMerged(true);
  }

  lemma FixturePreferences()
    ensures FindAll(Fixture.children, "preference") == FixturePrefs
  {
    FindAllNone(FixtureHead, "preference");
    FindAllEvery(FixturePrefs, "preference");
    FindAllAppend(FixtureHead, FixturePrefs, "preference");
  }

  /** No fixture child has attribute `key`, so every one of them differs from `c` there. */
  lemma FixtureLacksKey(c: Element, key: string)
    requires key in c.attrs
    requires key !in {"xmlns", "xmlns:cdv", "id", "version", "href", "email", "src", "origin", "name", "value"}
    ensures forall k :: 0 <= k < |Fixture.children| ==> DiffersAt(Fixture.children[k].attrs, c.attrs, key)
  {
  }

  const Pref1 := Element("preference", map["num" := "1"], "", [])
  const Pref2 := Element("preference", map["num" := "2"], "", [])

  lemma Pref2Differs(cs: seq<Element>)
    requires cs == Fixture.children + [Pref1]
    ensures forall k :: 0 <= k < |cs| ==> DiffersAt(cs[k].attrs, Pref2.attrs, "num")
  {
    FixtureLacksKey(Pref2, "num");
  }

  lemma FourPreferences(cs: seq<Element>)
    requires cs == Fixture.children + [Pref1] + [Pref2]
    ensures Count(cs, "preference") == 4
  {
    FixturePreferences();
    FindAllAppend(Fixture.children, [Pref1], "preference");
    FindAllAppend(Fixture.children + [Pref1], [Pref2], "preference");
  }

  lemma RepeatablesAppended()
    ensures Count(Merge(Widget([Pref1, Pref2]), Fixture, "", true).children, "preference") == 4
  {
    MergeWidget([Pref1, Pref2], Fixture, "", true);
    MergeChildrenConcat([Pref1], [Pref2], Fixture, "", true);
    assert [Pref1] + [Pref2] == [Pref1, Pref2];
    MergeWidget([Pref1], Fixture, "", true);
    FixtureLacksKey(Pref1, "num");
    AppendsOne(Pref1, Fixture, "", true, "num");
    var once := Fixture.(children := Fixture.children + [Pref1]);
    MergeWidget([Pref2], once, "", true);
    Pref2Differs(once.children);
    AppendsOne(Pref2, once, "", true, "num");
    FourPreferences(once.children + [Pref2]);
  }

  const FooBar := Element("foo:bar", map["testAttrib" := "value"], "testText", [])

  lemma FooBarFound(cs: seq<Element>)
    requires cs == Fixture.children + [FooBar]
    ensures Find(cs, "foo:bar") == Some(FooBar)
  {
    FindAllNone(Fixture.children, "foo:bar");
    FindAllAppend(Fixture.children, [FooBar], "foo:bar");
  }

  lemma NamespacedElementAppended()
    ensures var r := Merge(Widget([FooBar]), Fixture, "foo", true);
      && Find(r.children, "foo:bar") == Some(FooBar)
      && FindAll(r.children, "bar") == FindAll(Fixture.children, "bar")
  {
    FixtureLacksKey(FooBar, "testAttrib");
    AppendsOne(FooBar, Fixture, "foo", true, "testAttrib");
    FooBarFound(Fixture.children + [FooBar]);
    assert !Mentions([FooBar], "bar");
    OtherNamesUntouched(Widget([FooBar]), Fixture, "foo", true, "bar");
  }

  const Fullscreen := Element("preference", map["name" := "fullscreen", "value" := "true"], "", [])

  lemma ExactDuplicateNotAppended()
    ensures Merge(Widget([Fullscreen]), Fixture, "", true) == Fixture
    ensures Count(Merge(Widget([Fullscreen]), Fixture, "", true).children, "preference") == 2
  {
    MergeWidget([Fullscreen], Fixture, "", true);
    MergeChildrenSingle(Fullscreen, Fixture, "", true);
    assert Fixture.children[5] == Fullscreen;
    assert HasExactDuplicate(Fixture.children, Fullscreen);
    FixturePreferences();
  }

  const ExternalAccess := Element("access", map["origin" := "*", "launch-external" := "yes"], "", [])
  const InternalAccess := Element("access", map["origin" := "*"], "", [])

  /** The fixture after the test's loop that removes every `access` child. */
  const NoAccess := Fixture.(children := WithoutTag(Fixture.children, "access"))

  lemma PartialDuplicateAppended()
    ensures Count(NoAccess.children, "access") == 0
    ensures Count(Merge(Widget([ExternalAccess]), NoAccess, "", true).children, "access") == 1
    ensures var once := Merge(Widget([ExternalAccess]), NoAccess, "", true);
      Count(Merge(Widget([InternalAccess]), once, "", true).children, "access") == 2
  {
    WithoutTagLeavesNone(Fixture.children, "access");
    AccessSequence(NoAccess);
  }

  lemma AccessSequence(d: Element)
    requires Count(d.children, "access") == 0
    ensures Count(Merge(Widget([ExternalAccess]), d, "", true).children, "access") == 1
    ensures var once := Merge(Widget([ExternalAccess]), d, "", true);
      Count(Merge(Widget([InternalAccess]), once, "", true).children, "access") == 2
  {
    AppendsOne(ExternalAccess, d, "", true, "launch-external");
    SecondAccess(d, Merge(Widget([ExternalAccess]), d, "", true));
  }

  lemma SecondAccess(d: Element, once: Element)
    requires Count(d.children, "access") == 0
    requires once == d.(children := d.children + [ExternalAccess])
    ensures Count(Merge(Widget([InternalAccess]), once, "", true).children, "access") == 2
  {
    FindAllAppend(d.children, [ExternalAccess], "access");
    AppendsOne(InternalAccess, once, "", true, "launch-external");
  }
}

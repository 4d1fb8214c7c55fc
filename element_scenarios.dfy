/**
 * The concrete behaviour of the mutable `Element` object that the library's
 * specification file pins down: attributes added and deleted in place,
 * contents appended in place, `write_to` returning its destination, and
 * `dup` sharing the attribute table and the contents list.
 */
module ElementScenarios {
  import opened Escaping
  import opened AssocLists
  import opened Xml
  import opened Elements
  import Scenarios

  /** `Element.new("el", "a1"=>"v1", :a2=>"v2", "a3"=>nil)`: the name and every key become symbols. */
  method NewExample() returns (name: string, entries: seq<(Key, Value)>)
    ensures name == "el"
    ensures entries == [(SymKey("a1"), Str("v1")), (SymKey("a2"), Str("v2")), (SymKey("a3"), Nil)]
  {
    var attrs := [(StrKey("a1"), Str("v1")), (SymKey("a2"), Str("v2")), (StrKey("a3"), Nil)];
    assert attrs[..2][..1] == [(StrKey("a1"), Str("v1"))];
    assert NormalizeAttrs(attrs[..2][..1]) == [(SymKey("a1"), Str("v1"))];
    var prev := [(SymKey("a1"), Str("v1")), (SymKey("a2"), Str("v2"))];
    assert NormalizeAttrs(attrs[..2]) == prev;
    assert attrs[..|attrs| - 1] == attrs[..2];
    assert Put(prev, SymKey("a3"), Nil) == prev + [(SymKey("a3"), Nil)];
    var e := new Element(StrKey("el"), attrs);
    name := e.name;
    entries := e.attributes.entries;
  }

  /** `Element.new(:e, "a"=>"v")`: the keys are `[:a]` and `e[:a]` is "v". */
  method StringKeyExample() returns (keys: set<Key>, v: Value)
    ensures keys == {SymKey("a")}
    ensures v == Str("v")
  {
    var e := new Element(SymKey("e"), [(StrKey("a"), Str("v"))]);
    keys := Keys(e.attributes.entries);
    v := e.GetAttribute(SymKey("a"));
  }

  /** `e[:attr]` reads an attribute, `e[0]` a content item. */
  method IndexExample() returns (attr: Value, first: Value)
    ensures attr == Str("value")
    ensures first == Str("test")
  {
    var e := new Element(SymKey("el"), [(SymKey("attr"), Str("value"))]);
    AddedSingle(Str("test"));
    var _ := e.Add(Single(Str("test")));
    attr := e.GetAttribute(SymKey("attr"));
    first := e.GetContent(0);
  }

  /** `Element.new("el") << "String1" << "String2" << sub` keeps the order of appending. */
  method ContentsExample() returns (items: seq<Value>)
    ensures items == [Str("String1"), Str("String2"), Node(Tree("sub", [], []))]
  {
    var sub := new Element(StrKey("sub"), []);
    var child := sub.Snapshot();
    var e := new Element(StrKey("el"), []);
    AppendThree(e, Str("String1"), Str("String2"), Node(child));
    items := e.contents.items;
  }

  /** `e << a << b << c` on three non-nil objects. */
  method AppendThree(e: Element, a: Value, b: Value, c: Value)
    requires e.Valid() && a != Nil && b != Nil && c != Nil
    modifies e.contents
    ensures e.Valid()
    ensures e.contents.items == old(e.contents.items) + [a, b, c]
  {
    ghost var start := e.contents.items;
    AppendOne(e, a);
    AppendOne(e, b);
    AppendOne(e, c);
    assert start + [a] + [b] + [c] == start + [a, b, c];
  }

  /** `e << v` on a non-nil object appends exactly `v` and returns `e`. */
  method AppendOne(e: Element, v: Value)
    requires e.Valid() && v != Nil
    modifies e.contents
    ensures e.Valid()
    ensures e.contents.items == old(e.contents.items) + [v]
  {
    AddedSingle(v);
    var r := e.Add(Single(v));
    assert r == e;
  }

  /** `Element.new("el").add(:symbol)` holds the symbol and is written `<el>symbol</el>`,
      for any symbol whose name needs no escaping. */
  method AddSymbolExample(symbol: string) returns (items: seq<Value>, text: string)
    requires forall i :: 0 <= i < |symbol| ==> !IsSpecial(symbol[i])
    ensures items == [Sym(symbol)]
    ensures text == "<" + "el" + ">" + symbol + "</" + "el" + ">"
  {
    var e := new Element(StrKey("el"), []);
    AddedSingle(Sym(symbol));
    var _ := e.Add(Single(Sym(symbol)));
    items := e.contents.items;
    assert e.Snapshot() == Tree("el", [], [Sym(symbol)]);
    Scenarios.WriteSymbol("el", symbol);
    var out := new Buffer();
    var _ := e.WriteTo(out);
    text := out.text;
  }

  /** `add_attribute` with a string key, a symbol key and a nil value. */
  method AddAttributeExample() returns (entries: seq<(Key, Value)>)
    ensures entries == [(SymKey("key_str"), Str("value1")), (SymKey("key_sym"), Str("value2")), (SymKey("nil"), Nil)]
  {
    var e := new Element(StrKey("el"), []);
    e.AddAttribute(StrKey("key_str"), Str("value1"));
    e.AddAttribute(SymKey("key_sym"), Str("value2"));
    assert e.attributes.entries == [(SymKey("key_str"), Str("value1")), (SymKey("key_sym"), Str("value2"))];
    e.AddAttribute(SymKey("nil"), Nil);
    entries := e.attributes.entries;
  }

  /** `del_attribute("a1")` then `del_attribute(:a2)` empties the table. */
  method DelAttributeExample() returns (afterFirst: seq<(Key, Value)>, afterSecond: seq<(Key, Value)>)
    ensures afterFirst == [(SymKey("a2"), Str("v2"))]
    ensures afterSecond == []
  {
    var e := new Element(StrKey("el"), [(SymKey("a1"), Str("v1")), (SymKey("a2"), Str("v2"))]);
    assert NormalizeAttrs([(SymKey("a1"), Str("v1"))]) == [(SymKey("a1"), Str("v1"))];
    e.DelAttribute(StrKey("a1"));
    afterFirst := e.attributes.entries;
    e.DelAttribute(SymKey("a2"));
    afterSecond := e.attributes.entries;
  }

  /** `Element.new("el").add(Element.new("sub"))` returns the receiver. */
  method AddReturnsReceiverExample() returns (sameReceiver: bool, items: seq<Value>)
    ensures sameReceiver
    ensures items == [Node(Tree("sub", [], []))]
  {
    var e := new Element(StrKey("el"), []);
    var sub := new Element(StrKey("sub"), []);
    AddedSingle(Node(sub.Snapshot()));
    var r := e.Add(Single(Node(sub.Snapshot())));
    sameReceiver := r == e;
    items := e.contents.items;
  }

  /**
   * `e.add(Element.new("sub1"))` followed by `e.add([Element.new("sub2").add("text"), "string"])`:
   * the array's items follow the earlier child, in order.
   */
  method AddArrayExample() returns (items: seq<Value>)
    ensures items == [Node(Tree("sub1", [], [])), Node(Tree("sub2", [], [Str("text")])), Str("string")]
  {
    var e := new Element(StrKey("el"), []);
    var sub1 := new Element(StrKey("sub1"), []);
    var first := sub1.Snapshot();
    assert first == Tree("sub1", [], []);
    AppendOne(e, Node(first));
    var sub2 := new Element(StrKey("sub2"), []);
    AppendOne(sub2, Str("text"));
    var second := sub2.Snapshot();
    assert second == Tree("sub2", [], [Str("text")]);
    var vs := [Node(second), Str("string")];
    DropNilOfNilFree(vs);
    var _ := e.Add(List(vs));
    items := e.contents.items;
  }

  /** `add(nil)` leaves the contents empty. */
  method AddNilExample() returns (size: nat)
    ensures size == 0
  {
    var e := new Element(StrKey("el"), []);
    AddedSingle(Nil);
    var _ := e.Add(Single(Nil));
    size := |e.contents.items|;
  }

  /** `PCString.new("&amp;").write_to(s)` appends `&amp;amp;` to `s` and returns `s`. */
  method PCStringWriteToExample() returns (sameBuffer: bool, text: string)
    ensures sameBuffer
    ensures text == "&amp;amp;"
  {
    var s := new Buffer();
    var r := WritePCString(PCString(Str("&amp;"), false), s);
    sameBuffer := r == s;
    EncodeNotIdempotent();
    text := s.text;
  }

  /** `Comment.new("dummy").write_to(s)` returns `s`. */
  method CommentWriteToExample() returns (sameBuffer: bool, text: string)
    ensures sameBuffer
    ensures text == "<!-- dummy -->"
  {
    var s := new Buffer();
    assert forall i :: !DashDashAt("dummy", i);
    var c := NewComment("dummy");
    var r := WriteComment(c.value, s);
    sameBuffer := r == s;
    text := s.text;
  }

  /**
   * The element of the `dup` test: attribute `key`, the strings "String" and "Freeze" and a
   * child `sub` with attribute `subkey`. Its `dup` shares the attribute table and the
   * contents list, and writes the same markup.
   */
  method DupExample() returns (sharesAttributes: bool, sharesContents: bool, sameMarkup: bool)
    ensures sharesAttributes && sharesContents && sameMarkup
  {
    var e := new Element(StrKey("el"), []);
    e.StoreAttribute(StrKey("key"), Str("value"));
    AppendOne(e, Str("String"));
    AppendOne(e, Str("Freeze"));
    var s := new Element(StrKey("sub"), []);
    s.StoreAttribute(StrKey("subkey"), Str("subvalue"));
    AppendOne(e, Node(s.Snapshot()));
    var f := e.Dup();
    sharesAttributes := f.attributes == e.attributes;
    sharesContents := f.contents == e.contents;
    sameMarkup := SameMarkup(e, f);
  }

  /**
   * `Element.new(:tag, :attr=>"value")`, `Element.new("tag", :attr=>"value")` and
   * `Element.new(:tag, "attr"=>"value")` all write the same markup.
   */
  method SpellingExample() returns (sym: string, strName: string, strAttr: string)
    ensures strName == sym && strAttr == sym
  {
    var symbolic := [(SymKey("attr"), Str("value"))];
    var spelled := [(StrKey("attr"), Str("value"))];
    var a := new Element(SymKey("tag"), symbolic);
    var b := new Element(StrKey("tag"), symbolic);
    var c := new Element(SymKey("tag"), spelled);
    assert SymbolKeys(spelled) == symbolic;
    NormalizeAttrsIgnoresSpelling(spelled);
    assert b.Snapshot() == a.Snapshot() && c.Snapshot() == a.Snapshot();
    sym := Markup(a);
    strName := Markup(b);
    strAttr := Markup(c);
  }

  /** `e.write_to` with no destination: the markup in a new string. */
  method Markup(e: Element) returns (text: string)
    ensures text == Serialize(e.Snapshot())
  {
    var out := new Buffer();
    var _ := e.WriteTo(out);
    text := out.text;
  }

  /** Two elements with the same snapshot write the same markup. */
  method SameMarkup(e: Element, f: Element) returns (same: bool)
    requires f.Snapshot() == e.Snapshot()
    ensures same
  {
    var a := new Buffer();
    var _ := e.WriteTo(a);
    var b := new Buffer();
    var _ := f.WriteTo(b);
    same := a.text == b.text;
  }

  /** An attribute added through the copy is seen by the original. */
  method DupUpdateExample() returns (seenByOriginal: Value)
    ensures seenByOriginal == Str("v")
  {
    var e := new Element(StrKey("el"), []);
    var f := e.Dup();
    f.AddAttribute(SymKey("k"), Str("v"));
    seenByOriginal := e.GetAttribute(SymKey("k"));
  }
}

/**
 * The mutable side of EimXML: an `Element` object that owns an attribute
 * table and a contents list and changes them in place, and the `write_to`
 * methods that append markup to a caller's buffer and return that buffer.
 *
 * The attribute table and the contents list are objects of their own, so
 * that `dup`/`clone` can share them with the original as the library does.
 */
module Elements {
  import opened Escaping
  import opened AssocLists
  import opened Xml
  import Matching

  /** A Ruby String used as the destination of `write_to`. */
  class Buffer {
    var text: string

    constructor ()
      ensures text == ""
    {
      text := "";
    }

    /** `buffer << s`. */
    method Append(s: string)
      modifies this
      ensures text == old(text) + s
    {
      text := text + s;
    }
  }

  /** `PCString#write_to(out)`: appends the encoded string and returns `out`. */
  method WritePCString(p: PCString, out: Buffer) returns (r: Buffer)
    modifies out
    ensures r == out && out.text == old(out.text) + Encoded(p)
  {
    out.Append(Encoded(p));
    r := out;
  }

  /** `Comment#write_to(out)`: appends the comment markup and returns `out`. */
  method WriteComment(c: Comment, out: Buffer) returns (r: Buffer)
    modifies out
    ensures r == out && out.text == old(out.text) + CommentMarkup(c)
  {
    out.Append("<!-- ");
    out.Append(c.text);
    out.Append(" -->");
    r := out;
  }

  /** `Element#write_to(out)` on a snapshot: the start tag with its attributes,
      then either ` />` or the contents and the end tag. */
  method WriteTree(t: Tree, out: Buffer)
    modifies out
    ensures out.text == old(out.text) + Serialize(t)
    decreases t, 2
  {
    ghost var before := out.text;
    ghost var start := StartTag(t);
    out.Append("<" + t.name);
    WriteAttrs(t.attrs, out);
    assert out.text == before + start;
    if t.contents == [] {
      out.Append(" />");
    } else {
      ghost var body := ContentsText(t.contents);
      out.Append(">");
      WriteContents(t.contents, out);
      assert out.text == before + (start + ">" + body);
      out.Append(EndTag(t.name));
    }
  }

  /** The attributes of a start tag, in table order; nil and false values are skipped. */
  method WriteAttrs(es: seq<(Key, Value)>, out: Buffer)
    modifies out
    ensures out.text == old(out.text) + AttrsText(es)
  {
    var i := 0;
    while i < |es|
      invariant 0 <= i <= |es|
      invariant out.text == old(out.text) + AttrsText(es[..i])
    {
      assert es[..i + 1][..i] == es[..i];
      WriteAttr(es[i], out);
      i := i + 1;
    }
    assert es[..i] == es;
  }

  /** One attribute, skipped when its value is nil or false. */
  method WriteAttr(e: (Key, Value), out: Buffer)
    modifies out
    ensures out.text == old(out.text) + AttrText(e)
  {
    var (k, v) := e;
    if v != Nil && v != Bool(false) {
      out.Append(" " + KeyText(k) + "='" + CoercedText(v) + "'");
    }
  }

  /** The contents of an element, each item writing itself in turn. */
  method WriteContents(cs: seq<Value>, out: Buffer)
    modifies out
    ensures out.text == old(out.text) + ContentsText(cs)
    decreases cs, 1
  {
    var j := 0;
    while j < |cs|
      invariant 0 <= j <= |cs|
      invariant out.text == old(out.text) + ContentsText(cs[..j])
    {
      assert cs[..j + 1][..j] == cs[..j];
      WriteContent(cs[j], out);
      j := j + 1;
    }
    assert cs[..j] == cs;
  }

  /** One content item: elements, comments and PCStrings write themselves,
      any other object is written as its escaped text. */
  method WriteContent(v: Value, out: Buffer)
    modifies out
    ensures out.text == old(out.text) + ContentText(v)
    decreases v, 3
  {
    match v
    case Node(t) =>
      WriteTree(t, out);
    case PC(p) =>
      var _ := WritePCString(p, out);
    case Cmt(c) =>
      var _ := WriteComment(c, out);
    case _ =>
      out.Append(Encode(Text(v)));
  }

  /** `find` into a destination list: the element itself when it matches, then
      each content item, elements searched recursively. */
  method CollectTree(t: Tree, p: Matching.Pattern, dst: ContentList)
    modifies dst
    ensures dst.items == old(dst.items) + Matching.FindAll(t, p)
    decreases t, 1
  {
    if Matching.Matches(t, p) {
      dst.items := dst.items + [Node(t)];
    }
    ghost var base := dst.items;
    CollectContents(t.contents, p, dst);
    assert dst.items == base + Matching.FindIn(t.contents, p);
  }

  /** The matches among a list of contents and below them, in document order. */
  method CollectContents(cs: seq<Value>, p: Matching.Pattern, dst: ContentList)
    modifies dst
    ensures dst.items == old(dst.items) + Matching.FindIn(cs, p)
    decreases cs, 0
  {
    var i := 0;
    while i < |cs|
      invariant 0 <= i <= |cs|
      invariant dst.items == old(dst.items) + Matching.FindIn(cs[..i], p)
    {
      ghost var found := Matching.FindIn(cs[..i], p);
      assert cs[..i + 1] == cs[..i] + [cs[i]];
      Matching.FindInAppend(cs[..i], cs[i], p);
      CollectContent(cs[i], p, dst);
      assert dst.items == old(dst.items) + (found + Matching.ItemFind(cs[i], p));
      i := i + 1;
    }
    assert cs[..i] == cs;
  }

  method CollectContent(v: Value, p: Matching.Pattern, dst: ContentList)
    modifies dst
    ensures dst.items == old(dst.items) + Matching.ItemFind(v, p)
    decreases v, 2
  {
    if v.Node? {
      CollectTree(v.tree, p, dst);
    } else if Matching.ItemMatches(v, p) {
      dst.items := dst.items + [v];
    }
  }

  /** An element's attribute hash. */
  class AttributeTable {
    var entries: seq<(Key, Value)>

    constructor ()
      ensures entries == []
    {
      entries := [];
    }
  }

  /** An element's contents array. */
  class ContentList {
    var items: seq<Value>

    constructor ()
      ensures items == []
    {
      items := [];
    }
  }

  /** The argument of `add` / `<<`: one object, or an array of objects. */
  datatype Arg = Single(v: Value) | List(items: seq<Value>)

  /** The objects an argument stands for: the object itself, or the array flattened one level. */
  function Items(arg: Arg): seq<Value> {
    match arg
    case Single(v) => [v]
    case List(vs) => vs
  }

  /** The items of `vs` that are not nil, in their order. */
  function DropNil(vs: seq<Value>): (r: seq<Value>)
    ensures forall i :: 0 <= i < |r| ==> r[i] != Nil
    ensures forall x :: x in r <==> x in vs && x != Nil
    ensures |r| <= |vs|
  {
    if vs == [] then []
    else DropNil(vs[..|vs| - 1]) + (if vs[|vs| - 1] == Nil then [] else [vs[|vs| - 1]])
  }

  /** What `add(arg)` appends: nil is dropped, an array contributes its items in order. */
  function Added(arg: Arg): seq<Value> {
    DropNil(Items(arg))
  }

  /** `add(nil)` leaves the contents alone; `add(x)` for any other object appends just `x`. */
  lemma AddedSingle(v: Value)
    ensures Added(Single(v)) == if v == Nil then [] else [v]
  {
    assert [v][..0] == [];
  }

  /** Dropping nil distributes over concatenation. */
  lemma {:induction false} DropNilConcat(a: seq<Value>, b: seq<Value>)
    ensures DropNil(a + b) == DropNil(a) + DropNil(b)
    decreases |b|
  {
    if b == [] {
      assert a + b == a;
    } else {
      var b', last := b[..|b| - 1], b[|b| - 1];
      var tail := if last == Nil then [] else [last];
      assert (a + b)[..|a + b| - 1] == a + b';
      assert (a + b)[|a + b| - 1] == last;
      assert DropNil(a + b) == DropNil(a + b') + tail;
      DropNilConcat(a, b');
      assert DropNil(b) == DropNil(b') + tail;
    }
  }

  /** Adding an array is adding its items one after the other. */
  lemma AddedConcat(a: seq<Value>, b: seq<Value>)
    ensures Added(List(a + b)) == Added(List(a)) + Added(List(b))
  {
    DropNilConcat(a, b);
  }

  /** An array without nil is appended as it is. */
  lemma {:induction false} DropNilOfNilFree(vs: seq<Value>)
    requires forall i :: 0 <= i < |vs| ==> vs[i] != Nil
    ensures DropNil(vs) == vs
    decreases |vs|
  {
    if vs != [] {
      DropNilOfNilFree(vs[..|vs| - 1]);
      assert vs[..|vs| - 1] + [vs[|vs| - 1]] == vs;
    }
  }

  /** `EimXML::Element`. */
  class Element {
    const name: string
    const attributes: AttributeTable
    const contents: ContentList

    /** The attribute table is a hash and the contents hold no nil. */
    ghost predicate Valid()
      reads this, attributes, contents
    {
      DistinctKeys(attributes.entries) &&
      forall i :: 0 <= i < |contents.items| ==> contents.items[i] != Nil
    }

    /** The element as a value, for serialisation, equality and matching. */
    function Snapshot(): Tree
      reads this, attributes, contents
    {
      Tree(name, attributes.entries, contents.items)
    }

    /** `Element.new(name, attrs)`: the name and the keys become symbols. */
    constructor (name: Key, attrs: seq<(Key, Value)>)
      ensures Valid() && fresh(attributes) && fresh(contents)
      ensures this.name == KeyText(name)
      ensures attributes.entries == NormalizeAttrs(attrs) && contents.items == []
    {
      var table := new AttributeTable();
      var i := 0;
      while i < |attrs|
        invariant 0 <= i <= |attrs|
        invariant table.entries == NormalizeAttrs(attrs[..i])
      {
        assert attrs[..i + 1][..i] == attrs[..i];
        table.entries := Put(table.entries, ToSym(attrs[i].0), attrs[i].1);
        i := i + 1;
      }
      assert attrs[..i] == attrs;
      this.name := KeyText(name);
      this.attributes := table;
      this.contents := new ContentList();
    }

    /** The new handle of `dup` / `clone`: same name, the very same table and list. */
    constructor Copy(original: Element)
      ensures name == original.name
      ensures attributes == original.attributes && contents == original.contents
    {
      name := original.name;
      attributes := original.attributes;
      contents := original.contents;
    }

    /** `e[key]` with a key. */
    method GetAttribute(key: Key) returns (v: Value)
      ensures ToSym(key) in Keys(attributes.entries) ==> Get(attributes.entries, ToSym(key)) == Some(v)
      ensures ToSym(key) !in Keys(attributes.entries) ==> v == Nil
    {
      v := Lookup(attributes.entries, ToSym(key));
    }

    /** `e[i]` with an index: Ruby array indexing, negative indices from the end, nil outside. */
    method GetContent(i: int) returns (v: Value)
      ensures 0 <= i < |contents.items| ==> v == contents.items[i]
      ensures -|contents.items| <= i < 0 ==> v == contents.items[|contents.items| + i]
      ensures !(-|contents.items| <= i < |contents.items|) ==> v == Nil
    {
      var n := |contents.items|;
      if 0 <= i < n {
        v := contents.items[i];
      } else if -n <= i < 0 {
        v := contents.items[n + i];
      } else {
        v := Nil;
      }
    }

    /** `add_attribute(key, value)`: stores under the symbol of `key`. */
    method AddAttribute(key: Key, v: Value)
      requires Valid()
      modifies attributes
      ensures Valid()
      ensures attributes.entries == Put(old(attributes.entries), ToSym(key), v)
      ensures Lookup(attributes.entries, ToSym(key)) == v
    {
      attributes.entries := Put(attributes.entries, ToSym(key), v);
    }

    /** `attributes[key] = value`: the hash's own store, which keeps the key as given. */
    method StoreAttribute(key: Key, v: Value)
      requires Valid()
      modifies attributes
      ensures Valid()
      ensures attributes.entries == Put(old(attributes.entries), key, v)
    {
      attributes.entries := Put(attributes.entries, key, v);
    }

    /** `del_attribute(key)`: removes the symbol of `key` and nothing else. */
    method DelAttribute(key: Key)
      requires Valid()
      modifies attributes
      ensures Valid()
      ensures attributes.entries == Remove(old(attributes.entries), ToSym(key))
      ensures ToSym(key) !in Keys(attributes.entries)
      ensures forall k :: k != ToSym(key) ==> Get(attributes.entries, k) == Get(old(attributes.entries), k)
    {
      attributes.entries := Remove(attributes.entries, ToSym(key));
    }

    /** `add(arg)` and `<<`: appends in place and returns the receiver. */
    method Add(arg: Arg) returns (self: Element)
      requires Valid()
      modifies contents
      ensures Valid() && self == this
      ensures contents.items == old(contents.items) + Added(arg)
    {
      self := this;
      match arg
      case Single(v) =>
        if v != Nil {
          contents.items := contents.items + [v];
        }
      case List(vs) =>
        var i := 0;
        while i < |vs|
          invariant 0 <= i <= |vs|
          invariant Valid()
          invariant contents.items == old(contents.items) + DropNil(vs[..i])
        {
          assert vs[..i + 1][..i] == vs[..i];
          if vs[i] != Nil {
            contents.items := contents.items + [vs[i]];
          }
          i := i + 1;
        }
        assert vs[..i] == vs;
    }

    /** `dup` / `clone`: a new element object over the same table and list. */
    method Dup() returns (f: Element)
      ensures fresh(f)
      ensures f.name == name && f.attributes == attributes && f.contents == contents
      ensures f.Snapshot() == Snapshot()
    {
      f := new Element.Copy(this);
    }

    /** `write_to(out)`: appends the element's markup and returns `out`. */
    method WriteTo(out: Buffer) returns (r: Buffer)
      modifies out
      ensures r == out && out.text == old(out.text) + Serialize(Snapshot())
    {
      WriteTree(Snapshot(), out);
      r := out;
    }

    /** `find(pattern)`: a fresh element named `found` holding the matches in pre-order. */
    method Find(p: Matching.Pattern) returns (f: Element)
      ensures fresh(f) && fresh(f.attributes) && fresh(f.contents) && f.Valid()
      ensures f.Snapshot() == Matching.Find(Snapshot(), p)
    {
      f := new Element(SymKey("found"), []);
      CollectTree(Snapshot(), p, f.contents);
      Matching.FoundItemsMatch(Snapshot(), p);
    }
  }

  /** Mutating a copy's attributes is visible through the original. */
  method DupSharesAttributes(e: Element, key: Key, v: Value)
    requires e.Valid()
    modifies e.attributes
    ensures e.attributes.entries == Put(old(e.attributes.entries), ToSym(key), v)
  {
    var f := e.Dup();
    f.AddAttribute(key, v);
  }
}

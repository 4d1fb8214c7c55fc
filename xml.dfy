/**
 * The value model of EimXML: escaped strings (`PCString`), comments, and
 * element trees, with their serialisation (`to_s` / `write_to`) and the
 * library's equality (`==`).
 *
 * Element trees here are immutable snapshots; the mutable `Element` object
 * that owns an attribute table and a contents list is in module Elements.
 */
module Xml {
  import opened Escaping
  import opened Regexes
  import opened AssocLists

  /** An attribute key or a name as the caller writes it: a Ruby String or Symbol. */
  datatype Key = StrKey(s: string) | SymKey(s: string)

  /** The Ruby objects that appear as attribute values and as contents. */
  datatype Value =
    | Nil
    | Bool(b: bool)
    | Str(s: string)
    | Sym(name: string)
    | PC(pc: PCString)
    | Cmt(comment: Comment)
    | Node(tree: Tree)
    | Re(regex: Regex)

  /** `PCString.new(src, pre_escaped)`: a source value and whether its text is already escaped. */
  datatype PCString = PCString(src: Value, preEscaped: bool)

  /** The text of a comment, before its validity is known. */
  datatype CommentNode = CommentNode(text: string)

  /** A comment whose text does not contain `--` (section 2.5 of XML 1.0). */
  type Comment = c: CommentNode | !HasDashDash(c.text) witness CommentNode("")

  /** A snapshot of an `Element`: its name (a symbol), attribute table and contents. */
  datatype Tree = Tree(name: string, attrs: seq<(Key, Value)>, contents: seq<Value>)

  datatype Error = InvalidArgument

  datatype Result<+T> = Ok(value: T) | Err(error: Error)

  // ---------------------------------------------------------------- keys

  /** `key.to_s`. */
  function KeyText(k: Key): string {
    k.s
  }

  /** `key.to_sym`: the normal form of a key or name. */
  function ToSym(k: Key): (r: Key)
    ensures r.SymKey? && KeyText(r) == KeyText(k)
  {
    SymKey(k.s)
  }

  /** `Element.new(name, attrs)`: keys normalised to symbols, a later entry
      for the same key replacing an earlier one. */
  function NormalizeAttrs(attrs: seq<(Key, Value)>): (r: seq<(Key, Value)>)
    ensures DistinctKeys(r)
    ensures forall k :: k in Keys(r) ==> k.SymKey?
    ensures forall i :: 0 <= i < |attrs| ==> ToSym(attrs[i].0) in Keys(r)
    decreases |attrs|
  {
    if attrs == [] then []
    else
      var last := attrs[|attrs| - 1];
      var r := Put(NormalizeAttrs(attrs[..|attrs| - 1]), ToSym(last.0), last.1);
      assert forall i :: 0 <= i < |attrs| - 1 ==> attrs[i] == attrs[..|attrs| - 1][i];
      AllKeysAt(r);
      r
  }

  /** The keys of the table are exactly the symbols of the given keys: nothing else is stored. */
  lemma {:induction false} NormalizeAttrsKeys(attrs: seq<(Key, Value)>)
    ensures Keys(NormalizeAttrs(attrs)) == set i | 0 <= i < |attrs| :: ToSym(attrs[i].0)
    decreases |attrs|
  {
    if attrs != [] {
      var init := attrs[..|attrs| - 1];
      NormalizeAttrsKeys(init);
      assert forall i :: 0 <= i < |init| ==> attrs[i] == init[i];
      assert (set i | 0 <= i < |attrs| :: ToSym(attrs[i].0))
          == (set i | 0 <= i < |init| :: ToSym(init[i].0)) + {ToSym(attrs[|attrs| - 1].0)};
    }
  }

  /** `attrs[i]` is the last entry whose key normalises like its own. */
  predicate LastForKey(attrs: seq<(Key, Value)>, i: int) {
    0 <= i < |attrs| && forall j :: i < j < |attrs| ==> ToSym(attrs[j].0) != ToSym(attrs[i].0)
  }

  /** Of several entries for one key, whatever its spelling, the last one wins. */
  lemma {:induction false} NormalizeAttrsLastWins(attrs: seq<(Key, Value)>, i: int)
    requires LastForKey(attrs, i)
    ensures Get(NormalizeAttrs(attrs), ToSym(attrs[i].0)) == Some(attrs[i].1)
    decreases |attrs|
  {
    var n := |attrs| - 1;
    if i < n {
      var prefix := attrs[..n];
      assert prefix[i] == attrs[i];
      assert LastForKey(prefix, i) by {
        forall j | i < j < |prefix|
          ensures ToSym(prefix[j].0) != ToSym(prefix[i].0)
        {
          assert prefix[j] == attrs[j];
        }
      }
      NormalizeAttrsLastWins(prefix, i);
    }
  }

  /** `attrs[k]`, which is nil for an absent key. */
  function Lookup(attrs: seq<(Key, Value)>, k: Key): (r: Value)
    ensures k !in Keys(attrs) ==> r == Nil
    ensures k in Keys(attrs) ==> Get(attrs, k) == Some(r)
  {
    match Get(attrs, k)
    case None => Nil
    case Some(v) => v
  }

  // ------------------------------------------------------------ comments

  /** `text` contains two consecutive hyphens. */
  predicate HasDashDash(s: string) {
    |s| >= 2 && ((s[0] == '-' && s[1] == '-') || HasDashDash(s[1..]))
  }

  /** `s` has a hyphen at positions `i` and `i + 1`. */
  predicate DashDashAt(s: string, i: int) {
    0 <= i < |s| - 1 && s[i] == '-' && s[i + 1] == '-'
  }

  lemma {:induction false} HasDashDashAt(s: string)
    ensures HasDashDash(s) <==> exists i :: DashDashAt(s, i)
  {
    if |s| >= 2 {
      HasDashDashAt(s[1..]);
      if exists i :: DashDashAt(s, i) {
        var i :| DashDashAt(s, i);
        if i > 0 {
          assert DashDashAt(s[1..], i - 1);
        }
      }
      if s[0] == '-' && s[1] == '-' {
        assert DashDashAt(s, 0);
      } else if HasDashDash(s[1..]) {
        var i :| DashDashAt(s[1..], i);
        assert DashDashAt(s, i + 1);
      }
    } else {
      assert forall i :: !DashDashAt(s, i);
    }
  }

  /** `Comment.new(text)`: fails with ArgumentError when the text contains `--`. */
  function NewComment(text: string): (r: Result<Comment>)
    ensures r.Ok? <==> forall i :: !DashDashAt(text, i)
    ensures r.Ok? ==> r.value.text == text
    ensures r.Err? ==> r.error == InvalidArgument
  {
    HasDashDashAt(text);
    if HasDashDash(text) then Err(InvalidArgument) else Ok(CommentNode(text))
  }

  /** `Comment#write_to`: the text verbatim between `<!-- ` and ` -->`. */
  function CommentMarkup(c: Comment): string {
    "<!-- " + c.text + " -->"
  }

  /** The comment closing delimiter `-->` stands in `m` at position `i`. */
  predicate ClosesAt(m: string, i: int) {
    0 <= i <= |m| - 3 && m[i] == '-' && m[i + 1] == '-' && m[i + 2] == '>'
  }

  /** The comment's markup holds the closing delimiter `-->` only at its end,
      so a reader recovers exactly the comment's text. */
  lemma CommentClosesOnlyAtEnd(c: Comment)
    ensures var m := CommentMarkup(c);
      ClosesAt(m, |m| - 3) && m[5..|m| - 4] == c.text &&
      forall i :: ClosesAt(m, i) ==> i == |m| - 3
  {
    var m, t := CommentMarkup(c), c.text;
    HasDashDashAt(t);
    assert m[5..|m| - 4] == t;
    forall i | ClosesAt(m, i)
      ensures i == |m| - 3
    {
      if 5 <= i && i + 1 < 5 + |t| {
        assert t[i - 5] == m[i] && t[i - 4] == m[i + 1];
        assert DashDashAt(t, i - 5);
      }
    }
  }

  // ----------------------------------------------------- text conversion

  /** `obj.to_s` for every value the model knows. */
  function Text(v: Value): string
    decreases v, 1
  {
    match v
    case Nil => ""
    case Bool(b) => if b then "true" else "false"
    case Str(s) => s
    case Sym(n) => n
    case PC(p) => Encoded(p)
    case Cmt(c) => CommentMarkup(c)
    case Node(t) => Serialize(t)
    case Re(r) => RegexText(r)
  }

  /** `PCString#encoded_string` (also its `to_s`). */
  function Encoded(p: PCString): string
    decreases p, 2
  {
    if p.preEscaped then Text(p.src) else Encode(Text(p.src))
  }

  /** `PCString[obj]`: a PCString stays itself, anything else is wrapped unescaped. */
  function Coerce(v: Value): (r: PCString)
    ensures v.PC? ==> r == v.pc
    ensures !v.PC? ==> r.src == v && !r.preEscaped
  {
    if v.PC? then v.pc else PCString(v, false)
  }

  /** The encoded string of `PCString[v]`, computed without building the wrapper. */
  function CoercedText(v: Value): string
    decreases v, 3
  {
    if v.PC? then Encoded(v.pc) else Encode(Text(v))
  }

  lemma CoercedTextIsEncodedCoercion(v: Value)
    ensures CoercedText(v) == Encoded(Coerce(v))
  {
  }

  // -------------------------------------------------------- serialisation

  /** `Element#write_to` into an empty buffer (also `to_s`). */
  function Serialize(t: Tree): string
    decreases t, 1
  {
    if t.contents == [] then StartTag(t) + " />"
    else StartTag(t) + ">" + ContentsText(t.contents) + EndTag(t.name)
  }

  /** The start tag up to, but not including, its closing `>` or ` />`. */
  function StartTag(t: Tree): string
    decreases t, 0
  {
    "<" + t.name + AttrsText(t.attrs)
  }

  function EndTag(name: string): string {
    "</" + name + ">"
  }

  /** The attribute list of a start tag, in table order. */
  function AttrsText(es: seq<(Key, Value)>): string
    decreases es, 0
  {
    if es == [] then "" else AttrsText(es[..|es| - 1]) + AttrText(es[|es| - 1])
  }

  /** One attribute: nothing when the value is nil or false, else ` key='escaped value'`. */
  function AttrText(e: (Key, Value)): string
    decreases e, 0
  {
    if e.1 == Nil || e.1 == Bool(false) then ""
    else " " + KeyText(e.0) + "='" + CoercedText(e.1) + "'"
  }

  /** The contents of an element, in order. */
  function ContentsText(cs: seq<Value>): string
    decreases cs, 0
  {
    if cs == [] then "" else ContentsText(cs[..|cs| - 1]) + ContentText(cs[|cs| - 1])
  }

  /** One content item: nodes and PCStrings write themselves, anything else is escaped text. */
  function ContentText(v: Value): string
    decreases v, 4
  {
    match v
    case PC(p) => Encoded(p)
    case Cmt(c) => CommentMarkup(c)
    case Node(t) => Serialize(t)
    case _ => Encode(Text(v))
  }

  /** Taking the last item off `a + b`, for a non-empty `b`. */
  lemma DropLastOfAppend<T>(a: seq<T>, b: seq<T>)
    requires b != []
    ensures (a + b)[..|a + b| - 1] == a + b[..|b| - 1]
    ensures (a + b)[|a + b| - 1] == b[|b| - 1]
  {
  }

  lemma {:induction false} ContentsTextAppend(a: seq<Value>, b: seq<Value>)
    ensures ContentsText(a + b) == ContentsText(a) + ContentsText(b)
    decreases |b|
  {
    if b == [] {
      assert a + b == a;
    } else {
      var b', last := b[..|b| - 1], b[|b| - 1];
      DropLastOfAppend(a, b);
      ContentsTextAppend(a, b');
      calc {
        ContentsText(a + b);
        ContentsText(a + b') + ContentText(last);
        (ContentsText(a) + ContentsText(b')) + ContentText(last);
        ContentsText(a) + (ContentsText(b') + ContentText(last));
        ContentsText(a) + ContentsText(b);
      }
    }
  }

  lemma {:induction false} AttrsTextAppend(a: seq<(Key, Value)>, b: seq<(Key, Value)>)
    ensures AttrsText(a + b) == AttrsText(a) + AttrsText(b)
    decreases |b|
  {
    if b == [] {
      assert a + b == a;
    } else {
      var b', last := b[..|b| - 1], b[|b| - 1];
      DropLastOfAppend(a, b);
      AttrsTextAppend(a, b');
      calc {
        AttrsText(a + b);
        AttrsText(a + b') + AttrText(last);
        (AttrsText(a) + AttrsText(b')) + AttrText(last);
        AttrsText(a) + (AttrsText(b') + AttrText(last));
        AttrsText(a) + AttrsText(b);
      }
    }
  }

  /** Appending a child to an element that already has contents inserts the
      child's markup just before the end tag; appending to an empty element
      turns `<name />` into `<name>child</name>`. */
  lemma AppendChildMarkup(t: Tree, v: Value)
    ensures Serialize(t.(contents := t.contents + [v])) ==
            StartTag(t) + ">" + ContentsText(t.contents) + ContentText(v) + EndTag(t.name)
  {
    var cs := t.contents + [v];
    assert cs[..|cs| - 1] == t.contents;
  }

  /** Spelling keys as strings or as symbols changes nothing in the output. */
  function SymbolKeys(es: seq<(Key, Value)>): (r: seq<(Key, Value)>)
    ensures |r| == |es|
    ensures forall i :: 0 <= i < |es| ==> r[i] == (ToSym(es[i].0), es[i].1)
  {
    if es == [] then [] else SymbolKeys(es[..|es| - 1]) + [(ToSym(es[|es| - 1].0), es[|es| - 1].1)]
  }

  lemma {:induction false} KeySpellingIrrelevant(es: seq<(Key, Value)>)
    ensures AttrsText(SymbolKeys(es)) == AttrsText(es)
    decreases |es|
  {
    if es != [] {
      var r := SymbolKeys(es);
      assert r[..|r| - 1] == SymbolKeys(es[..|es| - 1]);
      KeySpellingIrrelevant(es[..|es| - 1]);
    }
  }

  /** `Element.new` builds the same table whether the keys are given as strings or as symbols. */
  lemma {:induction false} NormalizeAttrsIgnoresSpelling(es: seq<(Key, Value)>)
    ensures NormalizeAttrs(SymbolKeys(es)) == NormalizeAttrs(es)
    decreases |es|
  {
    if es != [] {
      var r := SymbolKeys(es);
      assert r[..|r| - 1] == SymbolKeys(es[..|es| - 1]);
      NormalizeAttrsIgnoresSpelling(es[..|es| - 1]);
    }
  }

  /** An attribute value that is not a pre-escaped PCString is written without
      any `'`, `"`, `<` or `>`, so it cannot close the single-quoted value. */
  lemma AttrValueIsQuoteSafe(v: Value)
    requires !(v.PC? && v.pc.preEscaped)
    ensures NoMarkupChars(CoercedText(v))
  {
    if v.PC? {
      EncodeHasNoMarkupChars(Text(v.pc.src));
    } else {
      EncodeHasNoMarkupChars(Text(v));
    }
  }

  /** nil and false attributes leave no trace in the start tag; true is written as `true`. */
  lemma AttributeOmission(es: seq<(Key, Value)>, k: Key, v: Value)
    ensures v == Nil || v == Bool(false) ==> AttrsText(es + [(k, v)]) == AttrsText(es)
    ensures v == Bool(true) ==> AttrsText(es + [(k, v)]) == AttrsText(es) + " " + KeyText(k) + "='true'"
  {
    assert (es + [(k, v)])[..|es|] == es;
    if v == Bool(true) {
      EncodePlainText("true");
      assert CoercedText(v) == "true";
    }
  }

  // ---------------------------------------------------------- PCStrings

  /** `PCString#==`: against a PCString, the encoded forms are compared;
      against any other object, that object is wrapped as an unescaped
      PCString first. */
  predicate PCEquals(p: PCString, other: Value) {
    Encoded(p) == CoercedText(other)
  }

  /** Two unescaped PCStrings are equal exactly when their sources have the same text. */
  lemma PlainPCStringsEqual(a: Value, b: Value)
    ensures PCEquals(PCString(a, false), PC(PCString(b, false))) <==> Text(a) == Text(b)
  {
    assert Encoded(PCString(a, false)) == Encode(Text(a));
    assert CoercedText(PC(PCString(b, false))) == Encode(Text(b));
    EncodeInjective(Text(a), Text(b));
  }

  /** An unescaped PCString equals the pre-escaped PCString of its encoding. */
  lemma PlainEqualsPreEscapedEncoding(s: string)
    ensures PCEquals(PCString(Str(s), false), PC(PCString(Str(Encode(s)), true)))
  {
    assert Encoded(PCString(Str(s), false)) == Encode(s);
    assert Encoded(PCString(Str(Encode(s)), true)) == Encode(s);
  }

  /** Against a raw string: an unescaped PCString compares its source text with
      the string, a pre-escaped one compares its text with the string's encoding. */
  lemma PCStringAgainstRawString(p: PCString, s: string)
    ensures !p.preEscaped ==> (PCEquals(p, Str(s)) <==> Text(p.src) == s)
    ensures p.preEscaped ==> (PCEquals(p, Str(s)) <==> Text(p.src) == Encode(s))
  {
    assert CoercedText(Str(s)) == Encode(s);
    EncodeInjective(Text(p.src), s);
  }

  /** PCString equality is an equivalence on PCStrings. */
  lemma PCEqualsEquivalence(p: PCString, q: PCString, r: PCString)
    ensures PCEquals(p, PC(p))
    ensures PCEquals(p, PC(q)) ==> PCEquals(q, PC(p))
    ensures PCEquals(p, PC(q)) && PCEquals(q, PC(r)) ==> PCEquals(p, PC(r))
  {
  }

  // ---------------------------------------------------------- equality

  /** Ruby's `a == b` on the values of the model; the receiver is `a`. */
  predicate ValueEq(a: Value, b: Value)
    decreases a
  {
    match a
    case PC(p) => PCEquals(p, b)
    case Node(t) => b.Node? && TreeEq(t, b.tree)
    case _ => a == b
  }

  /** `Element#==`: same name, equal attribute tables, equal contents. */
  predicate TreeEq(t: Tree, u: Tree)
    decreases t
  {
    t.name == u.name && AttrsEq(t.attrs, u.attrs) && ContentsEq(t.contents, u.contents)
  }

  /** `Hash#==`: same size, and each key of the receiver maps to an equal value in the other. */
  predicate AttrsEq(a: seq<(Key, Value)>, b: seq<(Key, Value)>)
    decreases a
  {
    |a| == |b| && forall i :: 0 <= i < |a| ==> EntryEq(a[i], b)
  }

  /** The receiver's entry `e` is matched by an equal value under the same key in `b`. */
  predicate EntryEq(e: (Key, Value), b: seq<(Key, Value)>)
    decreases e
  {
    Get(b, e.0).Some? && ValueEq(e.1, Get(b, e.0).value)
  }

  /** `Array#==`: same length, equal items position by position. */
  predicate ContentsEq(a: seq<Value>, b: seq<Value>)
    decreases a
  {
    |a| == |b| && forall i :: 0 <= i < |a| ==> ValueEq(a[i], b[i])
  }

  /** Every attribute table in the tree has distinct keys (it is a hash). */
  predicate WellFormed(t: Tree)
    decreases t, 1
  {
    DistinctKeys(t.attrs) &&
    (forall i :: 0 <= i < |t.attrs| ==> WellFormedValue(t.attrs[i].1)) &&
    (forall i :: 0 <= i < |t.contents| ==> t.contents[i] != Nil && WellFormedValue(t.contents[i]))
  }

  predicate WellFormedValue(v: Value)
    decreases v, 0
  {
    match v
    case Node(t) => WellFormed(t)
    case PC(p) => WellFormedValue(p.src)
    case _ => true
  }

  /** Every value equals itself. */
  lemma {:induction false} ValueEqReflexive(v: Value)
    requires WellFormedValue(v)
    ensures ValueEq(v, v)
    decreases v, 0
  {
    if v.Node? {
      TreeEqReflexive(v.tree);
    }
  }

  /** Every well-formed tree equals itself. */
  lemma {:induction false} TreeEqReflexive(t: Tree)
    requires WellFormed(t)
    ensures TreeEq(t, t)
    decreases t, 1
  {
    forall i | 0 <= i < |t.attrs|
      ensures EntryEq(t.attrs[i], t.attrs)
    {
      GetEntry(t.attrs, i);
      ValueEqReflexive(t.attrs[i].1);
    }
    forall i | 0 <= i < |t.contents|
      ensures ValueEq(t.contents[i], t.contents[i])
    {
      ValueEqReflexive(t.contents[i]);
    }
  }

  /** A tree differs from any tree with another name, and never equals a string. */
  lemma TreeEqNeedsSameName(t: Tree, u: Tree, s: string)
    ensures t.name != u.name ==> !TreeEq(t, u)
    ensures !ValueEq(Node(t), Str(s)) && !ValueEq(Str(s), Node(t))
  {
  }

  /** Equality is not symmetric once raw strings meet PCStrings: a PCString
      equals the raw string it wraps, but the raw string does not equal it. */
  lemma EqualityIsReceiverFirst()
    ensures ValueEq(PC(PCString(Str("&"), false)), Str("&"))
    ensures !ValueEq(Str("&"), PC(PCString(Str("&"), false)))
  {
    assert Encode("&") == "&amp;";
  }
}

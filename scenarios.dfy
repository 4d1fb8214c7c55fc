/**
 * The concrete behaviour the library's specification file pins down,
 * stated about the model: the example elements of `#match`, `=~`, `has?`,
 * `#find`, `#write_to` and `#==`.
 */
module Scenarios {
  import opened Escaping
  import opened Regexes
  import opened AssocLists
  import opened Xml
  import opened Matching

  // ------------------------------------------------- PCString and Comment

  /** `encode(:'sym&')`: a symbol is encoded through its name. */
  lemma EncodeSymbol()
    ensures Encode(Text(Sym("sym&"))) == "sym&amp;"
  {
    EncodePlainText("sym");
    EncodeAppend("sym", "&");
    assert "sym" + "&" == "sym&";
    assert Encode("&") == "&amp;";
  }

  /** `PCString.new("&")` is escaped, `PCString.new("&", true)` is not. */
  lemma NewPCStrings()
    ensures Encoded(PCString(Str("&"), false)) == "&amp;"
    ensures Encoded(PCString(Str("&"), true)) == "&"
  {
    assert Encode("&") == "&amp;";
  }

  /** `PCString.new(:'sym&')` keeps the symbol as its source and encodes its name. */
  lemma NewSymbolPCString()
    ensures Encoded(PCString(Sym("sym&"), false)) == "sym&amp;"
    ensures Coerce(PC(PCString(Sym("sym&"), false))).src == Sym("sym&")
  {
    EncodeSymbol();
  }

  /** `PCString.new("str") == PCString.new("str")`. */
  lemma EqualPlainPCStrings()
    ensures ValueEq(PC(PCString(Str("str"), false)), PC(PCString(Str("str"), false)))
  {
    PlainPCStringsEqual(Str("str"), Str("str"));
  }

  /** `PCString.new("&") == "&"`, but `PCString.new("&", true) != "&"`. */
  lemma PCStringsAgainstAmpersand()
    ensures ValueEq(PC(PCString(Str("&"), false)), Str("&"))
    ensures !ValueEq(PC(PCString(Str("&"), true)), Str("&"))
  {
    PCStringAgainstRawString(PCString(Str("&"), false), "&");
    PCStringAgainstRawString(PCString(Str("&"), true), "&");
    assert Encode("&") == "&amp;";
  }

  /** `PCString.new("&", true) == PCString.new("&", true)` and
      `PCString.new("&") == PCString.new("&amp;", true)`. */
  lemma EqualAcrossEscaping()
    ensures ValueEq(PC(PCString(Str("&"), true)), PC(PCString(Str("&"), true)))
    ensures ValueEq(PC(PCString(Str("&"), false)), PC(PCString(Str("&amp;"), true)))
  {
    PCEqualsEquivalence(PCString(Str("&"), true), PCString(Str("&"), true), PCString(Str("&"), true));
    PlainEqualsPreEscapedEncoding("&");
    assert Encode("&") == "&amp;";
  }

  /** `Comment.new("--")` raises ArgumentError. */
  lemma DashDashCommentRejected()
    ensures NewComment("--") == Err(InvalidArgument)
  {
    assert DashDashAt("--", 0);
  }

  /** `Comment.new("&").write_to`: no escaping inside a comment. */
  lemma CommentNotEscaped()
    ensures NewComment("&").Ok? && CommentMarkup(NewComment("&").value) == "<!-- & -->"
  {
    assert forall i :: !DashDashAt("&", i);
  }

  /** `Comment.new("multi-line\ncomment")`: a text whose only hyphen stands between
      two hyphen-free parts is a valid comment, written verbatim, line breaks and all. */
  lemma OneHyphenComment(a: string, b: string)
    requires '-' !in a && '-' !in b
    ensures NewComment(a + "-" + b).Ok?
    ensures CommentMarkup(NewComment(a + "-" + b).value) == "<!-- " + a + "-" + b + " -->"
  {
    var t := a + "-" + b;
    forall i | 0 <= i < |t| - 1
      ensures !DashDashAt(t, i)
    {
      if i < |a| {
        assert t[i] == a[i];
      } else if i == |a| {
        assert t[i + 1] == b[0];
      } else {
        assert t[i] == b[i - |a| - 1];
      }
    }
  }

  // ------------------------------------------------------------- match

  /** `Element.new(:tag, :attr=>"value")`. */
  function TagElement(): Tree {
    Tree("tag", [(SymKey("attr"), Str("value"))], [])
  }

  /** `match(:tag)` and `match(:t)`. */
  lemma MatchByName()
    ensures Matches(TagElement(), NameP("tag"))
    ensures !Matches(TagElement(), NameP("t"))
  {
  }

  /** `match(:tag, :attr=>"value")` holds. */
  lemma MatchByNameAndAttributes()
    ensures Matches(TagElement(), NameAttrsP("tag", [(SymKey("attr"), Str("value"))]))
  {
    assert Lookup(TagElement().attrs, SymKey("attr")) == Str("value");
  }

  /** `match(:tag, :attr2=>"value")` fails: the element has no `attr2`. */
  lemma MatchMissingAttribute()
    ensures !Matches(TagElement(), NameAttrsP("tag", [(SymKey("attr2"), Str("value"))]))
  {
    assert Lookup(TagElement().attrs, SymKey("attr2")) == Nil;
  }

  /** `match(:tag, :attr=>"value2")` fails: the value differs. */
  lemma MatchOtherValue()
    ensures !Matches(TagElement(), NameAttrsP("tag", [(SymKey("attr"), Str("value2"))]))
  {
    var pt := PatternTree("tag", [(SymKey("attr"), Str("value2"))]);
    assert pt.attrs == [(SymKey("attr"), Str("value2"))];
    assert Lookup(TagElement().attrs, SymKey("attr")) == Str("value");
    assert "value2" != "value";
    EncodeInjective("value2", "value");
    assert !AttrMet(TagElement().attrs, pt.attrs[0]);
    AttrNotMet(TagElement(), pt, 0);
  }

  /** `match(:tag, :attr=>/val/)`: a regex attribute is tried on the value's text. */
  lemma MatchAttributeByRegex()
    ensures Matches(TagElement(), NameAttrsP("tag", [(SymKey("attr"), Re(Regex("val")))]))
  {
  }

  /** A one-attribute template with no contents matches when the names agree and the attribute is met. */
  lemma OneAttrTemplate(t: Tree, e: (Key, Value))
    requires AttrMet(t.attrs, e)
    ensures TemplateMatch(t, Tree(t.name, [e], []))
  {
    assert Tree(t.name, [e], []).attrs[0] == e;
  }

  /** An attribute value compared as PCStrings: a plain PCString of `s` against the string `s`, either way round. */
  lemma PlainPCStringValueMet(attrs: seq<(Key, Value)>, k: Key, s: string)
    ensures Lookup(attrs, k) == Str(s) ==> AttrMet(attrs, (k, PC(PCString(Str(s), false))))
    ensures Lookup(attrs, k) == PC(PCString(Str(s), false)) ==> AttrMet(attrs, (k, Str(s)))
  {
    assert Encoded(PCString(Str(s), false)) == Encode(s);
    assert CoercedText(PC(PCString(Str(s), false))) == Encode(s);
    assert CoercedText(Str(s)) == Encode(s);
  }

  /** A template fails as soon as one of its attributes is not met. */
  lemma AttrNotMet(t: Tree, pt: Tree, i: nat)
    requires i < |pt.attrs| && !AttrMet(t.attrs, pt.attrs[i])
    ensures !TemplateMatch(t, pt)
  {
  }

  /** A pattern whose first two characters never stand side by side in `s` does not occur in it. */
  lemma NoOccurrence(p: string, s: string)
    requires |p| >= 2
    requires forall i :: 0 <= i < |s| - 1 ==> s[i] != p[0] || s[i + 1] != p[1]
    ensures !Occurs(p, s)
  {
    OccursAt(p, s);
    forall i | 0 <= i <= |s| - |p|
      ensures !OccursAtPos(p, s, i)
    {
      assert s[i..i + |p|][0] == s[i] && s[i..i + |p|][1] == s[i + 1];
    }
  }

  /** `match(Element.new(:tag, :attr=>/aul/))` fails. */
  lemma MatchAttributeByOtherRegex()
    ensures !Matches(TagElement(), TemplateP(Tree("tag", [(SymKey("attr"), Re(Regex("aul")))], [])))
  {
    assert Lookup(TagElement().attrs, SymKey("attr")) == Str("value");
    NoOccurrence("aul", "value");
    var pt := Tree("tag", [(SymKey("attr"), Re(Regex("aul")))], []);
    assert !AttrMet(TagElement().attrs, pt.attrs[0]);
    AttrNotMet(TagElement(), pt, 0);
  }

  /** A nil template value: false against a present attribute, true against an absent one. */
  lemma MatchNilAttribute()
    ensures !Matches(TagElement(), TemplateP(Tree("tag", [(SymKey("attr"), Nil)], [])))
    ensures Matches(TagElement(), TemplateP(Tree("tag", [(SymKey("nonattr"), Nil)], [])))
  {
    assert Lookup(TagElement().attrs, SymKey("attr")) == Str("value");
    assert Lookup(TagElement().attrs, SymKey("nonattr")) == Nil;
    var pt := Tree("tag", [(SymKey("attr"), Nil)], []);
    assert !AttrMet(TagElement().attrs, pt.attrs[0]);
    AttrNotMet(TagElement(), pt, 0);
  }

  /** The markup starts with `<` and the element's name, so a regex standing in the
      name matches the element. */
  lemma RegexInNameMatches(t: Tree, r: Regex, i: int)
    requires OccursAtPos(r.source, t.name, i)
    ensures Matches(t, RegexP(r))
  {
    var m, p := Serialize(t), r.source;
    var rest := if t.contents == [] then AttrsText(t.attrs) + " />"
                else AttrsText(t.attrs) + ">" + ContentsText(t.contents) + EndTag(t.name);
    assert StartTag(t) == "<" + t.name + AttrsText(t.attrs);
    if t.contents == [] {
      assert m == StartTag(t) + " />";
    } else {
      assert m == StartTag(t) + ">" + ContentsText(t.contents) + EndTag(t.name);
    }
    assert m == "<" + t.name + rest;
    assert m[1 + i..1 + i + |p|] == t.name[i..i + |p|];
    assert OccursAtPos(p, m, 1 + i);
    OccursAt(p, m);
  }

  /** `match(/ag/)` holds: "ag" stands in the name "tag". */
  lemma MatchRegexOnMarkup()
    ensures Matches(TagElement(), RegexP(Regex("ag")))
  {
    assert "tag"[1..3] == "ag";
    RegexInNameMatches(TagElement(), Regex("ag"), 1);
  }

  /** The markup of an element with one attribute and no contents. */
  lemma OneAttrMarkup(t: Tree)
    requires |t.attrs| == 1 && t.contents == []
    ensures Serialize(t) == "<" + t.name + AttrText(t.attrs[0]) + " />"
  {
    assert t.attrs[..0] == [];
    assert AttrsText(t.attrs) == AttrsText([]) + AttrText(t.attrs[0]);
  }

  /** A regex fails on a one-attribute leaf when one of its characters is in
      neither the name, the key, the written value nor the tag's punctuation. */
  lemma RegexOffLeafMarkup(t: Tree, r: Regex, j: int)
    requires |t.attrs| == 1 && t.contents == [] && t.attrs[0].1 != Nil && t.attrs[0].1 != Bool(false)
    requires 0 <= j < |r.source| && r.source[j] !in "<>/=' "
    requires r.source[j] !in t.name && r.source[j] !in KeyText(t.attrs[0].0)
    requires r.source[j] !in CoercedText(t.attrs[0].1)
    ensures !Matches(t, RegexP(r))
  {
    var c := r.source[j];
    OneAttrMarkup(t);
    assert c !in "<" && c !in " " && c !in "='" && c !in "'" && c !in " />" by {
      assert "<" == "<>/=' "[..1] && " />" == [' ', '/', '>'];
      assert "='" == ['=', '\''] && "'" == ['\''] && " " == [' '];
    }
    MissingCharNeverMatches(r, Serialize(t), j);
  }

  /** `match(/elem/)` fails: the markup `<tag attr='value' />` holds no `m`. */
  lemma NoMatchRegexOffMarkup()
    ensures !Matches(TagElement(), RegexP(Regex("elem")))
  {
    EncodePlainText("value");
    assert CoercedText(Str("value")) == "value";
    RegexOffLeafMarkup(TagElement(), Regex("elem"), 3);
  }

  /** `match(Element)` holds, `match(String)` does not. */
  lemma MatchByKind()
    ensures Matches(TagElement(), KindP(ElementKind))
    ensures !Matches(TagElement(), KindP(StringKind))
  {
  }

  /** A PCString template value meets the plain string it encodes to the same text. */
  lemma MatchPCStringAttribute()
    ensures Matches(TagElement(), TemplateP(Tree("tag", [(SymKey("attr"), PC(PCString(Str("value"), false)))], [])))
  {
    assert Lookup(TagElement().attrs, SymKey("attr")) == Str("value");
    PlainPCStringValueMet(TagElement().attrs, SymKey("attr"), "value");
    OneAttrTemplate(TagElement(), (SymKey("attr"), PC(PCString(Str("value"), false))));
  }

  /** `Element.new(:t, :a=>"&")`. */
  function AmpersandElement(): Tree {
    Tree("t", [(SymKey("a"), Str("&"))], [])
  }

  /** An attribute stored as "&" is met by "&", by the pre-escaped "&amp;" and by PCString "&". */
  lemma MatchEscapedAttribute()
    ensures Matches(AmpersandElement(), TemplateP(Tree("t", [(SymKey("a"), Str("&"))], [])))
    ensures Matches(AmpersandElement(), TemplateP(Tree("t", [(SymKey("a"), PC(PCString(Str("&amp;"), true)))], [])))
    ensures Matches(AmpersandElement(), TemplateP(Tree("t", [(SymKey("a"), PC(PCString(Str("&"), false)))], [])))
  {
    var t := AmpersandElement();
    assert Lookup(t.attrs, SymKey("a")) == Str("&");
    assert Encode("&") == "&amp;";
    OneAttrTemplate(t, (SymKey("a"), Str("&")));
    assert Encoded(PCString(Str("&amp;"), true)) == "&amp;";
    OneAttrTemplate(t, (SymKey("a"), PC(PCString(Str("&amp;"), true))));
    PlainPCStringValueMet(t.attrs, SymKey("a"), "&");
    OneAttrTemplate(t, (SymKey("a"), PC(PCString(Str("&"), false))));
  }

  /** `Element.new(:tag, :attr=>PCString.new("value")).should match(e)`: with the
      PCString on the receiver's side the values still compare as PCStrings. */
  lemma MatchPCStringReceiver()
    ensures Matches(Tree("tag", [(SymKey("attr"), PC(PCString(Str("value"), false)))], []), TemplateP(TagElement()))
  {
    var t := Tree("tag", [(SymKey("attr"), PC(PCString(Str("value"), false)))], []);
    assert Lookup(t.attrs, SymKey("attr")) == PC(PCString(Str("value"), false));
    PlainPCStringValueMet(t.attrs, SymKey("attr"), "value");
    OneAttrTemplate(t, (SymKey("attr"), Str("value")));
  }

  /** `Element.new(:t, "a"=>"v").should match(Element.new(:t, :a=>"v"))`: both keys become `:a`. */
  lemma MatchStringKeyedElement()
    ensures Matches(Tree("t", NormalizeAttrs([(StrKey("a"), Str("v"))]), []),
                    TemplateP(Tree("t", NormalizeAttrs([(SymKey("a"), Str("v"))]), [])))
  {
    assert NormalizeAttrs([(StrKey("a"), Str("v"))]) == [(SymKey("a"), Str("v"))];
    assert NormalizeAttrs([(SymKey("a"), Str("v"))]) == [(SymKey("a"), Str("v"))];
  }

  /** The element of the `=~` examples: `Element.new(:tag, :attr=>"value", :a2=>"v2")`. */
  function TwoAttrElement(): Tree {
    Tree("tag", [(SymKey("attr"), Str("value")), (SymKey("a2"), Str("v2"))], [])
  }

  /** `e =~ :tag`, `e =~ Element.new(:tag)` and `e =~ Element.new(:tag, :a2=>"v2")`:
      attributes the pattern leaves out do not matter. */
  lemma TildeIgnoresOtherAttributes()
    ensures Matches(TwoAttrElement(), NameP("tag"))
    ensures Matches(TwoAttrElement(), TemplateP(Tree("tag", [], [])))
    ensures Matches(TwoAttrElement(), TemplateP(Tree("tag", [(SymKey("a2"), Str("v2"))], [])))
  {
    assert Lookup(TwoAttrElement().attrs, SymKey("a2")) == Str("v2");
    EncodePlainText("v2");
  }

  /** `e =~ Element.new(:tag, :attr=>/alu/)`. */
  lemma TildeRegexValue()
    ensures Matches(TwoAttrElement(), TemplateP(Tree("tag", [(SymKey("attr"), Re(Regex("alu")))], [])))
  {
    assert Lookup(TwoAttrElement().attrs, SymKey("attr")) == Str("value");
    assert OccursAtPos("alu", "value", 1);
    OccursAt("alu", "value");
    OneAttrTemplate(TwoAttrElement(), (SymKey("attr"), Re(Regex("alu"))));
  }

  /** `e =~ Element.new(:tag, :attr=>PCString.new("value"))`. */
  lemma TildePCStringValue()
    ensures Matches(TwoAttrElement(), TemplateP(Tree("tag", [(SymKey("attr"), PC(PCString(Str("value"), false)))], [])))
  {
    assert Lookup(TwoAttrElement().attrs, SymKey("attr")) == Str("value");
    PlainPCStringValueMet(TwoAttrElement().attrs, SymKey("attr"), "value");
    OneAttrTemplate(TwoAttrElement(), (SymKey("attr"), PC(PCString(Str("value"), false))));
  }

  /** `e !~ :t` and `e !~ Element.new(:t)`. */
  lemma TildeFailsOnName()
    ensures !Matches(TwoAttrElement(), NameP("t"))
    ensures !Matches(TwoAttrElement(), TemplateP(Tree("t", [], [])))
  {
  }

  /** `e !~ Element.new(:tag, :attr=>/aul/)`. */
  lemma TildeFailsOnRegex()
    ensures !Matches(TwoAttrElement(), TemplateP(Tree("tag", [(SymKey("attr"), Re(Regex("aul")))], [])))
  {
    var t := TwoAttrElement();
    assert Lookup(t.attrs, SymKey("attr")) == Str("value");
    NoOccurrence("aul", "value");
    var pt := Tree("tag", [(SymKey("attr"), Re(Regex("aul")))], []);
    assert !AttrMet(t.attrs, pt.attrs[0]);
    AttrNotMet(t, pt, 0);
  }

  /** `Element.new(:element) << Element.new(:sub) << "text"`. */
  function ElementWithText(): Tree {
    Tree("element", [], [Node(Tree("sub", [], [])), Str("text")])
  }

  /** A one-item template is not met when no content item meets the item. */
  lemma NotMetByAnyContent(item: Value, t: Tree)
    requires forall j :: 0 <= j < |t.contents| ==> !ContentMet(item, t.contents[j])
    ensures !TemplateMatch(t, Tree(t.name, [], [item]))
  {
    assert Tree(t.name, [], [item]).contents[0] == item;
  }

  /** Element content items of a template. */
  lemma MatchElementContent()
    ensures Matches(ElementWithText(), TemplateP(Tree("element", [], [Node(Tree("sub", [], []))])))
    ensures !Matches(ElementWithText(), TemplateP(Tree("element", [], [Node(Tree("other", [], []))])))
  {
    var cs := ElementWithText().contents;
    assert ContentMet(Node(Tree("sub", [], [])), cs[0]);
    forall j | 0 <= j < |cs| ensures !ContentMet(Node(Tree("other", [], [])), cs[j]) {}
    NotMetByAnyContent(Node(Tree("other", [], [])), ElementWithText());
  }

  /** A text content item of a template is met by equal text. */
  lemma MatchTextContent()
    ensures Matches(ElementWithText(), TemplateP(Tree("element", [], [Str("text")])))
  {
    assert Encode("text") == "text";
    assert ContentMet(Str("text"), ElementWithText().contents[1]);
  }

  lemma MatchOtherTextContent()
    ensures !Matches(ElementWithText(), TemplateP(Tree("element", [], [Str("other")])))
  {
    var cs := ElementWithText().contents;
    EncodeInjective("other", "text");
    assert "other"[0] != "text"[0];
    forall j | 0 <= j < |cs| ensures !ContentMet(Str("other"), cs[j]) {}
    NotMetByAnyContent(Str("other"), ElementWithText());
  }

  /** Regex content items are tried on the string contents: /ex/ is met by "text". */
  lemma MatchRegexContent()
    ensures Matches(ElementWithText(), TemplateP(Tree("element", [], [Re(Regex("ex"))])))
  {
    assert OccursAtPos("ex", "text", 1);
    OccursAt("ex", "text");
    assert ContentMet(Re(Regex("ex")), ElementWithText().contents[1]);
  }

  /** /th/ is met by nothing. */
  lemma MatchOtherRegexContent()
    ensures !Matches(ElementWithText(), TemplateP(Tree("element", [], [Re(Regex("th"))])))
  {
    NoOccurrence("th", "text");
    var cs := ElementWithText().contents;
    forall j | 0 <= j < |cs| ensures !ContentMet(Re(Regex("th")), cs[j]) {}
    NotMetByAnyContent(Re(Regex("th")), ElementWithText());
  }

  /** /sub/ is not met by the child element named `sub`: regexes are tried on strings only. */
  lemma RegexContentSkipsElements()
    ensures !Matches(ElementWithText(), TemplateP(Tree("element", [], [Re(Regex("sub"))])))
  {
    NoOccurrence("sub", "text");
    var cs := ElementWithText().contents;
    forall j | 0 <= j < |cs| ensures !ContentMet(Re(Regex("sub")), cs[j]) {}
    NotMetByAnyContent(Re(Regex("sub")), ElementWithText());
  }

  // ------------------------------------------------------- has? and find

  /** The tree of the `#find` example: `base` holding "1st", `sub` ("2nd", `deep` ("3rd")) and `sub` (attr: value). */
  function Deep(): Tree { Tree("deep", [], [Str("3rd")]) }
  function Sub1(): Tree { Tree("sub", [], [Str("2nd"), Node(Deep())]) }
  function Sub2(): Tree { Tree("sub", [(SymKey("attr"), Str("value"))], []) }
  function Base(): Tree { Tree("base", [], [Str("1st"), Node(Sub1()), Node(Sub2())]) }

  lemma FindDeep()
    ensures Find(Base(), NameP("deep")).contents == [Node(Deep())]
  {
    assert FindAll(Sub1(), NameP("deep")) == [Node(Deep())];
  }

  lemma FindSub()
    ensures Find(Base(), NameP("sub")).contents == [Node(Sub1()), Node(Sub2())]
  {
    assert FindAll(Sub1(), NameP("sub")) == [Node(Sub1())];
  }

  lemma FindStrings()
    ensures Find(Base(), KindP(StringKind)).contents == [Str("1st"), Str("2nd"), Str("3rd")]
  {
    assert FindAll(Sub1(), KindP(StringKind)) == [Str("2nd"), Str("3rd")];
  }

  lemma FindByNameAndAttributes()
    ensures Find(Base(), NameAttrsP("sub", [(SymKey("attr"), Str("value"))])).contents == [Node(Sub2())]
  {
    var p := NameAttrsP("sub", [(SymKey("attr"), Str("value"))]);
    var pt := PatternTree("sub", [(SymKey("attr"), Str("value"))]);
    assert pt.attrs == [(SymKey("attr"), Str("value"))];
    assert Lookup(Sub1().attrs, SymKey("attr")) == Nil;
    assert Lookup(Sub2().attrs, SymKey("attr")) == Str("value");
    AttrNotMet(Sub1(), pt, 0);
    assert !Matches(Sub1(), p) && Matches(Sub2(), p);
    assert !Matches(Deep(), p) && !Matches(Base(), p);
    assert FindAll(Deep(), p) == [];
    assert FindAll(Sub1(), p) == [];
    assert FindAll(Sub2(), p) == [Node(Sub2())];
  }

  /** `find(//)` collects every element, the receiver first, and no string. */
  lemma FindEmptyRegex()
    ensures Find(Base(), RegexP(Regex(""))).contents == [Node(Base()), Node(Sub1()), Node(Deep()), Node(Sub2())]
  {
    EmptyRegexFindsElements(Base());
    FindElements();
  }

  /** `find(Element)` collects every element, the receiver first. */
  lemma FindElements()
    ensures FindAll(Base(), KindP(ElementKind)) == [Node(Base()), Node(Sub1()), Node(Deep()), Node(Sub2())]
  {
    assert FindAll(Sub1(), KindP(ElementKind)) == [Node(Sub1()), Node(Deep())];
  }

  /** The tree of the `has?` example: `base` holding `sub` (`deep` ("text",
      pre-escaped "&amp;", "<")) and `sub` (attr: value). */
  function HasDeep(): Tree { Tree("deep", [], [Str("text"), PC(PCString(Str("&amp;"), true)), Str("<")]) }
  function HasSub(): Tree { Tree("sub", [], [Node(HasDeep())]) }
  function HasBase(): Tree { Tree("base", [], [Node(HasSub()), Node(Sub2())]) }

  /** `has?(:sub)` and `has?(:deep)`. */
  lemma HasSubAndDeep()
    ensures Has(HasBase(), NameP("sub")) && Has(HasBase(), NameP("deep"))
  {
    assert ItemHas(HasBase().contents[0], NameP("sub"));
    HasFromChild(HasBase(), 0, NameP("sub"));
    assert ItemHas(HasSub().contents[0], NameP("deep"));
    HasFromChild(HasSub(), 0, NameP("deep"));
    HasFromChild(HasBase(), 0, NameP("deep"));
  }

  /** `has?(:sub, :attr=>"value")`. */
  lemma HasSubWithAttribute()
    ensures Has(HasBase(), NameAttrsP("sub", [(SymKey("attr"), Str("value"))]))
  {
    var p := NameAttrsP("sub", [(SymKey("attr"), Str("value"))]);
    assert PatternTree("sub", [(SymKey("attr"), Str("value"))]).attrs == [(SymKey("attr"), Str("value"))];
    assert Lookup(Sub2().attrs, SymKey("attr")) == Str("value");
    assert Matches(Sub2(), p);
    assert ItemHas(HasBase().contents[1], p);
    HasFromChild(HasBase(), 1, p);
  }

  /** A text node or a PCString deep in the tree is found by its class. */
  lemma HasDeepItem(j: nat, p: Pattern)
    requires j < |HasDeep().contents| && ItemMatches(HasDeep().contents[j], p)
    ensures Has(HasBase(), p)
  {
    assert ItemHas(HasDeep().contents[j], p);
    HasFromChild(HasDeep(), j, p);
    assert ItemHas(HasSub().contents[0], p);
    HasFromChild(HasSub(), 0, p);
    assert ItemHas(HasBase().contents[0], p);
    HasFromChild(HasBase(), 0, p);
  }

  /** `has?(String)` and `has?(PCString)`. */
  lemma HasStringAndPCString()
    ensures Has(HasBase(), KindP(StringKind)) && Has(HasBase(), KindP(PCStringKind))
  {
    HasDeepItem(0, KindP(StringKind));
    HasDeepItem(1, KindP(PCStringKind));
  }

  /** A template matching the `deep` node is found below the root. */
  lemma HasDeepTemplate(pt: Tree)
    requires TemplateMatch(HasDeep(), pt)
    ensures Has(HasBase(), TemplateP(pt))
  {
    var p := TemplateP(pt);
    assert ItemHas(HasSub().contents[0], p);
    HasFromChild(HasSub(), 0, p);
    assert ItemHas(HasBase().contents[0], p);
    HasFromChild(HasBase(), 0, p);
  }

  /** `has?(d)` for a copy `d` of the deep element. */
  lemma HasCopyOfDeep()
    ensures Has(HasBase(), TemplateP(HasDeep()))
  {
    assert WellFormed(HasDeep());
    TemplateMatchesItself(HasDeep());
    HasDeepTemplate(HasDeep());
  }

  /** A pre-escaped template text is met by the raw string it is the encoding of. */
  lemma PreEscapedMetByString(y: string)
    ensures ContentMet(PC(PCString(Str(Encode(y)), true)), Str(y))
  {
    assert Text(Str(Encode(y))) == Encode(y);
    assert Encoded(PCString(Str(Encode(y)), true)) == Encode(y);
    assert CoercedText(PC(PCString(Str(Encode(y)), true))) == Encode(y);
    assert CoercedText(Str(y)) == Encode(y);
  }

  /** A raw template string is met by the pre-escaped text of its encoding. */
  lemma StringMetByPreEscaped(y: string)
    ensures ContentMet(Str(y), PC(PCString(Str(Encode(y)), true)))
  {
    assert Text(Str(Encode(y))) == Encode(y);
    assert Encoded(PCString(Str(Encode(y)), true)) == Encode(y);
    assert CoercedText(PC(PCString(Str(Encode(y)), true))) == Encode(y);
    assert CoercedText(Str(y)) == Encode(y);
  }

  /** A three-item template without attributes whose items are met one by one,
      in order, by the element's three contents. */
  lemma MetItemByItem(n: string, c0: Value, c1: Value, c2: Value, p0: Value, p1: Value, p2: Value)
    requires ContentMet(p0, c0) && ContentMet(p1, c1) && ContentMet(p2, c2)
    ensures TemplateMatch(Tree(n, [], [c0, c1, c2]), Tree(n, [], [p0, p1, p2]))
  {
    var cs, ps := [c0, c1, c2], [p0, p1, p2];
    forall i | 0 <= i < |ps|
      ensures ContentMetIn(ps[i], cs)
    {
      assert ContentMet(ps[i], cs[i]) by {
        if i == 0 {
          assert ps[0] == p0 && cs[0] == c0;
        } else if i == 1 {
          assert ps[1] == p1 && cs[1] == c1;
        } else {
          assert ps[2] == p2 && cs[2] == c2;
        }
      }
    }
  }

  /** A template that spells each text of an element the other way round, raw
      for pre-escaped and pre-escaped for raw, still matches it. */
  lemma RespelledTemplateMatches(x: string, y: string, z: string)
    ensures TemplateMatch(Tree("deep", [], [Str(x), PC(PCString(Str(Encode(y)), true)), Str(z)]),
                          Tree("deep", [], [PC(PCString(Str(Encode(x)), true)), Str(y), PC(PCString(Str(Encode(z)), true))]))
  {
    PreEscapedMetByString(x);
    StringMetByPreEscaped(y);
    PreEscapedMetByString(z);
    MetItemByItem("deep", Str(x), PC(PCString(Str(Encode(y)), true)), Str(z),
                  PC(PCString(Str(Encode(x)), true)), Str(y), PC(PCString(Str(Encode(z)), true)));
  }

  /** `has?(d)` where `d` holds pre-escaped "text", "&" and pre-escaped "&lt;". */
  lemma HasRespelledDeep()
    ensures Has(HasBase(), TemplateP(Tree("deep", [], [PC(PCString(Str("text"), true)), Str("&"), PC(PCString(Str("&lt;"), true))])))
  {
    EncodePlainText("text");
    assert Encode("&") == "&amp;";
    assert Encode("<") == "&lt;";
    RespelledTemplateMatches("text", "&", "<");
    HasDeepTemplate(Tree("deep", [], [PC(PCString(Str("text"), true)), Str("&"), PC(PCString(Str("&lt;"), true))]));
  }

  /** `has?(:sub, :attr=>"value", :attr2=>"")`: an empty string does not stand for an absent attribute. */
  function EmptyAttr2Pattern(): Pattern {
    NameAttrsP("sub", [(SymKey("attr"), Str("value")), (SymKey("attr2"), Str(""))])
  }

  lemma NoSubHasAttr2()
    ensures !Matches(HasSub(), EmptyAttr2Pattern()) && !Matches(Sub2(), EmptyAttr2Pattern())
  {
    var a := EmptyAttr2Pattern().attrs;
    assert LastForKey(a, 1);
    MissingAttributeFails(Sub2(), "sub", a, 1);
    MissingAttributeFails(HasSub(), "sub", a, 1);
  }

  lemma NothingFoundBelowBase()
    ensures FindAll(HasSub(), EmptyAttr2Pattern()) == [] && FindAll(Sub2(), EmptyAttr2Pattern()) == []
  {
    var p := EmptyAttr2Pattern();
    NoSubHasAttr2();
    var cs := HasDeep().contents;
    assert FindIn(cs[2..], p) == [];
    assert FindIn(cs[1..], p) == [];
    assert FindAll(HasDeep(), p) == [];
  }

  lemma HasNotWithEmptyAttribute()
    ensures !Has(HasBase(), EmptyAttr2Pattern())
  {
    var p := EmptyAttr2Pattern();
    NothingFoundBelowBase();
    var cs := HasBase().contents;
    assert FindIn(cs[1..], p) == [];
    assert FindAll(HasBase(), p) == [];
    HasIffFindsSomething(HasBase(), p);
  }

  // ---------------------------------------------------------- write_to

  lemma ContentsOfOne(a: Value)
    ensures ContentsText([a]) == ContentText(a)
  {
    assert [a][..0] == [];
  }

  lemma ContentsOfTwo(a: Value, b: Value)
    ensures ContentsText([a, b]) == ContentText(a) + ContentText(b)
  {
    assert [a, b][..1] == [a];
    ContentsOfOne(a);
  }

  /** The markup of an element with contents and no attributes. */
  lemma WriteBare(n: string, cs: seq<Value>)
    requires cs != []
    ensures Serialize(Tree(n, [], cs)) == "<" + n + ">" + ContentsText(cs) + "</" + n + ">"
  {
    var t := Tree(n, [], cs);
    assert AttrsText(t.attrs) == "";
    assert StartTag(t) == "<" + n;
  }

  /** An element without contents closes its own start tag. */
  lemma WriteEmptyElement()
    ensures Serialize(Tree("e", [], [])) == "<e />"
  {
  }

  /** Siblings are written in order. */
  lemma WriteSiblings(n: string, m1: string, m2: string)
    ensures Serialize(Tree(n, [], [Node(Tree(m1, [], [])), Node(Tree(m2, [], []))]))
            == "<" + n + "><" + m1 + " /><" + m2 + " /></" + n + ">"
  {
    WriteEmptyChild(m1);
    WriteEmptyChild(m2);
    ContentsOfTwo(Node(Tree(m1, [], [])), Node(Tree(m2, [], [])));
    WriteBare(n, [Node(Tree(m1, [], [])), Node(Tree(m2, [], []))]);
  }

  lemma WriteEmptyChild(n: string)
    ensures ContentText(Node(Tree(n, [], []))) == "<" + n + " />"
  {
    assert AttrsText([]) == "";
    assert StartTag(Tree(n, [], [])) == "<" + n;
  }

  lemma WriteTextChild(n: string, b: string)
    requires forall i :: 0 <= i < |b| ==> !IsSpecial(b[i])
    ensures ContentText(Node(Tree(n, [], [Str(b)]))) == "<" + n + ">" + b + "</" + n + ">"
  {
    EncodePlainText(b);
    ContentsOfOne(Str(b));
    WriteBare(n, [Str(b)]);
  }

  /** Text and nested elements: `<n>a<m>b</m></n>` for any plain texts `a`, `b`. */
  lemma WriteNestedText(n: string, m: string, a: string, b: string)
    requires forall i :: 0 <= i < |a| ==> !IsSpecial(a[i])
    requires forall i :: 0 <= i < |b| ==> !IsSpecial(b[i])
    ensures Serialize(Tree(n, [], [Str(a), Node(Tree(m, [], [Str(b)]))]))
            == "<" + n + ">" + a + "<" + m + ">" + b + "</" + m + "></" + n + ">"
  {
    var sub := Tree(m, [], [Str(b)]);
    var inner := "<" + m + ">" + b + "</" + m + ">";
    WriteTextAndChild(a, sub);
    WriteTextChild(m, b);
    assert ContentsText([Str(a), Node(sub)]) == a + inner;
    WriteBare(n, [Str(a), Node(sub)]);
  }

  lemma WriteTextAndChild(a: string, sub: Tree)
    requires forall i :: 0 <= i < |a| ==> !IsSpecial(a[i])
    ensures ContentsText([Str(a), Node(sub)]) == a + Serialize(sub)
  {
    EncodePlainText(a);
    ContentsOfTwo(Str(a), Node(sub));
  }

  /** A symbol child is written as its name. */
  lemma WriteSymbol(n: string, name: string)
    requires forall i :: 0 <= i < |name| ==> !IsSpecial(name[i])
    ensures Serialize(Tree(n, [], [Sym(name)])) == "<" + n + ">" + name + "</" + n + ">"
  {
    EncodePlainText(name);
    ContentsOfOne(Sym(name));
    WriteBare(n, [Sym(name)]);
  }

  /** The markup of any element with contents, with its pieces spelled out. */
  lemma WriteWithContents(t: Tree)
    requires t.contents != []
    ensures Serialize(t) == "<" + t.name + AttrsText(t.attrs) + ">" + ContentsText(t.contents) + "</" + t.name + ">"
  {
  }

  /** A string attribute is written as its key and its escaped text in single quotes. */
  lemma WrittenStringAttribute(k: Key, v: string)
    ensures AttrText((k, Str(v))) == " " + KeyText(k) + "='" + Encode(v) + "'"
  {
    assert CoercedText(Str(v)) == Encode(v);
  }

  lemma EncodeAttributeSpecials()
    ensures Encode("'\"<>&") == "&apos;&quot;&lt;&gt;&amp;"
  {
    EncodeFive('\'', '"', '<', '>', '&');
  }

  /** `attributes["a2"] = "'\"<>&"` is written as `a2='&apos;&quot;&lt;&gt;&amp;'`. */
  lemma WriteEscapedAttributeValue()
    ensures AttrText((StrKey("a2"), Str("'\"<>&"))) == " " + "a2" + "='" + "&apos;&quot;&lt;&gt;&amp;" + "'"
  {
    EncodeAttributeSpecials();
    WrittenStringAttribute(StrKey("a2"), "'\"<>&");
  }

  /** Four attributes of which the last two are nil and false: only the first two are written. */
  lemma WriteFourAttributes(e1: (Key, Value), e2: (Key, Value), k3: Key, k4: Key)
    ensures AttrsText([e1, e2, (k3, Nil), (k4, Bool(false))]) == AttrText(e1) + AttrText(e2)
  {
    assert [e1][..0] == [];
    assert AttrsText([e1]) == AttrsText([]) + AttrText(e1);
    assert [e1, e2][..1] == [e1];
    assert AttrsText([e1, e2]) == AttrText(e1) + AttrText(e2);
    AttributeOmission([e1, e2], k3, Nil);
    assert [e1, e2] + [(k3, Nil)] == [e1, e2, (k3, Nil)];
    AttributeOmission([e1, e2, (k3, Nil)], k4, Bool(false));
    assert [e1, e2, (k3, Nil)] + [(k4, Bool(false))] == [e1, e2, (k3, Nil), (k4, Bool(false))];
  }

  /** `true` is written as the text `true`. */
  lemma WrittenTrueAttribute(k: Key)
    ensures AttrText((k, Bool(true))) == " " + KeyText(k) + "='true'"
  {
    AttributeOmission([], k, Bool(true));
    assert [] + [(k, Bool(true))] == [(k, Bool(true))];
    assert [(k, Bool(true))][..0] == [];
  }

  /** `Element.new("e", :attr1=>"1", :attr2=>true, :attr3=>nil, :attr4=>false)`:
      only the first two attributes are written. */
  lemma WriteOmittedAttributes()
    ensures AttrsText([(SymKey("attr1"), Str("1")), (SymKey("attr2"), Bool(true)),
                       (SymKey("attr3"), Nil), (SymKey("attr4"), Bool(false))])
            == " " + "attr1" + "='" + "1" + "'" + (" " + "attr2" + "='true'")
  {
    WriteFourAttributes((SymKey("attr1"), Str("1")), (SymKey("attr2"), Bool(true)), SymKey("attr3"), SymKey("attr4"));
    EncodePlainText("1");
    WrittenStringAttribute(SymKey("attr1"), "1");
    WrittenTrueAttribute(SymKey("attr2"));
  }

  lemma WritePreEscapedAttribute(k: Key, raw: string)
    ensures AttrsText([(k, PC(PCString(Str(raw), true)))]) == " " + KeyText(k) + "='" + raw + "'"
  {
    var e := (k, PC(PCString(Str(raw), true)));
    assert Text(Str(raw)) == raw;
    assert Encoded(e.1.pc) == raw;
    assert CoercedText(e.1) == raw;
    assert AttrText(e) == " " + KeyText(k) + "='" + raw + "'";
    assert [e][..0] == [];
    assert AttrsText([e]) == AttrsText([]) + AttrText(e);
  }

  lemma WriteRawThenPreEscaped(raw: string)
    ensures ContentsText([Str(raw), PC(PCString(Str(raw), true))]) == Encode(raw) + raw
  {
    ContentsOfTwo(Str(raw), PC(PCString(Str(raw), true)));
  }

  /** Raw text is escaped, pre-escaped PCStrings are written as they are, in an
      attribute and in the contents alike. */
  lemma WriteMixedEscaping(n: string, k: Key, raw: string)
    ensures Serialize(Tree(n, [(k, PC(PCString(Str(raw), true)))], [Str(raw), PC(PCString(Str(raw), true))]))
            == "<" + n + (" " + KeyText(k) + "='" + raw + "'") + ">" + (Encode(raw) + raw) + "</" + n + ">"
  {
    WriteWithContents(Tree(n, [(k, PC(PCString(Str(raw), true)))], [Str(raw), PC(PCString(Str(raw), true))]));
    WritePreEscapedAttribute(k, raw);
    WriteRawThenPreEscaped(raw);
  }

  // ------------------------------------------------------------- ==

  /** `Element.new("el")` with attribute key => "value" and child `sub` ("String"). */
  function EqualityBase(): Tree {
    Tree("el", [(StrKey("key"), Str("value"))], [Node(Tree("sub", [], [Str("String")]))])
  }

  lemma EqualToItself()
    ensures TreeEq(EqualityBase(), EqualityBase())
  {
    TreeEqReflexive(EqualityBase());
  }

  /** Another name breaks equality. */
  lemma UnequalName()
    ensures !TreeEq(Tree("e", EqualityBase().attrs, EqualityBase().contents), EqualityBase())
  {
  }

  /** Another attribute key breaks equality. */
  lemma UnequalKey()
    ensures !TreeEq(Tree("el", [(StrKey("k"), Str("value"))], EqualityBase().contents), EqualityBase())
  {
    var t := Tree("el", [(StrKey("k"), Str("value"))], EqualityBase().contents);
    assert Get(EqualityBase().attrs, StrKey("k")) == None;
    assert !EntryEq(t.attrs[0], EqualityBase().attrs);
  }

  /** Another attribute value breaks equality. */
  lemma UnequalValue()
    ensures !TreeEq(Tree("el", [(StrKey("key"), Str("v"))], EqualityBase().contents), EqualityBase())
  {
    var t := Tree("el", [(StrKey("key"), Str("v"))], EqualityBase().contents);
    assert Get(EqualityBase().attrs, StrKey("key")) == Some(Str("value"));
    assert !EntryEq(t.attrs[0], EqualityBase().attrs);
  }

  /** Another text in a child breaks equality. */
  lemma UnequalGrandchild()
    ensures !TreeEq(Tree("el", EqualityBase().attrs, [Node(Tree("sub", [], [Str("S")]))]), EqualityBase())
  {
    var sub, other := Tree("sub", [], [Str("String")]), Tree("sub", [], [Str("S")]);
    assert !ValueEq(other.contents[0], sub.contents[0]);
    assert !TreeEq(other, sub);
    assert !ValueEq(Node(other), Node(sub));
    assert EqualityBase().contents[0] == Node(sub);
    assert !ContentsEq([Node(other)], EqualityBase().contents);
  }

  /** Another name on a child breaks equality. */
  lemma UnequalChildName()
    ensures !TreeEq(Tree("el", EqualityBase().attrs, [Node(Tree("s", [], [Str("String")]))]), EqualityBase())
  {
    var sub, other := Tree("sub", [], [Str("String")]), Tree("s", [], [Str("String")]);
    assert !TreeEq(other, sub);
    assert EqualityBase().contents[0] == Node(sub);
    assert !ContentsEq([Node(other)], EqualityBase().contents);
  }

  /** The trees the `==` tests build as their `e3`: each is named "e", unlike the "el" it is compared with. */
  function KeyTestTree(): Tree {
    Tree("e", [(StrKey("k"), Str("value"))], EqualityBase().contents)
  }

  function ValueTestTree(): Tree {
    Tree("e", [(StrKey("key"), Str("v"))], EqualityBase().contents)
  }

  function GrandchildTestTree(): Tree {
    Tree("e", EqualityBase().attrs, [Node(Tree("sub", [], [Str("S")]))])
  }

  function ChildNameTestTree(): Tree {
    Tree("e", EqualityBase().attrs, [Node(Tree("s", [], [Str("String")]))])
  }

  /** Each of those trees is unequal to the base, already because of its name. */
  lemma TestTreesUnequal()
    ensures !TreeEq(KeyTestTree(), EqualityBase())
    ensures !TreeEq(ValueTestTree(), EqualityBase())
    ensures !TreeEq(GrandchildTestTree(), EqualityBase())
    ensures !TreeEq(ChildNameTestTree(), EqualityBase())
  {
    TreeEqNeedsSameName(KeyTestTree(), EqualityBase(), "");
    TreeEqNeedsSameName(ValueTestTree(), EqualityBase(), "");
    TreeEqNeedsSameName(GrandchildTestTree(), EqualityBase(), "");
    TreeEqNeedsSameName(ChildNameTestTree(), EqualityBase(), "");
  }

  /** A comparison of names alone, standing for an `==` that ignores attributes and contents. */
  predicate NamesAgree(t: Tree, u: Tree) {
    t.name == u.name
  }

  /**
   * The tests with their "e"-named trees pass just as well against `NamesAgree`, so they
   * cannot tell whether `==` compares keys, values or children; the "el"-named trees of
   * `UnequalKey`, `UnequalValue`, `UnequalGrandchild` and `UnequalChildName` can.
   */
  lemma TestTreesMissAttributesAndContents()
    ensures !NamesAgree(KeyTestTree(), EqualityBase()) && !NamesAgree(ValueTestTree(), EqualityBase())
    ensures !NamesAgree(GrandchildTestTree(), EqualityBase()) && !NamesAgree(ChildNameTestTree(), EqualityBase())
    ensures NamesAgree(Tree("el", [(StrKey("k"), Str("value"))], EqualityBase().contents), EqualityBase())
    ensures NamesAgree(Tree("el", [(StrKey("key"), Str("v"))], EqualityBase().contents), EqualityBase())
    ensures NamesAgree(Tree("el", EqualityBase().attrs, [Node(Tree("sub", [], [Str("S")]))]), EqualityBase())
    ensures NamesAgree(Tree("el", EqualityBase().attrs, [Node(Tree("s", [], [Str("String")]))]), EqualityBase())
  {
  }

  /** A string never equals an element. */
  lemma StringIsNotElement()
    ensures !ValueEq(Str("string"), Node(EqualityBase()))
  {
  }
}

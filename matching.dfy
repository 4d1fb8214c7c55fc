/**
 * The matcher of EimXML: `Element#match` (and its alias `=~`), the
 * recursive existence check `has?` (also `has_element?` and `include?`)
 * and the collecting search `find`.
 */
module Matching {
  import opened Escaping
  import opened Regexes
  import opened AssocLists
  import opened Xml

  /** The classes a pattern may name, reduced to a closed set of node kinds. */
  datatype Kind = ElementKind | CommentKind | StringKind | SymbolKind | PCStringKind

  /** The argument forms of `match`, each one a different rule. */
  datatype Pattern =
    | KindP(kind: Kind)                                      // a class: `Element`, `String`, ...
    | RegexP(regex: Regex)                                   // a Regexp, tried on the markup
    | TemplateP(template: Tree)                              // an Element used as a partial template
    | NameP(name: string)                                    // a Symbol: the element's name
    | NameAttrsP(name: string, attrs: seq<(Key, Value)>)     // `match(name, attrs)`

  /** `value.is_a?(kind)`. */
  predicate IsKind(v: Value, k: Kind) {
    match k
    case ElementKind => v.Node?
    case CommentKind => v.Cmt?
    case StringKind => v.Str?
    case SymbolKind => v.Sym?
    case PCStringKind => v.PC?
  }

  /** The template an element pattern stands for. */
  function PatternTree(name: string, attrs: seq<(Key, Value)>): Tree {
    Tree(name, NormalizeAttrs(attrs), [])
  }

  /** `Element#match(pattern)` on an element. */
  predicate Matches(t: Tree, p: Pattern) {
    match p
    case KindP(k) => k == ElementKind
    case RegexP(r) => RegexMatches(r, Serialize(t))
    case TemplateP(pt) => TemplateMatch(t, pt)
    case NameP(n) => t.name == n
    case NameAttrsP(n, a) => TemplateMatch(t, PatternTree(n, a))
  }

  /** An element matches a template when the names agree, every template
      attribute is met, and every template content item is met by some
      content item of the element. Extra attributes and contents are ignored. */
  predicate TemplateMatch(t: Tree, pt: Tree)
    decreases pt, 1
  {
    t.name == pt.name &&
    (forall i :: 0 <= i < |pt.attrs| ==> AttrMet(t.attrs, pt.attrs[i])) &&
    (forall i :: 0 <= i < |pt.contents| ==> ContentMetIn(pt.contents[i], t.contents))
  }

  /** A template attribute `(k, pv)`: a nil pattern value asks for a nil lookup,
      a regex must match the value's text, any other value must equal the
      element's value once both are read as PCStrings. */
  predicate AttrMet(attrs: seq<(Key, Value)>, pe: (Key, Value)) {
    var ev := Lookup(attrs, pe.0);
    match pe.1
    case Nil => ev == Nil
    case Re(r) => ev != Nil && RegexMatches(r, Text(ev))
    case _ => ev != Nil && CoercedText(pe.1) == CoercedText(ev)
  }

  /** Some content item of the element meets the template content item. */
  predicate ContentMetIn(item: Value, cs: seq<Value>)
    decreases item, 1
  {
    exists j :: 0 <= j < |cs| && ContentMet(item, cs[j])
  }

  /** A template content item met by one content item: an element by an element
      that matches it, a regex by a string it matches, a comment by itself,
      text by text with the same escaped form. */
  predicate ContentMet(item: Value, c: Value)
    decreases item, 0
  {
    match item
    case Node(q) => c.Node? && TemplateMatch(c.tree, q)
    case Re(r) => c.Str? && RegexMatches(r, c.s)
    case Cmt(_) => c == item
    case _ => (c.Str? || c.Sym? || c.PC? || c.Bool?) && CoercedText(item) == CoercedText(c)
  }

  /** Whether a content item counts as a match in `has?` and `find`: an element
      by `match`, anything else only by its kind. */
  predicate ItemMatches(v: Value, p: Pattern) {
    if v.Node? then Matches(v.tree, p) else p.KindP? && IsKind(v, p.kind)
  }

  // ------------------------------------------------------------- has?

  /** `has?(pattern)`: the element or some node below it matches. */
  predicate Has(t: Tree, p: Pattern)
    decreases t, 1
  {
    Matches(t, p) || HasIn(t.contents, p)
  }

  predicate HasIn(cs: seq<Value>, p: Pattern)
    decreases cs, 0
  {
    cs != [] && (ItemHas(cs[0], p) || HasIn(cs[1..], p))
  }

  predicate ItemHas(v: Value, p: Pattern)
    decreases v, 2
  {
    if v.Node? then Has(v.tree, p) else ItemMatches(v, p)
  }

  // ------------------------------------------------------------- find

  /** The matches below and including `t`, in pre-order. */
  function FindAll(t: Tree, p: Pattern): seq<Value>
    decreases t, 1
  {
    (if Matches(t, p) then [Node(t)] else []) + FindIn(t.contents, p)
  }

  function FindIn(cs: seq<Value>, p: Pattern): seq<Value>
    decreases cs, 0
  {
    if cs == [] then [] else ItemFind(cs[0], p) + FindIn(cs[1..], p)
  }

  function ItemFind(v: Value, p: Pattern): seq<Value>
    decreases v, 2
  {
    if v.Node? then FindAll(v.tree, p) else if ItemMatches(v, p) then [v] else []
  }

  /** `find(pattern)`: a fresh element named `found` whose contents are the matches. */
  function Find(t: Tree, p: Pattern): (r: Tree)
    ensures r.name == "found" && r.attrs == []
  {
    Tree("found", [], FindAll(t, p))
  }

  /** Walking one more content item extends what was collected so far. */
  lemma {:induction false} FindInAppend(cs: seq<Value>, v: Value, p: Pattern)
    ensures FindIn(cs + [v], p) == FindIn(cs, p) + ItemFind(v, p)
  {
    if cs == [] {
      assert [] + [v] == [v];
    } else {
      assert (cs + [v])[0] == cs[0] && (cs + [v])[1..] == cs[1..] + [v];
      FindInAppend(cs[1..], v, p);
    }
  }

  /** Everything `find` collects matches the pattern; in particular nothing is nil. */
  lemma FoundItemsMatch(t: Tree, p: Pattern)
    ensures forall i :: 0 <= i < |FindAll(t, p)| ==> ItemMatches(FindAll(t, p)[i], p)
    ensures forall i :: 0 <= i < |FindAll(t, p)| ==> FindAll(t, p)[i] != Nil
  {
    FindAllIsSelectedPreorder(t, p);
    forall i | 0 <= i < |FindAll(t, p)|
      ensures ItemMatches(FindAll(t, p)[i], p)
    {
      SelectedItemsMatch(Preorder(t), p, i);
    }
  }

  // ------------------------------------------------------ reference order

  /** Every node of the tree, the tree first, then each child's subtree in order. */
  function Preorder(t: Tree): (r: seq<Value>)
    ensures |r| >= 1 && r[0] == Node(t)
    decreases t, 1
  {
    [Node(t)] + PreorderIn(t.contents)
  }

  function PreorderIn(cs: seq<Value>): seq<Value>
    decreases cs, 0
  {
    if cs == [] then [] else ItemPreorder(cs[0]) + PreorderIn(cs[1..])
  }

  function ItemPreorder(v: Value): seq<Value>
    decreases v, 2
  {
    if v.Node? then Preorder(v.tree) else [v]
  }

  /** The items of `vs` that match, in their order. */
  function Select(vs: seq<Value>, p: Pattern): (r: seq<Value>)
    ensures |r| <= |vs|
  {
    if vs == [] then [] else (if ItemMatches(vs[0], p) then [vs[0]] else []) + Select(vs[1..], p)
  }

  lemma {:induction false} SelectAppend(a: seq<Value>, b: seq<Value>, p: Pattern)
    ensures Select(a + b, p) == Select(a, p) + Select(b, p)
  {
    if a == [] {
      assert a + b == b;
    } else {
      assert a + b == [a[0]] + (a[1..] + b);
      assert a == [a[0]] + a[1..];
      SelectCons(a[0], a[1..] + b, p);
      SelectCons(a[0], a[1..], p);
      SelectAppend(a[1..], b, p);
    }
  }

  lemma SelectCons(v: Value, rest: seq<Value>, p: Pattern)
    ensures Select([v] + rest, p) == (if ItemMatches(v, p) then [v] else []) + Select(rest, p)
  {
    assert ([v] + rest)[1..] == rest;
  }

  /** `find` collects exactly the matching nodes of the pre-order walk, in that order. */
  lemma {:induction false} FindAllIsSelectedPreorder(t: Tree, p: Pattern)
    ensures FindAll(t, p) == Select(Preorder(t), p)
    decreases t, 1
  {
    FindInIsSelectedPreorder(t.contents, p);
    SelectAppend([Node(t)], PreorderIn(t.contents), p);
    assert Select([Node(t)], p) == if Matches(t, p) then [Node(t)] else [];
  }

  lemma {:induction false} FindInIsSelectedPreorder(cs: seq<Value>, p: Pattern)
    ensures FindIn(cs, p) == Select(PreorderIn(cs), p)
    decreases cs, 0
  {
    if cs != [] {
      ItemFindIsSelectedPreorder(cs[0], p);
      FindInIsSelectedPreorder(cs[1..], p);
      SelectAppend(ItemPreorder(cs[0]), PreorderIn(cs[1..]), p);
    }
  }

  lemma {:induction false} ItemFindIsSelectedPreorder(v: Value, p: Pattern)
    ensures ItemFind(v, p) == Select(ItemPreorder(v), p)
    decreases v, 2
  {
    if v.Node? {
      FindAllIsSelectedPreorder(v.tree, p);
    } else {
      assert Select([v], p) == if ItemMatches(v, p) then [v] else [];
    }
  }

  lemma {:induction false} SelectEmptyIff(vs: seq<Value>, p: Pattern)
    ensures Select(vs, p) != [] <==> exists i :: 0 <= i < |vs| && ItemMatches(vs[i], p)
  {
    if vs != [] {
      SelectEmptyIff(vs[1..], p);
      if exists i :: 0 <= i < |vs| && ItemMatches(vs[i], p) {
        var i :| 0 <= i < |vs| && ItemMatches(vs[i], p);
        if i > 0 {
          assert vs[1..][i - 1] == vs[i];
        }
      }
      if Select(vs[1..], p) != [] {
        var i :| 0 <= i < |vs[1..]| && ItemMatches(vs[1..][i], p);
        assert vs[i + 1] == vs[1..][i];
      }
    }
  }

  /** Two patterns that accept the same items select the same items. */
  lemma {:induction false} SelectSamePatterns(vs: seq<Value>, p: Pattern, q: Pattern)
    requires forall v :: ItemMatches(v, p) <==> ItemMatches(v, q)
    ensures Select(vs, p) == Select(vs, q)
  {
    if vs != [] {
      SelectSamePatterns(vs[1..], p, q);
    }
  }

  /** `find(//)` collects exactly what `find(Element)` does: every element, no text. */
  lemma EmptyRegexFindsElements(t: Tree)
    ensures FindAll(t, RegexP(Regex(""))) == FindAll(t, KindP(ElementKind))
  {
    forall v
      ensures ItemMatches(v, RegexP(Regex(""))) <==> ItemMatches(v, KindP(ElementKind))
    {
      if v.Node? {
        EmptyRegexMatchesAll(Serialize(v.tree));
      }
    }
    FindAllIsSelectedPreorder(t, RegexP(Regex("")));
    FindAllIsSelectedPreorder(t, KindP(ElementKind));
    SelectSamePatterns(Preorder(t), RegexP(Regex("")), KindP(ElementKind));
  }

  /** `has?` holds exactly when `find` collects something. */
  lemma {:induction false} HasIffFindsSomething(t: Tree, p: Pattern)
    ensures Has(t, p) <==> FindAll(t, p) != []
    decreases t, 1
  {
    HasInIffFindIn(t.contents, p);
  }

  lemma {:induction false} HasInIffFindIn(cs: seq<Value>, p: Pattern)
    ensures HasIn(cs, p) <==> FindIn(cs, p) != []
    decreases cs, 0
  {
    if cs != [] {
      ItemHasIffItemFind(cs[0], p);
      HasInIffFindIn(cs[1..], p);
    }
  }

  lemma {:induction false} ItemHasIffItemFind(v: Value, p: Pattern)
    ensures ItemHas(v, p) <==> ItemFind(v, p) != []
    decreases v, 2
  {
    if v.Node? {
      HasIffFindsSomething(v.tree, p);
    }
  }

  /** `has?` holds exactly when some node of the pre-order walk matches. */
  lemma HasIffSomeNodeMatches(t: Tree, p: Pattern)
    ensures Has(t, p) <==> exists i :: 0 <= i < |Preorder(t)| && ItemMatches(Preorder(t)[i], p)
  {
    HasIffFindsSomething(t, p);
    FindAllIsSelectedPreorder(t, p);
    SelectEmptyIff(Preorder(t), p);
  }

  /** A matching element is found first, before anything below it. */
  lemma FindPutsSelfFirst(t: Tree, p: Pattern)
    ensures Matches(t, p) <==> (FindAll(t, p) != [] && FindAll(t, p)[0] == Node(t))
  {
    if !Matches(t, p) && FindAll(t, p) != [] && FindAll(t, p)[0] == Node(t) {
      FindAllIsSelectedPreorder(t, p);
      SelectedItemsMatch(Preorder(t), p, 0);
    }
  }

  lemma {:induction false} SelectedItemsMatch(vs: seq<Value>, p: Pattern, i: nat)
    requires i < |Select(vs, p)|
    ensures ItemMatches(Select(vs, p)[i], p)
  {
    if !ItemMatches(vs[0], p) {
      SelectedItemsMatch(vs[1..], p, i);
    } else if i > 0 {
      SelectedItemsMatch(vs[1..], p, i - 1);
    }
  }

  /** `has?` holds of an element whenever it holds of one of its children. */
  lemma {:induction false} HasFromChild(t: Tree, j: nat, p: Pattern)
    requires j < |t.contents| && ItemHas(t.contents[j], p)
    ensures Has(t, p)
  {
    HasInFrom(t.contents, j, p);
  }

  lemma {:induction false} HasInFrom(cs: seq<Value>, j: nat, p: Pattern)
    requires j < |cs| && ItemHas(cs[j], p)
    ensures HasIn(cs, p)
  {
    if j > 0 {
      HasInFrom(cs[1..], j - 1, p);
    }
  }

  // ------------------------------------------------------ match properties

  /** `match(name, attrs)` is `match(Element.new(name, attrs))`. */
  lemma NameAttrsIsTemplate(t: Tree, n: string, a: seq<(Key, Value)>)
    ensures Matches(t, NameAttrsP(n, a)) <==> Matches(t, TemplateP(PatternTree(n, a)))
    ensures Matches(t, NameAttrsP(n, [])) <==> Matches(t, NameP(n))
  {
  }

  /** A nil template value is met exactly when the element lacks the key or stores nil under it. */
  lemma NilPatternValue(attrs: seq<(Key, Value)>, k: Key)
    ensures AttrMet(attrs, (k, Nil)) <==> (k !in Keys(attrs) || Get(attrs, k) == Some(Nil))
  {
  }

  /** `match(name, attrs)` fails when a non-nil attribute the pattern asks for
      (the last entry given for its key) is absent from the element. */
  lemma MissingAttributeFails(t: Tree, n: string, a: seq<(Key, Value)>, i: int)
    requires LastForKey(a, i) && a[i].1 != Nil
    requires ToSym(a[i].0) !in Keys(t.attrs)
    ensures !Matches(t, NameAttrsP(n, a))
  {
    var pa := NormalizeAttrs(a);
    NormalizeAttrsLastWins(a, i);
    KeyAt(pa, ToSym(a[i].0));
    var j :| 0 <= j < |pa| && pa[j].0 == ToSym(a[i].0);
    GetEntry(pa, j);
    assert !AttrMet(t.attrs, pa[j]);
  }

  /** Attributes the template does not mention do not matter. */
  lemma ExtraAttributeIgnored(t: Tree, pt: Tree, k: Key, v: Value)
    requires k !in Keys(pt.attrs)
    ensures TemplateMatch(t, pt) <==> TemplateMatch(t.(attrs := Put(t.attrs, k, v)), pt)
  {
    var t' := t.(attrs := Put(t.attrs, k, v));
    forall i | 0 <= i < |pt.attrs|
      ensures AttrMet(t.attrs, pt.attrs[i]) <==> AttrMet(t'.attrs, pt.attrs[i])
    {
      KeyInKeys(pt.attrs, i);
      assert Get(t'.attrs, pt.attrs[i].0) == Get(t.attrs, pt.attrs[i].0);
    }
  }

  /** Contents the template does not ask for do not matter. */
  lemma ExtraContentIgnored(t: Tree, pt: Tree, c: Value)
    requires TemplateMatch(t, pt)
    ensures TemplateMatch(t.(contents := t.contents + [c]), pt)
  {
    var cs := t.contents + [c];
    forall i | 0 <= i < |pt.contents|
      ensures ContentMetIn(pt.contents[i], cs)
    {
      var j :| 0 <= j < |t.contents| && ContentMet(pt.contents[i], t.contents[j]);
      assert cs[j] == t.contents[j];
      assert ContentMet(pt.contents[i], cs[j]);
    }
  }

  /** The tree holds no regular expression; a regex template item would ask
      the element for strings it matches. */
  predicate RegexFree(t: Tree)
    decreases t, 1
  {
    (forall i :: 0 <= i < |t.attrs| ==> !t.attrs[i].1.Re?) &&
    (forall i :: 0 <= i < |t.contents| ==> RegexFreeValue(t.contents[i]))
  }

  predicate RegexFreeValue(v: Value)
    decreases v, 0
  {
    match v
    case Node(t) => RegexFree(t)
    case Re(_) => false
    case _ => true
  }

  /** An element matches itself used as a template. */
  lemma {:induction false} TemplateMatchesItself(t: Tree)
    requires WellFormed(t) && RegexFree(t)
    ensures TemplateMatch(t, t)
    decreases t
  {
    forall i | 0 <= i < |t.attrs|
      ensures AttrMet(t.attrs, t.attrs[i])
    {
      GetEntry(t.attrs, i);
      KeyInKeys(t.attrs, i);
    }
    forall i | 0 <= i < |t.contents|
      ensures ContentMetIn(t.contents[i], t.contents)
    {
      var c := t.contents[i];
      if c.Node? {
        TemplateMatchesItself(c.tree);
      }
      assert ContentMet(c, t.contents[i]);
    }
  }
}

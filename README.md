# EimXML in Dafny

EimXML is a small Ruby library for building XML documents in memory. This project models the behaviour
its specification file `spec/eim_xml_spec.rb` pins down, and proves properties of that model. It has four parts:

- **`PCString`** (module `Escaping`, and the value part of `Xml`): escaped character data.
  - `encode` replaces the five predefined entities of section 4.6 of XML 1.0 (Fifth Edition).
  - A PCString is either plain or pre-escaped.
  - `PCString[obj]` coerces any object to a PCString.
  - `==` compares encoded forms.
  - `write_to` appends the encoded text to a buffer and returns that buffer.
- **`Comment`** (`Xml`, `Elements`): construction fails with `ArgumentError` when the text contains `--`, as section 2.5 of XML 1.0 requires. A comment is written verbatim between `<!-- ` and ` -->`.
- **`Element`** (`Elements`): a mutable object with a symbol name, an attribute hash and a contents array.
  - `new` normalises keys to symbols.
  - `[]`, `add_attribute`, `attributes[k]=` and `del_attribute` work on the hash.
  - `add`/`<<` append to the contents, drop `nil` and flatten an array one level.
  - `write_to` appends markup to a caller's buffer and returns it.
  - `dup`/`clone` give a new handle over the same hash and array.
  - Serialisation, in module `Xml`, follows section 3.1 of XML 1.0. An element without contents is `<name />`. Attribute values are escaped inside single quotes, and `nil` and `false` attributes are omitted. `==` is structural.
- **The matcher** (`Matching`, with literal regular expressions in `Regexes`).
  - `match` and `=~` take a class, a regular expression tried on the markup, a template element, a symbol name, or a name with attributes.
  - `has?` (also `has_element?`, `include?`) is the recursive existence check.
  - `find` collects the matches in pre-order into a fresh element named `found`.

How the Ruby pieces are modelled:

- A Ruby object that is only read is a datatype (`Xml.Value`, `Xml.Tree`, `Xml.PCString`).
- A Ruby object that is changed in place is a class: `Elements.Element`, with its `AttributeTable` and `ContentList`, and `Elements.Buffer` for the `write_to` destination.
- An element's attribute hash is an insertion-ordered association list (`AssocLists`).
- The concrete examples of the specification file are lemmas and methods in `Scenarios` and `ElementScenarios`.

Two behaviours are fixed by the assertions themselves:

- **`PCString#==` against a raw string.** `spec/eim_xml_spec.rb:39-40` asserts that `PCString.new("&")` equals `"&"` but `PCString.new("&", true)` does not; both have the source `"&"`. So the model wraps the raw string as a plain PCString and compares encoded forms (`Xml.PCEquals`).
- **A `nil` value in a template.** `spec/eim_xml_spec.rb:342-343` asserts that `:attr=>nil` fails against an element whose `attr` is set, and that `:nonattr=>nil` matches an element without `nonattr`. So a `nil` pattern value is met exactly when the element's lookup gives `nil` (`Matching.NilPatternValue`).

One behaviour goes beyond the assertions. A text item of a template, whether a string, symbol, PCString or boolean, is met by any content item of those four kinds whose coerced text is the same (`Matching.ContentMet`). So the content `:a` or `true` meets the template text `"a"` or `"true"`. The tests use only strings and PCStrings there (spec/eim_xml_spec.rb:357-358, 406-407).

## Model

| member | source | states |
|---|---|---|
| Escaping.EncodeChar | spec/eim_xml_spec.rb:8-12 | each of `< > " ' &` becomes an entity reference that begins with `&` and ends with `;`; every other character is kept as it is |
| Escaping.EncodeAppend | spec/eim_xml_spec.rb:8-12 | escaping works character by character: the encoding of a concatenation is the concatenation of the encodings |
| Escaping.EncodePlainText | spec/eim_xml_spec.rb:10 | text without a special character is its own encoding |
| Escaping.EncodeHasNoMarkupChars | spec/eim_xml_spec.rb:175-181 | encoded text never contains `<`, `>`, `"` or `'`, so it is safe inside a quoted attribute value and in character data |
| Escaping.UnescapeEncodeChar | spec/eim_xml_spec.rb:8-12 | decoding one replacement text in front of any further text gives back the original character, followed by the decoding of the rest |
| Escaping.UnescapeEncode | spec/eim_xml_spec.rb:8-11 | decoding the five entities of the escaped text gives back the original text: escaping loses nothing |
| Escaping.EncodeInjective | spec/eim_xml_spec.rb:37-42 | two texts have the same escaped form if and only if they are the same text |
| Escaping.EncodeNotIdempotent | spec/eim_xml_spec.rb:11 | `encode("&amp;")` is `&amp;amp;`, and escaping twice differs from escaping once |
| Escaping.EncodeFive | spec/eim_xml_spec.rb:9 | a five-character text is escaped one character at a time, in order |
| Escaping.EncodeAllSpecials | spec/eim_xml_spec.rb:9 | `encode("<>\"'&")` is `&lt;&gt;&quot;&apos;&amp;` |
| Escaping.EncodeEntityLikeText | spec/eim_xml_spec.rb:10 | `encode("&test;")` is `&amp;test;`: an entity-like text is escaped again |
| Regexes.OccursAt | spec/eim_xml_spec.rb:345-346 | the left-to-right search finds a literal pattern if and only if the pattern stands at some position of the text |
| Regexes.EmptyRegexMatchesAll | spec/eim_xml_spec.rb:436 | the empty pattern `//` matches every text |
| Regexes.MissingCharNeverMatches | spec/eim_xml_spec.rb:346 | a pattern holding a character that the text lacks does not match it |
| AssocLists.Get | spec/eim_xml_spec.rb:106-111 | a hash lookup finds nothing exactly when the key is absent |
| AssocLists.Put | spec/eim_xml_spec.rb:113-120 | `h[k] = v`: `k` then maps to `v` and every other key keeps its value; the key set grows by `k`; a hash stays a hash; a present key is replaced in place (same size, same keys at every position), a new key is appended |
| AssocLists.Remove | spec/eim_xml_spec.rb:122-128 | `h.delete(k)`: `k` is gone, every other key keeps its value, the key set loses exactly `k`, a hash stays a hash, and no entry is invented |
| AssocLists.GetEntry | spec/eim_xml_spec.rb:103 | in a hash, each stored entry is what its key finds |
| AssocLists.KeyAt | spec/eim_xml_spec.rb:291 | every key of the table stands at some position |
| AssocLists.KeyInKeys | spec/eim_xml_spec.rb:291 | the key at any position is in the key set |
| AssocLists.AllKeysAt | spec/eim_xml_spec.rb:291 | the key set is exactly the set of keys found at the positions of the table |
| Xml.ToSym | spec/eim_xml_spec.rb:288-293 | the normal form of a key or name is a symbol with the same text |
| Xml.NormalizeAttrs | spec/eim_xml_spec.rb:100-104 | `Element.new`'s attributes: the table has distinct keys, every key is a symbol, and the symbol of every given key is present |
| Xml.NormalizeAttrsKeys | spec/eim_xml_spec.rb:100-104 | the table's keys are exactly the symbols of the given keys, and no other key is stored |
| Xml.NormalizeAttrsLastWins | spec/eim_xml_spec.rb:100-104 | of several given entries whose keys normalise alike, the last one is the value stored |
| Xml.Lookup | spec/eim_xml_spec.rb:106-111 | `attributes[k]` is nil for an absent key and the stored value otherwise |
| Xml.HasDashDashAt | spec/eim_xml_spec.rb:62-63 | the recursive `--` test holds if and only if two hyphens stand side by side somewhere |
| Xml.NewComment | spec/eim_xml_spec.rb:61-63 | `Comment.new(text)` succeeds if and only if no `--` occurs in the text; on success it keeps the text, otherwise it raises `ArgumentError` |
| Xml.CommentClosesOnlyAtEnd | spec/eim_xml_spec.rb:66-70 | a comment's markup ends in `-->`, holds `-->` nowhere else, and holds exactly the comment's text between its delimiters |
| Xml.Coerce | spec/eim_xml_spec.rb:23-35 | `PCString[obj]` is `obj` itself for a PCString, and otherwise a plain PCString whose source is `obj` |
| Xml.CoercedTextIsEncodedCoercion | spec/eim_xml_spec.rb:23-35 | the text written for any value is the encoded string of its coercion to a PCString |
| Xml.ContentsTextAppend | spec/eim_xml_spec.rb:163-167 | the markup of contents `a + b` is the markup of `a` followed by that of `b` |
| Xml.AttrsTextAppend | spec/eim_xml_spec.rb:175-181 | the attribute text of `a + b` is that of `a` followed by that of `b` |
| Xml.AppendChildMarkup | spec/eim_xml_spec.rb:163-173 | appending a child puts its markup just before the end tag; an element written `<n />` now has a start tag and an end tag |
| Xml.SymbolKeys | spec/eim_xml_spec.rb:192-199 | re-spelling a table's keys as symbols keeps its length and every entry's value |
| Xml.KeySpellingIrrelevant | spec/eim_xml_spec.rb:192-199 | attributes are written the same whether their keys are strings or symbols |
| Xml.NormalizeAttrsIgnoresSpelling | spec/eim_xml_spec.rb:192-199 | `Element.new` builds the same table whether the keys are given as strings or as symbols |
| Xml.AttrValueIsQuoteSafe | spec/eim_xml_spec.rb:175-181 | a value other than a pre-escaped PCString is written without `'`, `"`, `<` or `>`, so it cannot end its quoted attribute |
| Xml.AttributeOmission | spec/eim_xml_spec.rb:184-190 | a `nil` or `false` attribute adds nothing to the start tag; `true` adds ` key='true'` |
| Xml.PlainPCStringsEqual | spec/eim_xml_spec.rb:38 | two plain PCStrings are equal if and only if their sources have the same text |
| Xml.PlainEqualsPreEscapedEncoding | spec/eim_xml_spec.rb:42 | a plain PCString equals the pre-escaped PCString of its own encoding |
| Xml.PCStringAgainstRawString | spec/eim_xml_spec.rb:39-40 | against a raw string, a plain PCString is equal if and only if its source text is that string; a pre-escaped one is equal if and only if its text is the string's encoding |
| Xml.PCEqualsEquivalence | spec/eim_xml_spec.rb:41 | PCString equality is reflexive, symmetric and transitive |
| Xml.ValueEqReflexive | spec/eim_xml_spec.rb:248 | every well-formed value equals itself |
| Xml.TreeEqReflexive | spec/eim_xml_spec.rb:241-248 | every well-formed element equals itself, so a copy equals the original |
| Xml.TreeEqNeedsSameName | spec/eim_xml_spec.rb:250-285 | elements with different names are unequal, and an element and a string are unequal either way round |
| Xml.EqualityIsReceiverFirst | spec/eim_xml_spec.rb:39 | a plain PCString equals the raw string `"&"`, but that raw string does not equal the PCString |
| Matching.Find | spec/eim_xml_spec.rb:432-433 | `find` returns an element named `found` without attributes |
| Matching.FindInAppend | spec/eim_xml_spec.rb:423-439 | searching one more content item extends the matches collected so far by that item's matches |
| Matching.FoundItemsMatch | spec/eim_xml_spec.rb:432-438 | every item `find` collects matches the pattern, and none is nil |
| Matching.Preorder | spec/eim_xml_spec.rb:436 | the pre-order walk of a tree starts with the tree itself |
| Matching.SelectAppend | spec/eim_xml_spec.rb:436 | selecting the matches from `a + b` gives those of `a` followed by those of `b` |
| Matching.SelectCons | spec/eim_xml_spec.rb:436 | selection keeps the first item exactly when it matches |
| Matching.FindAllIsSelectedPreorder | spec/eim_xml_spec.rb:432-438 | `find` collects exactly the matching nodes of the pre-order walk (self first, then each child's subtree), in that order |
| Matching.FindInIsSelectedPreorder | spec/eim_xml_spec.rb:432-438 | the same over a list of contents |
| Matching.ItemFindIsSelectedPreorder | spec/eim_xml_spec.rb:432-438 | the same for one content item |
| Matching.SelectEmptyIff | spec/eim_xml_spec.rb:401-407 | some item is selected if and only if some item matches |
| Matching.SelectSamePatterns | spec/eim_xml_spec.rb:436 | two patterns that accept the same items select the same items |
| Matching.EmptyRegexFindsElements | spec/eim_xml_spec.rb:436 | `find(//)` collects exactly what `find(Element)` collects: every element and no text |
| Matching.HasIffFindsSomething | spec/eim_xml_spec.rb:388-421 | `has?` holds if and only if `find` collects something |
| Matching.HasInIffFindIn | spec/eim_xml_spec.rb:388-421 | the same over a list of contents |
| Matching.ItemHasIffItemFind | spec/eim_xml_spec.rb:388-421 | the same for one content item |
| Matching.HasIffSomeNodeMatches | spec/eim_xml_spec.rb:388-421 | `has?` holds if and only if the element or some node below it, text included, matches |
| Matching.FindPutsSelfFirst | spec/eim_xml_spec.rb:436 | an element matches if and only if `find` lists the element itself first |
| Matching.SelectedItemsMatch | spec/eim_xml_spec.rb:436 | every selected item matches |
| Matching.HasFromChild | spec/eim_xml_spec.rb:401-404 | `has?` holds of an element whenever it holds of one of its children |
| Matching.HasInFrom | spec/eim_xml_spec.rb:401-404 | the same over a list of contents |
| Matching.NameAttrsIsTemplate | spec/eim_xml_spec.rb:325-337 | `match(name, attrs)` is `match(Element.new(name, attrs))`, and `match(name)` with no attributes is the name test |
| Matching.NilPatternValue | spec/eim_xml_spec.rb:342-343 | a nil template value is met if and only if the element lacks the key or stores nil under it |
| Matching.MissingAttributeFails | spec/eim_xml_spec.rb:328-336 | `match(name, attrs)` fails when the element lacks a key the pattern gives a non-nil value |
| Matching.ExtraAttributeIgnored | spec/eim_xml_spec.rb:374-375 | adding an attribute the template does not mention changes nothing, either way |
| Matching.ExtraContentIgnored | spec/eim_xml_spec.rb:352-357 | adding content to a matching element keeps it matching |
| Matching.TemplateMatchesItself | spec/eim_xml_spec.rb:409-413 | an element without regexes matches itself used as a template |
| Elements.Buffer.constructor | spec/eim_xml_spec.rb:55 | a new destination buffer is empty |
| Elements.Buffer.Append | spec/eim_xml_spec.rb:45-57 | `<<` appends to the buffer's text |
| Elements.WritePCString | spec/eim_xml_spec.rb:45-57 | `PCString#write_to` appends the encoded string to the destination and returns that same destination |
| Elements.WriteComment | spec/eim_xml_spec.rb:66-76 | `Comment#write_to` appends the comment markup and returns the destination |
| Elements.WriteTree | spec/eim_xml_spec.rb:159-173 | writing an element appends exactly its markup |
| Elements.WriteAttrs | spec/eim_xml_spec.rb:175-190 | the loop over the attribute table appends exactly the table's attribute text |
| Elements.WriteAttr | spec/eim_xml_spec.rb:184-190 | one attribute appends its attribute text, which is nothing for nil and false |
| Elements.WriteContents | spec/eim_xml_spec.rb:163-173 | the loop over the contents appends their markup in order |
| Elements.WriteContent | spec/eim_xml_spec.rb:202-207 | one content item appends its markup: elements, comments and PCStrings write themselves, other objects their escaped text |
| Elements.CollectTree | spec/eim_xml_spec.rb:423-439 | the search appends to the destination exactly the element's matches, in pre-order |
| Elements.CollectContents | spec/eim_xml_spec.rb:423-439 | the loop over the contents appends exactly their matches, in order |
| Elements.CollectContent | spec/eim_xml_spec.rb:423-439 | one content item appends exactly its matches |
| Elements.AttributeTable.constructor | spec/eim_xml_spec.rb:114 | a new element's hash is empty |
| Elements.ContentList.constructor | spec/eim_xml_spec.rb:130-134 | a new element's contents are empty |
| Elements.DropNil | spec/eim_xml_spec.rb:146-148 | the kept items are exactly the non-nil items, none is nil, and there are no more of them |
| Elements.AddedSingle | spec/eim_xml_spec.rb:146-151 | `add(nil)` appends nothing; `add(x)` appends just `x` |
| Elements.DropNilConcat | spec/eim_xml_spec.rb:141-144 | dropping nil from `a + b` drops it from `a` and from `b` |
| Elements.AddedConcat | spec/eim_xml_spec.rb:141-144 | adding an array is adding its parts one after the other |
| Elements.DropNilOfNilFree | spec/eim_xml_spec.rb:143-144 | an array without nil is appended unchanged |
| Elements.Element.constructor | spec/eim_xml_spec.rb:100-104 | `Element.new(name, attrs)`: the name becomes a symbol, the table is the normalised attributes (a hash), the contents are empty, and both containers are new |
| Elements.Element.Copy | spec/eim_xml_spec.rb:209-239 | the handle made by `dup`/`clone` has the same name and the very same table and contents objects |
| Elements.Element.GetAttribute | spec/eim_xml_spec.rb:106-111 | `e[key]` is the value stored under the symbol of `key`, and nil when there is none |
| Elements.Element.GetContent | spec/eim_xml_spec.rb:106-111 | `e[i]` indexes the contents as a Ruby array: from the front, from the end for negative `i`, nil outside |
| Elements.Element.AddAttribute | spec/eim_xml_spec.rb:113-120 | `add_attribute(k, v)` stores `v` under the symbol of `k` with hash semantics; the table stays a hash |
| Elements.Element.StoreAttribute | spec/eim_xml_spec.rb:175-177 | `attributes[k] = v` stores `v` under `k` as given |
| Elements.Element.DelAttribute | spec/eim_xml_spec.rb:122-128 | `del_attribute(k)` removes the symbol of `k`, and every other key keeps its value |
| Elements.Element.Add | spec/eim_xml_spec.rb:136-157 | `add`/`<<` appends the non-nil items of its argument (an array flattened one level) in order, keeps the contents nil-free, and returns the receiver |
| Elements.Element.Dup | spec/eim_xml_spec.rb:209-239 | `dup`/`clone` returns a fresh object that shares the attribute table and the contents list, so it has the same value |
| Elements.Element.WriteTo | spec/eim_xml_spec.rb:159-207 | `write_to(out)` appends the element's markup and returns `out` |
| Elements.Element.Find | spec/eim_xml_spec.rb:432-439 | `find(p)` returns a fresh element, with a fresh table and list, whose value is the `found` element of the matches |
| Elements.DupSharesAttributes | spec/eim_xml_spec.rb:219-220 | an attribute added through a copy is stored in the original's table |
| ElementScenarios.NewExample | spec/eim_xml_spec.rb:100-104 | `Element.new("el", "a1"=>"v1", :a2=>"v2", "a3"=>nil)` is named `:el` with table `{:a1=>"v1", :a2=>"v2", :a3=>nil}` |
| ElementScenarios.StringKeyExample | spec/eim_xml_spec.rb:288-293 | `Element.new(:e, "a"=>"v")` has keys `[:a]` and `e[:a] == "v"` |
| ElementScenarios.IndexExample | spec/eim_xml_spec.rb:106-111 | `e[:attr]` is "value" and `e[0]` is "test" |
| ElementScenarios.ContentsExample | spec/eim_xml_spec.rb:130-134 | `Element.new("el") << "String1" << "String2" << sub` holds the three items in that order |
| ElementScenarios.AppendThree | spec/eim_xml_spec.rb:132 | three `<<` of non-nil objects append them in order |
| ElementScenarios.AppendOne | spec/eim_xml_spec.rb:132 | one `<<` of a non-nil object appends exactly it |
| ElementScenarios.AddSymbolExample | spec/eim_xml_spec.rb:150-152 | `Element.new("el").add(:symbol)` holds the symbol and is written `<el>symbol</el>` |
| ElementScenarios.AddAttributeExample | spec/eim_xml_spec.rb:113-120 | the table is `{:key_str=>"value1", :key_sym=>"value2", :nil=>nil}` in that order |
| ElementScenarios.DelAttributeExample | spec/eim_xml_spec.rb:122-128 | after `del_attribute("a1")` the table is `{:a2=>"v2"}`, after `del_attribute(:a2)` it is empty |
| ElementScenarios.AddReturnsReceiverExample | spec/eim_xml_spec.rb:137-139 | `add` returns the receiver, which now holds the `sub` element |
| ElementScenarios.AddArrayExample | spec/eim_xml_spec.rb:141-144 | after `add(sub1)`, `add([sub2 with "text", "string"])` leaves the contents `[sub1, sub2 with "text", "string"]` |
| ElementScenarios.AddNilExample | spec/eim_xml_spec.rb:146-148 | after `add(nil)` the contents are empty |
| ElementScenarios.PCStringWriteToExample | spec/eim_xml_spec.rb:45-57 | `PCString.new("&amp;").write_to(s)` writes `&amp;amp;` and returns `s` |
| ElementScenarios.CommentWriteToExample | spec/eim_xml_spec.rb:73-76 | `Comment.new("dummy").write_to(s)` writes `<!-- dummy -->` and returns `s` |
| ElementScenarios.DupExample | spec/eim_xml_spec.rb:209-223 | for the element with `key`, "String", "Freeze" and a `sub` child with `subkey`, the copy shares the table and the list, and writes the same markup |
| ElementScenarios.SpellingExample | spec/eim_xml_spec.rb:192-199 | `Element.new(:tag, :attr=>"value")`, `Element.new("tag", :attr=>"value")` and `Element.new(:tag, "attr"=>"value")` write the same markup |
| ElementScenarios.Markup | spec/eim_xml_spec.rb:197-198 | `write_to` with no destination gives the element's markup |
| ElementScenarios.SameMarkup | spec/eim_xml_spec.rb:222 | two elements with the same value write the same markup |
| ElementScenarios.DupUpdateExample | spec/eim_xml_spec.rb:219-220 | an attribute added through the copy is read back through the original |
| Scenarios.EncodeSymbol | spec/eim_xml_spec.rb:12 | `encode(:'sym&')` is `sym&amp;` |
| Scenarios.NewPCStrings | spec/eim_xml_spec.rb:16-17 | `PCString.new("&")` encodes to `&amp;`; `PCString.new("&", true)` to `&` |
| Scenarios.NewSymbolPCString | spec/eim_xml_spec.rb:18-20 | `PCString.new(:'sym&')` encodes to `sym&amp;` and keeps the symbol as its source |
| Scenarios.EqualPlainPCStrings | spec/eim_xml_spec.rb:38 | `PCString.new("str") == PCString.new("str")` |
| Scenarios.PCStringsAgainstAmpersand | spec/eim_xml_spec.rb:39-40 | `PCString.new("&") == "&"`, and `PCString.new("&", true) != "&"` |
| Scenarios.EqualAcrossEscaping | spec/eim_xml_spec.rb:41-42 | `PCString.new("&", true)` equals itself, and `PCString.new("&") == PCString.new("&amp;", true)` |
| Scenarios.DashDashCommentRejected | spec/eim_xml_spec.rb:63 | `Comment.new("--")` raises `ArgumentError` |
| Scenarios.CommentNotEscaped | spec/eim_xml_spec.rb:70 | `Comment.new("&")` is valid and is written `<!-- & -->` |
| Scenarios.OneHyphenComment | spec/eim_xml_spec.rb:68-69 | a text whose only hyphen lies between two hyphen-free parts (such as `multi-line\ncomment`) is a valid comment, written verbatim |
| Scenarios.MatchByName | spec/eim_xml_spec.rb:325-327 | `match(:tag)` holds and `match(:t)` does not |
| Scenarios.MatchByNameAndAttributes | spec/eim_xml_spec.rb:326 | `match(:tag, :attr=>"value")` holds |
| Scenarios.MatchMissingAttribute | spec/eim_xml_spec.rb:328 | `match(:tag, :attr2=>"value")` fails |
| Scenarios.MatchOtherValue | spec/eim_xml_spec.rb:329 | `match(:tag, :attr=>"value2")` fails |
| Scenarios.MatchAttributeByRegex | spec/eim_xml_spec.rb:330 | `match(:tag, :attr=>/val/)` holds: a regex attribute value is tried on the stored value's text |
| Scenarios.OneAttrTemplate | spec/eim_xml_spec.rb:332-333 | a one-attribute template without contents matches when the names agree and its attribute is met |
| Scenarios.PlainPCStringValueMet | spec/eim_xml_spec.rb:339-340 | a plain PCString of `s` and the string `s` meet each other as attribute values, either way round |
| Scenarios.AttrNotMet | spec/eim_xml_spec.rb:336-337 | a template fails as soon as one of its attributes is not met |
| Scenarios.NoOccurrence | spec/eim_xml_spec.rb:338 | a pattern whose first two characters never stand side by side in a text does not occur in it |
| Scenarios.MatchAttributeByOtherRegex | spec/eim_xml_spec.rb:338 | `/aul/` does not meet the value "value" |
| Scenarios.MatchNilAttribute | spec/eim_xml_spec.rb:342-343 | `:attr=>nil` fails against a present attribute, and `:nonattr=>nil` holds against an absent one |
| Scenarios.RegexInNameMatches | spec/eim_xml_spec.rb:345 | a regex that stands in an element's name matches the element, because the markup starts with `<name` |
| Scenarios.MatchRegexOnMarkup | spec/eim_xml_spec.rb:345 | `match(/ag/)` holds |
| Scenarios.OneAttrMarkup | spec/eim_xml_spec.rb:346 | an element with one attribute and no contents is written `<name key='value' />` |
| Scenarios.RegexOffLeafMarkup | spec/eim_xml_spec.rb:346 | a pattern with a character that is in neither the name, the key, the written value nor the tag's punctuation does not match such an element |
| Scenarios.NoMatchRegexOffMarkup | spec/eim_xml_spec.rb:346 | `match(/elem/)` fails |
| Scenarios.MatchByKind | spec/eim_xml_spec.rb:348-350 | `match(Element)` holds and `match(String)` does not |
| Scenarios.MatchPCStringAttribute | spec/eim_xml_spec.rb:339 | a template value `PCString.new("value")` meets the stored "value" |
| Scenarios.MatchEscapedAttribute | spec/eim_xml_spec.rb:363-366 | an attribute stored as "&" is met by "&", by `PCString.new("&amp;", true)` and by `PCString.new("&")` |
| Scenarios.MatchPCStringReceiver | spec/eim_xml_spec.rb:340 | an element whose attribute is `PCString.new("value")` matches the template whose attribute is "value" |
| Scenarios.MatchStringKeyedElement | spec/eim_xml_spec.rb:368 | `Element.new(:t, "a"=>"v")` matches `Element.new(:t, :a=>"v")` |
| Scenarios.TildeIgnoresOtherAttributes | spec/eim_xml_spec.rb:373-375 | `=~ :tag`, `=~ Element.new(:tag)` and `=~ Element.new(:tag, :a2=>"v2")` hold: attributes not in the template do not matter |
| Scenarios.TildeRegexValue | spec/eim_xml_spec.rb:376 | `=~ Element.new(:tag, :attr=>/alu/)` holds |
| Scenarios.TildePCStringValue | spec/eim_xml_spec.rb:377 | `=~ Element.new(:tag, :attr=>PCString.new("value"))` holds |
| Scenarios.TildeFailsOnName | spec/eim_xml_spec.rb:378-379 | `!~ :t` and `!~ Element.new(:t)` |
| Scenarios.TildeFailsOnRegex | spec/eim_xml_spec.rb:380 | `!~ Element.new(:tag, :attr=>/aul/)` |
| Scenarios.NotMetByAnyContent | spec/eim_xml_spec.rb:356-361 | a one-item template fails when no content item meets its item |
| Scenarios.MatchElementContent | spec/eim_xml_spec.rb:355-356 | a template holding `sub` matches, one holding `other` does not |
| Scenarios.MatchTextContent | spec/eim_xml_spec.rb:357 | a template holding "text" matches |
| Scenarios.MatchOtherTextContent | spec/eim_xml_spec.rb:358 | a template holding "other" does not match |
| Scenarios.MatchRegexContent | spec/eim_xml_spec.rb:359 | a template holding `/ex/` matches the text "text" |
| Scenarios.MatchOtherRegexContent | spec/eim_xml_spec.rb:360 | a template holding `/th/` does not match |
| Scenarios.RegexContentSkipsElements | spec/eim_xml_spec.rb:361 | a template holding `/sub/` does not match, although a child is named `sub`: regexes are tried on strings only |
| Scenarios.FindDeep | spec/eim_xml_spec.rb:432-434 | `find(:deep)` collects `[d]` |
| Scenarios.FindSub | spec/eim_xml_spec.rb:435 | `find(:sub)` collects `[s1, s2]` |
| Scenarios.FindStrings | spec/eim_xml_spec.rb:438 | `find(String)` collects `["1st", "2nd", "3rd"]` |
| Scenarios.FindByNameAndAttributes | spec/eim_xml_spec.rb:437 | `find(:sub, :attr=>"value")` collects `[s2]` |
| Scenarios.FindEmptyRegex | spec/eim_xml_spec.rb:436 | `find(//)` collects `[e, s1, d, s2]` |
| Scenarios.FindElements | spec/eim_xml_spec.rb:436 | `find(Element)` collects `[e, s1, d, s2]` |
| Scenarios.HasSubAndDeep | spec/eim_xml_spec.rb:401-404 | `has?(:sub)` and `has?(:deep)` hold |
| Scenarios.HasSubWithAttribute | spec/eim_xml_spec.rb:402 | `has?(:sub, :attr=>"value")` holds |
| Scenarios.HasDeepItem | spec/eim_xml_spec.rb:406-407 | a text node or a PCString deep in the tree makes `has?` of its class hold |
| Scenarios.HasStringAndPCString | spec/eim_xml_spec.rb:406-407 | `has?(String)` and `has?(PCString)` hold |
| Scenarios.HasDeepTemplate | spec/eim_xml_spec.rb:409-413 | a template that the `deep` node matches makes `has?` hold |
| Scenarios.HasCopyOfDeep | spec/eim_xml_spec.rb:409-413 | `has?(d)` holds for a copy `d` of the deep element |
| Scenarios.PreEscapedMetByString | spec/eim_xml_spec.rb:415-419 | a pre-escaped template text is met by the raw string it is the encoding of |
| Scenarios.StringMetByPreEscaped | spec/eim_xml_spec.rb:415-419 | a raw template string is met by the pre-escaped text of its encoding |
| Scenarios.MetItemByItem | spec/eim_xml_spec.rb:409-419 | a three-item template is met when its items are met one by one by the element's contents |
| Scenarios.RespelledTemplateMatches | spec/eim_xml_spec.rb:415-419 | re-spelling each text of an element, raw for pre-escaped and pre-escaped for raw, still gives a matching template |
| Scenarios.HasRespelledDeep | spec/eim_xml_spec.rb:415-419 | `has?(d)` holds for `d` holding pre-escaped "text", "&" and pre-escaped "&lt;" |
| Scenarios.NoSubHasAttr2 | spec/eim_xml_spec.rb:403 | neither `sub` element matches `(:sub, :attr=>"value", :attr2=>"")` |
| Scenarios.NothingFoundBelowBase | spec/eim_xml_spec.rb:403 | nothing below the root matches that pattern |
| Scenarios.HasNotWithEmptyAttribute | spec/eim_xml_spec.rb:403 | `has?(:sub, :attr=>"value", :attr2=>"")` fails: an empty string does not stand for an absent attribute |
| Scenarios.ContentsOfOne | spec/eim_xml_spec.rb:163-165 | the markup of one content item |
| Scenarios.ContentsOfTwo | spec/eim_xml_spec.rb:166-167 | the markup of two content items, in order |
| Scenarios.WriteBare | spec/eim_xml_spec.rb:163-173 | an element with contents and no attributes is written `<n>…</n>` |
| Scenarios.WriteEmptyElement | spec/eim_xml_spec.rb:161 | `Element.new("e")` is written `<e />` |
| Scenarios.WriteSiblings | spec/eim_xml_spec.rb:163-167 | `<super><sub /><sub2 /></super>`: siblings are written in order |
| Scenarios.WriteEmptyChild | spec/eim_xml_spec.rb:163-165 | an empty child is written `<sub />` |
| Scenarios.WriteTextChild | spec/eim_xml_spec.rb:170-172 | a child holding plain text is written `<sub>content2</sub>` |
| Scenarios.WriteNestedText | spec/eim_xml_spec.rb:169-173 | `<super>content1<sub>content2</sub></super>` for any plain texts |
| Scenarios.WriteTextAndChild | spec/eim_xml_spec.rb:169-173 | plain text followed by a child is the text followed by the child's markup |
| Scenarios.WriteSymbol | spec/eim_xml_spec.rb:150-152 | an element holding a symbol is written with the symbol's name as its text |
| Scenarios.WriteWithContents | spec/eim_xml_spec.rb:159-173 | the markup of an element with contents, attributes included, spelled out |
| Scenarios.WrittenStringAttribute | spec/eim_xml_spec.rb:176-180 | a string attribute is written ` key='escaped text'` |
| Scenarios.EncodeAttributeSpecials | spec/eim_xml_spec.rb:181 | `'"<>&` escapes to `&apos;&quot;&lt;&gt;&amp;` |
| Scenarios.WriteEscapedAttributeValue | spec/eim_xml_spec.rb:177-181 | `attributes["a2"] = "'\"<>&"` is written ` a2='&apos;&quot;&lt;&gt;&amp;'` |
| Scenarios.WriteFourAttributes | spec/eim_xml_spec.rb:184-190 | of four attributes whose last two are nil and false, only the first two are written |
| Scenarios.WrittenTrueAttribute | spec/eim_xml_spec.rb:185-189 | a `true` attribute is written ` key='true'` |
| Scenarios.WriteOmittedAttributes | spec/eim_xml_spec.rb:185-189 | `:attr1=>"1", :attr2=>true, :attr3=>nil, :attr4=>false` is written ` attr1='1' attr2='true'` |
| Scenarios.WritePreEscapedAttribute | spec/eim_xml_spec.rb:205-206 | a pre-escaped PCString attribute is written verbatim |
| Scenarios.WriteRawThenPreEscaped | spec/eim_xml_spec.rb:203-206 | raw text is escaped and a pre-escaped PCString is written verbatim, in order |
| Scenarios.WriteMixedEscaping | spec/eim_xml_spec.rb:202-206 | the whole element of the escaping example: verbatim attribute, escaped text, verbatim PCString |
| Scenarios.EqualToItself | spec/eim_xml_spec.rb:241-248 | the example element equals its copy |
| Scenarios.UnequalName | spec/eim_xml_spec.rb:250-255 | another name breaks equality |
| Scenarios.UnequalKey | spec/eim_xml_spec.rb:257-262 | another attribute key alone, with the same name, breaks equality |
| Scenarios.UnequalValue | spec/eim_xml_spec.rb:264-269 | another attribute value alone breaks equality |
| Scenarios.UnequalGrandchild | spec/eim_xml_spec.rb:271-276 | another text in a child alone breaks equality |
| Scenarios.UnequalChildName | spec/eim_xml_spec.rb:278-283 | another name on a child alone breaks equality |
| Scenarios.TestTreesUnequal | spec/eim_xml_spec.rb:257-283 | the four trees as the tests build them, each named "e", are unequal to the base element |
| Scenarios.TestTreesMissAttributesAndContents | spec/eim_xml_spec.rb:257-283 | those four trees differ from the base in name, so the tests pass even for a comparison of names alone, which the "el"-named trees would not |
| Scenarios.StringIsNotElement | spec/eim_xml_spec.rb:285 | a string never equals an element |

## Left out

- Regexes.RegexMatches: a regular expression is reduced to its source read as a literal pattern, which matches where it occurs as a substring. Metacharacters, anchors and options are not interpreted. Every regex the example file matches with is literal.
- Matching.IsKind: class patterns are a closed set of kinds. The `Dummy` subclass (spec/eim_xml_spec.rb:81-98, 349), the private `name=` setter and renaming are not modelled.
- Object identity (`equal?`, `object_id`, spec/eim_xml_spec.rb:56, 219-220) is modelled only as object references: the same buffer is returned, and a copy holds the same container objects. `PCString[pcs]` returning `pcs` itself (spec/eim_xml_spec.rb:26) becomes value equality of the datatype (`Xml.Coerce`). The block form at spec/eim_xml_spec.rb:302 is not modelled, as listed below.
- Elements.Element.Add: children are stored as value snapshots (`Xml.Tree`). A change made to a child element after it was added is not seen by its parent.
- The block form of `Element.new` and the `EDSL.element` builder (spec/eim_xml_spec.rb:295-320, 355-361) are sugar for ordinary construction. The templates of lines 355-361 are written as plain trees.
- Xml.Value: a comment is compared by its text, and `Freeze`d strings (spec/eim_xml_spec.rb:213) are plain strings.
- The default destination of `write_to` (a new empty string) is an empty `Buffer` passed by the caller.
- Elements.WriteAttrs: attributes are written in table order. The example file sorts them before comparing (spec/eim_xml_spec.rb:189), so no order is promised.
- The whole-string shape test of spec/eim_xml_spec.rb:179 and 186-187 is not restated. The attribute text and the start-tag form it checks are proved in pieces.
- ElementScenarios.AddSymbolExample: stated for every symbol whose name needs no escaping, `:symbol` among them, rather than for the literal alone.
- Scenarios.OneHyphenComment: stated for any text with one hyphen between hyphen-free parts, of which `multi-line\ncomment` is one. Line 68's `flat comment` has no hyphen at all.
- Scenarios.WriteNestedText and Scenarios.WriteSiblings: stated for any plain names and texts rather than the literals `super`, `sub`, `content1` and `content2`.
- `e << Element.new("sub")` on a receiver named `super` (spec/eim_xml_spec.rb:154-156) is the same behaviour as ElementScenarios.AddReturnsReceiverExample and has no scenario of its own.
- `has_element?` and `include?` are aliases of `has?` and are not modelled separately.
- spec/assertions_test.rb is test-framework plumbing and is not part of this model.

## Findings

| source | as written | input that shows it | evidently intended | confidence | as-written member | corrected member |
|---|---|---|---|---|---|---|
| spec/eim_xml_spec.rb:257-262 | `e3` is named "e" and has `"k"=>"value"`, so it also differs from `e1` in name | an `==` that compares names only still makes `e3 != e1` hold | `e3` named "el", differing only in the key | medium, not executed | Scenarios.TestTreesMissAttributesAndContents | Scenarios.UnequalKey |
| spec/eim_xml_spec.rb:264-269 | `e3` is named "e" and has `"key"=>"v"` | an `==` that compares names only | `e3` named "el", differing only in the value | medium, not executed | Scenarios.TestTreesMissAttributesAndContents | Scenarios.UnequalValue |
| spec/eim_xml_spec.rb:271-276 | `e3` is named "e" and has the child `sub("S")` | an `==` that compares names only | `e3` named "el", differing only in the grandchild text | medium, not executed | Scenarios.TestTreesMissAttributesAndContents | Scenarios.UnequalGrandchild |
| spec/eim_xml_spec.rb:278-283 | `e3` is named "e" and has the child `s("String")` | an `==` that compares names only | `e3` named "el", differing only in the child's name | medium, not executed | Scenarios.TestTreesMissAttributesAndContents | Scenarios.UnequalChildName |

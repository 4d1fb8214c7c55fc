/**
 * Escaping of character data with the five predefined entities of
 * section 4.6 of XML 1.0 (Fifth Edition): `&lt; &gt; &amp; &apos; &quot;`.
 *
 * `Encode` is the library's `PCString.encode`; `Unescape` is its inverse,
 * the reading an XML processor gives to the escaped text, and is used here
 * only to state what escaping preserves.
 */
module Escaping {

  /** The characters that `Encode` replaces. */
  predicate IsSpecial(c: char) {
    c == '<' || c == '>' || c == '"' || c == '\'' || c == '&'
  }

  /** The replacement text of one character. */
  function EncodeChar(c: char): (r: string)
    ensures IsSpecial(c) ==> |r| >= 4 && r[0] == '&' && r[|r| - 1] == ';'
    ensures !IsSpecial(c) ==> r == [c]
  {
    match c
    case '<' => "&lt;"
    case '>' => "&gt;"
    case '"' => "&quot;"
    case '\'' => "&apos;"
    case '&' => "&amp;"
    case _ => [c]
  }

  /** Replaces every special character of `s` by its entity reference. */
  function Encode(s: string): string {
    if s == [] then [] else EncodeChar(s[0]) + Encode(s[1..])
  }

  /** Decodes the five predefined entity references; any other `&` is kept. */
  function Unescape(s: string): string {
    if s == [] then []
    else if |s| >= 4 && s[..4] == "&lt;" then ['<'] + Unescape(s[4..])
    else if |s| >= 4 && s[..4] == "&gt;" then ['>'] + Unescape(s[4..])
    else if |s| >= 5 && s[..5] == "&amp;" then ['&'] + Unescape(s[5..])
    else if |s| >= 6 && s[..6] == "&quot;" then ['"'] + Unescape(s[6..])
    else if |s| >= 6 && s[..6] == "&apos;" then ['\''] + Unescape(s[6..])
    else [s[0]] + Unescape(s[1..])
  }

  /** Text in which no markup-significant character except `&` occurs. */
  predicate NoMarkupChars(s: string) {
    forall i :: 0 <= i < |s| ==> s[i] != '<' && s[i] != '>' && s[i] != '"' && s[i] != '\''
  }

  /** Encoding distributes over concatenation. */
  lemma {:induction false} EncodeAppend(a: string, b: string)
    ensures Encode(a + b) == Encode(a) + Encode(b)
  {
    if a == [] {
      assert a + b == b;
    } else {
      assert (a + b)[0] == a[0] && (a + b)[1..] == a[1..] + b;
      EncodeAppend(a[1..], b);
      calc {
        Encode(a + b);
        EncodeChar(a[0]) + Encode(a[1..] + b);
        EncodeChar(a[0]) + (Encode(a[1..]) + Encode(b));
        (EncodeChar(a[0]) + Encode(a[1..])) + Encode(b);
        Encode(a) + Encode(b);
      }
    }
  }

  /** Text without special characters is its own encoding. */
  lemma {:induction false} EncodePlainText(s: string)
    requires forall i :: 0 <= i < |s| ==> !IsSpecial(s[i])
    ensures Encode(s) == s
  {
    if s != [] {
      EncodePlainText(s[1..]);
    }
  }

  /** The encoded text never contains `<`, `>`, `"` or `'`, so it may stand
      both in character data and inside a quoted attribute value. */
  lemma {:induction false} EncodeHasNoMarkupChars(s: string)
    ensures NoMarkupChars(Encode(s))
  {
    if s != [] {
      EncodeHasNoMarkupChars(s[1..]);
      var head, tail := EncodeChar(s[0]), Encode(s[1..]);
      assert Encode(s) == head + tail;
      forall i | 0 <= i < |head + tail|
        ensures (head + tail)[i] != '<' && (head + tail)[i] != '>'
        ensures (head + tail)[i] != '"' && (head + tail)[i] != '\''
      {
        if i >= |head| {
          assert (head + tail)[i] == tail[i - |head|];
        }
      }
    }
  }

  /** Decoding one replacement text in front of more escaped text. */
  lemma UnescapeEncodeChar(c: char, rest: string)
    ensures Unescape(EncodeChar(c) + rest) == [c] + Unescape(rest)
  {
    if c == '<' {
      UnescapeLt(rest);
    } else if c == '>' {
      UnescapeGt(rest);
    } else if c == '&' {
      UnescapeAmp(rest);
    } else if c == '"' {
      UnescapeQuot(rest);
    } else if c == '\'' {
      UnescapeApos(rest);
    } else {
      UnescapePlain(c, rest);
    }
  }

  lemma UnescapeLt(rest: string)
    ensures Unescape("&lt;" + rest) == "<" + Unescape(rest)
  {
    var s := "&lt;" + rest;
    assert s[..4] == "&lt;" && s[4..] == rest;
  }

  lemma UnescapeGt(rest: string)
    ensures Unescape("&gt;" + rest) == ">" + Unescape(rest)
  {
    var s := "&gt;" + rest;
    assert s[1] == 'g' && s[..4][1] == 'g';
    assert s[..4] == "&gt;" && s[4..] == rest;
  }

  lemma UnescapeAmp(rest: string)
    ensures Unescape("&amp;" + rest) == "&" + Unescape(rest)
  {
    var s := "&amp;" + rest;
    assert s[1] == 'a' && s[..4][1] == 'a';
    assert s[..5] == "&amp;" && s[5..] == rest;
  }

  lemma UnescapeQuot(rest: string)
    ensures Unescape("&quot;" + rest) == "\"" + Unescape(rest)
  {
    var s := "&quot;" + rest;
    assert s[1] == 'q' && s[..4][1] == 'q' && s[..5][1] == 'q';
    assert s[..6] == "&quot;" && s[6..] == rest;
  }

  lemma UnescapeApos(rest: string)
    ensures Unescape("&apos;" + rest) == "'" + Unescape(rest)
  {
    var s := "&apos;" + rest;
    assert s[1] == 'a' && s[2] == 'p';
    assert s[..4][1] == 'a' && s[..5][2] == 'p' && s[..6][1] == 'a';
    assert s[..6] == "&apos;" && s[6..] == rest;
  }

  lemma UnescapePlain(c: char, rest: string)
    requires !IsSpecial(c)
    ensures Unescape([c] + rest) == [c] + Unescape(rest)
  {
    var s := [c] + rest;
    assert s[0] == c && s[1..] == rest;
  }

  /** Escaping loses nothing: decoding the escaped text gives back the source. */
  lemma {:induction false} UnescapeEncode(s: string)
    ensures Unescape(Encode(s)) == s
  {
    if s != [] {
      UnescapeEncodeChar(s[0], Encode(s[1..]));
      UnescapeEncode(s[1..]);
    }
  }

  /** Two texts with the same escaped form are the same text. */
  lemma EncodeInjective(a: string, b: string)
    ensures Encode(a) == Encode(b) <==> a == b
  {
    if Encode(a) == Encode(b) {
      UnescapeEncode(a);
      UnescapeEncode(b);
    }
  }

  /** Escaping is not idempotent: entities already present are escaped again. */
  lemma EncodeNotIdempotent()
    ensures Encode("&amp;") == "&amp;amp;"
    ensures Encode(Encode("&")) != Encode("&")
  {
    assert Encode("&") == "&amp;";
  }

  /** Encoding a text of five characters, one character at a time. */
  lemma EncodeFive(a: char, b: char, c: char, d: char, e: char)
    ensures Encode([a, b, c, d, e]) == EncodeChar(a) + (EncodeChar(b) + (EncodeChar(c) + (EncodeChar(d) + EncodeChar(e))))
  {
    assert [a, b, c, d, e][1..] == [b, c, d, e];
    assert [b, c, d, e][1..] == [c, d, e];
    assert [c, d, e][1..] == [d, e];
    assert [d, e][1..] == [e];
    assert Encode([e]) == EncodeChar(e);
    assert Encode([d, e]) == EncodeChar(d) + EncodeChar(e);
    assert Encode([c, d, e]) == EncodeChar(c) + (EncodeChar(d) + EncodeChar(e));
    assert Encode([b, c, d, e]) == EncodeChar(b) + (EncodeChar(c) + (EncodeChar(d) + EncodeChar(e)));
  }

  /** `encode("<>\"'&")`: every special character replaced (spec/eim_xml_spec.rb:9). */
  lemma EncodeAllSpecials()
    ensures Encode("<>\"'&") == "&lt;&gt;&quot;&apos;&amp;"
  {
    EncodeFive('<', '>', '"', '\'', '&');
  }

  /** `encode("&test;")`: an entity-like text is escaped again (spec/eim_xml_spec.rb:10). */
  lemma EncodeEntityLikeText()
    ensures Encode("&test;") == "&amp;test;"
  {
    EncodePlainText("test;");
    assert "&test;"[1..] == "test;";
  }
}

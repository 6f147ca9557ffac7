/**
 * `htmlEscape`: six global replacements applied in turn, `&` first. Proved
 * equal to escaping each character on its own (so nothing is escaped
 * twice), free of the five special characters, and undone by entity
 * decoding.
 */
module HtmlEscape {

  /** `s.replace(new RegExp(c, 'g'), rep)` for a one-character pattern. */
  function ReplaceAll(s: string, c: char, rep: string): (r: string)
    ensures c !in s ==> r == s
    ensures c !in rep ==> c !in r
    decreases |s|
  {
    if |s| == 0 then ""
    else
      assert s == [s[0]] + s[1..];
      (if s[0] == c then rep else [s[0]]) + ReplaceAll(s[1..], c, rep)
  }

  // The six replacements of `htmlEscape`, in the order it applies them.
  // Each leaves a string without its character alone, and all but the
  // first leave none of their character behind.
  function Amp(s: string): (r: string)
    ensures '&' !in s ==> r == s
  { ReplaceAll(s, '&', "&amp;") }
  function Quot(s: string): (r: string)
    ensures '"' !in s ==> r == s
    ensures '"' !in r
  { ReplaceAll(s, '"', "&quot;") }
  function Apos(s: string): (r: string)
    ensures '\'' !in s ==> r == s
    ensures '\'' !in r
  { ReplaceAll(s, '\'', "&#39;") }
  function Lt(s: string): (r: string)
    ensures '<' !in s ==> r == s
    ensures '<' !in r
  { ReplaceAll(s, '<', "&lt;") }
  function Gt(s: string): (r: string)
    ensures '>' !in s ==> r == s
    ensures '>' !in r
  { ReplaceAll(s, '>', "&gt;") }
  function Slash(s: string): (r: string)
    ensures '/' !in s ==> r == s
    ensures '/' !in r
  { ReplaceAll(s, '/', "&#x2F;") }

  /**
   * `htmlEscape`. Because `&` is replaced first, the chain escapes every
   * character exactly once: it equals the per-character escape.
   */
  function HtmlEscape(s: string): (r: string)
    ensures r == EscapeEach(s)
  {
    ChainIsPerChar(s);
    Slash(Gt(Lt(Apos(Quot(Amp(s))))))
  }

  /** The entity a single character escapes to. */
  function EscapeChar(c: char): string
  {
    match c
    case '&' => "&amp;"
    case '"' => "&quot;"
    case '\'' => "&#39;"
    case '<' => "&lt;"
    case '>' => "&gt;"
    case '/' => "&#x2F;"
    case _ => [c]
  }

  /** Escaping character by character. */
  function EscapeEach(s: string): string
  {
    if |s| == 0 then "" else EscapeChar(s[0]) + EscapeEach(s[1..])
  }

  /** Decoding of the six entities `htmlEscape` produces, as a browser reads them. */
  function Unescape(s: string): string
    decreases |s|
  {
    if |s| == 0 then ""
    else if "&amp;" <= s then "&" + Unescape(s[5..])
    else if "&quot;" <= s then "\"" + Unescape(s[6..])
    else if "&#39;" <= s then "'" + Unescape(s[5..])
    else if "&lt;" <= s then "<" + Unescape(s[4..])
    else if "&gt;" <= s then ">" + Unescape(s[4..])
    else if "&#x2F;" <= s then "/" + Unescape(s[6..])
    else [s[0]] + Unescape(s[1..])
  }

  lemma {:induction false} ReplaceAllConcat(a: string, b: string, c: char, rep: string)
    ensures ReplaceAll(a + b, c, rep) == ReplaceAll(a, c, rep) + ReplaceAll(b, c, rep)
    decreases |a|
  {
    if |a| > 0 {
      assert (a + b)[1..] == a[1..] + b;
      ReplaceAllConcat(a[1..], b, c, rep);
    } else {
      assert a + b == b;
    }
  }

  lemma ChainConcat(a: string, b: string)
    ensures Slash(Gt(Lt(Apos(Quot(Amp(a + b)))))) == Slash(Gt(Lt(Apos(Quot(Amp(a)))))) + Slash(Gt(Lt(Apos(Quot(Amp(b))))))
  {
    ReplaceAllConcat(a, b, '&', "&amp;");
    var a1, b1 := Amp(a), Amp(b);
    ReplaceAllConcat(a1, b1, '"', "&quot;");
    var a2, b2 := Quot(a1), Quot(b1);
    ReplaceAllConcat(a2, b2, '\'', "&#39;");
    var a3, b3 := Apos(a2), Apos(b2);
    ReplaceAllConcat(a3, b3, '<', "&lt;");
    var a4, b4 := Lt(a3), Lt(b3);
    ReplaceAllConcat(a4, b4, '>', "&gt;");
    ReplaceAllConcat(Gt(a4), Gt(b4), '/', "&#x2F;");
  }

  lemma ReplaceOne(c: char, x: char, rep: string)
    ensures ReplaceAll([c], x, rep) == if c == x then rep else [c]
  {
  }

  // Each entity is left alone by the replacements that follow the one producing it.

  lemma AmpStable()
    ensures Slash(Gt(Lt(Apos(Quot("&amp;"))))) == "&amp;"
  {
    assert '"' !in "&amp;";
    assert '\'' !in "&amp;";
    assert '<' !in "&amp;";
    assert '>' !in "&amp;";
    assert '/' !in "&amp;";
  }

  lemma QuotStable()
    ensures Slash(Gt(Lt(Apos("&quot;")))) == "&quot;"
  {
    assert '\'' !in "&quot;";
    assert '<' !in "&quot;";
    assert '>' !in "&quot;";
    assert '/' !in "&quot;";
  }

  lemma AposStable()
    ensures Slash(Gt(Lt("&#39;"))) == "&#39;"
  {
    assert '<' !in "&#39;";
    assert '>' !in "&#39;";
    assert '/' !in "&#39;";
  }

  lemma LtStable()
    ensures Slash(Gt("&lt;")) == "&lt;"
  {
    assert '>' !in "&lt;";
    assert '/' !in "&lt;";
  }

  lemma GtStable()
    ensures Slash("&gt;") == "&gt;"
  {
    assert '/' !in "&gt;";
  }

  lemma ChainChar(c: char)
    ensures Slash(Gt(Lt(Apos(Quot(Amp([c])))))) == EscapeChar(c)
  {
    AmpStable();
    QuotStable();
    AposStable();
    LtStable();
    GtStable();
    ReplaceOne(c, '&', "&amp;");
    if c != '&' {
      ReplaceOne(c, '"', "&quot;");
      if c != '"' {
        ReplaceOne(c, '\'', "&#39;");
        if c != '\'' {
          ReplaceOne(c, '<', "&lt;");
          if c != '<' {
            ReplaceOne(c, '>', "&gt;");
            if c != '>' {
              ReplaceOne(c, '/', "&#x2F;");
            }
          }
        }
      }
    }
  }

  lemma {:induction false} ChainIsPerChar(s: string)
    ensures Slash(Gt(Lt(Apos(Quot(Amp(s)))))) == EscapeEach(s)
    decreases |s|
  {
    if |s| > 0 {
      assert s == [s[0]] + s[1..];
      ChainConcat([s[0]], s[1..]);
      ChainChar(s[0]);
      ChainIsPerChar(s[1..]);
    }
  }

  /** Escaping distributes over concatenation, so a text can be escaped piece by piece. */
  lemma HtmlEscapeConcat(a: string, b: string)
    ensures HtmlEscape(a + b) == HtmlEscape(a) + HtmlEscape(b)
  {
    EscapeEachConcat(a, b);
  }

  lemma {:induction false} EscapeEachConcat(a: string, b: string)
    ensures EscapeEach(a + b) == EscapeEach(a) + EscapeEach(b)
    decreases |a|
  {
    if |a| > 0 {
      assert (a + b)[1..] == a[1..] + b;
      EscapeEachConcat(a[1..], b);
    } else {
      assert a + b == b;
    }
  }

  predicate Special(c: char)
  {
    c == '"' || c == '\'' || c == '<' || c == '>' || c == '/'
  }

  lemma {:induction false} EscapeEachSafe(s: string)
    ensures forall i :: 0 <= i < |EscapeEach(s)| ==> !Special(EscapeEach(s)[i])
    decreases |s|
  {
    if |s| > 0 {
      EscapeEachSafe(s[1..]);
      var e, r := EscapeChar(s[0]), EscapeEach(s[1..]);
      assert forall i :: 0 <= i < |e| ==> !Special(e[i]);
      forall i | 0 <= i < |e + r| ensures !Special((e + r)[i]) {
        if i >= |e| { assert (e + r)[i] == r[i - |e|]; }
      }
    }
  }

  /** The escaped text holds none of `" ' < > /`. */
  lemma HtmlEscapeSafe(s: string)
    ensures forall i :: 0 <= i < |HtmlEscape(s)| ==> !Special(HtmlEscape(s)[i])
  {
    EscapeEachSafe(s);
  }

  /** The six entities decode to their characters. */
  lemma UnescapeEntity(c: char, rest: string)
    requires c == '&' || c == '"' || c == '\'' || c == '<' || c == '>' || c == '/'
    ensures Unescape(EscapeChar(c) + rest) == [c] + Unescape(rest)
  {
    var s := EscapeChar(c) + rest;
    if c == '&' {
      assert "&amp;" <= s && s[5..] == rest;
    } else if c == '"' {
      assert s[1] == 'q' && "&quot;" <= s && s[6..] == rest;
    } else if c == '\'' {
      assert s[1] == '#' && s[2] == '3' && "&#39;" <= s && s[5..] == rest;
    } else if c == '<' {
      assert s[1] == 'l' && "&lt;" <= s && s[4..] == rest;
    } else if c == '>' {
      assert s[1] == 'g' && "&gt;" <= s && s[4..] == rest;
    } else {
      assert s[1] == '#' && s[2] == 'x' && "&#x2F;" <= s && s[6..] == rest;
    }
  }

  lemma UnescapeChar(c: char, rest: string)
    ensures Unescape(EscapeChar(c) + rest) == [c] + Unescape(rest)
  {
    if c == '&' || c == '"' || c == '\'' || c == '<' || c == '>' || c == '/' {
      UnescapeEntity(c, rest);
    } else {
      var s := EscapeChar(c) + rest;
      assert s[0] == c && s[1..] == rest;
    }
  }

  /** Decoding the entities gives the original text back. */
  lemma {:induction false} UnescapeEscape(s: string)
    ensures Unescape(HtmlEscape(s)) == s
  {
    UnescapeEach(s);
  }

  lemma {:induction false} UnescapeEach(s: string)
    ensures Unescape(EscapeEach(s)) == s
    decreases |s|
  {
    if |s| > 0 {
      UnescapeChar(s[0], EscapeEach(s[1..]));
      UnescapeEach(s[1..]);
      assert s == [s[0]] + s[1..];
    }
  }
}

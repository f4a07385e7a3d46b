/**
  HTML escaping of text with quotes included: `&`, `<`, `>`, `"` and `'`
  become `&amp;`, `&lt;`, `&gt;`, `&quot;` and `&#x27;`, by five successive
  replacements, `&` first.
*/
module HtmlEscape {

  /** `s` with every occurrence of `c` replaced by `rep`. */
  function Replace(s: string, c: char, rep: string): string
  {
    if s == [] then []
    else (if s[0] == c then rep else [s[0]]) + Replace(s[1..], c, rep)
  }

  /** The escaping, as five replacements applied in turn. */
  function Escape(s: string): string
  {
    var amp := Replace(s, '&', "&amp;");
    var lt := Replace(amp, '<', "&lt;");
    var gt := Replace(lt, '>', "&gt;");
    var quot := Replace(gt, '"', "&quot;");
    Replace(quot, '\'', "&#x27;")
  }

  /** The escaping of a single character. */
  function EscapeChar(c: char): string
  {
    match c
    case '&' => "&amp;"
    case '<' => "&lt;"
    case '>' => "&gt;"
    case '"' => "&quot;"
    case '\'' => "&#x27;"
    case _ => [c]
  }

  /** Escaping character by character, a reference definition. */
  function EscapeEach(s: string): string
  {
    if s == [] then [] else EscapeChar(s[0]) + EscapeEach(s[1..])
  }

  /** Reads the five entities back as the characters they stand for. */
  function Unescape(t: string): string
  {
    if t == [] then []
    else if |t| >= 5 && t[..5] == "&amp;" then "&" + Unescape(t[5..])
    else if |t| >= 4 && t[..4] == "&lt;" then "<" + Unescape(t[4..])
    else if |t| >= 4 && t[..4] == "&gt;" then ">" + Unescape(t[4..])
    else if |t| >= 6 && t[..6] == "&quot;" then "\"" + Unescape(t[6..])
    else if |t| >= 6 && t[..6] == "&#x27;" then "'" + Unescape(t[6..])
    else [t[0]] + Unescape(t[1..])
  }

  lemma {:induction false} ReplaceAppend(a: string, b: string, c: char, rep: string)
    ensures Replace(a + b, c, rep) == Replace(a, c, rep) + Replace(b, c, rep)
  {
    if a == [] {
      assert a + b == b;
    } else {
      assert (a + b)[0] == a[0] && (a + b)[1..] == a[1..] + b;
      ReplaceAppend(a[1..], b, c, rep);
    }
  }

  lemma {:induction false} ReplaceAbsent(s: string, c: char, rep: string)
    requires c !in s
    ensures Replace(s, c, rep) == s
  {
    if s != [] {
      assert s == [s[0]] + s[1..];
      ReplaceAbsent(s[1..], c, rep);
    }
  }

  lemma {:induction false} ReplaceSingle(x: char, c: char, rep: string)
    ensures Replace([x], c, rep) == if x == c then rep else [x]
  {
    assert [x][1..] == [];
  }

  /** The last four replacements leave alone a text with none of their characters. */
  lemma {:induction false} EscapeTail(t: string)
    requires '<' !in t && '>' !in t && '"' !in t && '\'' !in t
    ensures Replace(Replace(Replace(Replace(t, '<', "&lt;"), '>', "&gt;"), '"', "&quot;"), '\'', "&#x27;") == t
  {
    ReplaceAbsent(t, '<', "&lt;");
    EscapeTail3(t);
  }

  lemma {:induction false} EscapeTail3(t: string)
    requires '>' !in t && '"' !in t && '\'' !in t
    ensures Replace(Replace(Replace(t, '>', "&gt;"), '"', "&quot;"), '\'', "&#x27;") == t
  {
    ReplaceAbsent(t, '>', "&gt;");
    EscapeTail2(t);
  }

  lemma {:induction false} EscapeTail2(t: string)
    requires '"' !in t && '\'' !in t
    ensures Replace(Replace(t, '"', "&quot;"), '\'', "&#x27;") == t
  {
    ReplaceAbsent(t, '"', "&quot;");
    ReplaceAbsent(t, '\'', "&#x27;");
  }

  lemma {:induction false} EscapeAmp(c: char)
    requires c == '&'
    ensures Escape([c]) == "&amp;"
  {
    var amp := Replace([c], '&', "&amp;");
    ReplaceSingle(c, '&', "&amp;");
    assert amp == "&amp;";
    EscapeTail(amp);
  }

  lemma {:induction false} EscapeLt(c: char)
    requires c == '<'
    ensures Escape([c]) == "&lt;"
  {
    var amp := Replace([c], '&', "&amp;");
    var lt := Replace(amp, '<', "&lt;");
    ReplaceSingle(c, '&', "&amp;");
    ReplaceSingle(c, '<', "&lt;");
    assert lt == "&lt;";
    EscapeTail3(lt);
  }

  lemma {:induction false} EscapeGt(c: char)
    requires c == '>'
    ensures Escape([c]) == "&gt;"
  {
    var amp := Replace([c], '&', "&amp;");
    var lt := Replace(amp, '<', "&lt;");
    var gt := Replace(lt, '>', "&gt;");
    ReplaceSingle(c, '&', "&amp;");
    ReplaceSingle(c, '<', "&lt;");
    ReplaceSingle(c, '>', "&gt;");
    assert gt == "&gt;";
    EscapeTail2(gt);
  }

  lemma {:induction false} EscapeQuot(c: char)
    requires c == '"'
    ensures Escape([c]) == "&quot;"
  {
    var amp := Replace([c], '&', "&amp;");
    var lt := Replace(amp, '<', "&lt;");
    var gt := Replace(lt, '>', "&gt;");
    var quot := Replace(gt, '"', "&quot;");
    ReplaceSingle(c, '&', "&amp;");
    ReplaceSingle(c, '<', "&lt;");
    ReplaceSingle(c, '>', "&gt;");
    ReplaceSingle(c, '"', "&quot;");
    assert quot == "&quot;";
    ReplaceAbsent(quot, '\'', "&#x27;");
  }

  lemma {:induction false} EscapeApos(c: char)
    requires c == '\''
    ensures Escape([c]) == "&#x27;"
  {
    var amp := Replace([c], '&', "&amp;");
    var lt := Replace(amp, '<', "&lt;");
    var gt := Replace(lt, '>', "&gt;");
    var quot := Replace(gt, '"', "&quot;");
    ReplaceSingle(c, '&', "&amp;");
    ReplaceSingle(c, '<', "&lt;");
    ReplaceSingle(c, '>', "&gt;");
    ReplaceSingle(c, '"', "&quot;");
    assert quot == [c];
    ReplaceSingle(c, '\'', "&#x27;");
  }

  lemma {:induction false} EscapeSingle(c: char)
    ensures Escape([c]) == EscapeChar(c)
  {
    if c == '&' {
      EscapeAmp(c);
    } else if c == '<' {
      EscapeLt(c);
    } else if c == '>' {
      EscapeGt(c);
    } else if c == '"' {
      EscapeQuot(c);
    } else if c == '\'' {
      EscapeApos(c);
    } else {
      ReplaceAbsent([c], '&', "&amp;");
      EscapeTail([c]);
    }
  }

  lemma {:induction false} EscapeAppend(a: string, b: string)
    ensures Escape(a + b) == Escape(a) + Escape(b)
  {
    ReplaceAppend(a, b, '&', "&amp;");
    var a1, b1 := Replace(a, '&', "&amp;"), Replace(b, '&', "&amp;");
    ReplaceAppend(a1, b1, '<', "&lt;");
    var a2, b2 := Replace(a1, '<', "&lt;"), Replace(b1, '<', "&lt;");
    ReplaceAppend(a2, b2, '>', "&gt;");
    var a3, b3 := Replace(a2, '>', "&gt;"), Replace(b2, '>', "&gt;");
    ReplaceAppend(a3, b3, '"', "&quot;");
    var a4, b4 := Replace(a3, '"', "&quot;"), Replace(b3, '"', "&quot;");
    ReplaceAppend(a4, b4, '\'', "&#x27;");
  }

  /** The five successive replacements escape each character on its own:
      no replacement rewrites text an earlier one produced. */
  lemma {:induction false} EscapeIsCharwise(s: string)
    ensures Escape(s) == EscapeEach(s)
  {
    if s == [] {
    } else {
      assert s == [s[0]] + s[1..];
      EscapeAppend([s[0]], s[1..]);
      EscapeSingle(s[0]);
      EscapeIsCharwise(s[1..]);
    }
  }

  /** The text holds none of `<`, `>`, `"` and `'`. */
  predicate NoMarkup(t: string)
  {
    '<' !in t && '>' !in t && '"' !in t && '\'' !in t
  }

  lemma {:induction false} EscapeCharNoMarkup(c: char)
    ensures NoMarkup(EscapeChar(c))
  {
  }

  lemma {:induction false} NoMarkupAppend(a: string, b: string)
    requires NoMarkup(a) && NoMarkup(b)
    ensures NoMarkup(a + b)
  {
  }

  lemma {:induction false} EscapeEachNoMarkup(s: string)
    ensures NoMarkup(EscapeEach(s))
  {
    if s != [] {
      EscapeEachNoMarkup(s[1..]);
      EscapeCharNoMarkup(s[0]);
      NoMarkupAppend(EscapeChar(s[0]), EscapeEach(s[1..]));
    }
  }

  /** Escaped text holds no raw `<`, `>`, `"` or `'`. */
  lemma {:induction false} EscapeLeavesNoMarkup(s: string)
    ensures var t := Escape(s); '<' !in t && '>' !in t && '"' !in t && '\'' !in t
  {
    EscapeIsCharwise(s);
    EscapeEachNoMarkup(s);
  }

  lemma {:induction false} UnescapeAmp(rest: string)
    ensures Unescape("&amp;" + rest) == "&" + Unescape(rest)
  {
    var t := "&amp;" + rest;
    assert t[..5] == "&amp;" && t[5..] == rest;
  }

  lemma {:induction false} UnescapeLt(rest: string)
    ensures Unescape("&lt;" + rest) == "<" + Unescape(rest)
  {
    var t := "&lt;" + rest;
    assert t[1] == 'l';
    assert |t| >= 5 ==> t[..5] != "&amp;" by {
      if |t| >= 5 { assert t[..5][1] == 'l'; }
    }
    assert t[..4] == "&lt;" && t[4..] == rest;
  }

  lemma {:induction false} UnescapeGt(rest: string)
    ensures Unescape("&gt;" + rest) == ">" + Unescape(rest)
  {
    var t := "&gt;" + rest;
    assert t[1] == 'g';
    assert |t| >= 5 ==> t[..5] != "&amp;" by {
      if |t| >= 5 { assert t[..5][1] == 'g'; }
    }
    assert t[..4] != "&lt;" by {
      assert t[..4][1] == 'g';
    }
    assert t[..4] == "&gt;" && t[4..] == rest;
  }

  lemma {:induction false} UnescapeQuot(rest: string)
    ensures Unescape("&quot;" + rest) == "\"" + Unescape(rest)
  {
    var t := "&quot;" + rest;
    assert t[..5] != "&amp;" by {
      assert t[..5][1] == 'q';
    }
    assert t[..4] != "&lt;" && t[..4] != "&gt;" by {
      assert t[..4][1] == 'q';
    }
    assert t[..6] == "&quot;" && t[6..] == rest;
  }

  lemma {:induction false} UnescapeApos(rest: string)
    ensures Unescape("&#x27;" + rest) == "'" + Unescape(rest)
  {
    var t := "&#x27;" + rest;
    assert t[..5] != "&amp;" by {
      assert t[..5][1] == '#';
    }
    assert t[..4] != "&lt;" && t[..4] != "&gt;" by {
      assert t[..4][1] == '#';
    }
    assert t[..6] != "&quot;" by {
      assert t[..6][1] == '#';
    }
    assert t[..6] == "&#x27;" && t[6..] == rest;
  }

  lemma {:induction false} UnescapePlain(c: char, rest: string)
    requires c != '&'
    ensures Unescape([c] + rest) == [c] + Unescape(rest)
  {
    var t := [c] + rest;
    assert t[0] == c && t[1..] == rest;
    assert |t| >= 5 ==> t[..5][0] == c;
    assert |t| >= 4 ==> t[..4][0] == c;
    assert |t| >= 6 ==> t[..6][0] == c;
  }

  /** Reading back the escaping of one character gives that character. */
  lemma {:induction false} UnescapeEscapeChar(c: char, rest: string)
    ensures Unescape(EscapeChar(c) + rest) == [c] + Unescape(rest)
  {
    if c == '&' {
      UnescapeAmp(rest);
    } else if c == '<' {
      UnescapeLt(rest);
    } else if c == '>' {
      UnescapeGt(rest);
    } else if c == '"' {
      UnescapeQuot(rest);
    } else if c == '\'' {
      UnescapeApos(rest);
    } else {
      UnescapePlain(c, rest);
    }
  }

  /** Escaping loses nothing: reading the entities back gives the text. */
  lemma {:induction false} UnescapeEscape(s: string)
    ensures Unescape(Escape(s)) == s
  {
    EscapeIsCharwise(s);
    UnescapeEscapeEach(s);
  }

  lemma {:induction false} UnescapeEscapeEach(s: string)
    ensures Unescape(EscapeEach(s)) == s
  {
    if s != [] {
      UnescapeEscapeChar(s[0], EscapeEach(s[1..]));
      UnescapeEscapeEach(s[1..]);
      assert s == [s[0]] + s[1..];
    }
  }
}

/**
 * HTML escaping of the free text the report embeds: Python's
 * `html.escape(s)` (quote=True), which replaces `&` first and then
 * `<`, `>`, `"` and `'` by their character references.
 */
module Html {

  /** `s.replace(c, rep)` for a one-character pattern. */
  function Replace(s: string, c: char, rep: string): (r: string)
    ensures c !in rep ==> c !in r
    ensures c !in s ==> r == s
  {
    if s == [] then [] else (if s[0] == c then rep else [s[0]]) + Replace(s[1..], c, rep)
  }

  /** `html.escape(s)`: the five replacements in the order the library applies them. */
  function Escape(s: string): string
  {
    var amp := Replace(s, '&', "&amp;");
    var lt := Replace(amp, '<', "&lt;");
    var gt := Replace(lt, '>', "&gt;");
    var quot := Replace(gt, '"', "&quot;");
    Replace(quot, '\'', "&#x27;")
  }

  predicate IsMarkup(c: char)
  {
    c == '&' || c == '<' || c == '>' || c == '"' || c == '\''
  }

  /** The reference that stands for one character in escaped text. */
  function Entity(c: char): string
  {
    match c
    case '&' => "&amp;"
    case '<' => "&lt;"
    case '>' => "&gt;"
    case '"' => "&quot;"
    case '\'' => "&#x27;"
    case _ => [c]
  }

  /** Escaping one character at a time: the reading in which no reference is escaped twice. */
  function EscapeEach(s: string): string
  {
    if s == [] then [] else Entity(s[0]) + EscapeEach(s[1..])
  }

  /** The inverse of escaping: each of the five references back to its character. */
  function Unescape(s: string): string
  {
    if s == [] then []
    else if |s| >= 5 && s[..5] == "&amp;" then "&" + Unescape(s[5..])
    else if |s| >= 4 && s[..4] == "&lt;" then "<" + Unescape(s[4..])
    else if |s| >= 4 && s[..4] == "&gt;" then ">" + Unescape(s[4..])
    else if |s| >= 6 && s[..6] == "&quot;" then "\"" + Unescape(s[6..])
    else if |s| >= 6 && s[..6] == "&#x27;" then "'" + Unescape(s[6..])
    else [s[0]] + Unescape(s[1..])
  }

  lemma {:induction false} ReplaceAppend(a: string, b: string, c: char, rep: string)
    ensures Replace(a + b, c, rep) == Replace(a, c, rep) + Replace(b, c, rep)
  {
    if a != [] {
      var h := if a[0] == c then rep else [a[0]];
      assert (a + b)[0] == a[0];
      assert (a + b)[1..] == a[1..] + b;
      assert Replace(a + b, c, rep) == h + Replace(a[1..] + b, c, rep);
      assert Replace(a, c, rep) == h + Replace(a[1..], c, rep);
      ReplaceAppend(a[1..], b, c, rep);
      assert h + (Replace(a[1..], c, rep) + Replace(b, c, rep))
          == (h + Replace(a[1..], c, rep)) + Replace(b, c, rep);
    } else {
      assert a + b == b;
    }
  }

  lemma EscapeAppend(a: string, b: string)
    ensures Escape(a + b) == Escape(a) + Escape(b)
  {
    var amp := Replace(a + b, '&', "&amp;");
    ReplaceAppend(a, b, '&', "&amp;");
    var a1, b1 := Replace(a, '&', "&amp;"), Replace(b, '&', "&amp;");
    ReplaceAppend(a1, b1, '<', "&lt;");
    var a2, b2 := Replace(a1, '<', "&lt;"), Replace(b1, '<', "&lt;");
    ReplaceAppend(a2, b2, '>', "&gt;");
    var a3, b3 := Replace(a2, '>', "&gt;"), Replace(b2, '>', "&gt;");
    ReplaceAppend(a3, b3, '"', "&quot;");
    var a4, b4 := Replace(a3, '"', "&quot;"), Replace(b3, '"', "&quot;");
    ReplaceAppend(a4, b4, '\'', "&#x27;");
  }

  lemma ReplaceSingle(x: char, c: char, rep: string)
    ensures Replace([x], c, rep) == if x == c then rep else [x]
  {
    assert [x][1..] == [];
  }

  /** Escaping a character that is not markup leaves it as it is. */
  lemma EscapePlain(c: char)
    requires !IsMarkup(c)
    ensures Escape([c]) == [c]
  {
  }

  lemma EscapeAmp()
    ensures Escape("&") == "&amp;"
  {
    ReplaceSingle('&', '&', "&amp;");
    assert '<' !in "&amp;" && '>' !in "&amp;" && '"' !in "&amp;" && '\'' !in "&amp;";
  }

  lemma EscapeLt()
    ensures Escape("<") == "&lt;"
  {
    ReplaceSingle('<', '<', "&lt;");
    assert '>' !in "&lt;" && '"' !in "&lt;" && '\'' !in "&lt;";
  }

  lemma EscapeGt()
    ensures Escape(">") == "&gt;"
  {
    ReplaceSingle('>', '>', "&gt;");
    assert '"' !in "&gt;" && '\'' !in "&gt;";
  }

  lemma EscapeQuot()
    ensures Escape("\"") == "&quot;"
  {
    ReplaceSingle('"', '"', "&quot;");
    assert '\'' !in "&quot;";
  }

  lemma EscapeApos()
    ensures Escape("'") == "&#x27;"
  {
    ReplaceSingle('\'', '\'', "&#x27;");
  }

  lemma EscapeOne(c: char)
    ensures Escape([c]) == Entity(c)
  {
    match c
    case '&' => EscapeAmp();
    case '<' => EscapeLt();
    case '>' => EscapeGt();
    case '"' => EscapeQuot();
    case '\'' => EscapeApos();
    case _ => EscapePlain(c);
  }

  /**
   * Replacing `&` before the other four characters makes the chained
   * replacements equal to escaping each character once: no reference the
   * later steps introduce is escaped again.
   */
  lemma {:induction false} EscapeIsPerCharacter(s: string)
    ensures Escape(s) == EscapeEach(s)
  {
    if s != [] {
      assert s == [s[0]] + s[1..];
      EscapeAppend([s[0]], s[1..]);
      EscapeOne(s[0]);
      EscapeIsPerCharacter(s[1..]);
    }
  }

  lemma UnescapeAmp(rest: string)
    ensures Unescape("&amp;" + rest) == "&" + Unescape(rest)
  {
    var e := "&amp;" + rest;
    assert e[..5] == "&amp;" && e[5..] == rest;
  }

  lemma UnescapeLt(rest: string)
    ensures Unescape("&lt;" + rest) == "<" + Unescape(rest)
  {
    var e := "&lt;" + rest;
    assert e[..4] == "&lt;" && e[4..] == rest;
    assert e[1] == 'l';
    assert |e| < 5 || e[..5] != "&amp;";
  }

  lemma UnescapeGt(rest: string)
    ensures Unescape("&gt;" + rest) == ">" + Unescape(rest)
  {
    var e := "&gt;" + rest;
    assert e[..4] == "&gt;" && e[4..] == rest;
    assert e[1] == 'g';
    assert |e| < 5 || e[..5] != "&amp;";
    assert e[..4] != "&lt;";
  }

  lemma UnescapeQuot(rest: string)
    ensures Unescape("&quot;" + rest) == "\"" + Unescape(rest)
  {
    var e := "&quot;" + rest;
    assert e[..6] == "&quot;" && e[6..] == rest;
    assert e[1] == 'q';
    assert e[..5] != "&amp;" && e[..4] != "&lt;" && e[..4] != "&gt;";
  }

  lemma UnescapeApos(rest: string)
    ensures Unescape("&#x27;" + rest) == "'" + Unescape(rest)
  {
    var e := "&#x27;" + rest;
    assert e[..6] == "&#x27;" && e[6..] == rest;
    assert e[1] == '#';
    assert e[..5] != "&amp;" && e[..4] != "&lt;" && e[..4] != "&gt;" && e[..6] != "&quot;";
  }

  lemma UnescapePlain(c: char, rest: string)
    requires !IsMarkup(c)
    ensures Unescape([c] + rest) == [c] + Unescape(rest)
  {
    var e := [c] + rest;
    assert e[0] == c && e[1..] == rest;
    assert |e| < 4 || (e[..4][0] == c && e[..4] != "&lt;" && e[..4] != "&gt;");
    assert |e| < 5 || (e[..5][0] == c && e[..5] != "&amp;");
    assert |e| < 6 || (e[..6][0] == c && e[..6] != "&quot;" && e[..6] != "&#x27;");
  }

  /** Each reference unescapes to the character it stands for, whatever follows it. */
  lemma UnescapeEntity(c: char, rest: string)
    ensures Unescape(Entity(c) + rest) == [c] + Unescape(rest)
  {
    match c
    case '&' => UnescapeAmp(rest);
    case '<' => UnescapeLt(rest);
    case '>' => UnescapeGt(rest);
    case '"' => UnescapeQuot(rest);
    case '\'' => UnescapeApos(rest);
    case _ => UnescapePlain(c, rest);
  }

  /** Escaping loses nothing: unescaping the escaped text gives the original back. */
  lemma {:induction false} EscapeRoundTrip(s: string)
    ensures Unescape(Escape(s)) == s
  {
    EscapeIsPerCharacter(s);
    EscapeEachRoundTrip(s);
  }

  lemma {:induction false} EscapeEachRoundTrip(s: string)
    ensures Unescape(EscapeEach(s)) == s
  {
    if s != [] {
      UnescapeEntity(s[0], EscapeEach(s[1..]));
      EscapeEachRoundTrip(s[1..]);
      assert s == [s[0]] + s[1..];
    }
  }

  /** Escaped text holds no `<`, `>`, `"` or `'`, so a field cannot open or close markup. */
  lemma {:induction false} EscapeRemovesMarkup(s: string)
    ensures forall k :: 0 <= k < |Escape(s)| ==> Escape(s)[k] !in "<>\"'"
    ensures |Escape(s)| >= |s|
  {
    EscapeIsPerCharacter(s);
    EscapeEachClean(s);
  }

  lemma {:induction false} EscapeEachClean(s: string)
    ensures forall k :: 0 <= k < |EscapeEach(s)| ==> EscapeEach(s)[k] !in "<>\"'"
    ensures |EscapeEach(s)| >= |s|
  {
    if s != [] {
      EscapeEachClean(s[1..]);
      var e, t := Entity(s[0]), EscapeEach(s[1..]);
      assert EscapeEach(s) == e + t;
      forall k | 0 <= k < |e + t| ensures (e + t)[k] !in "<>\"'" {
        if k >= |e| { assert (e + t)[k] == t[k - |e|]; }
      }
    }
  }
}

/**
 The escaper `text_to_html`: six `str.replace` passes applied in a fixed
 order. It is modelled twice — as the pass chain the source runs and as a
 per-character map — and the two are proved equal, which in turn gives
 the escaper's distribution over concatenation, its output alphabet and
 its inverse up to tab expansion.
 */
module Html {
  import opened Strings

  const Nbsp: string := "&nbsp;"

  /** `text_to_html` as written: `&` first, then `<`, `>`, `"`, space and tab,
      each pass operating on the previous pass's result. No pass shortens the
      text; `TextToHtmlIsEscape` gives the result exactly. */
  function TextToHtml(s: string): (r: string)
    ensures |r| >= |s|
  {
    var s1 := ReplaceChar(s, '&', "&amp;");
    var s2 := ReplaceChar(s1, '<', "&lt;");
    var s3 := ReplaceChar(s2, '>', "&gt;");
    var s4 := ReplaceChar(s3, '"', "&quot;");
    var s5 := ReplaceChar(s4, ' ', Nbsp);
    ReplaceChar(s5, '\t', Nbsp + Nbsp + Nbsp + Nbsp)
  }

  /** True iff `c` never appears in escaped text. */
  predicate Unsafe(c: char)
  {
    c == '<' || c == '>' || c == '"' || c == ' ' || c == '\t'
  }

  /** True iff `s` holds no character the escaper removes. */
  predicate Safe(s: string)
  {
    forall i :: 0 <= i < |s| ==> !Unsafe(s[i])
  }

  /** The image of one character under the escaper. */
  function EscapeChar(c: char): (r: string)
    ensures |r| >= 1
    ensures Safe(r)
    ensures c != '&' && !Unsafe(c) <==> r == [c]
  {
    match c
    case '&' => "&amp;"
    case '<' => "&lt;"
    case '>' => "&gt;"
    case '"' => "&quot;"
    case ' ' => Nbsp
    case '\t' => Nbsp + Nbsp + Nbsp + Nbsp
    case _ => [c]
  }

  /** The escaper as a per-character map. */
  function Escape(s: string): (r: string)
    ensures |r| >= |s|
    ensures r == [] <==> s == []
    ensures Safe(r)
  {
    if s == [] then []
    else
      var h, t := EscapeChar(s[0]), Escape(s[1..]);
      assert forall i :: |h| <= i < |h + t| ==> (h + t)[i] == t[i - |h|];
      h + t
  }

  /** The per-character escaper distributes over concatenation. */
  lemma {:induction false} EscapeAppend(a: string, b: string)
    ensures Escape(a + b) == Escape(a) + Escape(b)
    decreases |a|
  {
    if a == [] {
      assert a + b == b;
    } else {
      assert (a + b)[1..] == a[1..] + b;
      EscapeAppend(a[1..], b);
    }
  }

  /** The pass chain distributes over concatenation, since every pass does. */
  lemma TextToHtmlAppend(a: string, b: string)
    ensures TextToHtml(a + b) == TextToHtml(a) + TextToHtml(b)
  {
    var a1, b1 := ReplaceChar(a, '&', "&amp;"), ReplaceChar(b, '&', "&amp;");
    ReplaceCharAppend(a, b, '&', "&amp;");
    var a2, b2 := ReplaceChar(a1, '<', "&lt;"), ReplaceChar(b1, '<', "&lt;");
    ReplaceCharAppend(a1, b1, '<', "&lt;");
    var a3, b3 := ReplaceChar(a2, '>', "&gt;"), ReplaceChar(b2, '>', "&gt;");
    ReplaceCharAppend(a2, b2, '>', "&gt;");
    var a4, b4 := ReplaceChar(a3, '"', "&quot;"), ReplaceChar(b3, '"', "&quot;");
    ReplaceCharAppend(a3, b3, '"', "&quot;");
    var a5, b5 := ReplaceChar(a4, ' ', Nbsp), ReplaceChar(b4, ' ', Nbsp);
    ReplaceCharAppend(a4, b4, ' ', Nbsp);
    ReplaceCharAppend(a5, b5, '\t', Nbsp + Nbsp + Nbsp + Nbsp);
  }

  /** Safe text holds none of the characters the last five passes rewrite. */
  lemma SafeAbsent(s: string)
    requires Safe(s)
    ensures '<' !in s && '>' !in s && '"' !in s && ' ' !in s && '\t' !in s
  {
    forall i | 0 <= i < |s|
      ensures !Unsafe(s[i])
    {
    }
  }

  /** On a single character the pass chain produces that character's image:
      no pass produces a character a later pass rewrites. */
  lemma TextToHtmlChar(c: char)
    ensures TextToHtml([c]) == EscapeChar(c)
  {
    var e := EscapeChar(c);
    var s1 := ReplaceChar([c], '&', "&amp;");
    ReplaceCharSingle(c, '&', "&amp;");
    var s2 := ReplaceChar(s1, '<', "&lt;");
    var s3 := ReplaceChar(s2, '>', "&gt;");
    var s4 := ReplaceChar(s3, '"', "&quot;");
    var s5 := ReplaceChar(s4, ' ', Nbsp);
    var s6 := ReplaceChar(s5, '\t', Nbsp + Nbsp + Nbsp + Nbsp);
    if c == '&' {
      SafeAbsent(e);
      ReplaceCharAbsent(s1, '<', "&lt;");
      ReplaceCharAbsent(s2, '>', "&gt;");
      ReplaceCharAbsent(s3, '"', "&quot;");
      ReplaceCharAbsent(s4, ' ', Nbsp);
      ReplaceCharAbsent(s5, '\t', Nbsp + Nbsp + Nbsp + Nbsp);
    } else {
      ReplaceCharSingle(c, '<', "&lt;");
      if c == '<' {
        SafeAbsent(e);
        ReplaceCharAbsent(s2, '>', "&gt;");
        ReplaceCharAbsent(s3, '"', "&quot;");
        ReplaceCharAbsent(s4, ' ', Nbsp);
        ReplaceCharAbsent(s5, '\t', Nbsp + Nbsp + Nbsp + Nbsp);
      } else {
        ReplaceCharSingle(c, '>', "&gt;");
        if c == '>' {
          SafeAbsent(e);
          ReplaceCharAbsent(s3, '"', "&quot;");
          ReplaceCharAbsent(s4, ' ', Nbsp);
          ReplaceCharAbsent(s5, '\t', Nbsp + Nbsp + Nbsp + Nbsp);
        } else {
          ReplaceCharSingle(c, '"', "&quot;");
          if c == '"' {
            SafeAbsent(e);
            ReplaceCharAbsent(s4, ' ', Nbsp);
            ReplaceCharAbsent(s5, '\t', Nbsp + Nbsp + Nbsp + Nbsp);
          } else {
            ReplaceCharSingle(c, ' ', Nbsp);
            if c == ' ' {
              SafeAbsent(e);
              ReplaceCharAbsent(s5, '\t', Nbsp + Nbsp + Nbsp + Nbsp);
            } else {
              ReplaceCharSingle(c, '\t', Nbsp + Nbsp + Nbsp + Nbsp);
            }
          }
        }
      }
    }
  }

  /** The six-pass chain of the source equals the per-character map. */
  lemma {:induction false} TextToHtmlIsEscape(s: string)
    ensures TextToHtml(s) == Escape(s)
    decreases |s|
  {
    if s == [] {
      assert TextToHtml(s) == [];
    } else {
      assert s == [s[0]] + s[1..];
      TextToHtmlAppend([s[0]], s[1..]);
      TextToHtmlChar(s[0]);
      TextToHtmlIsEscape(s[1..]);
    }
  }

  /** One step of the per-character map at position `k`. */
  lemma EscapeAt(s: string, k: nat)
    requires k < |s|
    ensures Escape(s[k..]) == EscapeChar(s[k]) + Escape(s[k + 1..])
  {
    assert s[k..][1..] == s[k + 1..];
  }

  /** Text with no character the escaper rewrites is its own escape. */
  lemma {:induction false} EscapeIdentity(s: string)
    requires forall i :: 0 <= i < |s| ==> s[i] != '&' && !Unsafe(s[i])
    ensures Escape(s) == s
    decreases |s|
  {
    if s != [] {
      EscapeIdentity(s[1..]);
      assert s == [s[0]] + s[1..];
    }
  }

  /** The escaper is not idempotent: escaping an escaped ampersand escapes it again. */
  lemma TextToHtmlNotIdempotent()
    ensures TextToHtml("&") == "&amp;"
    ensures TextToHtml("&amp;") == "&amp;amp;"
  {
    TextToHtmlChar('&');
    assert "&" == ['&'];
    TextToHtmlIsEscape("&amp;");
    EscapeAmpEntity();
  }

  /** The ampersand of an entity is itself escaped; the rest passes through. */
  lemma EscapeAmpEntity()
    ensures Escape("&amp;") == "&amp;amp;"
  {
    var s := "&amp;";
    EscapeAt(s, 0);
    assert s[0..] == s;
    assert s[1..] == "amp;";
    EscapeIdentity(s[1..]);
  }

  /** Tab expansion: the text a browser displays for a tab escaped this way. */
  function ExpandTabs(s: string): (r: string)
    ensures '\t' !in r
    ensures |r| == |s| + 3 * Count(s, '\t')
  {
    if s == [] then []
    else (if s[0] == '\t' then "    " else [s[0]]) + ExpandTabs(s[1..])
  }

  /** Tab expansion distributes over concatenation. */
  lemma {:induction false} ExpandTabsAppend(a: string, b: string)
    ensures ExpandTabs(a + b) == ExpandTabs(a) + ExpandTabs(b)
    decreases |a|
  {
    if a == [] {
      assert a + b == b;
    } else {
      assert (a + b)[1..] == a[1..] + b;
      ExpandTabsAppend(a[1..], b);
    }
  }

  /** Decodes the five entities the escaper emits, as an HTML renderer reads them. */
  function Unescape(h: string): (r: string)
    ensures |r| <= |h|
    decreases |h|
  {
    if h == [] then []
    else if "&amp;" <= h then "&" + Unescape(h[5..])
    else if "&lt;" <= h then "<" + Unescape(h[4..])
    else if "&gt;" <= h then ">" + Unescape(h[4..])
    else if "&quot;" <= h then "\"" + Unescape(h[6..])
    else if Nbsp <= h then " " + Unescape(h[6..])
    else [h[0]] + Unescape(h[1..])
  }

  /** A character other than `&` decodes as itself. */
  lemma UnescapePlain(c: char, rest: string)
    requires c != '&'
    ensures Unescape([c] + rest) == [c] + Unescape(rest)
  {
    var h := [c] + rest;
    assert h[0] == c && h[1..] == rest;
  }

  /** An entity in front of the remaining text decodes to its character;
      the entities differ in their second or third character. */
  lemma UnescapeEntity(e: string, c: char, rest: string)
    requires (e, c) in {("&amp;", '&'), ("&lt;", '<'), ("&gt;", '>'), ("&quot;", '"'), (Nbsp, ' ')}
    ensures Unescape(e + rest) == [c] + Unescape(rest)
  {
    var h := e + rest;
    assert h[..|e|] == e;
    assert h[|e|..] == rest;
    if e != "&amp;" {
      assert h[1] != 'a';
      assert !("&amp;" <= h);
    }
    if e != "&lt;" {
      assert h[1] != 'l';
      assert !("&lt;" <= h);
    }
    if e != "&gt;" {
      assert h[1] != 'g';
      assert !("&gt;" <= h);
    }
    if e != "&quot;" {
      assert h[1] != 'q';
      assert !("&quot;" <= h);
    }
  }

  /** Concatenation regrouped, stated once so that it can be instantiated on
      the long entity literals without unfolding them. */
  lemma AppendAssoc(a: string, b: string, c: string)
    ensures (a + b) + c == a + (b + c)
  {
  }

  /** Four `&nbsp;` in front of the remaining text decode to four spaces. */
  lemma UnescapeTab(rest: string)
    ensures Unescape(EscapeChar('\t') + rest) == "    " + Unescape(rest)
  {
    var t2 := Nbsp + Nbsp;
    var t3 := t2 + Nbsp;
    var k := Nbsp + rest;
    var m := Nbsp + k;
    var n := Nbsp + m;
    AppendAssoc(t3, Nbsp, rest);
    AppendAssoc(t2, Nbsp, k);
    AppendAssoc(Nbsp, Nbsp, m);
    assert EscapeChar('\t') + rest == Nbsp + n;
    var u := Unescape(rest);
    UnescapeEntity(Nbsp, ' ', rest);
    UnescapeEntity(Nbsp, ' ', k);
    UnescapeEntity(Nbsp, ' ', m);
    UnescapeEntity(Nbsp, ' ', n);
    assert Unescape(Nbsp + n) == " " + (" " + (" " + (" " + u)));
    assert " " + (" " + (" " + (" " + u))) == "    " + u;
  }

  /** Decoding one escaped character in front of any remaining text. */
  lemma UnescapeEscapeChar(c: char, rest: string)
    ensures Unescape(EscapeChar(c) + rest) == ExpandTabs([c]) + Unescape(rest)
  {
    assert [c][1..] == [];
    if c == '\t' {
      UnescapeTab(rest);
    } else if c == '&' {
      UnescapeEntity("&amp;", c, rest);
    } else if c == '<' {
      UnescapeEntity("&lt;", c, rest);
    } else if c == '>' {
      UnescapeEntity("&gt;", c, rest);
    } else if c == '"' {
      UnescapeEntity("&quot;", c, rest);
    } else if c == ' ' {
      UnescapeEntity(Nbsp, c, rest);
    } else {
      UnescapePlain(c, rest);
    }
  }

  /** The escaper loses nothing but the distinction between a tab and four spaces. */
  lemma {:induction false} UnescapeEscape(s: string)
    ensures Unescape(Escape(s)) == ExpandTabs(s)
    decreases |s|
  {
    if s != [] {
      UnescapeEscapeChar(s[0], Escape(s[1..]));
      UnescapeEscape(s[1..]);
      assert s == [s[0]] + s[1..];
      ExpandTabsAppend([s[0]], s[1..]);
    }
  }

  /** Hence the escaper is not injective: a tab and four spaces escape alike. */
  lemma EscapeTabAsSpaces()
    ensures Escape("\t") == Escape("    ") == Nbsp + Nbsp + Nbsp + Nbsp
  {
    assert "    " == [' '] + "   ";
    assert "   " == [' '] + "  ";
    assert "  " == [' '] + " ";
  }
}

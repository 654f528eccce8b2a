/** `escapeHtml`: make a string safe to embed in HTML text or a quoted
    attribute by rewriting the five markup-significant characters. */
module HtmlEscape {

  /** `s.replace(/c/g, rep)` for a one-character pattern: every occurrence of
      `c` becomes `rep`, every other character is kept, in order. */
  function ReplaceAll(s: string, c: char, rep: string): (r: string)
    ensures c !in s ==> r == s
    ensures c !in rep ==> c !in r
  {
    if s == [] then []
    else (if s[0] == c then rep else [s[0]]) + ReplaceAll(s[1..], c, rep)
  }

  /** The source's chain of five replacements, `&` first. */
  function EscapeHtml(s: string): string {
    ReplaceAll(
      ReplaceAll(
        ReplaceAll(
          ReplaceAll(
            ReplaceAll(s, '&', "&amp;"),
            '<', "&lt;"),
          '>', "&gt;"),
        '"', "&quot;"),
      '\'', "&#39;")
  }

  predicate IsSpecial(c: char) {
    c == '&' || c == '<' || c == '>' || c == '"' || c == '\''
  }

  /** The escape of a single character: its entity, or the character itself. */
  function EscapeChar(c: char): (e: string)
    ensures IsSpecial(c) <==> e != [c]
    ensures |e| >= 1 && e[0] == (if IsSpecial(c) then '&' else c)
  {
    match c
    case '&' => "&amp;"
    case '<' => "&lt;"
    case '>' => "&gt;"
    case '"' => "&quot;"
    case '\'' => "&#39;"
    case _ => [c]
  }

  /** The character-by-character escape: each character replaced by its
      own escape, the results joined in order. */
  function EscapeEach(s: string): string {
    if s == [] then [] else EscapeChar(s[0]) + EscapeEach(s[1..])
  }

  // ---------------------------------------------------------------------
  // The chain is one per-character mapping

  lemma {:induction false} ReplaceAllConcat(a: string, b: string, c: char, rep: string)
    ensures ReplaceAll(a + b, c, rep) == ReplaceAll(a, c, rep) + ReplaceAll(b, c, rep)
  {
    if a == [] {
      assert a + b == b;
    } else {
      assert (a + b)[1..] == a[1..] + b;
      ReplaceAllConcat(a[1..], b, c, rep);
    }
  }

  /** Escaping works character by character, left to right: the escape of
      a concatenation is the concatenation of the escapes, and the empty
      string escapes to itself. */
  lemma EscapeHtmlHomomorphic(a: string, b: string)
    ensures EscapeHtml(a + b) == EscapeHtml(a) + EscapeHtml(b)
    ensures EscapeHtml([]) == []
  {
    var a1, b1 := ReplaceAll(a, '&', "&amp;"), ReplaceAll(b, '&', "&amp;");
    ReplaceAllConcat(a, b, '&', "&amp;");
    var a2, b2 := ReplaceAll(a1, '<', "&lt;"), ReplaceAll(b1, '<', "&lt;");
    ReplaceAllConcat(a1, b1, '<', "&lt;");
    var a3, b3 := ReplaceAll(a2, '>', "&gt;"), ReplaceAll(b2, '>', "&gt;");
    ReplaceAllConcat(a2, b2, '>', "&gt;");
    var a4, b4 := ReplaceAll(a3, '"', "&quot;"), ReplaceAll(b3, '"', "&quot;");
    ReplaceAllConcat(a3, b3, '"', "&quot;");
    ReplaceAllConcat(a4, b4, '\'', "&#39;");
    assert ReplaceAll([], '&', "&amp;") == [];
  }

  /** On one character the chain produces that character's escape: the
      `&` of an entity written by a later step is never escaped again,
      because `&` was handled first. */
  lemma EscapeHtmlChar(c: char)
    ensures EscapeHtml([c]) == EscapeChar(c)
  {
    var s1 := ReplaceAll([c], '&', "&amp;");
    ReplaceAllSingle(c, '&', "&amp;");
    if c == '&' {
      AfterReplacement("&amp;");
    } else {
      assert s1 == [c];
      var s2 := ReplaceAll(s1, '<', "&lt;");
      ReplaceAllSingle(c, '<', "&lt;");
      if c == '<' {
        AfterReplacement("&lt;");
      } else {
        assert s2 == [c];
        var s3 := ReplaceAll(s2, '>', "&gt;");
        ReplaceAllSingle(c, '>', "&gt;");
        if c == '>' {
          AfterReplacement("&gt;");
        } else {
          assert s3 == [c];
          var s4 := ReplaceAll(s3, '"', "&quot;");
          ReplaceAllSingle(c, '"', "&quot;");
          if c == '"' {
            assert s4 == "&quot;";
            assert '\'' !in s4;
          } else {
            assert s4 == [c];
            ReplaceAllSingle(c, '\'', "&#39;");
          }
        }
      }
    }
  }

  lemma ReplaceAllSingle(d: char, c: char, rep: string)
    ensures ReplaceAll([d], c, rep) == if d == c then rep else [d]
  {
    assert [d][1..] == [];
  }

  /** An entity contains none of `<`, `>`, `"` and `'`, so the later steps
      of the chain leave it alone. */
  lemma AfterReplacement(entity: string)
    requires entity in {"&amp;", "&lt;", "&gt;"}
    ensures ReplaceAll(ReplaceAll(ReplaceAll(ReplaceAll(entity, '<', "&lt;"), '>', "&gt;"),
                                  '"', "&quot;"), '\'', "&#39;") == entity
  {
    assert forall i :: 0 <= i < |entity| ==> entity[i] in "&amptlg;";
    assert '<' !in entity && '>' !in entity && '"' !in entity && '\'' !in entity;
  }

  /** The five chained replacements equal the single per-character map. */
  lemma {:induction false} EscapeHtmlIsPerCharacter(s: string)
    ensures EscapeHtml(s) == EscapeEach(s)
  {
    if s == [] {
      assert EscapeHtml(s) == [];
    } else {
      assert s == [s[0]] + s[1..];
      EscapeHtmlHomomorphic([s[0]], s[1..]);
      EscapeHtmlChar(s[0]);
      EscapeHtmlIsPerCharacter(s[1..]);
    }
  }

  // ---------------------------------------------------------------------
  // Properties of the escaped string

  /** No escape contains `<`, `>`, `"` or `'`. */
  predicate FreeOfMarkup(s: string) {
    '<' !in s && '>' !in s && '"' !in s && '\'' !in s
  }

  lemma EscapeCharFreeOfMarkup(c: char)
    ensures FreeOfMarkup(EscapeChar(c))
  {
    if !IsSpecial(c) {
      assert EscapeChar(c) == [c];
    }
  }

  lemma {:induction false} EscapeEachFreeOfMarkup(s: string)
    ensures FreeOfMarkup(EscapeEach(s))
  {
    if s != [] {
      EscapeCharFreeOfMarkup(s[0]);
      EscapeEachFreeOfMarkup(s[1..]);
    }
  }

  /** The output contains none of `<`, `>`, `"` and `'`. */
  lemma NoMarkupInOutput(s: string)
    ensures '<' !in EscapeHtml(s) && '>' !in EscapeHtml(s)
    ensures '"' !in EscapeHtml(s) && '\'' !in EscapeHtml(s)
  {
    EscapeHtmlIsPerCharacter(s);
    EscapeEachFreeOfMarkup(s);
  }

  /** A string with none of the five special characters is unchanged. */
  lemma {:induction false} PlainTextUnchanged(s: string)
    requires forall i :: 0 <= i < |s| ==> !IsSpecial(s[i])
    ensures EscapeHtml(s) == s
  {
    EscapeHtmlIsPerCharacter(s);
    EscapeEachPlain(s);
  }

  lemma {:induction false} EscapeEachPlain(s: string)
    requires forall i :: 0 <= i < |s| ==> !IsSpecial(s[i])
    ensures EscapeEach(s) == s
  {
    if s != [] {
      EscapeEachPlain(s[1..]);
    }
  }

  lemma {:induction false} EscapeEachLength(s: string)
    ensures |EscapeEach(s)| >= |s|
    ensures |EscapeEach(s)| == |s| <==> forall i :: 0 <= i < |s| ==> !IsSpecial(s[i])
  {
    if s != [] {
      EscapeEachLength(s[1..]);
      if IsSpecial(s[0]) {
        assert |EscapeChar(s[0])| >= 4;
      } else {
        assert forall i :: 1 <= i < |s| ==> s[i] == s[1..][i - 1];
      }
    }
  }

  /** The output is at least as long as the input, and exactly as long
      precisely when there was nothing to escape. */
  lemma EscapeHtmlLength(s: string)
    ensures |EscapeHtml(s)| >= |s|
    ensures |EscapeHtml(s)| == |s| <==> forall i :: 0 <= i < |s| ==> !IsSpecial(s[i])
  {
    EscapeHtmlIsPerCharacter(s);
    EscapeEachLength(s);
  }

  function StartsWith(s: string, prefix: string): bool {
    |prefix| <= |s| && s[..|prefix|] == prefix
  }

  /** One of the five entities begins at position `i` of `s`. */
  predicate EntityAt(s: string, i: nat)
    requires i <= |s|
  {
    var rest := s[i..];
    StartsWith(rest, "&amp;") || StartsWith(rest, "&lt;") || StartsWith(rest, "&gt;")
      || StartsWith(rest, "&quot;") || StartsWith(rest, "&#39;")
  }

  lemma {:induction false} EscapeEachAmpersands(s: string)
    ensures forall i :: 0 <= i < |EscapeEach(s)| && EscapeEach(s)[i] == '&' ==> EntityAt(EscapeEach(s), i)
  {
    if s != [] {
      var e, rest := EscapeChar(s[0]), EscapeEach(s[1..]);
      var r := e + rest;
      EscapeEachAmpersands(s[1..]);
      forall i | 0 <= i < |r| && r[i] == '&'
        ensures EntityAt(r, i)
      {
        if i < |e| {
          assert i == 0 && IsSpecial(s[0]);
          assert r[..|e|] == e;
        } else {
          assert r[i..] == rest[i - |e|..];
          assert rest[i - |e|] == '&';
        }
      }
    }
  }

  /** Every `&` in the output begins one of the five entities: text that
      already looked like an entity is escaped again (`&lt;` becomes
      `&amp;lt;`), so a browser decodes exactly the original text. */
  lemma AmpersandsBeginEntities(s: string)
    ensures forall i :: 0 <= i < |EscapeHtml(s)| && EscapeHtml(s)[i] == '&' ==> EntityAt(EscapeHtml(s), i)
  {
    EscapeHtmlIsPerCharacter(s);
    EscapeEachAmpersands(s);
  }

  // ---------------------------------------------------------------------
  // Decoding: the escape loses nothing

  /** The HTML decoding of the five entities (and only those). */
  function Unescape(s: string): string
    decreases |s|
  {
    if s == [] then []
    else if StartsWith(s, "&amp;") then "&" + Unescape(s[5..])
    else if StartsWith(s, "&lt;") then "<" + Unescape(s[4..])
    else if StartsWith(s, "&gt;") then ">" + Unescape(s[4..])
    else if StartsWith(s, "&quot;") then "\"" + Unescape(s[6..])
    else if StartsWith(s, "&#39;") then "'" + Unescape(s[5..])
    else [s[0]] + Unescape(s[1..])
  }

  lemma StartsWithConcat(e: string, rest: string)
    ensures StartsWith(e + rest, e)
    ensures (e + rest)[|e|..] == rest
  {
    assert (e + rest)[..|e|] == e;
  }

  lemma UnescapeEscapeChar(c: char, rest: string)
    ensures Unescape(EscapeChar(c) + rest) == [c] + Unescape(rest)
  {
    var e := EscapeChar(c);
    var u := e + rest;
    StartsWithConcat(e, rest);
    if !IsSpecial(c) {
      assert u[0] == c && u[1..] == rest;
      assert !StartsWith(u, "&amp;");
    } else if c == '&' {
    } else {
      assert u[..2] == e[..2];
      assert !StartsWith(u, "&amp;") by {
        assert u[1] != 'a';
      }
      if c == '<' {
      } else {
        assert !StartsWith(u, "&lt;") by {
          assert u[1] != 'l';
        }
        if c == '>' {
        } else {
          assert !StartsWith(u, "&gt;") by {
            assert u[1] != 'g';
          }
          if c == '"' {
          } else {
            assert !StartsWith(u, "&quot;") by {
              assert u[1] != 'q';
            }
          }
        }
      }
    }
  }

  lemma {:induction false} UnescapeEscapeEach(s: string)
    ensures Unescape(EscapeEach(s)) == s
  {
    if s != [] {
      UnescapeEscapeChar(s[0], EscapeEach(s[1..]));
      UnescapeEscapeEach(s[1..]);
    }
  }

  /** Decoding the output gives back the input, so distinct strings are
      never escaped to the same text. */
  lemma EscapeHtmlRoundTrip(s: string)
    ensures Unescape(EscapeHtml(s)) == s
  {
    EscapeHtmlIsPerCharacter(s);
    UnescapeEscapeEach(s);
  }
}

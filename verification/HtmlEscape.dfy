/** `escapeHtml` and `unescapeHtml` of the file manager page: chains of global
    replacements. Escaping is a one-pass map; unescaping takes it back exactly for
    the texts that spell none of four entities. */
module HtmlEscape {

  const AMPERSAND: set<char> := {'&'}
  const OTHERS: set<char> := {'<', '>', '"', '\''}
  const SPECIALS: set<char> := AMPERSAND + OTHERS

  function Entity(c: char): (e: string)
    requires c in SPECIALS
    ensures |e| > 1 && e[0] == '&' && forall k :: 1 <= k < |e| ==> e[k] !in SPECIALS
  {
    if c == '&' then "&amp;"
    else if c == '<' then "&lt;"
    else if c == '>' then "&gt;"
    else if c == '"' then "&quot;"
    else "&#39;"
  }

  /** `s.replace(/pat/g, rep)` for a plain text `pat`: leftmost matches, not rescanned. */
  function ReplaceAll(s: string, pat: string, rep: string): string
    requires pat != ""
  {
    if s == "" then ""
    else if pat <= s then rep + ReplaceAll(s[|pat|..], pat, rep)
    else [s[0]] + ReplaceAll(s[1..], pat, rep)
  }

  function EscapeHtml(str: string): string {
    var a := ReplaceAll(str, "&", "&amp;");
    var b := ReplaceAll(a, "<", "&lt;");
    var c := ReplaceAll(b, ">", "&gt;");
    var d := ReplaceAll(c, "\"", "&quot;");
    ReplaceAll(d, "'", "&#39;")
  }

  function UnescapeHtml(str: string): string {
    var a := ReplaceAll(str, "&amp;", "&");
    var b := ReplaceAll(a, "&lt;", "<");
    var c := ReplaceAll(b, "&gt;", ">");
    var d := ReplaceAll(c, "&quot;", "\"");
    ReplaceAll(d, "&#39;", "'")
  }

  /** One pass: every character of the set becomes its entity. */
  function Escaped(s: string, cs: set<char>): string
    requires cs <= SPECIALS
  {
    if s == "" then ""
    else (if s[0] in cs then Entity(s[0]) else [s[0]]) + Escaped(s[1..], cs)
  }

  // ---------- Escaping ----------

  /** Text that cannot start a match is copied. */
  lemma {:induction false} CopiesPlain(a: string, b: string, pat: string, rep: string)
    requires pat != "" && pat[0] !in a
    ensures ReplaceAll(a + b, pat, rep) == a + ReplaceAll(b, pat, rep)
  {
    if a == "" {
      assert a + b == b;
    } else {
      CopiesPlain(a[1..], b, pat, rep);
      assert (a + b)[0] == a[0] && (a + b)[1..] == a[1..] + b;
    }
  }

  /** One more replacement, one more character escaped. */
  lemma {:induction false} EscapesOneMore(s: string, cs: set<char>, c: char)
    requires cs <= SPECIALS && c in SPECIALS && c !in cs
    requires cs == {} || c != '&'
    ensures ReplaceAll(Escaped(s, cs), [c], Entity(c)) == Escaped(s, cs + {c})
  {
    if s != "" {
      EscapesOneMore(s[1..], cs, c);
      var rest := Escaped(s[1..], cs);
      if s[0] == c {
        assert ([c] + rest)[1..] == rest;
      } else if s[0] in cs {
        assert c !in Entity(s[0]);
        CopiesPlain(Entity(s[0]), rest, [c], Entity(c));
      } else {
        CopiesPlain([s[0]], rest, [c], Entity(c));
      }
    }
  }

  lemma {:induction false} EscapedNothing(s: string)
    ensures Escaped(s, {}) == s
  {
    if s != "" { EscapedNothing(s[1..]); }
  }

  /** Five replacements in a row are one pass over the characters. */
  lemma EscapeIsOnePass(s: string)
    ensures EscapeHtml(s) == Escaped(s, SPECIALS)
  {
    EscapedNothing(s);
    EscapesTo(s, {}, '&', {'&'});
    EscapesTo(s, {'&'}, '<', {'&', '<'});
    EscapesTo(s, {'&', '<'}, '>', {'&', '<', '>'});
    EscapesQuotes(s);
  }

  lemma EscapesQuotes(s: string)
    ensures ReplaceAll(ReplaceAll(Escaped(s, {'&', '<', '>'}), "\"", "&quot;"), "'", "&#39;") == Escaped(s, SPECIALS)
  {
    EscapesQuotationMark(s);
    EscapesApostrophe(s);
  }

  lemma EscapesQuotationMark(s: string)
    ensures ReplaceAll(Escaped(s, {'&', '<', '>'}), "\"", "&quot;") == Escaped(s, {'&', '<', '>', '"'})
  {
    EscapesTo(s, {'&', '<', '>'}, '"', {'&', '<', '>', '"'});
  }

  lemma EscapesApostrophe(s: string)
    ensures ReplaceAll(Escaped(s, {'&', '<', '>', '"'}), "'", "&#39;") == Escaped(s, SPECIALS)
  {
    EscapesTo(s, {'&', '<', '>', '"'}, '\'', SPECIALS);
  }

  lemma EscapesTo(s: string, cs: set<char>, c: char, more: set<char>)
    requires cs <= SPECIALS && c in SPECIALS && c !in cs && (cs == {} || c != '&')
    requires more == cs + {c}
    ensures ReplaceAll(Escaped(s, cs), [c], Entity(c)) == Escaped(s, more)
  {
    EscapesOneMore(s, cs, c);
  }

  lemma {:induction false} EscapedInParts(a: string, b: string, cs: set<char>)
    requires cs <= SPECIALS
    ensures Escaped(a + b, cs) == Escaped(a, cs) + Escaped(b, cs)
  {
    if a == "" {
      assert a + b == b;
    } else {
      EscapedInParts(a[1..], b, cs);
      assert [a[0]] + a[1..] == a && [a[0]] + (a[1..] + b) == a + b;
      EscapedHead(a[0], a[1..] + b, cs);
      EscapedHead(a[0], a[1..], cs);
      Regroup(if a[0] in cs then Entity(a[0]) else [a[0]], Escaped(a[1..], cs), Escaped(b, cs));
    }
  }

  lemma Regroup(a: string, b: string, c: string)
    ensures a + b + c == a + (b + c)
  {
  }

  /** Texts are escaped part by part. */
  lemma EscapesInParts(a: string, b: string)
    ensures EscapeHtml(a + b) == EscapeHtml(a) + EscapeHtml(b)
  {
    EscapeIsOnePass(a);
    EscapeIsOnePass(b);
    EscapeIsOnePass(a + b);
    EscapedInParts(a, b, SPECIALS);
  }

  /** What a single character is escaped to. */
  lemma CharactersAreEscaped(c: char)
    ensures EscapeHtml("&") == "&amp;" && EscapeHtml("<") == "&lt;" && EscapeHtml(">") == "&gt;"
    ensures EscapeHtml("\"") == "&quot;" && EscapeHtml("'") == "&#39;"
    ensures c !in SPECIALS ==> EscapeHtml([c]) == [c]
  {
    OneIsEscaped('&');
    OneIsEscaped('<');
    OneIsEscaped('>');
    OneIsEscaped('"');
    OneIsEscaped('\'');
    OneIsEscaped(c);
  }

  lemma OneIsEscaped(c: char)
    ensures EscapeHtml([c]) == if c in SPECIALS then Entity(c) else [c]
  {
    EscapeIsOnePass([c]);
    assert Escaped([c][1..], SPECIALS) == "";
  }

  /** The escaped text can stand in an attribute or between tags. */
  lemma {:induction false} EscapedIsInert(s: string)
    ensures forall k :: 0 <= k < |Escaped(s, SPECIALS)| ==> Escaped(s, SPECIALS)[k] !in OTHERS
  {
    if s != "" { EscapedIsInert(s[1..]); }
  }

  // ---------- Unescaping ----------

  /** The text contains the spelling. */
  predicate Contains(s: string, pat: string) {
    exists i :: 0 <= i <= |s| && pat <= s[i..]
  }

  /** Replacing a spelling by a single character leaves a text alone if the spelling
      does not occur, and makes it shorter if it does. */
  lemma {:induction false} ReplacesIfFound(s: string, pat: string, rep: string)
    requires |pat| > 1 && |rep| == 1
    ensures |ReplaceAll(s, pat, rep)| <= |s|
    ensures if Contains(s, pat) then |ReplaceAll(s, pat, rep)| < |s| else ReplaceAll(s, pat, rep) == s
  {
    if s == "" {
    } else if pat <= s {
      assert s[0..] == s;
      ReplacesIfFound(s[|pat|..], pat, rep);
    } else {
      ReplacesIfFound(s[1..], pat, rep);
      ContainsTail(s, pat);
    }
  }

  lemma ContainsTail(s: string, pat: string)
    requires s != "" && pat != "" && !(pat <= s)
    ensures Contains(s, pat) <==> Contains(s[1..], pat)
  {
    if i :| 0 <= i <= |s| && pat <= s[i..] {
      assert s[0..] == s;
      assert s[i..] == s[1..][i - 1..];
    }
    if j :| 0 <= j <= |s[1..]| && pat <= s[1..][j..] {
      assert s[1..][j..] == s[j + 1..];
    }
  }

  /** Characters outside the set are not escaped. */
  lemma {:induction false} EscapedPlain(a: string, b: string, cs: set<char>)
    requires cs <= SPECIALS && forall k :: 0 <= k < |a| ==> a[k] !in cs
    ensures Escaped(a + b, cs) == a + Escaped(b, cs)
  {
    if a == "" {
      assert a + b == b;
    } else {
      EscapedPlain(a[1..], b, cs);
      assert (a + b)[0] == a[0] && (a + b)[1..] == a[1..] + b;
    }
  }

  /** Escaping neither makes nor breaks a plain prefix. */
  lemma {:induction false} PlainPrefix(body: string, s: string, cs: set<char>)
    requires cs <= SPECIALS && forall k :: 0 <= k < |body| ==> body[k] !in SPECIALS
    ensures body <= Escaped(s, cs) <==> body <= s
    decreases |body|
  {
    if body != "" && s != "" {
      PlainPrefix(body[1..], s[1..], cs);
      var e := Escaped(s, cs);
      if s[0] !in cs {
        assert e[1..] == Escaped(s[1..], cs);
        assert body <= e <==> body[0] == e[0] && body[1..] <= e[1..];
        assert body <= s <==> body[0] == s[0] && body[1..] <= s[1..];
      } else {
        assert e[0] == '&' && body[0] != '&' && body[0] != s[0];
      }
    }
  }

  /** An entity at the front of the escaped text comes from its character, or was
      spelled out there already. */
  lemma NoStraddling(s: string, cs: set<char>, c: char)
    requires cs <= OTHERS && c in cs && s != ""
    ensures Entity(c) <= Escaped(s, cs) <==> s[0] == c || Entity(c) <= s
  {
    var e, rest := Escaped(s, cs), Escaped(s[1..], cs);
    if s[0] in cs {
      assert e == Entity(s[0]) + rest;
      EntitiesDiffer(c, s[0], rest);
    } else {
      assert e == [s[0]] + rest && e[1..] == rest;
      PlainPrefix(Entity(c)[1..], s[1..], cs);
      assert Entity(c) <= e <==> e[0] == '&' && Entity(c)[1..] <= rest;
      assert Entity(c) <= s <==> s[0] == '&' && Entity(c)[1..] <= s[1..];
    }
  }

  lemma EntitiesDiffer(c: char, d: char, rest: string)
    requires c in OTHERS && d in OTHERS
    ensures Entity(c) <= Entity(d) + rest <==> c == d
  {
    var e := Entity(d) + rest;
    assert e[1] == Entity(d)[1];
    if Entity(c) <= e { assert Entity(c)[1] == e[1]; }
  }

  /** Undoing one entity on an escaped text does the same to the text itself. */
  lemma {:induction false} UnescapesOne(s: string, cs: set<char>, c: char)
    requires cs <= OTHERS && c in cs
    ensures ReplaceAll(Escaped(s, cs), Entity(c), [c]) == Escaped(ReplaceAll(s, Entity(c), [c]), cs - {c})
    decreases |s|
  {
    var entity := Entity(c);
    if s == "" {
    } else if entity <= s {
      var rest := s[|entity|..];
      UnescapesOne(rest, cs, c);
      assert s == entity + rest;
      EscapedPlain(entity, rest, cs);
      assert (entity + Escaped(rest, cs))[|entity|..] == Escaped(rest, cs);
      EscapedPlain([c], ReplaceAll(rest, entity, [c]), cs - {c});
    } else {
      UnescapesOne(s[1..], cs, c);
      UnescapesHead(s, cs, c);
      EscapedHead(s[0], ReplaceAll(s[1..], entity, [c]), cs - {c});
    }
  }

  /** How a head that is not a spelled entity passes through escaping and replacing. */
  lemma UnescapesHead(s: string, cs: set<char>, c: char)
    requires cs <= OTHERS && c in cs && s != "" && !(Entity(c) <= s)
    ensures ReplaceAll(Escaped(s, cs), Entity(c), [c])
         == (if s[0] in cs - {c} then Entity(s[0]) else [s[0]]) + ReplaceAll(Escaped(s[1..], cs), Entity(c), [c])
  {
    var entity, rest := Entity(c), Escaped(s[1..], cs);
    NoStraddling(s, cs, c);
    if s[0] == c {
      assert (entity + rest)[|entity|..] == rest;
    } else if s[0] in cs {
      CopiesEntity(s[0], rest, entity, [c]);
    } else {
      assert ([s[0]] + rest)[1..] == rest;
    }
  }

  lemma EscapedHead(c: char, rest: string, cs: set<char>)
    requires cs <= SPECIALS
    ensures Escaped([c] + rest, cs) == (if c in cs then Entity(c) else [c]) + Escaped(rest, cs)
  {
    assert ([c] + rest)[1..] == rest;
  }

  /** The entity of another character is copied. */
  lemma CopiesEntity(d: char, rest: string, pat: string, rep: string)
    requires d in OTHERS && |pat| > 1 && pat[0] == '&' && pat[1] != Entity(d)[1]
    ensures ReplaceAll(Entity(d) + rest, pat, rep) == Entity(d) + ReplaceAll(rest, pat, rep)
  {
    var e := Entity(d);
    var all := e + rest;
    assert all[1] == e[1];
    assert all[1..] == e[1..] + rest;
    CopiesPlain(e[1..], rest, pat, rep);
    assert [e[0]] + (e[1..] + ReplaceAll(rest, pat, rep)) == e + ReplaceAll(rest, pat, rep);
  }

  /** The first replacement takes back the last: only `&` itself was written `&amp;`. */
  lemma {:induction false} UnescapesAmpersand(s: string)
    ensures ReplaceAll(Escaped(s, SPECIALS), "&amp;", "&") == Escaped(s, OTHERS)
  {
    if s != "" {
      UnescapesAmpersand(s[1..]);
      var rest := Escaped(s[1..], SPECIALS);
      if s[0] == '&' {
        assert ("&amp;" + rest)[5..] == rest;
      } else if s[0] in OTHERS {
        CopiesEntity(s[0], rest, "&amp;", "&");
      } else {
        assert ([s[0]] + rest)[1..] == rest;
      }
    }
  }

  /** What a round trip does: it decodes the spellings that the text had itself. */
  function Decoded(s: string): string {
    var a := ReplaceAll(s, "&lt;", "<");
    var b := ReplaceAll(a, "&gt;", ">");
    var c := ReplaceAll(b, "&quot;", "\"");
    ReplaceAll(c, "&#39;", "'")
  }

  lemma RoundTripDecodes(s: string)
    ensures UnescapeHtml(EscapeHtml(s)) == Decoded(s)
  {
    EscapeIsOnePass(s);
    UnescapesAmpersand(s);
    UnescapesOthers(s);
  }

  lemma UnescapesOthers(s: string)
    ensures Decoded(Escaped(s, OTHERS)) == Decoded(s)
  {
    var a := ReplaceAll(s, "&lt;", "<");
    var b := ReplaceAll(a, "&gt;", ">");
    UnescapesTo(s, OTHERS, '<', {'>', '"', '\''});
    UnescapesTo(a, {'>', '"', '\''}, '>', {'"', '\''});
    UnescapesQuotes(b);
  }

  lemma UnescapesQuotes(b: string)
    ensures ReplaceAll(ReplaceAll(Escaped(b, {'"', '\''}), "&quot;", "\""), "&#39;", "'")
         == ReplaceAll(ReplaceAll(b, "&quot;", "\""), "&#39;", "'")
  {
    var c := ReplaceAll(b, "&quot;", "\"");
    UnescapesTo(b, {'"', '\''}, '"', {'\''});
    UnescapesApostrophes(c);
  }

  lemma UnescapesApostrophes(c: string)
    ensures ReplaceAll(Escaped(c, {'\''}), "&#39;", "'") == ReplaceAll(c, "&#39;", "'")
  {
    UnescapesTo(c, {'\''}, '\'', {});
    EscapedNothing(ReplaceAll(c, "&#39;", "'"));
  }

  lemma UnescapesTo(s: string, cs: set<char>, c: char, rest: set<char>)
    requires cs <= OTHERS && c in cs && rest == cs - {c}
    ensures ReplaceAll(Escaped(s, cs), Entity(c), [c]) == Escaped(ReplaceAll(s, Entity(c), [c]), rest)
  {
    UnescapesOne(s, cs, c);
  }

  predicate SpellsEntity(s: string) {
    Contains(s, "&lt;") || Contains(s, "&gt;") || Contains(s, "&quot;") || Contains(s, "&#39;")
  }

  /** Unescaping takes back escaping exactly for the texts that do not spell one of
      the four entities themselves. */
  lemma RoundTripExactly(s: string)
    ensures UnescapeHtml(EscapeHtml(s)) == s <==> !SpellsEntity(s)
  {
    RoundTripDecodes(s);
    var a := ReplaceAll(s, "&lt;", "<");
    var b := ReplaceAll(a, "&gt;", ">");
    var c := ReplaceAll(b, "&quot;", "\"");
    ReplacesIfFound(s, "&lt;", "<");
    ReplacesIfFound(a, "&gt;", ">");
    ReplacesIfFound(b, "&quot;", "\"");
    ReplacesIfFound(c, "&#39;", "'");
  }

  /** What the five entities are unescaped to. */
  lemma EntitiesAreUnescaped()
    ensures UnescapeHtml("&amp;") == "&" && UnescapeHtml("&lt;") == "<" && UnescapeHtml("&gt;") == ">"
    ensures UnescapeHtml("&quot;") == "\"" && UnescapeHtml("&#39;") == "'"
  {
    CharactersAreEscaped('&');
    OneComesBack('&');
    OneComesBack('<');
    OneComesBack('>');
    OneComesBack('"');
    OneComesBack('\'');
  }

  lemma OneComesBack(c: char)
    ensures UnescapeHtml(EscapeHtml([c])) == [c]
  {
    RoundTripExactly([c]);
  }

  /** The page unescapes file names that the browser has already decoded: that leaves
      a name alone exactly if it spells none of the five entities. */
  lemma UnescapeIsIdentityExactly(s: string)
    ensures UnescapeHtml(s) == s <==> !SpellsEntity(s) && !Contains(s, "&amp;")
  {
    var z := ReplaceAll(s, "&amp;", "&");
    var a := ReplaceAll(z, "&lt;", "<");
    var b := ReplaceAll(a, "&gt;", ">");
    var c := ReplaceAll(b, "&quot;", "\"");
    ReplacesIfFound(s, "&amp;", "&");
    ReplacesIfFound(z, "&lt;", "<");
    ReplacesIfFound(a, "&gt;", ">");
    ReplacesIfFound(b, "&quot;", "\"");
    ReplacesIfFound(c, "&#39;", "'");
  }

  /** A file called `a&lt;b` comes back as `a<b`. */
  lemma SpelledEntityIsLost()
    ensures UnescapeHtml(EscapeHtml("a&lt;b")) != "a&lt;b"
  {
    RoundTripExactly("a&lt;b");
    assert "&lt;" <= "a&lt;b"[1..];
  }
}

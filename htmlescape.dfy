/** html.escape(s, quote=True) and the inverse that undoes it. */
module HtmlEscape {
  import opened TextLines

  /** str.replace for a single-character pattern: every c becomes rep. */
  function Replace(s: string, c: char, rep: string): string {
    if s == [] then [] else (if s[0] == c then rep else [s[0]]) + Replace(s[1..], c, rep)
  }

  /**
   * html.escape(s) as the library writes it: five replacements, '&' first so
   * that the ampersands of the later entities are not escaped again.
   */
  function Escape(s: string): string {
    var amp := Replace(s, '&', "&amp;");
    var lt := Replace(amp, '<', "&lt;");
    var gt := Replace(lt, '>', "&gt;");
    var quot := Replace(gt, '"', "&quot;");
    Replace(quot, '\'', "&#x27;")
  }

  /** The entity one character escapes to. */
  function EscapeChar(c: char): string {
    if c == '&' then "&amp;"
    else if c == '<' then "&lt;"
    else if c == '>' then "&gt;"
    else if c == '"' then "&quot;"
    else if c == '\'' then "&#x27;"
    else [c]
  }

  /** Escaping one character at a time. */
  function EscapeEach(s: string): string {
    if s == [] then [] else EscapeChar(s[0]) + EscapeEach(s[1..])
  }

  /** Undoes the five entities, scanning left to right. */
  function Unescape(s: string): string
    decreases |s|
  {
    if s == [] then []
    else if StartsWith(s, "&amp;") then "&" + Unescape(s[5..])
    else if StartsWith(s, "&lt;") then "<" + Unescape(s[4..])
    else if StartsWith(s, "&gt;") then ">" + Unescape(s[4..])
    else if StartsWith(s, "&quot;") then "\"" + Unescape(s[6..])
    else if StartsWith(s, "&#x27;") then "'" + Unescape(s[6..])
    else [s[0]] + Unescape(s[1..])
  }

  /** None of the characters that html.escape replaces, except '&', occurs in s. */
  predicate NoRawMarkup(s: string) {
    forall i :: 0 <= i < |s| ==> s[i] != '<' && s[i] != '>' && s[i] != '"' && s[i] != '\''
  }

  predicate EntityAt(s: string, i: nat)
    requires i <= |s|
  {
    var t := s[i..];
    StartsWith(t, "&amp;") || StartsWith(t, "&lt;") || StartsWith(t, "&gt;")
    || StartsWith(t, "&quot;") || StartsWith(t, "&#x27;")
  }

  /** Every '&' in s begins one of the five entities. */
  predicate AmpersandsAreEntities(s: string) {
    forall i :: 0 <= i < |s| && s[i] == '&' ==> EntityAt(s, i)
  }

  lemma {:induction false} ReplaceAppend(a: string, b: string, c: char, rep: string)
    ensures Replace(a + b, c, rep) == Replace(a, c, rep) + Replace(b, c, rep)
  {
    if a == [] {
      assert a + b == b;
    } else {
      assert (a + b)[0] == a[0] && (a + b)[1..] == a[1..] + b;
      ReplaceAppend(a[1..], b, c, rep);
    }
  }

  lemma {:induction false} ReplaceAbsent(s: string, c: char, rep: string)
    requires Lacks(s, c)
    ensures Replace(s, c, rep) == s
  {
    if s != [] {
      ReplaceAbsent(s[1..], c, rep);
    }
  }

  lemma ReplaceOne(c: char, d: char, rep: string)
    ensures Replace([c], d, rep) == if c == d then rep else [c]
  {
    assert [c][1..] == [];
    var head := if c == d then rep else [c];
    assert head + [] == head;
  }

  /** The five replacements applied to an entity-free text, from the given step on, leave it alone. */
  lemma ReplaceRestAbsent(s: string)
    requires NoRawMarkup(s)
    ensures Replace(Replace(Replace(Replace(s, '<', "&lt;"), '>', "&gt;"), '"', "&quot;"), '\'', "&#x27;") == s
  {
    ReplaceAbsent(s, '<', "&lt;");
    ReplaceAbsent(s, '>', "&gt;");
    ReplaceAbsent(s, '"', "&quot;");
    ReplaceAbsent(s, '\'', "&#x27;");
  }

  lemma EscapeOneChar(c: char)
    ensures Escape([c]) == EscapeChar(c)
  {
    ReplaceOne(c, '&', "&amp;");
    if c == '&' {
      ReplaceRestAbsent("&amp;");
    } else {
      EscapeOneOther(c);
    }
  }

  lemma EscapeOneOther(c: char)
    requires c != '&'
    ensures Escape([c]) == EscapeChar(c)
  {
    ReplaceOne(c, '&', "&amp;");
    ReplaceOne(c, '<', "&lt;");
    if c == '<' {
      var lt := Replace([c], '<', "&lt;");
      ReplaceAbsent(lt, '>', "&gt;");
      ReplaceAbsent(lt, '"', "&quot;");
      ReplaceAbsent(lt, '\'', "&#x27;");
    } else {
      EscapeOneQuoting(c);
    }
  }

  lemma EscapeOneQuoting(c: char)
    requires c != '&' && c != '<'
    ensures Escape([c]) == EscapeChar(c)
  {
    ReplaceOne(c, '&', "&amp;");
    ReplaceOne(c, '<', "&lt;");
    ReplaceOne(c, '>', "&gt;");
    if c == '>' {
      var gt := Replace([c], '>', "&gt;");
      ReplaceAbsent(gt, '"', "&quot;");
      ReplaceAbsent(gt, '\'', "&#x27;");
    } else {
      ReplaceOne(c, '"', "&quot;");
      if c == '"' {
        ReplaceAbsent("&quot;", '\'', "&#x27;");
      } else {
        ReplaceOne(c, '\'', "&#x27;");
      }
    }
  }

  lemma EscapeAppend(a: string, b: string)
    ensures Escape(a + b) == Escape(a) + Escape(b)
  {
    var amp := Replace(a + b, '&', "&amp;");
    ReplaceAppend(a, b, '&', "&amp;");
    var a1, b1 := Replace(a, '&', "&amp;"), Replace(b, '&', "&amp;");
    ReplaceAppend(a1, b1, '<', "&lt;");
    var a2, b2 := Replace(a1, '<', "&lt;"), Replace(b1, '<', "&lt;");
    ReplaceAppend(a2, b2, '>', "&gt;");
    var a3, b3 := Replace(a2, '>', "&gt;"), Replace(b2, '>', "&gt;");
    ReplaceAppend(a3, b3, '"', "&quot;");
    var a4, b4 := Replace(a3, '"', "&quot;"), Replace(b3, '"', "&quot;");
    ReplaceAppend(a4, b4, '\'', "&#x27;");
  }

  /** The chain of replacements escapes each character on its own. */
  lemma {:induction false} EscapeIsPerCharacter(s: string)
    ensures Escape(s) == EscapeEach(s)
  {
    if s == [] {
      assert Escape(s) == [];
    } else {
      assert s == [s[0]] + s[1..];
      EscapeAppend([s[0]], s[1..]);
      EscapeOneChar(s[0]);
      EscapeIsPerCharacter(s[1..]);
    }
  }

  /** A text whose second character differs from an entity's does not start with it. */
  lemma DiffersAt1(s: string, entity: string)
    requires |s| >= 2 && |entity| >= 2 && s[1] != entity[1]
    ensures !StartsWith(s, entity)
  {
    if |entity| <= |s| {
      assert s[..|entity|][1] != entity[1];
    }
  }

  lemma UnescapeEntity(c: char, rest: string)
    ensures Unescape(EscapeChar(c) + rest) == [c] + Unescape(rest)
  {
    if c == '&' || c == '<' || c == '>' || c == '"' || c == '\'' {
      UnescapeMarkup(c, rest);
    } else {
      UnescapePlain(c, rest);
    }
  }

  /** A character that starts no entity is read back as itself. */
  lemma UnescapePlain(c: char, rest: string)
    requires c != '&'
    ensures Unescape([c] + rest) == [c] + Unescape(rest)
  {
    var s := [c] + rest;
    assert s[0] == c && s[1..] == rest;
    assert !StartsWith(s, "&amp;") by { NotAmpersand(s, "&amp;"); }
    assert !StartsWith(s, "&lt;") by { NotAmpersand(s, "&lt;"); }
    assert !StartsWith(s, "&gt;") by { NotAmpersand(s, "&gt;"); }
    assert !StartsWith(s, "&quot;") by { NotAmpersand(s, "&quot;"); }
    assert !StartsWith(s, "&#x27;") by { NotAmpersand(s, "&#x27;"); }
  }

  lemma NotAmpersand(s: string, entity: string)
    requires |s| > 0 && s[0] != '&' && |entity| > 0 && entity[0] == '&'
    ensures !StartsWith(s, entity)
  {
    if |entity| <= |s| {
      assert s[..|entity|][0] == s[0];
    }
  }

  /** The unescaper reads one of the five entities back as its character. */
  lemma UnescapeMarkup(c: char, rest: string)
    requires c == '&' || c == '<' || c == '>' || c == '"' || c == '\''
    ensures Unescape(EscapeChar(c) + rest) == [c] + Unescape(rest)
  {
    var e := EscapeChar(c);
    var s := e + rest;
    assert s[..|e|] == e;
    assert s[|e|..] == rest;
    assert s[1] == e[1];
    if c != '&' {
      DiffersAt1(s, "&amp;");
      if c != '<' {
        DiffersAt1(s, "&lt;");
        if c != '>' {
          DiffersAt1(s, "&gt;");
          if c != '"' {
            DiffersAt1(s, "&quot;");
          }
        }
      }
    }
  }

  /** Unescaping the escaped text gives back the text exactly. */
  lemma {:induction false} UnescapeEscape(s: string)
    ensures Unescape(Escape(s)) == s
  {
    EscapeIsPerCharacter(s);
    UnescapeEscapeEach(s);
  }

  lemma {:induction false} UnescapeEscapeEach(s: string)
    ensures Unescape(EscapeEach(s)) == s
  {
    if s != [] {
      UnescapeEntity(s[0], EscapeEach(s[1..]));
      UnescapeEscapeEach(s[1..]);
      assert s == [s[0]] + s[1..];
    }
  }

  lemma SafeAppend(a: string, b: string)
    requires NoRawMarkup(a) && AmpersandsAreEntities(a)
    requires NoRawMarkup(b) && AmpersandsAreEntities(b)
    ensures NoRawMarkup(a + b) && AmpersandsAreEntities(a + b)
  {
    var s := a + b;
    forall i | 0 <= i < |s| && s[i] == '&'
      ensures EntityAt(s, i)
    {
      if i < |a| {
        assert a[i] == '&' && EntityAt(a, i);
        assert s[i..] == a[i..] + b;
      } else {
        assert b[i - |a|] == '&' && EntityAt(b, i - |a|);
        assert s[i..] == b[i - |a|..];
      }
    }
  }

  /**
   * Escaped text holds no raw '<', '>', '"' or "'", and each of its '&' starts
   * one of the five entities.
   */
  lemma {:induction false} EscapedIsSafe(s: string)
    ensures NoRawMarkup(Escape(s)) && AmpersandsAreEntities(Escape(s))
  {
    EscapeIsPerCharacter(s);
    EscapeEachIsSafe(s);
  }

  lemma {:induction false} EscapeEachIsSafe(s: string)
    ensures NoRawMarkup(EscapeEach(s)) && AmpersandsAreEntities(EscapeEach(s))
  {
    if s != [] {
      var e := EscapeChar(s[0]);
      assert NoRawMarkup(e);
      assert AmpersandsAreEntities(e) by {
        if s[0] == '&' || s[0] == '<' || s[0] == '>' || s[0] == '"' || s[0] == '\'' {
          assert e[0] == '&' && forall i :: 0 < i < |e| ==> e[i] != '&';
          assert e[0..] == e;
        }
      }
      EscapeEachIsSafe(s[1..]);
      SafeAppend(e, EscapeEach(s[1..]));
    }
  }

  /** Escaping leaves line breaks alone: the escaped text has as many '\n' as the text. */
  lemma {:induction false} EscapeKeepsNewlines(s: string)
    ensures Count(Escape(s), '\n') == Count(s, '\n')
  {
    EscapeIsPerCharacter(s);
    EscapeEachKeepsNewlines(s);
  }

  lemma {:induction false} EscapeEachKeepsNewlines(s: string)
    ensures Count(EscapeEach(s), '\n') == Count(s, '\n')
  {
    if s != [] {
      CountAppend(EscapeChar(s[0]), EscapeEach(s[1..]), '\n');
      if s[0] == '\n' {
        assert EscapeChar(s[0]) == [s[0]];
      } else {
        CountAbsent(EscapeChar(s[0]), '\n');
      }
      EscapeEachKeepsNewlines(s[1..]);
    }
  }
}

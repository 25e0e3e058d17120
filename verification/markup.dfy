/** Entity escaping for the two markup dialects of the generated document:
    the outer KML placemark is strict XML (`escapeXML`, app.js:466-483) and
    the description block is HTML (`escapeHTML`, app.js:485-502). Both
    rewrite the same five characters; they differ only in the apostrophe. */
module Markup {
  import opened Wrappers

  datatype Dialect = Xml | Html

  /** The five characters both escapers rewrite. */
  predicate IsSpecial(c: char) {
    c == '<' || c == '>' || c == '&' || c == '"' || c == '\''
  }

  /** Characters that may never appear raw in escaped text (`&` may, but
      only as the start of an entity). */
  predicate IsRaw(c: char) {
    c == '<' || c == '>' || c == '"' || c == '\''
  }

  predicate NoSpecials(s: string) {
    forall i :: 0 <= i < |s| ==> !IsSpecial(s[i])
  }

  /** The entity a dialect writes for a special character. */
  function Entity(d: Dialect, c: char): (r: string)
    requires IsSpecial(c)
    ensures |r| >= 4 && r[0] == '&'
    ensures forall i :: 1 <= i < |r| ==> r[i] != '&' && !IsRaw(r[i])
  {
    if c == '<' then "&lt;"
    else if c == '>' then "&gt;"
    else if c == '&' then "&amp;"
    else if c == '"' then "&quot;"
    else if d == Xml then "&apos;"
    else "&#39;"
  }

  /** No entity is a prefix of another, so an entity at the head of a text
      is read back unambiguously. */
  lemma EntitiesPrefixFree(d: Dialect, a: char, b: char)
    requires IsSpecial(a) && IsSpecial(b)
    requires Entity(d, a) <= Entity(d, b)
    ensures a == b
  {
    var ea, eb := Entity(d, a), Entity(d, b);
    assert ea[1] == eb[1] && ea[2] == eb[2];
  }

  function EscapeChar(d: Dialect, c: char): string {
    if IsSpecial(c) then Entity(d, c) else [c]
  }

  /** The entity at the head of `t`, if any: the inverse of `Entity`. */
  function Decode(d: Dialect, t: string): (r: Option<char>)
    ensures r.Some? ==> IsSpecial(r.value) && Entity(d, r.value) <= t
  {
    if Entity(d, '<') <= t then Some('<')
    else if Entity(d, '>') <= t then Some('>')
    else if Entity(d, '&') <= t then Some('&')
    else if Entity(d, '"') <= t then Some('"')
    else if Entity(d, '\'') <= t then Some('\'')
    else None
  }

  /** Whichever entity heads `t` is the one `Decode` reports. */
  lemma DecodeComplete(d: Dialect, c: char, t: string)
    requires IsSpecial(c) && Entity(d, c) <= t
    ensures Decode(d, t) == Some(c)
  {
    var found := Decode(d, t);
    assert found.Some?;
    var e := Entity(d, found.value);
    var f := Entity(d, c);
    if |e| <= |f| {
      assert e == t[..|e|] == f[..|e|];
      EntitiesPrefixFree(d, found.value, c);
    } else {
      assert f == t[..|f|] == e[..|f|];
      EntitiesPrefixFree(d, c, found.value);
    }
  }

  /** Text in which no special character occurs raw: every `&` opens one of
      the dialect's entities, and `<`, `>`, `"` and `'` never occur. */
  predicate WellEscaped(d: Dialect, t: string) {
    && (forall i :: 0 <= i < |t| ==> !IsRaw(t[i]))
    && (forall i :: 0 <= i < |t| && t[i] == '&' ==> Decode(d, t[i..]).Some?)
  }

  lemma DecodeExtends(d: Dialect, t: string, u: string)
    requires Decode(d, t).Some?
    ensures Decode(d, t + u) == Decode(d, t)
  {
    var c := Decode(d, t).value;
    var e := Entity(d, c);
    assert (t + u)[..|e|] == t[..|e|];
    DecodeComplete(d, c, t + u);
  }

  /** Well-escaped texts are closed under concatenation. */
  lemma WellEscapedConcat(d: Dialect, a: string, b: string)
    requires WellEscaped(d, a) && WellEscaped(d, b)
    ensures WellEscaped(d, a + b)
  {
    var t := a + b;
    forall i | 0 <= i < |t| && t[i] == '&'
      ensures Decode(d, t[i..]).Some?
    {
      if i < |a| {
        assert t[i..] == a[i..] + b;
        DecodeExtends(d, a[i..], b);
      } else {
        assert t[i..] == b[i - |a|..];
      }
    }
  }

  lemma WellEscapedChar(d: Dialect, c: char)
    ensures WellEscaped(d, EscapeChar(d, c))
  {
    if IsSpecial(c) {
      var e := Entity(d, c);
      assert e[0..] == e;
      DecodeComplete(d, c, e);
    }
  }

  /** The escaper shared by `escapeXML` and `escapeHTML`: every special
      character is replaced by its entity, every other character is copied. */
  function Escape(d: Dialect, s: string): (r: string)
    ensures |r| >= |s|
    ensures |r| == |s| <==> NoSpecials(s)
    ensures NoSpecials(s) ==> r == s
  {
    if s == [] then []
    else
      var head := EscapeChar(d, s[0]);
      var tail := Escape(d, s[1..]);
      assert NoSpecials(s) <==> !IsSpecial(s[0]) && NoSpecials(s[1..]) by {
        if !IsSpecial(s[0]) && NoSpecials(s[1..]) {
          forall i | 0 <= i < |s| ensures !IsSpecial(s[i]) {
            if i > 0 { assert s[i] == s[1..][i - 1]; }
          }
        }
      }
      assert s == [s[0]] + s[1..];
      head + tail
  }

  /** Escaped text is well escaped: no raw `<`, `>`, `"` or `'`, and every
      `&` opens an entity. */
  lemma {:induction false} EscapeIsWellEscaped(d: Dialect, s: string)
    ensures WellEscaped(d, Escape(d, s))
  {
    if s == [] {
    } else {
      var head := EscapeChar(d, s[0]);
      var tail := Escape(d, s[1..]);
      WellEscapedChar(d, s[0]);
      EscapeIsWellEscaped(d, s[1..]);
      WellEscapedConcat(d, head, tail);
    }
  }

  /** `escapeXML` (app.js:466-483). */
  function EscapeXml(s: string): (r: string)
    ensures WellEscaped(Xml, r)
  {
    EscapeIsWellEscaped(Xml, s);
    Escape(Xml, s)
  }

  /** `escapeHTML` (app.js:485-502). */
  function EscapeHtml(s: string): (r: string)
    ensures WellEscaped(Html, r)
  {
    EscapeIsWellEscaped(Html, s);
    Escape(Html, s)
  }

  /** Replaces each of the dialect's entities by its character; any other
      character, including an `&` that opens no entity, is copied. */
  function Unescape(d: Dialect, t: string): string
    decreases |t|
  {
    if |t| == 0 then ""
    else match Decode(d, t)
      case Some(c) => [c] + Unescape(d, t[|Entity(d, c)|..])
      case None => [t[0]] + Unescape(d, t[1..])
  }

  lemma UnescapeCons(d: Dialect, c: char, rest: string)
    ensures Unescape(d, EscapeChar(d, c) + rest) == [c] + Unescape(d, rest)
  {
    var t := EscapeChar(d, c) + rest;
    if IsSpecial(c) {
      var e := Entity(d, c);
      assert e <= t;
      DecodeComplete(d, c, t);
      assert t[|e|..] == rest;
    } else {
      assert t[0] == c;
      assert Decode(d, t).None?;
      assert t[1..] == rest;
    }
  }

  /** Decoding the entities of an escaped text returns the original text. */
  lemma {:induction false} UnescapeEscape(d: Dialect, s: string)
    ensures Unescape(d, Escape(d, s)) == s
  {
    if s != [] {
      var rest := Escape(d, s[1..]);
      calc {
        Unescape(d, Escape(d, s));
        { EscapeCons(d, s[0], s[1..]); assert [s[0]] + s[1..] == s; }
        Unescape(d, EscapeChar(d, s[0]) + rest);
        { UnescapeCons(d, s[0], rest); }
        [s[0]] + Unescape(d, rest);
        { UnescapeEscape(d, s[1..]); }
        [s[0]] + s[1..];
      }
    }
  }

  lemma WellEscapedSuffix(d: Dialect, t: string, k: nat)
    requires WellEscaped(d, t) && k <= |t|
    ensures WellEscaped(d, t[k..])
  {
    var u := t[k..];
    forall j | 0 <= j < |u| && u[j] == '&'
      ensures Decode(d, u[j..]).Some?
    {
      assert u[j..] == t[k + j..];
    }
  }

  lemma EscapeCons(d: Dialect, c: char, s: string)
    ensures Escape(d, [c] + s) == EscapeChar(d, c) + Escape(d, s)
  {
    var t := [c] + s;
    assert t[0] == c && t[1..] == s;
  }

  /** Decoding a well-escaped text takes one character off its head and
      leaves a well-escaped remainder whose escape restores the head. */
  lemma UnescapeStep(d: Dialect, t: string) returns (c: char, k: nat)
    requires WellEscaped(d, t) && |t| > 0
    ensures 0 < k <= |t|
    ensures Unescape(d, t) == [c] + Unescape(d, t[k..])
    ensures EscapeChar(d, c) == t[..k]
    ensures WellEscaped(d, t[k..])
  {
    match Decode(d, t)
    case Some(x) =>
      c, k := x, |Entity(d, x)|;
    case None =>
      assert t[0..] == t;
      c, k := t[0], 1;
    WellEscapedSuffix(d, t, k);
  }

  lemma EscapeRebuilds(d: Dialect, t: string, c: char, k: nat, u: string)
    requires k <= |t|
    requires Unescape(d, t) == [c] + u
    requires EscapeChar(d, c) == t[..k] && Escape(d, u) == t[k..]
    ensures Escape(d, Unescape(d, t)) == t
  {
    EscapeCons(d, c, u);
    assert t[..k] + t[k..] == t;
  }

  /** Conversely, every well-escaped text is the escape of its decoding, so
      `Escape` is a bijection onto the well-escaped texts. */
  lemma {:induction false} EscapeUnescape(d: Dialect, t: string)
    requires WellEscaped(d, t)
    ensures Escape(d, Unescape(d, t)) == t
    decreases |t|
  {
    if |t| == 0 {
      assert Unescape(d, t) == [];
    } else {
      var c, k := UnescapeStep(d, t);
      EscapeUnescape(d, t[k..]);
      EscapeRebuilds(d, t, c, k, Unescape(d, t[k..]));
    }
  }

  /** Escaping is applied character by character, in order. */
  lemma {:induction false} EscapeConcat(d: Dialect, a: string, b: string)
    ensures Escape(d, a + b) == Escape(d, a) + Escape(d, b)
  {
    if a == [] {
      assert a + b == b;
    } else {
      assert (a + b)[0] == a[0] && (a + b)[1..] == a[1..] + b;
      EscapeConcat(d, a[1..], b);
    }
  }

  /** The two escapers agree on every text without an apostrophe. */
  lemma {:induction false} DialectsAgreeWithoutApostrophe(s: string)
    requires '\'' !in s
    ensures EscapeXml(s) == EscapeHtml(s)
  {
    if s != [] {
      assert s[1..] == s[|[s[0]]|..];
      assert '\'' !in s[1..] by {
        forall i | 0 <= i < |s[1..]| ensures s[1..][i] != '\'' {
          assert s[1..][i] == s[i + 1];
        }
      }
      DialectsAgreeWithoutApostrophe(s[1..]);
    }
  }
}

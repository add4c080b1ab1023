/**
 * The two JavaScript string operations the reply check applies,
 * `String.prototype.trim` and `String.prototype.toUpperCase`, and their
 * composition as bot.js uses it: `m.text.trim().toUpperCase()`.
 */
module JsText {

  import SecurityCode

  /**
   * The characters `trim` removes: ECMAScript's WhiteSpace (tab, vertical
   * tab, form feed, space, no-break space, byte-order mark and the other
   * Space_Separator characters) and its LineTerminators.
   */
  predicate IsWhitespace(c: char)
  {
    c in {'\t', '\n', '\U{000B}', '\U{000C}', '\r', ' ', '\U{00A0}', '\U{1680}',
          '\U{2028}', '\U{2029}', '\U{202F}', '\U{205F}', '\U{3000}', '\U{FEFF}'}
    || '\U{2000}' <= c <= '\U{200A}'
  }

  predicate AllWhitespace(s: string)
  {
    forall i :: 0 <= i < |s| ==> IsWhitespace(s[i])
  }

  /** `s` without its leading whitespace: a suffix of `s` that is empty or starts with a non-space. */
  function TrimStart(s: string): (r: string)
    ensures |r| <= |s| && r == s[|s| - |r|..]
    ensures AllWhitespace(s[..|s| - |r|])
    ensures r == [] || !IsWhitespace(r[0])
  {
    if s != [] && IsWhitespace(s[0]) then TrimStart(s[1..]) else s
  }

  /** `s` without its trailing whitespace: a prefix of `s` that is empty or ends with a non-space. */
  function TrimEnd(s: string): (r: string)
    ensures |r| <= |s| && r == s[..|r|]
    ensures AllWhitespace(s[|r|..])
    ensures r == [] || !IsWhitespace(r[|r| - 1])
  {
    if s != [] && IsWhitespace(s[|s| - 1]) then TrimEnd(s[..|s| - 1]) else s
  }

  /** `trim`: whitespace removed from both ends. */
  function Trim(s: string): (r: string)
    ensures |r| <= |s|
    ensures r == [] || (!IsWhitespace(r[0]) && !IsWhitespace(r[|r| - 1]))
    ensures r == [] <==> AllWhitespace(s)
  {
    var u := TrimStart(s);
    assert TrimEnd(u) == [] ==> u[|TrimEnd(u)|..] == u;
    assert u != [] ==> u[0] == s[|s| - |u|];
    assert u == [] ==> s[..|s| - |u|] == s;
    TrimEnd(u)
  }

  /**
   * The upper case of one character, as a string (some characters
   * upper-case to two or three). Covered exactly: the ASCII letters and
   * every character whose full upper case consists of ASCII letters only
   * (sharp s, dotless i, long s and the Latin ligatures U+FB00 to U+FB06).
   * Every other character is returned unchanged; JavaScript maps some of
   * them to other characters, but never to a string made of A-Z and 0-9
   * alone, so comparing the result with a security code decides the same.
   * (Six of them, U+01F0 and U+1E96 to U+1E9A, upper-case to an ASCII
   * letter followed by a mark that is not a code symbol.)
   */
  function UpperOf(c: char): (u: string)
  {
    if 'a' <= c <= 'z' then [(c as int - 32) as char]
    else if c == '\U{00DF}' then "SS"
    else if c == '\U{0131}' then "I"
    else if c == '\U{017F}' then "S"
    else if c == '\U{FB00}' then "FF"
    else if c == '\U{FB01}' then "FI"
    else if c == '\U{FB02}' then "FL"
    else if c == '\U{FB03}' then "FFI"
    else if c == '\U{FB04}' then "FFL"
    else if c == '\U{FB05}' || c == '\U{FB06}' then "ST"
    else [c]
  }

  /** `toUpperCase`: each character replaced by its upper case, in order. */
  function ToUpperCase(s: string): (r: string)
    ensures |r| >= |s|
    ensures r == [] <==> s == []
  {
    if s == [] then [] else UpperOf(s[0]) + ToUpperCase(s[1..])
  }

  /** What bot.js compares with the security code: `text.trim().toUpperCase()`. */
  function Normalize(text: string): (r: string)
    ensures |r| >= |Trim(text)|
    ensures r == [] <==> AllWhitespace(text)
  {
    ToUpperCase(Trim(text))
  }

  /** The lower-case form of a code symbol (digits have none). */
  function LowerOf(c: char): char
  {
    if 'A' <= c <= 'Z' then (c as int + 32) as char else c
  }

  /** `v` spells `code` with any mixture of upper- and lower-case letters. */
  predicate IsCaseVariant(v: string, code: string)
  {
    |v| == |code| && forall i :: 0 <= i < |v| ==> v[i] == code[i] || v[i] == LowerOf(code[i])
  }

  lemma {:induction false} ToUpperCaseAppend(a: string, b: string)
    ensures ToUpperCase(a + b) == ToUpperCase(a) + ToUpperCase(b)
  {
    if a == [] {
      assert a + b == b;
    } else {
      assert (a + b)[1..] == a[1..] + b;
      ToUpperCaseAppend(a[1..], b);
    }
  }

  lemma {:induction false} TrimStartSkips(w: string, u: string)
    requires AllWhitespace(w)
    ensures TrimStart(w + u) == TrimStart(u)
  {
    if w == [] {
      assert w + u == u;
    } else {
      assert (w + u)[1..] == w[1..] + u;
      TrimStartSkips(w[1..], u);
    }
  }

  lemma {:induction false} TrimEndSkips(u: string, w: string)
    requires AllWhitespace(w)
    ensures TrimEnd(u + w) == TrimEnd(u)
  {
    if w == [] {
      assert u + w == u;
    } else {
      assert (u + w)[..|u + w| - 1] == u + w[..|w| - 1];
      TrimEndSkips(u, w[..|w| - 1]);
    }
  }

  /** Trimming removes exactly the padding around a text that neither starts nor ends with whitespace. */
  lemma TrimPadded(w1: string, t: string, w2: string)
    requires AllWhitespace(w1) && AllWhitespace(w2)
    requires t == [] || (!IsWhitespace(t[0]) && !IsWhitespace(t[|t| - 1]))
    ensures Trim(w1 + t + w2) == t
  {
    var rest := t + w2;
    assert w1 + t + w2 == w1 + rest;
    TrimStartSkips(w1, rest);
    if t == [] {
      assert rest == w2 + [];
      TrimStartSkips(w2, []);
      assert TrimStart(rest) == [];
    } else {
      assert rest[0] == t[0];
      assert TrimStart(rest) == rest;
      TrimEndSkips(t, w2);
      assert TrimEnd(t) == t;
    }
  }

  /** A whitespace-only reply normalises to the empty string. */
  lemma BlankNormalizesToEmpty(s: string)
    requires AllWhitespace(s)
    ensures Normalize(s) == []
  {
    TrimPadded(s, [], []);
    assert s + [] + [] == s;
  }

  /** A code symbol (an upper-case ASCII letter or a digit), and its lower-case form, upper-case to the symbol itself. */
  lemma UpperOfSymbol(c: char)
    requires SecurityCode.IsSymbol(c)
    ensures UpperOf(c) == [c] && UpperOf(LowerOf(c)) == [c]
  {
  }

  /** Upper-casing any case variant of a code gives back the code. */
  lemma {:induction false} UpperOfCaseVariant(v: string, code: string)
    requires SecurityCode.IsCode(code, |code|) && IsCaseVariant(v, code)
    ensures ToUpperCase(v) == code
  {
    if v != [] {
      UpperOfSymbol(code[0]);
      assert UpperOf(v[0]) == [code[0]];
      UpperOfCaseVariant(v[1..], code[1..]);
      assert code == [code[0]] + code[1..];
    }
  }

  /**
   * The reply check accepts the code written in any letter case with any
   * whitespace around it.
   */
  lemma NormalizeCaseVariant(w1: string, v: string, w2: string, code: string)
    requires SecurityCode.IsCode(code, |code|) && IsCaseVariant(v, code)
    requires AllWhitespace(w1) && AllWhitespace(w2)
    ensures Normalize(w1 + v + w2) == code
  {
    TrimPadded(w1, v, w2);
    UpperOfCaseVariant(v, code);
  }

  /**
   * The characters whose upper case in this model's `UpperOf` can start
   * with a code symbol: the symbols themselves, the ASCII lower-case
   * letters, and the characters whose full upper case is made of ASCII
   * letters only.
   */
  predicate UppersToSymbol(c: char)
  {
    SecurityCode.IsSymbol(c) || 'a' <= c <= 'z'
    || c == '\U{00DF}' || c == '\U{0131}' || c == '\U{017F}' || '\U{FB00}' <= c <= '\U{FB06}'
  }

  /** In this model's `UpperOf`, every character upper-cases to at least one character, and to a leading symbol only if it is one of those. */
  lemma UpperOfLead(c: char)
    ensures |UpperOf(c)| >= 1
    ensures SecurityCode.IsSymbol(UpperOf(c)[0]) ==> UppersToSymbol(c)
  {
  }

  /** If the upper case of `s` is made of code symbols only, so is `s` up to case and the characters above, and it is no longer. */
  lemma {:induction false} UpperToSymbolsFrom(s: string)
    requires forall i :: 0 <= i < |ToUpperCase(s)| ==> SecurityCode.IsSymbol(ToUpperCase(s)[i])
    ensures forall i :: 0 <= i < |s| ==> UppersToSymbol(s[i])
    ensures |s| <= |ToUpperCase(s)|
  {
    if s != [] {
      var head, tail := UpperOf(s[0]), ToUpperCase(s[1..]);
      assert ToUpperCase(s) == head + tail;
      UpperOfLead(s[0]);
      assert ToUpperCase(s)[0] == head[0];
      forall i | 0 <= i < |tail|
        ensures SecurityCode.IsSymbol(tail[i])
      {
        assert tail[i] == ToUpperCase(s)[|head| + i];
      }
      UpperToSymbolsFrom(s[1..]);
      forall i | 0 <= i < |s|
        ensures UppersToSymbol(s[i])
      {
        if i > 0 {
          assert s[i] == s[1..][i - 1];
        }
      }
    }
  }

  /**
   * The converse of NormalizeCaseVariant: a reply the check accepts for a
   * code is, once trimmed, no longer than the code, and each of its
   * characters is a code symbol, an ASCII lower-case letter, sharp s,
   * dotless i, long s or one of the Latin ligatures U+FB00 to U+FB06.
   */
  lemma NormalizeAcceptsOnly(text: string, code: string)
    requires SecurityCode.IsCode(code, |code|) && Normalize(text) == code
    ensures |Trim(text)| <= |code|
    ensures forall i :: 0 <= i < |Trim(text)| ==> UppersToSymbol(Trim(text)[i])
  {
    UpperToSymbolsFrom(Trim(text));
  }

  /** Upper-casing the ligature U+FB01 gives the two letters "FI". */
  lemma LigatureUpper()
    ensures ToUpperCase(['\U{FB01}']) == "FI"
  {
    assert ToUpperCase(['\U{FB01}']) == UpperOf('\U{FB01}') + ToUpperCase([]);
  }

  /** A reply with no whitespace at either end, padded with whitespace, normalises to its upper-case form. */
  lemma NormalizePadded(w1: string, t: string, w2: string, u: string)
    requires AllWhitespace(w1) && AllWhitespace(w2)
    requires t == [] || (!IsWhitespace(t[0]) && !IsWhitespace(t[|t| - 1]))
    requires ToUpperCase(t) == u
    ensures Normalize(w1 + t + w2) == u
  {
    TrimPadded(w1, t, w2);
  }

  /** U+FB01 followed by a case variant of the rest of a code that starts with "FI" upper-cases to that code. */
  lemma LigatureUpperCode(v: string, code: string)
    requires SecurityCode.IsCode(code, |code|) && |code| >= 2 && code[..2] == "FI"
    requires IsCaseVariant(v, code[2..])
    ensures ToUpperCase(['\U{FB01}'] + v) == code
  {
    assert SecurityCode.IsCode(code[2..], |code[2..]|);
    UpperOfCaseVariant(v, code[2..]);
    LigatureUpper();
    ToUpperCaseAppend(['\U{FB01}'], v);
    assert code == code[..2] + code[2..];
  }

  /** Such a reply neither starts nor ends with whitespace, so trimming leaves it alone. */
  lemma LigatureTrimmed(v: string, code: string)
    requires SecurityCode.IsCode(code, |code|) && |code| >= 2
    requires IsCaseVariant(v, code[2..])
    ensures !IsWhitespace((['\U{FB01}'] + v)[0]) && !IsWhitespace((['\U{FB01}'] + v)[|v|])
  {
    var t := ['\U{FB01}'] + v;
    if v != [] {
      assert t[|v|] == v[|v| - 1];
      assert SecurityCode.IsSymbol(code[2..][|v| - 1]);
    }
  }

  /**
   * Full case mapping also lets a ligature through: a code that starts
   * with "FI" is matched by a reply that writes those two letters as the
   * single character U+FB01, followed by any case variant of the rest.
   */
  lemma LigatureNormalizes(w1: string, v: string, w2: string, code: string)
    requires SecurityCode.IsCode(code, |code|) && |code| >= 2 && code[..2] == "FI"
    requires IsCaseVariant(v, code[2..])
    requires AllWhitespace(w1) && AllWhitespace(w2)
    ensures Normalize(w1 + (['\U{FB01}'] + v) + w2) == code
  {
    LigatureTrimmed(v, code);
    LigatureUpperCode(v, code);
    NormalizePadded(w1, ['\U{FB01}'] + v, w2, code);
  }
}

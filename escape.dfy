/**
 * The escaping half of `normalize`: after markup has been stripped (an
 * input here, see `Normalize`), the text is trimmed and passed through a
 * fixed chain of seven global replacements, `&` first.
 *
 * The proofs go through a token view: `Expand(s, k)` writes each character
 * of `s` as what the first `k` replacements turn it into. The chain of
 * replacements is `Expand(s, 7)`, and each reverse replacement takes
 * `Expand(s, k + 1)` back to `Expand(s, k)`.
 */
module Escape {
  import opened Text

  /** The characters `normalize` replaces, in the order of its chain. */
  const Specials: seq<char> := ['&', '<', '>', '"', '\'', '(', ')']

  /** The entity each of `Specials` becomes. */
  const Entities: seq<string> := ["&amp;", "&lt;", "&gt;", "&quot;", "&#039;", "&#040;", "&#041;"]

  /** `s.replace(/c/g, e)`: every occurrence of `c`, left to right, replaced by `e`. */
  function ReplaceAll(s: string, c: char, e: string): string {
    if s == [] then [] else (if s[0] == c then e else [s[0]]) + ReplaceAll(s[1..], c, e)
  }

  /** The replacement chain of `normalize`, in the source's order. */
  function Escape(t: string): string {
    var t1 := ReplaceAll(t, '&', "&amp;");
    var t2 := ReplaceAll(t1, '<', "&lt;");
    var t3 := ReplaceAll(t2, '>', "&gt;");
    var t4 := ReplaceAll(t3, '"', "&quot;");
    var t5 := ReplaceAll(t4, '\'', "&#039;");
    var t6 := ReplaceAll(t5, '(', "&#040;");
    ReplaceAll(t6, ')', "&#041;")
  }

  /** `normalize` applied to text whose markup the browser has already stripped. */
  function Normalize(stripped: string): string {
    Escape(Trim(stripped))
  }

  /** Every occurrence of `e` in `t`, left to right, replaced by `c`. */
  function Unreplace(t: string, e: string, c: char): string
    decreases |t|
  {
    if t == [] then []
    else if e != [] && e <= t then [c] + Unreplace(t[|e|..], e, c)
    else [t[0]] + Unreplace(t[1..], e, c)
  }

  /** Decodes entities `k - 1` down to `0`, in that order. */
  function UnescapeFrom(r: string, k: nat): string
    requires k <= 7
    decreases k
  {
    if k == 0 then r else UnescapeFrom(Unreplace(r, Entities[k - 1], Specials[k - 1]), k - 1)
  }

  /** The seven entities decoded in the reverse of the order they were introduced: `&#041;` first, `&amp;` last. */
  function Unescape(r: string): string {
    UnescapeFrom(r, 7)
  }

  // ---------------------------------------------------------------- tokens

  /** The position of `ch` in `Specials`, or 7 when it is not special. */
  function SpecialIndex(ch: char): (n: nat)
    ensures n <= 7
    ensures n < 7 ==> Specials[n] == ch
    ensures n == 7 <==> ch !in Specials
  {
    if ch == '&' then 0 else if ch == '<' then 1 else if ch == '>' then 2
    else if ch == '"' then 3 else if ch == '\'' then 4 else if ch == '(' then 5
    else if ch == ')' then 6 else 7
  }

  /** What the first `k` replacements of the chain make of the single character `ch`. */
  function Token(ch: char, k: nat): string
    requires k <= 7
  {
    var n := SpecialIndex(ch);
    if n < k then Entities[n] else [ch]
  }

  /** `s` with each character written as its `Token`. */
  function Expand(s: string, k: nat): string
    requires k <= 7
  {
    if s == [] then [] else Token(s[0], k) + Expand(s[1..], k)
  }

  /** The characters an entity has after its leading `&`. */
  predicate EntityBodyChar(c: char) {
    'a' <= c <= 'z' || '0' <= c <= '9' || c == '#' || c == ';'
  }

  lemma EntityShape(n: nat)
    requires n < 7
    ensures |Entities[n]| >= 4 && Entities[n][0] == '&'
    ensures forall m :: 1 <= m < |Entities[n]| ==> EntityBodyChar(Entities[n][m])
    ensures '&' !in Entities[n][1..]
    ensures forall c :: c in Entities[n] ==> c == '&' || EntityBodyChar(c)
  {
    assert Entities[0] == "&amp;";
    assert Entities[1] == "&lt;";
    assert Entities[2] == "&gt;";
    assert Entities[3] == "&quot;";
    assert Entities[4] == "&#039;";
    assert Entities[5] == "&#040;";
    assert Entities[6] == "&#041;";
  }

  /** No entity is a prefix of another. */
  lemma EntitiesPrefixFree(j: nat, k: nat)
    requires j < 7 && k < 7 && j != k
    ensures !(Entities[j] <= Entities[k])
  {
    var a, b := Entities[j], Entities[k];
    assert Entities[0][1] == 'a' && Entities[1][1] == 'l' && Entities[2][1] == 'g';
    assert Entities[3][1] == 'q' && Entities[4][2] == '0' && Entities[5][3] == '4';
    assert Entities[6][4] == '1' && Entities[5][4] == '0' && Entities[4][3] == '3';
    if a <= b {
      assert a[1] == b[1] && a[2] == b[2] && a[3] == b[3];
    }
  }

  lemma ReplaceAllConcat(a: string, b: string, c: char, e: string)
    ensures ReplaceAll(a + b, c, e) == ReplaceAll(a, c, e) + ReplaceAll(b, c, e)
  {
    if a != [] {
      var head := if a[0] == c then e else [a[0]];
      assert (a + b)[0] == a[0];
      assert (a + b)[1..] == a[1..] + b;
      ReplaceAllConcat(a[1..], b, c, e);
      calc {
        ReplaceAll(a + b, c, e);
        head + ReplaceAll(a[1..] + b, c, e);
        head + (ReplaceAll(a[1..], c, e) + ReplaceAll(b, c, e));
        (head + ReplaceAll(a[1..], c, e)) + ReplaceAll(b, c, e);
      }
    } else {
      assert a + b == b;
    }
  }

  lemma ReplaceAllAbsent(a: string, c: char, e: string)
    requires c !in a
    ensures ReplaceAll(a, c, e) == a
  {
    if a != [] {
      ReplaceAllAbsent(a[1..], c, e);
    }
  }

  /** One replacement of the chain advances a token by one stage. */
  lemma TokenStep(ch: char, k: nat)
    requires k < 7
    ensures ReplaceAll(Token(ch, k), Specials[k], Entities[k]) == Token(ch, k + 1)
  {
    var n := SpecialIndex(ch);
    if n < k {
      EntityShape(n);
      ReplaceAllAbsent(Entities[n], Specials[k], Entities[k]);
    } else if n == k {
      assert ReplaceAll([ch], ch, Entities[k]) == Entities[k] + [];
    } else {
      assert ReplaceAll([ch], Specials[k], Entities[k]) == [ch] + [];
    }
  }

  /** One replacement of the chain advances every token by one stage. */
  lemma {:induction false} ExpandStep(s: string, k: nat)
    requires k < 7
    ensures ReplaceAll(Expand(s, k), Specials[k], Entities[k]) == Expand(s, k + 1)
  {
    if s != [] {
      ReplaceAllConcat(Token(s[0], k), Expand(s[1..], k), Specials[k], Entities[k]);
      TokenStep(s[0], k);
      ExpandStep(s[1..], k);
    }
  }

  lemma {:induction false} ExpandNone(s: string)
    ensures Expand(s, 0) == s
  {
    if s != [] {
      ExpandNone(s[1..]);
    }
  }

  /** The replacement chain writes each character as its final token. */
  lemma EscapeIsExpand(t: string)
    ensures Escape(t) == Expand(t, 7)
  {
    ExpandNone(t);
    ExpandStep(t, 0);
    ExpandStep(t, 1);
    ExpandStep(t, 2);
    ExpandStep(t, 3);
    ExpandStep(t, 4);
    ExpandStep(t, 5);
    ExpandStep(t, 6);
  }

  // --------------------------------------------------------------- decoding

  /** Text without `&` holds no entity, so decoding passes it through. */
  lemma {:induction false} UnreplacePlain(x: string, rest: string, e: string, c: char)
    requires e != [] && e[0] == '&'
    requires '&' !in x
    ensures Unreplace(x + rest, e, c) == x + Unreplace(rest, e, c)
  {
    if x != [] {
      assert x[0] in x;
      assert (x + rest)[0] == x[0];
      assert (x + rest)[1..] == x[1..] + rest;
      assert '&' !in x[1..];
      UnreplacePlain(x[1..], rest, e, c);
      assert x == [x[0]] + x[1..];
    } else {
      assert x + rest == rest;
    }
  }

  /** A prefix of `a + rest` is a prefix of `a`, or has `a` as a prefix. */
  lemma PrefixOfConcat(e: string, a: string, rest: string)
    ensures e <= a + rest ==> e <= a || a <= e
  {
    if e <= a + rest {
      if |e| <= |a| {
        assert e == (a + rest)[..|e|] == a[..|e|];
      } else {
        assert a == (a + rest)[..|a|] == e[..|a|];
      }
    }
  }

  /** An `&`-led word that neither contains nor is contained in `e` is passed through. */
  lemma UnreplaceAfterAmp(a: string, e: string, c: char, rest: string)
    requires a != [] && a[0] == '&' && '&' !in a[1..]
    requires e != [] && e[0] == '&'
    requires !(e <= a) && !(a <= e)
    ensures Unreplace(a + rest, e, c) == a + Unreplace(rest, e, c)
  {
    PrefixOfConcat(e, a, rest);
    assert (a + rest)[1..] == a[1..] + rest;
    UnreplacePlain(a[1..], rest, e, c);
    assert a == [a[0]] + a[1..];
  }

  lemma UnreplaceOther(j: nat, k: nat, rest: string)
    requires j < 7 && k < 7 && j != k
    ensures Unreplace(Entities[j] + rest, Entities[k], Specials[k])
         == Entities[j] + Unreplace(rest, Entities[k], Specials[k])
  {
    EntityShape(j);
    EntityShape(k);
    EntitiesPrefixFree(j, k);
    EntitiesPrefixFree(k, j);
    UnreplaceAfterAmp(Entities[j], Entities[k], Specials[k], rest);
  }

  /** Decoding entity `k` takes one token back by one stage. */
  lemma UnreplaceToken(ch: char, k: nat, rest: string)
    requires k < 7
    ensures Unreplace(Token(ch, k + 1) + rest, Entities[k], Specials[k])
         == Token(ch, k) + Unreplace(rest, Entities[k], Specials[k])
  {
    var n := SpecialIndex(ch);
    if n < k {
      UnreplaceOther(n, k, rest);
    } else if n == k {
      EntityShape(k);
      assert (Entities[k] + rest)[|Entities[k]|..] == rest;
    } else {
      EntityShape(k);
      UnreplacePlain([ch], rest, Entities[k], Specials[k]);
    }
  }

  /** Decoding entity `k` takes every token back by one stage. */
  lemma {:induction false} UnreplaceExpand(s: string, k: nat)
    requires k < 7
    ensures Unreplace(Expand(s, k + 1), Entities[k], Specials[k]) == Expand(s, k)
  {
    if s != [] {
      UnreplaceToken(s[0], k, Expand(s[1..], k + 1));
      UnreplaceExpand(s[1..], k);
    }
  }

  /** Decoding entities `k - 1` down to `0` undoes the first `k` replacements. */
  lemma {:induction false} UnescapeFromExpand(t: string, k: nat)
    requires k <= 7
    ensures UnescapeFrom(Expand(t, k), k) == t
  {
    if k == 0 {
      ExpandNone(t);
    } else {
      UnreplaceExpand(t, k - 1);
      UnescapeFromExpand(t, k - 1);
    }
  }

  /** Decoding the seven entities in reverse order gives back exactly the escaped text. */
  lemma UnescapeEscape(t: string)
    ensures Unescape(Escape(t)) == t
  {
    EscapeIsExpand(t);
    UnescapeFromExpand(t, 7);
  }

  /** The escape chain is injective. */
  lemma EscapeInjective(a: string, b: string)
    requires Escape(a) == Escape(b)
    ensures a == b
  {
    UnescapeEscape(a);
    UnescapeEscape(b);
  }

  /** `normalize` loses nothing of the trimmed text: decoding its output gives the trimmed text back. */
  lemma NormalizeRoundTrip(stripped: string)
    ensures Unescape(Normalize(stripped)) == Trim(stripped)
  {
    UnescapeEscape(Trim(stripped));
  }

  // ----------------------------------------------------------------- safety

  /** The specials other than `&`: `<`, `>`, `"`, `'`, `(` and `)`. */
  predicate IsRawSpecial(c: char) {
    c == '<' || c == '>' || c == '"' || c == '\'' || c == '(' || c == ')'
  }

  /** No raw `<`, `>`, `"`, `'`, `(` or `)`. */
  predicate NoRawSpecials(r: string) {
    forall i :: 0 <= i < |r| ==> !IsRawSpecial(r[i])
  }

  /** `r` has one of the seven entities at index `i`. */
  predicate EntityAt(r: string, i: nat) {
    exists n :: 0 <= n < 7 && OccursAt(r, Entities[n], i)
  }

  /** Every `&` starts one of the seven entities. */
  predicate AmpersandsAreEntities(r: string) {
    forall i :: 0 <= i < |r| && r[i] == '&' ==> EntityAt(r, i)
  }

  predicate SafeHtml(r: string) {
    NoRawSpecials(r) && AmpersandsAreEntities(r)
  }

  lemma EntityAtConcat(a: string, b: string, i: nat)
    ensures i < |a| && EntityAt(a, i) ==> EntityAt(a + b, i)
    ensures i < |b| && EntityAt(b, i) ==> EntityAt(a + b, |a| + i)
  {
    if i < |a| && EntityAt(a, i) {
      var n :| 0 <= n < 7 && OccursAt(a, Entities[n], i);
      assert (a + b)[i..i + |Entities[n]|] == a[i..i + |Entities[n]|];
      assert OccursAt(a + b, Entities[n], i);
    }
    if i < |b| && EntityAt(b, i) {
      var n :| 0 <= n < 7 && OccursAt(b, Entities[n], i);
      assert (a + b)[|a| + i..|a| + i + |Entities[n]|] == b[i..i + |Entities[n]|];
      assert OccursAt(a + b, Entities[n], |a| + i);
    }
  }

  lemma SafeConcat(a: string, b: string)
    requires SafeHtml(a) && SafeHtml(b)
    ensures SafeHtml(a + b)
  {
    var r := a + b;
    forall i | 0 <= i < |r|
      ensures !IsRawSpecial(r[i])
      ensures r[i] == '&' ==> EntityAt(r, i)
    {
      if i < |a| {
        assert r[i] == a[i];
        EntityAtConcat(a, b, i);
      } else {
        assert r[i] == b[i - |a|];
        EntityAtConcat(a, b, i - |a|);
      }
    }
  }

  lemma EntitySafe(n: nat)
    requires n < 7
    ensures SafeHtml(Entities[n])
  {
    var e := Entities[n];
    EntityShape(n);
    assert OccursAt(e, e, 0) by { assert e[0..|e|] == e; }
    forall i | 0 <= i < |e|
      ensures !IsRawSpecial(e[i]) && (e[i] == '&' ==> EntityAt(e, i))
    {
      if i > 0 {
        assert EntityBodyChar(e[i]);
      }
    }
  }

  lemma TokenSafe(ch: char)
    ensures SafeHtml(Token(ch, 7))
  {
    var n := SpecialIndex(ch);
    if n < 7 {
      EntitySafe(n);
    }
  }

  lemma {:induction false} ExpandSafe(s: string)
    ensures SafeHtml(Expand(s, 7))
  {
    if s != [] {
      ExpandSafe(s[1..]);
      TokenSafe(s[0]);
      SafeConcat(Token(s[0], 7), Expand(s[1..], 7));
    }
  }

  /**
   * The escaped text holds no raw `<`, `>`, `"`, `'`, `(` or `)`, and every
   * `&` in it starts one of the seven entities, because `&` is replaced first.
   */
  lemma EscapeSafe(t: string)
    ensures NoRawSpecials(Escape(t))
    ensures AmpersandsAreEntities(Escape(t))
  {
    EscapeIsExpand(t);
    ExpandSafe(t);
  }

  /** Text that holds no special character passes through the chain unchanged. */
  lemma {:induction false} EscapePlain(t: string)
    requires forall i :: 0 <= i < |t| ==> t[i] !in Specials
    ensures Escape(t) == t
  {
    EscapeIsExpand(t);
    ExpandPlain(t);
  }

  lemma {:induction false} ExpandPlain(t: string)
    requires forall i :: 0 <= i < |t| ==> t[i] !in Specials
    ensures Expand(t, 7) == t
  {
    if t != [] {
      ExpandPlain(t[1..]);
    }
  }
}

/** What the masker would read if it counted the text between two dollar-quote tags in characters throughout: the
    same grammar, with every closing tag where it stands. When the two readings agree, and what escapes masking when
    they do not (internal/redact/redact.go).
 */
module Exact {
  import opened Lexer
  import opened MaskTheory

  /** The length of the token at the head of `s`: a closed dollar quote ends with its closing tag. */
  function ExactLen(w: bool, s: string): (n: nat)
    requires s != ""
    ensures 0 < n <= |s|
  {
    if KindOf(w, s) == DollarQuote && Closing(s) >= 0 then TagLen(s) + Closing(s) + TagLen(s) else TokenLen(w, s)
  }

  function ExactToken(w: bool, s: string): (t: Token)
    requires s != ""
    ensures |t.text| == ExactLen(w, s) && t.text == s[..|t.text|] && t.text + s[|t.text|..] == s
  {
    Token(KindOf(w, s), s[..ExactLen(w, s)])
  }

  function ExactLex(w: bool, s: string): seq<Token>
    decreases |s|
  {
    if s == "" then []
    else
      var t := ExactToken(w, s);
      [t] + ExactLex(EndsWord(t.text), s[|t.text|..])
  }

  /** The query with every literal and every comment text replaced. */
  function ExactMasked(w: bool, s: string): string {
    Render(EraseAll(ExactLex(w, s)))
  }

  lemma ExactStep(w: bool, s: string)
    requires s != ""
    ensures var t := ExactToken(w, s); ExactLex(w, s) == [t] + ExactLex(EndsWord(t.text), s[|t.text|..])
  {
  }

  lemma ExactEmpty(w: bool)
    ensures ExactLex(w, "") == []
  {
  }

  lemma {:induction false} ExactLossless(w: bool, s: string)
    ensures Render(ExactLex(w, s)) == s
    decreases |s|
  {
    if s != "" {
      hide ExactLen, KindOf;
      var t := ExactToken(w, s);
      ExactLossless(EndsWord(t.text), s[|t.text|..]);
      ExactStep(w, s);
      assert ExactLex(w, s)[1..] == ExactLex(EndsWord(t.text), s[|t.text|..]);
    }
  }

  // ---- When the two readings agree

  /** A dollar quote that is not ASCII, with something behind it. An unclosed one takes the whole rest, so this is a
      closed one; and its tags are ASCII, so it is its body that is not. */
  predicate DriftAt(ts: seq<Token>, i: nat) {
    i + 1 < |ts| && ts[i].kind == DollarQuote && !Ascii(ts[i].text)
  }

  predicate Drifts(ts: seq<Token>) {
    exists i: nat :: i + 1 < |ts| && DriftAt(ts, i)
  }

  lemma DriftsStep(t: Token, ts: seq<Token>)
    ensures Drifts([t] + ts) <==> DriftAt([t] + ts, 0) || Drifts(ts)
  {
    hide Ascii;
    var us := [t] + ts;
    if Drifts(us) && !DriftAt(us, 0) {
      var i: nat :| i + 1 < |us| && DriftAt(us, i);
      assert us[i] == ts[i - 1];
      assert DriftAt(ts, i - 1);
    }
    if Drifts(ts) {
      var i: nat :| i + 1 < |ts| && DriftAt(ts, i);
      assert us[i + 1] == ts[i];
      assert DriftAt(us, i + 1);
    }
  }

  lemma {:induction false} WordAscii(s: string)
    ensures Ascii(s[..WordLen(s)])
  {
    if s != "" && IsWord(s[0]) {
      WordAscii(s[1..]);
      assert s[..WordLen(s)] == [s[0]] + s[1..][..WordLen(s[1..])];
    }
  }

  lemma TagAscii(s: string)
    requires s != "" && s[0] == '$' && HasTag(s)
    ensures Ascii(s[..TagLen(s)])
  {
    hide WordLen;
    WordAscii(s[1..]);
    var m := WordLen(s[1..]);
    assert s[..TagLen(s)] == "$" + s[1..][..m] + "$";
  }

  lemma AsciiConcat(a: string, b: string)
    ensures Ascii(a + b) <==> Ascii(a) && Ascii(b)
  {
    if Ascii(a + b) {
      assert forall i :: 0 <= i < |a| ==> a[i] == (a + b)[i];
      assert forall i :: 0 <= i < |b| ==> b[i] == (a + b)[|a| + i];
    }
  }

  /** A closed dollar quote is ASCII exactly when its body is. */
  lemma BodyAscii(w: bool, s: string)
    requires s != "" && KindOf(w, s) == DollarQuote && Closing(s) >= 0
    ensures var m, k := TagLen(s), Closing(s); Ascii(s[..m + k + m]) <==> Ascii(s[m..m + k])
  {
    hide TagLen, Closing, Ascii;
    var m, k := TagLen(s), Closing(s);
    DollarQuoteExact(w, s);
    TagAscii(s);
    var tag, body := s[..m], s[m..m + k];
    assert s[..m + k + m] == (tag + body) + tag;
    AsciiConcat(tag + body, tag);
    AsciiConcat(tag, body);
  }

  /** The masker reads the next token as it should, unless it is a dollar quote that is not ASCII and not the last
      thing. */
  lemma TokenExact(w: bool, s: string)
    requires s != ""
    ensures var t, e := NextToken(w, s), ExactToken(w, s);
            t == e <==> !(e.kind == DollarQuote && !Ascii(e.text) && e.text != s)
  {
    hide TagLen, Closing, Ascii, Advance;
    if KindOf(w, s) == DollarQuote {
      if Closing(s) >= 0 {
        BodyAscii(w, s);
        DollarQuoteExact(w, s);
        var n := TagLen(s) + Closing(s) + TagLen(s);
        assert n == |s| <==> s[..n] == s;
      } else {
        UnclosedTakesAll(w, s);
      }
    }
  }

  /** The masker's tokens are the exact ones if and only if every dollar quote with something behind it is ASCII. */
  lemma {:induction false} LexExact(w: bool, s: string)
    ensures Lex(w, s) == ExactLex(w, s) <==> !Drifts(ExactLex(w, s))
    decreases |s|
  {
    hide Lex, ExactLex, NextToken, ExactToken, Drifts, Ascii;
    LexEmpty(w);
    ExactEmpty(w);
    if s == "" {
      NoDriftEmpty();
    } else {
      var t, e := NextToken(w, s), ExactToken(w, s);
      var rest := s[|e.text|..];
      var v := EndsWord(e.text);
      LexStep(w, s);
      ExactStep(w, s);
      TokenExact(w, s);
      DriftsStep(e, ExactLex(v, rest));
      DriftHere(e, rest, v);
      assert Lex(w, s)[0] == t && ExactLex(w, s)[0] == e;
      if t == e {
        LexExact(v, rest);
        assert Lex(w, s)[1..] == Lex(v, rest) && ExactLex(w, s)[1..] == ExactLex(v, rest);
      }
    }
  }

  lemma NoDriftEmpty()
    ensures !Drifts([])
  {
  }

  lemma DriftHere(e: Token, rest: string, v: bool)
    ensures DriftAt([e] + ExactLex(v, rest), 0) <==> rest != "" && e.kind == DollarQuote && !Ascii(e.text)
  {
    hide Ascii, ExactToken;
    ExactEmpty(v);
    if rest != "" {
      ExactStep(v, rest);
    }
  }

  lemma {:induction false} AsciiNoDrift(w: bool, s: string)
    requires Ascii(s)
    ensures !Drifts(ExactLex(w, s))
    decreases |s|
  {
    hide ExactLex, ExactToken, Drifts, Ascii;
    ExactEmpty(w);
    if s == "" {
      NoDriftEmpty();
    } else {
      var e := ExactToken(w, s);
      var v, rest := EndsWord(e.text), s[|e.text|..];
      ExactStep(w, s);
      AsciiSlice(s, 0, |e.text|);
      AsciiSlice(s, |e.text|, |s|);
      assert e.text == s[0..|e.text|] && rest == s[|e.text|..|s|];
      AsciiNoDrift(v, rest);
      DriftsStep(e, ExactLex(v, rest));
      DriftHere(e, rest, v);
    }
  }

  // ---- What masking guarantees then

  lemma {:induction false} ExactNoGlitch(w: bool, s: string)
    ensures !Glitch(ExactLex(w, s))
    decreases |s|
  {
    hide ExactLex, Glitch, TagLen, Closing, Advance;
    ExactEmpty(w);
    if s == "" {
      NoGlitchEmpty();
    } else {
      var e := ExactToken(w, s);
      var v, rest := EndsWord(e.text), s[|e.text|..];
      ExactStep(w, s);
      ExactNoGlitch(v, rest);
      GlitchStep(e, ExactLex(v, rest));
      if e.kind == DollarQuote && rest != "" {
        ClosedEndsInTag(w, s);
      } else {
        assert rest == "" ==> ExactLex(v, rest) == [] by { ExactEmpty(v); }
      }
    }
  }

  lemma ClosedEndsInTag(w: bool, s: string)
    requires s != "" && KindOf(w, s) == DollarQuote && ExactToken(w, s).text != s
    ensures !EndsWord(ExactToken(w, s).text)
  {
    hide WordLen, IndexOf, ByteLen;
    if Closing(s) >= 0 {
      var m, k := TagLen(s), Closing(s);
      DollarQuoteExact(w, s);
      var tag := s[m + k..m + k + m];
      assert tag[m - 1] == s[..m][m - 1] == '$';
      assert s[..m + k + m][m + k + m - 1] == tag[m - 1];
    } else {
      UnclosedTakesAll(w, s);
    }
  }

  /** Without a drift every literal is gone: what the masker writes is the query with each of its literals and
      comment texts replaced, and reading that again finds none. */
  lemma LiteralsGone(q: string)
    requires !Drifts(ExactLex(false, q))
    ensures Masked(false, q) == ExactMasked(false, q)
    ensures !Glitch(Lex(false, q)) && Lex(false, Masked(false, q)) == EraseAll(ExactLex(false, q))
    ensures LiteralFree(EraseAll(ExactLex(false, q)))
  {
    hide Lex, ExactLex, Masked, EraseAll, Glitch, Drifts, LiteralFree;
    LexExact(false, q);
    ExactNoGlitch(false, q);
    MaskLiteralFree(q);
    MaskedIs(false, q);
    ErasedLiteralFree(ExactLex(false, q));
  }

  // ---- What escapes otherwise

  const WIDE := "$$\U{00E9}$$"

  lemma WideToken(x: string)
    requires x != ""
    ensures var q := WIDE + x;
            && KindOf(false, q) == DollarQuote && TagLen(q) == 2 && Closing(q) == 1 && Advance(false, q) == 6
  {
    hide WordLen, IndexOf;
    var q := WIDE + x;
    assert q[..2] == "$$" && q[2..3] == "\U{00E9}";
    WideTag(x);
    assert ByteLen("\U{00E9}") == 2 by { assert "\U{00E9}"[1..] == ""; }
  }

  lemma WideTag(x: string)
    ensures var q := WIDE + x; WordLen(q[1..]) == 0 && q[1] == '$' && IndexOf(q[2..], "$$") == 1
  {
    var q := WIDE + x;
    var y := q[2..];
    assert y[..2] == "\U{00E9}$" && y[1..][..2] == "$$";
    assert IndexOf(y[1..], "$$") == 0;
  }

  /** Any text of a string literal right behind a dollar quote with one two-byte character: the masker swallows the
      opening quote, and the text stays as it is - although there is no glitch. */
  lemma StringEscapes(v: string)
    requires Quiet(v)
    ensures var q := WIDE + ("'" + v + "'");
            && Masked(false, q) == "?" + v + "?" && !Glitch(Lex(false, q))
            && ExactLex(false, q) == [Token(DollarQuote, WIDE), Token(StringLit, "'" + v + "'")]
            && ExactMasked(false, q) == "??"
  {
    var x := "'" + v + "'";
    EscapeMasked(v);
    EscapeExact(v);
    hide Masked, ExactLex, Glitch, EraseAll, Render;
    var ts := [Token(DollarQuote, WIDE), Token(StringLit, x)];
    assert Render(EraseAll(ts)) == "??" by { TwoErased(x); }
  }

  lemma TwoErased(x: string)
    ensures Render(EraseAll([Token(DollarQuote, WIDE), Token(StringLit, x)])) == "??"
  {
    var b := [Token(StringLit, x)];
    var a := [Token(DollarQuote, WIDE)] + b;
    assert a[1..] == b && b[1..] == [];
    var e := EraseAll(b);
    assert e == [Token(Plain, "?")] && e[1..] == [];
    assert Render(e) == "?" + Render(e[1..]);
    assert EraseAll(a) == [Token(Plain, "?")] + e;
    assert EraseAll(a)[1..] == e;
  }

  lemma EscapeMasked(v: string)
    requires Quiet(v)
    ensures var q := WIDE + ("'" + v + "'"); Masked(false, q) == "?" + v + "?" && !Glitch(Lex(false, q))
  {
    hide Advance, KindOf, Masked, Quiet, Glitch, Lex;
    var x := "'" + v + "'";
    var q := WIDE + x;
    WideToken(x);
    MaskedStep(false, q);
    assert q[6..] == v + "'" && q[..6][5] == '\'';
    QuietMasked(false, v, "'");
    QuoteAlone(if v == "" then false else EndsWord(v));
    assert "?" + (v + "?") == "?" + v + "?";
    QuietNoGlitch(false, v);
    LexStep(false, q);
    GlitchStep(NextToken(false, q), Lex(false, v + "'"));
    GlitchHere(false, q);
  }

  lemma QuoteAlone(w: bool)
    ensures Masked(w, "'") == "?" && !Glitch(Lex(w, "'"))
  {
    var s := "'";
    assert s[1..] == "";
    assert NextToken(w, s) == Token(StringLit, s);
    MaskedStep(w, s);
    MaskedEmpty(false);
    LexStep(w, s);
  }

  lemma {:induction false} QuietNoGlitch(w: bool, v: string)
    requires Quiet(v)
    ensures !Glitch(Lex(w, v + "'"))
    decreases |v|
  {
    hide Glitch, Lex;
    var s := v + "'";
    if v == "" {
      QuoteAlone(w);
      assert s == "'";
    } else {
      assert s[..1] == [v[0]];
      assert NextToken(w, s) == Token(Plain, [v[0]]);
      assert s[1..] == v[1..] + "'";
      QuietNoGlitch(IsWord(v[0]), v[1..]);
      LexStep(w, s);
      GlitchStep(NextToken(w, s), Lex(IsWord(v[0]), s[1..]));
      GlitchHere(w, s);
    }
  }

  lemma EscapeExact(v: string)
    requires Quiet(v)
    ensures var x := "'" + v + "'";
            ExactLex(false, WIDE + x) == [Token(DollarQuote, WIDE), Token(StringLit, x)]
  {
    hide ExactLex, Advance, IndexOf, WordLen;
    var x := "'" + v + "'";
    var q := WIDE + x;
    WideToken(x);
    ExactStep(false, q);
    assert ExactToken(false, q).text == q[..5] == WIDE && q[5..] == x;
    ExactStep(false, x);
    QuietString(v);
    assert ExactToken(false, x) == Token(StringLit, x) by { assert x[..|x|] == x; }
    ExactEmpty(false);
    assert x[|x|..] == "";
  }

  lemma {:induction false} QuietString(v: string)
    requires Quiet(v)
    ensures StringLen(v + "'") == |v| + 1
    ensures Advance(false, "'" + v + "'") == |v| + 2
  {
    var x := v + "'";
    if v != "" {
      QuietString(v[1..]);
      assert x[1..] == v[1..] + "'";
    }
    assert ("'" + v + "'")[1..] == x;
  }
}

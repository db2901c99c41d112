/** What masking guarantees, for every query: it splits at token boundaries, reading the result again finds no
    literal, and masking twice changes nothing - with the exact condition under which the last two hold. Whether the
    literals of the query itself are gone is another question, answered in `Exact`.
 */
module MaskTheory {
  import opened Lexer

  // ---- Locality of the scans: cutting the text after a token, or extending it beyond one more character

  lemma LineLocal(x: string, y: string)
    ensures LineLen(x + y) <= |x| ==> LineLen(x) == LineLen(x + y)
    ensures LineLen(x) < |x| ==> LineLen(x + y) == LineLen(x)
  {
    if x != "" {
      assert (x + y)[1..] == x[1..] + y;
    }
  }

  lemma BlockLocal(x: string, y: string)
    ensures BlockLen(x + y) + 2 <= |x| ==> BlockLen(x) == BlockLen(x + y)
    ensures BlockLen(x) + 2 <= |x| ==> BlockLen(x + y) == BlockLen(x)
  {
    if |x| >= 2 {
      assert (x + y)[1..] == x[1..] + y;
    }
  }

  lemma StringLocal(x: string, y: string)
    ensures StringLen(x + y) <= |x| ==> StringLen(x) == StringLen(x + y)
    ensures StringLen(x) < |x| ==> StringLen(x + y) == StringLen(x)
    decreases |x|
  {
    if |x| >= 2 && x[0] == '\'' && x[1] == '\'' {
      assert (x + y)[2..] == x[2..] + y;
      StringLocal(x[2..], y);
    } else if x != "" {
      assert (x + y)[1..] == x[1..] + y;
      StringLocal(x[1..], y);
    }
  }

  lemma IdentLocal(x: string, y: string)
    ensures IdentLen(x + y) <= |x| ==> IdentLen(x) == IdentLen(x + y)
    ensures IdentLen(x) < |x| ==> IdentLen(x + y) == IdentLen(x)
  {
    if x != "" {
      assert (x + y)[1..] == x[1..] + y;
    }
  }

  lemma WordLocal(x: string, y: string)
    ensures WordLen(x) == Min(WordLen(x + y), |x|)
    ensures WordLen(x) < |x| ==> WordLen(x + y) == WordLen(x)
  {
    if x != "" {
      assert (x + y)[1..] == x[1..] + y;
    }
  }

  lemma DigitLocal(x: string, y: string)
    ensures DigitLen(x + y) <= |x| ==> DigitLen(x) == DigitLen(x + y)
    ensures DigitLen(x) < |x| ==> DigitLen(x + y) == DigitLen(x)
  {
    if x != "" {
      assert (x + y)[1..] == x[1..] + y;
    }
  }

  lemma NumberLocal(prev: char, x: string, y: string)
    ensures NumberLen(prev, x + y) <= |x| ==> NumberLen(prev, x) == NumberLen(prev, x + y)
    ensures NumberLen(prev, x) < |x| ==> NumberLen(prev, x + y) == NumberLen(prev, x)
    decreases |x|
  {
    if x != "" {
      assert (x + y)[1..] == x[1..] + y;
      NumberLocal(x[0], x[1..], y);
    }
  }

  lemma SliceLeft(a: string, b: string, i: nat, j: nat)
    requires i <= j <= |a|
    ensures (a + b)[i..j] == a[i..j]
  {
  }

  lemma {:induction false} IndexLocal(x: string, y: string, p: string)
    requires p != ""
    ensures 0 <= IndexOf(x + y, p) && IndexOf(x + y, p) + |p| <= |x| ==> IndexOf(x, p) == IndexOf(x + y, p)
    ensures IndexOf(x, p) >= 0 ==> IndexOf(x + y, p) == IndexOf(x, p)
  {
    if |p| <= |x| {
      SliceLeft(x, y, 0, |p|);
      assert (x + y)[..|p|] == x[..|p|];
      var x' := x[1..];
      assert (x + y)[1..] == x' + y;
      IndexLocal(x', y, p);
    } else {
      IndexShort(x, p);
    }
  }

  lemma IndexShort(x: string, p: string)
    requires |p| > |x|
    ensures IndexOf(x, p) < 0
  {
  }

  // ---- Where the scans stop

  /** A block comment ends at its first end marker, and at the end of the text only when there is none. */
  lemma {:induction false} BlockStop(x: string)
    ensures BlockLen(x) + 2 <= |x| ==> EndMark(x, BlockLen(x))
    ensures forall i :: 0 <= i < BlockLen(x) ==> !EndMark(x, i)
  {
    if |x| >= 2 && !(x[0] == '*' && x[1] == '/') {
      BlockStop(x[1..]);
      forall i | 0 <= i < BlockLen(x) ensures !EndMark(x, i) {
        assert i == 0 || EndMark(x, i) == EndMark(x[1..], i - 1);
      }
    }
  }

  predicate EndMark(x: string, i: nat) {
    i + 2 <= |x| && x[i] == '*' && x[i + 1] == '/'
  }

  /** The closing tag searched for is the first one. */
  lemma {:induction false} IndexFirst(s: string, p: string, i: nat)
    requires i + |p| <= |s| && s[i..i + |p|] == p
    ensures 0 <= IndexOf(s, p) <= i
  {
    if !(s[..|p|] == p) {
      assert i > 0;
      assert s[1..][i - 1..i - 1 + |p|] == s[i..i + |p|];
      IndexFirst(s[1..], p, i - 1);
    }
  }

  lemma StringStop(x: string)
    ensures StringLen(x) < |x| ==> StringLen(x) > 0 && x[StringLen(x) - 1] == '\'' && x[StringLen(x)] != '\''
    decreases |x|
  {
    if |x| >= 2 && x[0] == '\'' && x[1] == '\'' {
      StringStop(x[2..]);
    } else if x != "" {
      StringStop(x[1..]);
    }
  }

  lemma NumberStop(prev: char, x: string)
    ensures NumberLen(prev, x) < |x| ==> !IsDigit(x[NumberLen(prev, x)])
    decreases |x|
  {
    if x != "" {
      NumberStop(x[0], x[1..]);
    }
  }

  lemma DigitStop(x: string)
    ensures forall i :: 0 <= i < DigitLen(x) ==> IsDigit(x[i])
    ensures DigitLen(x) < |x| ==> !IsDigit(x[DigitLen(x)])
  {
  }

  lemma LineStop(x: string)
    ensures LineLen(x) < |x| ==> x[LineLen(x)] == '\n'
  {
  }

  // ---- Locality of tokens

  lemma TagLocal(a: string, b: string)
    requires a != "" && a[0] == '$' && (HasTag(a + b) ==> TagLen(a + b) <= |a|)
    ensures HasTag(a) == HasTag(a + b) && (HasTag(a) ==> TagLen(a) == TagLen(a + b))
  {
    assert (a + b)[1..] == a[1..] + b;
    WordLocal(a[1..], b);
  }

  lemma DollarCut(a: string, b: string)
    requires a != "" && a[0] == '$' && b != "" && HasTag(a + b) && TokenLen(false, a + b) <= |a|
    ensures HasTag(a) && Advance(false, a) == Advance(false, a + b)
  {
    hide WordLen, IndexOf;
    var s, m, k := a + b, TagLen(a + b), Closing(a + b);
    assert k >= 0;
    ByteLenAtLeast(s[m..m + k]);
    assert 2 * m + k <= |a|;
    TagLocal(a, b);
    SliceLeft(a, b, 0, m);
    assert s[m..] == a[m..] + b;
    IndexLocal(a[m..], b, a[..m]);
    SliceLeft(a, b, m, m + k);
  }

  lemma DollarExtend(a: string, b: string)
    requires a != "" && a[0] == '$' && HasTag(a) && Closing(a) >= 0
    ensures HasTag(a + b) && Advance(false, a + b) == Advance(false, a)
  {
    hide WordLen, IndexOf;
    var s, m, k := a + b, TagLen(a), Closing(a);
    assert s[1..] == a[1..] + b;
    WordLocal(a[1..], b);
    SliceLeft(a, b, 0, m);
    assert s[m..] == a[m..] + b;
    IndexLocal(a[m..], b, a[..m]);
    SliceLeft(a, b, m, m + k);
  }

  lemma ByteLenAtLeast(s: string)
    ensures ByteLen(s) >= |s|
    ensures ByteLen(s) == |s| <==> Ascii(s)
  {
    if s != "" {
      ByteLenAtLeast(s[1..]);
      assert Ascii(s) <==> (s[0] as int) < 0x80 && Ascii(s[1..]) by {
        if (s[0] as int) < 0x80 && Ascii(s[1..]) {
          forall i | 0 <= i < |s| ensures (s[i] as int) < 0x80 {
            if i > 0 { assert s[i] == s[1..][i - 1]; }
          }
        }
      }
    }
  }

  lemma KindCut(w: bool, a: string, b: string)
    requires a != "" && TokenLen(w, a + b) <= |a|
    ensures KindOf(w, a) == KindOf(w, a + b)
  {
    hide BlockLen, StringLen, IdentLen, NumberLen, DigitLen, WordLen, ByteLen, IndexOf;
    assert a + b == a || b != "";
    if a[0] == '$' && b != "" {
      if HasTag(a + b) { DollarCut(a, b); } else { TagLocal(a, b); }
    }
    if KindOf(w, a + b) == LineComment {
      assert LineLen(a + b) == 1 + LineLen((a + b)[1..]);
    }
  }

  lemma AdvanceCut(w: bool, a: string, b: string)
    requires a != "" && b != "" && TokenLen(w, a + b) <= |a| && KindOf(w, a) == KindOf(w, a + b)
    ensures Advance(w, a) == Advance(w, a + b)
  {
    hide BlockLen, StringLen, IdentLen, NumberLen, DigitLen, WordLen, LineLen, ByteLen, IndexOf;
    assert (a + b)[1..] == a[1..] + b;
    match KindOf(w, a + b)
    case LineComment => LineLocal(a, b);
    case BlockComment =>
      assert (a + b)[2..] == a[2..] + b;
      BlockLocal(a[2..], b);
    case StringLit => StringLocal(a[1..], b);
    case DollarQuote => DollarCut(a, b);
    case Param => DigitLocal(a[1..], b);
    case QuotedIdent => IdentLocal(a[1..], b);
    case Number => NumberLocal(a[0], a[1..], b);
    case Plain =>
  }

  /** A token that fits in `a` is the token of `a` alone. */
  lemma TokenCut(w: bool, a: string, b: string)
    requires a != "" && TokenLen(w, a + b) <= |a|
    ensures NextToken(w, a) == NextToken(w, a + b)
  {
    hide KindOf, Advance;
    if b == "" {
      assert a + b == a;
    } else {
      KindCut(w, a, b);
      AdvanceCut(w, a, b);
      assert TokenLen(w, a) == TokenLen(w, a + b);
    }
  }

  lemma KindExtend(w: bool, a: string, b: string)
    requires a != "" && TokenLen(w, a) < |a| && !EndsWord(a)
    ensures KindOf(w, a + b) == KindOf(w, a)
  {
    hide BlockLen, StringLen, IdentLen, NumberLen, DigitLen, WordLen, ByteLen, IndexOf, LineLen;
    assert (a + b)[1..] == a[1..] + b;
    if a[0] == '$' && |a| > 1 {
      WordShort(a[1..]);
      WordLocal(a[1..], b);
    }
  }

  lemma AdvanceExtend(w: bool, a: string, b: string)
    requires a != "" && TokenLen(w, a) < |a| && KindOf(w, a + b) == KindOf(w, a)
    ensures Advance(w, a + b) == Advance(w, a)
  {
    hide BlockLen, StringLen, IdentLen, NumberLen, DigitLen, WordLen, LineLen, ByteLen, IndexOf;
    assert (a + b)[1..] == a[1..] + b;
    match KindOf(w, a)
    case LineComment => LineLocal(a, b);
    case BlockComment =>
      assert (a + b)[2..] == a[2..] + b;
      BlockLocal(a[2..], b);
    case StringLit => StringLocal(a[1..], b);
    case DollarQuote => DollarExtend(a, b);
    case Param => DigitLocal(a[1..], b);
    case QuotedIdent => IdentLocal(a[1..], b);
    case Number => NumberLocal(a[0], a[1..], b);
    case Plain =>
  }

  /** A token that ends before the last character of `a`, itself no word character, stays whatever follows `a`. */
  lemma TokenExtend(w: bool, a: string, b: string)
    requires a != "" && TokenLen(w, a) < |a| && !EndsWord(a)
    ensures NextToken(w, a + b) == NextToken(w, a)
  {
    KindExtend(w, a, b);
    AdvanceExtend(w, a, b);
    hide KindOf, Advance;
    assert TokenLen(w, a + b) == TokenLen(w, a);
    var n := TokenLen(w, a);
    assert (a + b)[..n] == a[..n];
  }

  lemma WordShort(x: string)
    requires x != "" && !EndsWord(x)
    ensures WordLen(x) < |x|
  {
    if |x| > 1 { WordShort(x[1..]); }
  }

  // ---- Splitting at a token boundary

  lemma LexStep(w: bool, s: string)
    requires s != ""
    ensures var t := NextToken(w, s); Lex(w, s) == [t] + Lex(EndsWord(t.text), s[|t.text|..])
  {
  }

  /** The look-behind only matters to a digit. */
  lemma LookBehind(w: bool, v: bool, s: string)
    requires w == v || !StartsDigit(s)
    ensures Lex(w, s) == Lex(v, s)
  {
    if s != "" {
      hide BlockLen, StringLen, IdentLen, NumberLen, DigitLen, WordLen, ByteLen, IndexOf, LineLen;
      assert NextToken(w, s) == NextToken(v, s);
    }
  }

  /** The first character of masked text. */
  lemma MaskedHead(w: bool, s: string)
    requires s != ""
    ensures Masked(w, s) != ""
    ensures Masked(w, s)[0] == if KindOf(w, s) in {StringLit, DollarQuote, Number} then '?' else s[0]
  {
    MaskedStep(w, s);
    hide Advance, Lex, EraseAll;
    var t := NextToken(w, s);
    assert t.text[0] == s[0];
  }

  lemma LexEmpty(w: bool)
    ensures Lex(w, "") == []
  {
  }

  lemma RenderStep(ts: seq<Token>)
    requires ts != []
    ensures Render(ts) == ts[0].text + Render(ts[1..])
  {
  }

  lemma LexSplit(w: bool, s: string, i: nat)
    requires i <= |Lex(w, s)|
    ensures var ts := Lex(w, s); var a, b := Render(ts[..i]), Render(ts[i..]);
            a + b == s && Lex(w, a) == ts[..i] && Lex(if a == "" then w else EndsWord(a), b) == ts[i..]
    decreases i
  {
    hide NextToken, TokenLen, Lex, Render;
    var ts := Lex(w, s);
    LexLossless(w, s);
    LexEmpty(w);
    var a, b := Render(ts[..i]), Render(ts[i..]);
    assert ts[..i] + ts[i..] == ts;
    RenderConcat(ts[..i], ts[i..]);
    if i == 0 {
      assert ts[0..] == ts && ts[..0] == [];
      assert a == "" by { RenderEmpty(); }
    } else {
      assert s != "";
      LexStep(w, s);
      var t := NextToken(w, s);
      var v, rest := EndsWord(t.text), s[|t.text|..];
      var us := Lex(v, rest);
      assert us == ts[1..];
      LexSplit(v, rest, i - 1);
      assert ts[..i][1..] == us[..i - 1] && ts[i..] == us[i - 1..];
      var a' := Render(us[..i - 1]);
      RenderStep(ts[..i]);
      assert a == t.text + a';
      TokenCut(w, a, b);
      assert a[|t.text|..] == a';
      LexStep(w, a);
      assert Lex(w, a) == [t] + us[..i - 1] == ts[..i];
    }
  }

  lemma RenderEmpty()
    ensures Render([]) == ""
  {
  }

  lemma EraseAllConcat(a: seq<Token>, b: seq<Token>)
    ensures EraseAll(a + b) == EraseAll(a) + EraseAll(b)
  {
  }

  /** Masking splits at every token boundary; the second part can be masked on its own exactly when it does not
      begin with a digit that continues a word. */
  lemma MaskSplits(q: string, i: nat)
    requires i <= |Lex(false, q)|
    ensures var ts := Lex(false, q); var a, b := Render(ts[..i]), Render(ts[i..]);
            && a + b == q
            && Masked(false, q) == Masked(false, a) + Masked(EndsWord(a), b)
            && (Masked(false, q) == Masked(false, a) + Masked(false, b) <==> !(EndsWord(a) && StartsDigit(b)))
  {
    hide Lex, EraseAll, Render;
    var ts := Lex(false, q);
    var a, b := Render(ts[..i]), Render(ts[i..]);
    LexSplit(false, q, i);
    assert ts == ts[..i] + ts[i..];
    EraseAllConcat(ts[..i], ts[i..]);
    RenderConcat(EraseAll(ts[..i]), EraseAll(ts[i..]));
    if EndsWord(a) && StartsDigit(b) {
      DigitDiffers(b);
      var m := Masked(false, a);
      assert (m + Masked(true, b))[|m|] == Masked(true, b)[0];
      assert (m + Masked(false, b))[|m|] == Masked(false, b)[0];
    } else {
      LookBehind(EndsWord(a), false, b);
    }
  }

  lemma DigitDiffers(s: string)
    requires StartsDigit(s)
    ensures Masked(true, s) != "" && Masked(false, s) != "" && Masked(true, s)[0] != Masked(false, s)[0]
  {
    hide Masked, HasTag;
    MaskedHead(true, s);
    MaskedHead(false, s);
    assert KindOf(true, s) == Plain && KindOf(false, s) == Number;
  }

  // ---- Plain text

  /** Can this character start nothing but a plain token? */
  predicate IsQuiet(c: char) {
    !IsDigit(c) && c !in {'-', '/', '\'', '$', '"'}
  }

  predicate Quiet(s: string) {
    forall i :: 0 <= i < |s| ==> IsQuiet(s[i])
  }

  lemma {:induction false} QuietMasked(w: bool, s: string, x: string)
    requires Quiet(s)
    ensures Masked(w, s + x) == s + Masked(if s == "" then w else EndsWord(s), x)
    decreases |s|
  {
    hide Masked;
    if s == "" {
      assert s + x == x;
    } else {
      var z := s + x;
      MaskedStep(w, z);
      assert NextToken(w, z) == Token(Plain, [s[0]]) by { assert z[..1] == [s[0]]; }
      assert z[1..] == s[1..] + x;
      QuietMasked(IsWord(s[0]), s[1..], x);
    }
  }

  // ---- Masking twice

  /** What the next token can see of the text behind it: the same first character or a question mark, the same end,
      and the same run of word characters before the same kind of character. */
  ghost predicate Resembles(rest: string, out: string) {
    && (rest == "" <==> out == "")
    && (rest != "" ==> out[0] == rest[0] || out[0] == '?')
    && (rest != "" && rest[0] == '\n' ==> out[0] == '\n')
  }

  ghost predicate SameRun(rest: string, out: string) {
    && WordLen(out) == WordLen(rest)
    && (WordLen(out) < |out| && out[WordLen(out)] == '$' ==> WordLen(rest) < |rest| && rest[WordLen(rest)] == '$')
  }

  lemma MaskedResembles(w: bool, s: string)
    ensures Resembles(s, Masked(w, s))
  {
    if s != "" { MaskedHead(w, s); }
  }

  lemma PlainWord(w: bool, s: string)
    requires s != "" && IsWord(s[0]) && (w || !IsDigit(s[0]))
    ensures NextToken(w, s) == Token(Plain, [s[0]])
  {
    assert s[..1] == [s[0]];
  }

  lemma {:induction false} MaskedRun(w: bool, s: string)
    requires w || !StartsDigit(s)
    ensures SameRun(s, Masked(w, s))
    decreases |s|
  {
    if s != "" {
      hide Masked, Advance, HasTag;
      MaskedHead(w, s);
      if IsWord(s[0]) {
        PlainWord(w, s);
        MaskedStep(w, s);
        MaskedRun(true, s[1..]);
        assert Masked(w, s)[1..] == Masked(true, s[1..]);
      }
    }
  }

  lemma RereadLine(v: bool, out: string)
    requires out == "" || out[0] == '\n'
    ensures NextToken(v, "--?" + out) == Token(LineComment, "--?")
  {
    var s := "--?" + out;
    assert s[1..] == "-?" + out && s[2..] == "?" + out && s[3..] == out;
    assert s[1..][1..] == s[2..] && s[2..][1..] == s[3..];
    assert LineLen(s[3..]) == 0;
    assert LineLen(s[2..]) == 1;
    assert LineLen(s[1..]) == 2;
  }

  lemma RereadBlock(v: bool, out: string)
    ensures NextToken(v, "/*?*/" + out) == Token(BlockComment, "/*?*/")
  {
    var s := "/*?*/" + out;
    var x := s[2..];
    assert x[0] == '?' && x[1] == '*' && x[2] == '/';
    assert BlockLen(x[1..]) == 0;
    assert BlockLen(x) == 1;
    assert s[..5] == "/*?*/";
  }

  lemma RereadMark(v: bool, out: string)
    ensures NextToken(v, "?" + out) == Token(Plain, "?")
  {
    var s := "?" + out;
    assert s[0] == '?' && s[..1] == "?";
  }

  lemma RunConcat(x: string, y: string)
    requires forall i :: 0 <= i < |x| ==> IsDigit(x[i])
    ensures WordLen(x + y) == |x| + WordLen(y)
    ensures !StartsDigit(y) ==> DigitLen(x + y) == |x|
  {
    if x == "" {
      assert x + y == y;
    } else {
      assert (x + y)[1..] == x[1..] + y;
      RunConcat(x[1..], y);
    }
  }

  lemma NoTagBefore(s: string, d: nat, rest: string, out: string)
    requires s != "" && d <= |s| - 1 && rest == s[1 + d..] && !HasTag(s) && SameRun(rest, out)
    requires forall i :: 0 <= i < d ==> IsDigit(s[1..][i])
    ensures var s' := s[..1 + d] + out; !HasTag(s')
  {
    hide WordLen;
    var x := s[1..];
    RunConcat(x[..d], rest);
    assert x[..d] + rest == x;
    RunConcat(x[..d], out);
    assert (s[..1 + d] + out)[1..] == x[..d] + out;
  }

  lemma RereadParam(v: bool, s: string, out: string)
    requires s != "" && s[0] == '$' && !HasTag(s)
    requires var rest := s[1 + DigitLen(s[1..])..]; Resembles(rest, out) && SameRun(rest, out)
    ensures var text := s[..1 + DigitLen(s[1..])]; NextToken(v, text + out) == Token(Param, text)
  {
    hide WordLen, DigitLen, SameRun, HasTag;
    var x := s[1..];
    var d := DigitLen(x);
    DigitStop(x);
    NoTagBefore(s, d, s[1 + d..], out);
    RunConcat(x[..d], out);
    var text := s[..1 + d];
    var s' := text + out;
    assert s'[1..] == x[..d] + out;
    assert s'[0] == '$';
    assert s'[..1 + d] == text;
  }

  lemma IdentExact(x: string, out: string)
    requires IdentLen(x) < |x| || out == ""
    ensures IdentLen(x[..IdentLen(x)] + out) == IdentLen(x)
  {
    var k := IdentLen(x);
    if x == "" {
      assert x[..k] + out == "";
    } else if x[0] != '"' {
      IdentExact(x[1..], out);
      assert (x[..k] + out)[1..] == x[1..][..k - 1] + out;
    }
  }

  lemma RereadIdent(v: bool, s: string, out: string)
    requires s != "" && s[0] == '"'
    requires s[1 + IdentLen(s[1..])..] == "" <==> out == ""
    ensures var text := s[..1 + IdentLen(s[1..])]; NextToken(v, text + out) == Token(QuotedIdent, text)
  {
    hide IdentLen;
    var x := s[1..];
    var k := IdentLen(x);
    IdentExact(x, out);
    var text := s[..1 + k];
    var s' := text + out;
    assert s'[1..] == x[..k] + out;
    assert s'[0] == '"';
    assert s'[..1 + k] == text;
  }

  lemma RereadPlain(w: bool, v: bool, s: string, out: string)
    requires s != "" && KindOf(w, s) == Plain && (w == v || !StartsDigit(s))
    requires Resembles(s[1..], out)
    ensures NextToken(v, [s[0]] + out) == Token(Plain, [s[0]])
  {
    var s' := [s[0]] + out;
    if out != "" {
      assert s'[1] == out[0] && s[1] == s[1..][0];
    }
    assert s'[..1] == [s[0]];
  }

  /** The extent of the tokens that are copied, or followed by something particular. */
  lemma TokenExtent(w: bool, s: string)
    requires s != ""
    ensures KindOf(w, s) == Param ==> s[0] == '$' && !HasTag(s) && TokenLen(w, s) == 1 + DigitLen(s[1..])
    ensures KindOf(w, s) == QuotedIdent ==> s[0] == '"' && TokenLen(w, s) == 1 + IdentLen(s[1..])
    ensures KindOf(w, s) == Plain ==> TokenLen(w, s) == 1
    ensures KindOf(w, s) == LineComment && TokenLen(w, s) < |s| ==> s[TokenLen(w, s)] == '\n'
  {
    hide BlockLen, StringLen, IdentLen, NumberLen, DigitLen, WordLen, ByteLen, IndexOf, LineLen;
    LineStop(s);
  }

  /** The erased token, in front of text that resembles what followed it, is read back as itself. */
  lemma Reread(w: bool, v: bool, s: string, out: string)
    requires s != "" && (w == v || !StartsDigit(s))
    requires var t := NextToken(w, s); Resembles(s[|t.text|..], out)
    requires var t := NextToken(w, s); t.kind == Param ==> SameRun(s[|t.text|..], out)
    ensures NextToken(v, Erase(NextToken(w, s)).text + out) == Erase(NextToken(w, s))
  {
    hide Advance, KindOf, IdentLen, DigitLen, HasTag, SameRun, StartsDigit;
    var t := NextToken(w, s);
    TokenExtent(w, s);
    match t.kind
    case LineComment => RereadLine(v, out);
    case BlockComment => RereadBlock(v, out);
    case StringLit => RereadMark(v, out);
    case DollarQuote => RereadMark(v, out);
    case Param => RereadParam(v, s, out);
    case QuotedIdent => RereadIdent(v, s, out);
    case Number => RereadMark(v, out);
    case Plain =>
      assert t.text == [s[0]];
      RereadPlain(w, v, s, out);
  }

  // ---- The one way a second pass can differ

  /** A dollar quote that swallowed text up to a word character, and a digit right behind it. Only the byte offset
      that is added to a character index makes the masker stop there: see `DollarQuoteExact`. */
  predicate GlitchAt(ts: seq<Token>, i: nat) {
    i + 1 < |ts| && ts[i].kind == DollarQuote && EndsWord(ts[i].text) && StartsDigit(ts[i + 1].text)
  }

  predicate Glitch(ts: seq<Token>) {
    exists i: nat :: i + 1 < |ts| && GlitchAt(ts, i)
  }

  lemma GlitchStep(t: Token, ts: seq<Token>)
    ensures Glitch([t] + ts) <==> GlitchAt([t] + ts, 0) || Glitch(ts)
  {
    var us := [t] + ts;
    if Glitch(us) && !GlitchAt(us, 0) {
      var i: nat :| i + 1 < |us| && GlitchAt(us, i);
      assert us[i] == ts[i - 1] && us[i + 1] == ts[i];
      assert GlitchAt(ts, i - 1);
    }
    if Glitch(ts) {
      var i: nat :| i + 1 < |ts| && GlitchAt(ts, i);
      assert us[i + 1] == ts[i] && us[i + 2] == ts[i + 1];
      assert GlitchAt(us, i + 1);
    }
  }

  /** Erasing a token keeps what the next token sees behind it, but for the glitch. */
  lemma EraseKeepsLookBehind(w: bool, s: string)
    requires s != ""
    ensures var t := NextToken(w, s); var rest := s[|t.text|..];
            EndsWord(t.text) == EndsWord(Erase(t).text) || !StartsDigit(rest)
            || (t.kind == DollarQuote && EndsWord(t.text))
  {
    hide LineLen, BlockLen, StringLen, IdentLen, NumberLen, DigitLen, WordLen, ByteLen, IndexOf;
    var t := NextToken(w, s);
    var n := |t.text|;
    if s[n..] != "" {
      match t.kind
      case LineComment => LineStop(s);
      case BlockComment =>
        BlockStop(s[2..]);
        assert t.text[n - 1] == s[2..][n - 3] == '/';
      case StringLit =>
        StringStop(s[1..]);
        assert t.text[n - 1] == s[1..][n - 2] == '\'';
      case Number =>
        NumberStop(s[0], s[1..]);
        assert s[n] == s[1..][n - 1];
      case _ =>
    }
  }

  /** Behind any token: what the masked rest looks like to a second pass. */
  lemma RestResembles(w: bool, s: string)
    requires s != ""
    ensures var t := NextToken(w, s); var rest := s[|t.text|..]; var out := Masked(EndsWord(t.text), rest);
            Resembles(rest, out) && (t.kind == Param ==> SameRun(rest, out))
  {
    hide LineLen, BlockLen, StringLen, IdentLen, NumberLen, DigitLen, WordLen, ByteLen, IndexOf, Lex, EraseAll, Render;
    var t := NextToken(w, s);
    var rest := s[|t.text|..];
    MaskedResembles(EndsWord(t.text), rest);
    if t.kind == Param {
      var x := s[1..];
      DigitStop(x);
      assert rest == x[DigitLen(x)..];
      assert DigitLen(x) > 0 ==> t.text[|t.text| - 1] == x[DigitLen(x) - 1];
      MaskedRun(EndsWord(t.text), rest);
    }
  }

  lemma EraseTwice(t: Token)
    ensures Erase(Erase(t)) == Erase(t)
    ensures t.text != "" ==> Erase(t).text != ""
  {
  }

  /** The glitch, in terms of the text. */
  lemma GlitchHere(w: bool, s: string)
    requires s != ""
    ensures var t := NextToken(w, s); var rest := s[|t.text|..];
            GlitchAt(Lex(w, s), 0) <==> t.kind == DollarQuote && EndsWord(t.text) && StartsDigit(rest)
  {
    hide Advance, KindOf;
    var t := NextToken(w, s);
    var rest := s[|t.text|..];
    LexStep(w, s);
    if rest != "" {
      LexStep(EndsWord(t.text), rest);
      assert Lex(w, s)[1] == NextToken(EndsWord(t.text), rest);
      assert NextToken(EndsWord(t.text), rest).text[0] == rest[0];
    }
  }

  lemma MarkBeforeDigit(s: string)
    requires StartsDigit(s)
    ensures Masked(true, s) != "" && Masked(true, s)[0] == s[0]
    ensures Masked(false, Masked(true, s)) != Masked(true, s)
  {
    MaskedHead(true, s);
    MaskedHead(false, Masked(true, s));
  }

  /** Re-reading masked text gives exactly the erased tokens - unless the first reading hit a glitch, and then
      masking again gives something else. */
  lemma {:induction false} Relex(w: bool, v: bool, s: string)
    requires w == v || !StartsDigit(s)
    ensures !Glitch(Lex(w, s)) ==> Lex(v, Masked(w, s)) == EraseAll(Lex(w, s))
    ensures Glitch(Lex(w, s)) ==> Masked(v, Masked(w, s)) != Masked(w, s)
    decreases |s|
  {
    hide NextToken, Render, KindOf, Advance, Resembles, SameRun, Masked;
    if s == "" {
      MaskedEmpty(w);
    } else {
      var t := NextToken(w, s);
      var e := Erase(t);
      var rest := s[|t.text|..];
      var w', v' := EndsWord(t.text), EndsWord(e.text);
      var out, ts := Masked(w', rest), Lex(w', rest);
      MaskedStep(w, s);
      RestResembles(w, s);
      Reread(w, v, s, out);
      EraseTwice(t);
      var m := e.text + out;
      assert m[|e.text|..] == out;
      LexStep(v, m);
      MaskedStep(v, m);
      LexStep(w, s);
      GlitchStep(t, ts);
      GlitchHere(w, s);
      assert ([t] + ts)[1..] == ts;
      if w' == v' || !StartsDigit(rest) {
        Relex(w', v', rest);
        assert Glitch(ts) ==> e.text + Masked(v', out) != m by {
          if e.text + Masked(v', out) == m {
            assert Masked(v', out) == (e.text + Masked(v', out))[|e.text|..];
          }
        }
      } else {
        EraseKeepsLookBehind(w, s);
        MarkBeforeDigit(rest);
        assert Masked(v', out) == (e.text + Masked(v', out))[|e.text|..];
      }
    }
  }

  // ---- Main results

  lemma EraseAllTwice(ts: seq<Token>)
    ensures EraseAll(EraseAll(ts)) == EraseAll(ts)
  {
  }

  /** Is nothing left to mask: no literal token, and every comment an empty shell? */
  predicate LiteralFree(ts: seq<Token>) {
    forall t :: t in ts ==>
      && t.kind !in {StringLit, DollarQuote, Number}
      && (t.kind == LineComment ==> t.text == "--?")
      && (t.kind == BlockComment ==> t.text == "/*?*/")
  }

  /** Masking is idempotent exactly when the query holds no glitch. */
  lemma MaskIdempotent(q: string)
    ensures Masked(false, Masked(false, q)) == Masked(false, q) <==> !Glitch(Lex(false, q))
  {
    Relex(false, false, q);
    EraseAllTwice(Lex(false, q));
  }

  /** Read again, a masked query holds no string, no dollar quote, no number and no comment text - exactly when the
      query held no glitch. */
  lemma MaskLiteralFree(q: string)
    ensures LiteralFree(Lex(false, Masked(false, q))) <==> !Glitch(Lex(false, q))
    ensures !Glitch(Lex(false, q)) ==> Lex(false, Masked(false, q)) == EraseAll(Lex(false, q))
  {
    hide Lex, Masked, EraseAll, LiteralFree;
    var m, ts := Masked(false, q), Lex(false, q);
    Relex(false, false, q);
    ErasedLiteralFree(ts);
    if LiteralFree(Lex(false, m)) {
      LiteralFreeFixed(Lex(false, m));
      LexLossless(false, m);
      MaskedIs(false, m);
    }
  }

  /** The texts that masking leaves alone are exactly those that read as literal-free. */
  lemma FixedIffLiteralFree(q: string)
    ensures Masked(false, q) == q <==> LiteralFree(Lex(false, q))
  {
    hide Lex, Masked, EraseAll, LiteralFree;
    if Masked(false, q) == q {
      MaskIdempotent(q);
      MaskLiteralFree(q);
    }
    if LiteralFree(Lex(false, q)) {
      LiteralFreeFixed(Lex(false, q));
      LexLossless(false, q);
      MaskedIs(false, q);
    }
  }

  lemma ErasedLiteralFree(ts: seq<Token>)
    ensures LiteralFree(EraseAll(ts))
  {
  }

  lemma LiteralFreeFixed(ts: seq<Token>)
    requires LiteralFree(ts)
    ensures EraseAll(ts) == ts
  {
    if ts != [] { LiteralFreeFixed(ts[1..]); }
  }

  // ---- When the masker stops where the dollar quote does

  /** A closed dollar quote is left exactly at its end when its body is ASCII; otherwise the index overshoots. */
  lemma DollarQuoteExact(w: bool, s: string)
    requires s != "" && KindOf(w, s) == DollarQuote && Closing(s) >= 0
    ensures var m, k := TagLen(s), Closing(s);
            && s[..m] == s[m + k..m + k + m]
            && Advance(w, s) >= m + k + m
            && (Advance(w, s) == m + k + m <==> Ascii(s[m..m + k]))
            && (NextToken(w, s).text == s[..m + k + m] <==> Ascii(s[m..m + k]) || m + k + m == |s|)
  {
    hide WordLen, IndexOf, ByteLen;
    var m, k := TagLen(s), Closing(s);
    assert s[m..][k..k + m] == s[m + k..m + k + m];
    ByteLenAtLeast(s[m..m + k]);
  }

  lemma AsciiSlice(s: string, i: nat, j: nat)
    requires i <= j <= |s| && Ascii(s)
    ensures Ascii(s[i..j])
  {
  }

  lemma AsciiDollarEnd(w: bool, s: string)
    requires s != "" && Ascii(s) && KindOf(w, s) == DollarQuote
    ensures var t := NextToken(w, s); t.text == s || !EndsWord(t.text)
  {
    hide Advance, WordLen, IndexOf, ByteLen, Ascii;
    var t := NextToken(w, s);
    if Closing(s) >= 0 {
      var m, k := TagLen(s), Closing(s);
      AsciiSlice(s, m, m + k);
      DollarQuoteExact(w, s);
      var tag := s[m + k..m + k + m];
      assert tag[m - 1] == s[..m][m - 1] == '$';
      assert t.text[|t.text| - 1] == tag[m - 1];
    } else {
      UnclosedTakesAll(w, s);
    }
  }

  /** ASCII queries hold no glitch. */
  lemma {:induction false} AsciiHasNoGlitch(w: bool, s: string)
    requires Ascii(s)
    ensures !Glitch(Lex(w, s))
    decreases |s|
  {
    hide Advance, KindOf, Ascii, Glitch, Lex;
    LexEmpty(w);
    if s == "" {
      NoGlitchEmpty();
    } else {
      var t := NextToken(w, s);
      var v, rest := EndsWord(t.text), s[|t.text|..];
      LexStep(w, s);
      GlitchHere(w, s);
      GlitchStep(t, Lex(v, rest));
      AsciiSlice(s, |t.text|, |s|);
      assert rest == s[|t.text|..|s|];
      AsciiHasNoGlitch(v, rest);
      if t.kind == DollarQuote {
        AsciiDollarEnd(w, s);
      }
    }
  }

  lemma NoGlitchEmpty()
    ensures !Glitch([])
  {
  }

  lemma UnclosedTakesAll(w: bool, s: string)
    requires s != "" && KindOf(w, s) == DollarQuote && Closing(s) < 0
    ensures NextToken(w, s).text == s
  {
  }

  const DRIFT := "$$\U{00E9}$$a5"

  lemma DriftTag()
    ensures HasTag(DRIFT) && TagLen(DRIFT) == 2 && IndexOf(DRIFT[2..], "$$") == 1
  {
    assert WordLen(DRIFT[1..]) == 0;
    var x := DRIFT[2..];
    assert x[..2] == "\U{00E9}$" && x[1..][..2] == "$$";
    assert IndexOf(x[1..], "$$") == 0;
  }

  lemma DriftAdvance()
    ensures KindOf(false, DRIFT) == DollarQuote && Advance(false, DRIFT) == 6
  {
    hide WordLen, IndexOf, TagLen;
    DriftTag();
    assert DRIFT[..2] == "$$";
    var body := DRIFT[2..3];
    assert body == "\U{00E9}" && body[1..] == "";
    assert ByteLen(body) == 2;
  }

  /** A query that masking twice changes: the two-byte body makes the masker skip the letter behind the closing tag,
      so the digit is kept as the tail of a word, and the second pass takes it for a number. */
  lemma NotAlwaysIdempotent()
    ensures Masked(false, DRIFT) == "?5" && Masked(false, "?5") == "??"
  {
    hide Advance, KindOf, Masked;
    var q, m := DRIFT, "?5";
    DriftAdvance();
    assert q[..6][5] == 'a' && q[6..] == "5";
    MaskedStep(false, q);
    DigitAlone();
    RereadMark(false, "5");
    assert "?" + "5" == m && m[1..] == "5";
    MaskedStep(false, m);
  }

  lemma DigitAlone()
    ensures Masked(true, "5") == "5" && Masked(false, "5") == "?"
  {
    var s := "5";
    assert NextToken(true, s) == Token(Plain, "5");
    assert s[1..] == "" && NumberLen('5', "") == 0;
    assert NextToken(false, s).kind == Number;
    MaskedStep(true, s);
    MaskedStep(false, s);
    MaskedEmpty(true);
    MaskedEmpty(false);
  }

  // ---- Length

  lemma EraseShort(w: bool, s: string)
    requires s != ""
    ensures var t := NextToken(w, s);
            3 * |Erase(t).text| <= 4 * |t.text| + match t.kind
                                                  case LineComment => 1
                                                  case BlockComment => (if t.text == s then 7 else 0)
                                                  case _ => 0
  {
    hide LineLen, StringLen, IdentLen, NumberLen, DigitLen, WordLen, ByteLen, IndexOf;
    var t := NextToken(w, s);
    if t.kind == LineComment {
      LineLenTwo(s);
    } else if t.kind == BlockComment && |t.text| < |s| {
      assert |t.text| == 2 + BlockLen(s[2..]) + 2;
    }
  }

  lemma LineLenTwo(s: string)
    requires |s| >= 2 && s[0] == '-' && s[1] == '-'
    ensures LineLen(s) >= 2
  {
    assert LineLen(s) == 1 + LineLen(s[1..]);
  }

  /** A line comment is followed by the newline that ends it, or by nothing. */
  lemma NewlineAfterLine(w: bool, s: string)
    requires s != "" && KindOf(w, s) == LineComment
    ensures var rest := s[TokenLen(w, s)..];
            rest != "" ==> rest[0] == '\n' && NextToken(EndsWord(NextToken(w, s).text), rest) == Token(Plain, "\n")
  {
    hide StringLen, IdentLen, NumberLen, DigitLen, WordLen, ByteLen, IndexOf;
    LineStop(s);
    var rest := s[TokenLen(w, s)..];
    if rest != "" { assert rest[..1] == "\n"; }
  }

  /** Masking makes a text at most a third longer, but for an unterminated block comment at its end. */
  lemma {:induction false} MaskedLength(w: bool, s: string)
    ensures 3 * |Masked(w, s)| <= 4 * |s| + 7
    decreases |s|
  {
    if s == "" {
      MaskedEmpty(w);
    } else {
      hide KindOf, Advance, Masked;
      var t := NextToken(w, s);
      var v, rest := EndsWord(t.text), s[|t.text|..];
      MaskedStep(w, s);
      EraseShort(w, s);
      MaskedEmpty(v);
      if t.kind == LineComment && rest != "" {
        NewlineAfterLine(w, s);
        MaskedStep(v, rest);
        MaskedLength(false, rest[1..]);
      } else {
        MaskedLength(v, rest);
      }
    }
  }

  /** The bound is reached. */
  lemma MaskedLengthTight()
    ensures Masked(false, "/*") == "/*?*/" && 3 * |Masked(false, "/*")| == 4 * |"/*"| + 7
  {
    var s := "/*";
    assert NextToken(false, s) == Token(BlockComment, s);
    MaskedStep(false, s);
    MaskedEmpty(false);
    assert s[2..] == "";
  }
}

/** Masking does not look inside what it replaces: queries that differ only inside one literal or comment mask alike
    (internal/redact/redact.go).
 */
module Independent {
  import opened Lexer
  import opened MaskTheory

  // ---- Scans do not tell digits apart

  lemma {:induction false} DigitScans(x: string, c: char, d: char)
    requires IsDigit(c) && IsDigit(d)
    ensures LineLen(x + [c]) == LineLen(x + [d]) && BlockLen(x + [c]) == BlockLen(x + [d])
    ensures IdentLen(x + [c]) == IdentLen(x + [d]) && WordLen(x + [c]) == WordLen(x + [d])
    ensures DigitLen(x + [c]) == DigitLen(x + [d])
  {
    if x == "" {
      assert ([c])[1..] == "" && ([d])[1..] == "" && "" + [c] == [c] && "" + [d] == [d];
    } else {
      DigitScans(x[1..], c, d);
      assert (x + [c])[1..] == x[1..] + [c] && (x + [d])[1..] == x[1..] + [d];
    }
  }

  lemma {:induction false} DigitString(x: string, c: char, d: char)
    requires IsDigit(c) && IsDigit(d)
    ensures StringLen(x + [c]) == StringLen(x + [d])
    decreases |x|
  {
    if x == "" {
      assert ([c])[1..] == "" && ([d])[1..] == "" && "" + [c] == [c] && "" + [d] == [d];
    } else {
      assert (x + [c])[1..] == x[1..] + [c] && (x + [d])[1..] == x[1..] + [d];
      DigitString(x[1..], c, d);
      if |x| > 1 {
        assert (x + [c])[2..] == x[2..] + [c] && (x + [d])[2..] == x[2..] + [d];
        DigitString(x[2..], c, d);
      }
    }
  }

  lemma {:induction false} DigitNumber(prev: char, x: string, c: char, d: char)
    requires IsDigit(c) && IsDigit(d)
    ensures NumberLen(prev, x + [c]) == NumberLen(prev, x + [d])
    decreases |x|
  {
    if x == "" {
      assert ([c])[1..] == "" && ([d])[1..] == "" && "" + [c] == [c] && "" + [d] == [d];
    } else {
      assert (x + [c])[1..] == x[1..] + [c] && (x + [d])[1..] == x[1..] + [d];
      DigitNumber(x[0], x[1..], c, d);
    }
  }

  lemma {:induction false} DigitIndex(x: string, c: char, d: char, p: string)
    requires IsDigit(c) && IsDigit(d) && p != "" && !IsDigit(p[|p| - 1])
    ensures IndexOf(x + [c], p) == IndexOf(x + [d], p)
  {
    var a, b := x + [c], x + [d];
    if |p| <= |x| {
      SliceLeft(x, [c], 0, |p|);
      SliceLeft(x, [d], 0, |p|);
      assert a[..|p|] == x[..|p|] == b[..|p|];
    } else if |p| == |a| {
      assert a[..|p|][|p| - 1] == c && b[..|p|][|p| - 1] == d;
    }
    if x == "" {
      assert a[1..] == "" && b[1..] == "";
    } else {
      DigitIndex(x[1..], c, d, p);
      assert a[1..] == x[1..] + [c] && b[1..] == x[1..] + [d];
    }
  }

  // ---- A token does not depend on what stands behind the next token's first character

  lemma DigitKind(w: bool, a: string, c: char, d: char)
    requires a != "" && IsDigit(c) && IsDigit(d)
    ensures KindOf(w, a + [c]) == KindOf(w, a + [d])
  {
    hide WordLen;
    var x, y := a + [c], a + [d];
    assert x[1..] == a[1..] + [c] && y[1..] == a[1..] + [d];
    DigitScans(a[1..], c, d);
  }

  /** The opening tag lies within `a`: its last character is no digit. */
  lemma DigitTag(a: string, c: char, d: char)
    requires a != "" && IsDigit(c) && IsDigit(d) && HasTag(a + [c]) && HasTag(a + [d])
    ensures var m := TagLen(a + [c]);
            TagLen(a + [d]) == m && m <= |a| && (a + [c])[..m] == a[..m] == (a + [d])[..m] && a[m - 1] == '$'
  {
    hide WordLen;
    var x, y := a + [c], a + [d];
    assert x[1..] == a[1..] + [c] && y[1..] == a[1..] + [d];
    DigitScans(a[1..], c, d);
    var m := TagLen(x);
    assert x[m - 1] == '$';
    SliceLeft(a, [c], 0, m);
    SliceLeft(a, [d], 0, m);
  }

  /** And so does the closing tag. */
  lemma DigitClosing(a: string, c: char, d: char, m: nat)
    requires IsDigit(c) && IsDigit(d) && 0 < m <= |a| && a[m - 1] == '$'
    ensures var k := IndexOf((a + [c])[m..], a[..m]);
            IndexOf((a + [d])[m..], a[..m]) == k
            && (k >= 0 ==> m + k + m <= |a| && (a + [c])[m..m + k] == a[m..m + k] == (a + [d])[m..m + k])
  {
    hide IndexOf;
    assert (a + [c])[m..] == a[m..] + [c] && (a + [d])[m..] == a[m..] + [d];
    DigitIndex(a[m..], c, d, a[..m]);
    var k := IndexOf((a + [c])[m..], a[..m]);
    if k >= 0 {
      assert (a + [c])[m..][k..k + m][m - 1] == a[..m][m - 1] == '$';
      SliceLeft(a, [c], m, m + k);
      SliceLeft(a, [d], m, m + k);
    }
  }

  lemma DigitDollar(w: bool, a: string, c: char, d: char)
    requires a != "" && IsDigit(c) && IsDigit(d) && KindOf(w, a + [c]) == DollarQuote
        && KindOf(w, a + [d]) == DollarQuote
    ensures Advance(w, a + [c]) == Advance(w, a + [d])
  {
    hide WordLen, IndexOf, ByteLen, HasTag, TagLen;
    assert HasTag(a + [c]) && HasTag(a + [d]);
    DigitTag(a, c, d);
    DigitClosing(a, c, d, TagLen(a + [c]));
  }

  lemma DigitAdvance(w: bool, a: string, c: char, d: char)
    requires a != "" && IsDigit(c) && IsDigit(d)
    ensures KindOf(w, a + [c]) == KindOf(w, a + [d]) && Advance(w, a + [c]) == Advance(w, a + [d])
  {
    DigitKind(w, a, c, d);
    hide KindOf, LineLen, BlockLen, StringLen, IdentLen, NumberLen, DigitLen, WordLen, ByteLen, IndexOf;
    var x, y := a + [c], a + [d];
    assert x[1..] == a[1..] + [c] && y[1..] == a[1..] + [d];
    match KindOf(w, x)
    case LineComment => DigitScans(a, c, d);
    case BlockComment =>
      CommentIsLong(w, a, c);
      assert x[2..] == a[2..] + [c] && y[2..] == a[2..] + [d];
      DigitScans(a[2..], c, d);
    case StringLit => DigitString(a[1..], c, d);
    case DollarQuote => DigitDollar(w, a, c, d);
    case Number => DigitNumber(a[0], a[1..], c, d);
    case _ => DigitScans(a[1..], c, d);
  }

  lemma CommentIsLong(w: bool, a: string, c: char)
    requires a != "" && IsDigit(c) && KindOf(w, a + [c]) == BlockComment
    ensures |a| > 1
  {
  }

  lemma DigitExtend(w: bool, a: string, d: char, r: string)
    requires a != "" && !EndsWord(a) && IsDigit(d) && TokenLen(w, a + [d]) <= |a|
    ensures NextToken(w, a + [d] + r) == NextToken(w, a + [d])
  {
    var z := a + [d];
    DigitExtendKind(w, a, d, r);
    AdvanceExtend(w, z, r);
    hide KindOf, Advance;
    var n := TokenLen(w, z);
    assert TokenLen(w, z + r) == n && (z + r)[..n] == z[..n];
  }

  lemma DigitExtendKind(w: bool, a: string, d: char, r: string)
    requires a != "" && !EndsWord(a) && IsDigit(d) && TokenLen(w, a + [d]) <= |a|
    ensures KindOf(w, a + [d] + r) == KindOf(w, a + [d])
  {
    hide LineLen, BlockLen, StringLen, IdentLen, NumberLen, ByteLen, IndexOf;
    hide WordLen, DigitLen;
    var z := a + [d];
    if a[0] == '$' {
      NotAlone(w, a, d);
      var x := a[1..];
      WordShort(x);
      assert z[1..] == x + [d] && (z + r)[1..] == x + ([d] + r);
      WordLocal(x, [d]);
      WordLocal(x, [d] + r);
    }
  }

  lemma NotAlone(w: bool, a: string, d: char)
    requires a != "" && a[0] == '$' && IsDigit(d) && TokenLen(w, a + [d]) <= |a|
    ensures |a| > 1
  {
    hide TokenLen;
    assert |a| == 1 ==> a == "$";
    DollarAlone(w, d);
  }

  /** A dollar sign takes the digit behind it with it. */
  lemma DollarAlone(w: bool, d: char)
    requires IsDigit(d)
    ensures TokenLen(w, "$" + [d]) == 2
  {
    var z := "$" + [d];
    assert z[1..] == [d] && [d][1..] == "";
  }

  /** May `y` be replaced by `x` without the text before it noticing? */
  predicate Alike(a: string, y: string, x: string) {
    y != "" && x != "" &&
    ((y[0] == x[0] && !IsWord(y[0])) || (IsDigit(y[0]) && IsDigit(x[0]) && !EndsWord(a)))
  }

  lemma PrefixToken(w: bool, a: string, y: string, x: string)
    requires a != "" && Alike(a, y, x) && TokenLen(w, a + y) <= |a|
    ensures NextToken(w, a + x) == NextToken(w, a + y)
  {
    hide KindOf, Advance;
    var c, d := y[0], x[0];
    assert a + y == a + [c] + y[1..] && a + x == a + [d] + x[1..];
    TokenCut(w, a + [c], y[1..]);
    if IsDigit(c) {
      DigitAdvance(w, a, c, d);
      var n := TokenLen(w, a + [c]);
      assert (a + [c])[..n] == a[..n] == (a + [d])[..n];
      DigitExtend(w, a, d, x[1..]);
    } else {
      TokenExtend(w, a + [d], x[1..]);
    }
  }

  // ---- Replacing one token

  predicate IsErasedKind(k: Kind) {
    k in {LineComment, BlockComment, StringLit, DollarQuote, Number}
  }

  /** The text before token `i`, and behind it. */
  function Before(ts: seq<Token>, i: nat): string
    requires i < |ts|
  {
    Render(ts[..i])
  }

  function Behind(ts: seq<Token>, i: nat): string
    requires i < |ts|
  {
    Render(ts[i + 1..])
  }

  /** Would `x` in place of token `i` again be one token of the same kind? */
  predicate Fits(w: bool, ts: seq<Token>, i: nat, x: string)
    requires i < |ts|
  {
    var a := Before(ts, i);
    x != "" && NextToken(if a == "" then w else EndsWord(a), x + Behind(ts, i)) == Token(ts[i].kind, x)
  }

  lemma TokenAt(w: bool, s: string, i: nat)
    requires i < |Lex(w, s)|
    ensures var ts := Lex(w, s); var a, post := Before(ts, i), Behind(ts, i);
            var v := if a == "" then w else EndsWord(a);
            && s == a + (ts[i].text + post) && ts[i].text != ""
            && NextToken(v, ts[i].text + post) == ts[i] && Lex(EndsWord(ts[i].text), post) == ts[i + 1..]
            && Lex(w, a) == ts[..i]
  {
    hide Lex, Render, NextToken;
    var ts := Lex(w, s);
    LexSplit(w, s, i);
    var a, b := Render(ts[..i]), Render(ts[i..]);
    var v := if a == "" then w else EndsWord(a);
    LexEmpty(v);
    assert ts[i..][0] == ts[i] && ts[i..][1..] == ts[i + 1..];
    RenderStep(ts[i..]);
    LexStep(v, b);
    var t := NextToken(v, b);
    assert Lex(v, b)[0] == t && Lex(v, b)[1..] == Lex(EndsWord(t.text), b[|t.text|..]);
    assert b[|t.text|..] == Render(ts[i + 1..]);
  }

  lemma SameStart(v: bool, y: string, x: string, k: Kind)
    requires y != "" && x != "" && IsErasedKind(k) && KindOf(v, y) == k && KindOf(v, x) == k
    ensures (y[0] == x[0] && !IsWord(y[0])) || (IsDigit(y[0]) && IsDigit(x[0]) && !v)
  {
  }

  lemma FitsAlike(w: bool, s: string, i: nat, x: string)
    requires i < |Lex(w, s)| && IsErasedKind(Lex(w, s)[i].kind) && Fits(w, Lex(w, s), i, x)
    ensures var ts := Lex(w, s); var a, post := Before(ts, i), Behind(ts, i);
            a != "" ==> Alike(a, ts[i].text + post, x + post)
  {
    hide Lex, Render, KindOf, Advance;
    var ts := Lex(w, s);
    TokenAt(w, s, i);
    var a, post := Before(ts, i), Behind(ts, i);
    SameStart(if a == "" then w else EndsWord(a), ts[i].text + post, x + post, ts[i].kind);
  }

  /** Replacing one literal or comment by another of its kind leaves every token before it as it was. */
  lemma {:induction false} TokenReplaced(w: bool, s: string, i: nat, x: string)
    requires i < |Lex(w, s)| && IsErasedKind(Lex(w, s)[i].kind) && Fits(w, Lex(w, s), i, x)
    ensures var ts := Lex(w, s); var post := Behind(ts, i);
            Lex(w, Before(ts, i) + (x + post)) == ts[..i] + ([Token(ts[i].kind, x)] + Lex(EndsWord(x), post))
    decreases i
  {
    hide Lex, Render, NextToken, Before, Behind, Fits, IsErasedKind;
    var ts := Lex(w, s);
    var a, post := Before(ts, i), Behind(ts, i);
    TokenAt(w, s, i);
    if i == 0 {
      FirstReplaced(w, s, x);
    } else {
      FirstKept(w, s, i, x);
      var t := NextToken(w, s);
      var v, rest := EndsWord(t.text), s[|t.text|..];
      TailOf(w, s, i);
      TokenReplaced(v, rest, i - 1, x);
      var us := Lex(v, rest);
      AfterFirst(t.text, Before(us, i - 1), x + post);
      LexStep(w, a + (x + post));
      OneBefore(t, us, i, [Token(ts[i].kind, x)] + Lex(EndsWord(x), post));
    }
  }

  lemma FirstReplaced(w: bool, s: string, x: string)
    requires Lex(w, s) != [] && Fits(w, Lex(w, s), 0, x)
    ensures var ts := Lex(w, s); var post := Behind(ts, 0);
            Lex(w, Before(ts, 0) + (x + post)) == ts[..0] + ([Token(ts[0].kind, x)] + Lex(EndsWord(x), post))
  {
    hide Lex, Render, NextToken, Before, Behind;
    var ts := Lex(w, s);
    var post := Behind(ts, 0);
    NothingBefore(ts);
    LexStep(w, x + post);
    AfterFirst(x, "", post);
    assert "" + (x + post) == x + post && (x + "") + post == x + post && "" + post == post;
    NoneBefore(ts, [Token(ts[0].kind, x)] + Lex(EndsWord(x), post));
  }

  lemma NothingBefore(ts: seq<Token>)
    requires ts != []
    ensures Before(ts, 0) == ""
  {
    assert ts[..0] == [];
  }

  lemma AfterFirst(t: string, a: string, b: string)
    ensures ((t + a) + b)[|t|..] == a + b
  {
  }

  lemma NoneBefore(ts: seq<Token>, more: seq<Token>)
    ensures ts[..0] + more == more
  {
  }

  lemma OneBefore(t: Token, us: seq<Token>, i: nat, more: seq<Token>)
    requires 0 < i <= |us| + 1
    ensures ([t] + us)[..i] + more == [t] + (us[..i - 1] + more)
  {
  }

  /** The rest of the tokens, seen from behind the first. */
  lemma TailOf(w: bool, s: string, i: nat)
    requires 0 < i < |Lex(w, s)|
    ensures s != ""
    ensures var t := NextToken(w, s); var v, rest := EndsWord(t.text), s[|t.text|..];
            var ts, us := Lex(w, s), Lex(v, rest);
            && ts == [t] + us && us[i - 1] == ts[i] && Behind(us, i - 1) == Behind(ts, i)
            && Before(ts, i) == t.text + Before(us, i - 1) && Before(ts, i) != ""
            && (forall x :: Fits(w, ts, i, x) ==> Fits(v, us, i - 1, x))
  {
    hide Lex, Render, NextToken;
    LexEmpty(w);
    LexStep(w, s);
    var t := NextToken(w, s);
    var ts, us := Lex(w, s), Lex(EndsWord(t.text), s[|t.text|..]);
    assert ts[i + 1..] == us[i..];
    assert ts[..i][1..] == us[..i - 1] && ts[..i][0] == t;
    RenderStep(ts[..i]);
    NotEmpty(w, s);
  }

  lemma NotEmpty(w: bool, s: string)
    requires s != ""
    ensures NextToken(w, s).text != ""
  {
  }

  lemma FirstKept(w: bool, s: string, i: nat, x: string)
    requires 0 < i < |Lex(w, s)| && IsErasedKind(Lex(w, s)[i].kind) && Fits(w, Lex(w, s), i, x)
    ensures s != "" && NextToken(w, Before(Lex(w, s), i) + (x + Behind(Lex(w, s), i))) == NextToken(w, s)
  {
    hide Lex, Render, NextToken, Alike, Fits, TokenLen;
    var ts := Lex(w, s);
    var a, post := Before(ts, i), Behind(ts, i);
    TailOf(w, s, i);
    TokenAt(w, s, i);
    FitsAlike(w, s, i, x);
    assert TokenLen(w, s) == |NextToken(w, s).text| <= |a|;
    PrefixToken(w, a, ts[i].text + post, x + post);
  }

  // ---- What the masker writes

  lemma MaskedAround(w: bool, a: seq<Token>, t: Token, v: bool, post: string)
    ensures Render(EraseAll(a + ([t] + Lex(v, post)))) == Render(EraseAll(a)) + (Erase(t).text + Masked(v, post))
  {
    hide Lex, EraseAll, Erase;
    var rest := Lex(v, post);
    EraseAllConcat(a, [t] + rest);
    EraseAllConcat([t], rest);
    RenderConcat(EraseAll(a), EraseAll([t]) + EraseAll(rest));
    RenderConcat(EraseAll([t]), EraseAll(rest));
    assert EraseAll([t]) == [Erase(t)];
    RenderStep([Erase(t)]);
    RenderEmpty();
  }

  /** Queries that differ only inside one literal or comment mask alike. The one exception is a dollar quote that
      ends in a word character in one of them only and has a digit behind it - which only an overshoot can bring
      about. */
  lemma MaskIgnores(q: string, i: nat, x: string)
    requires i < |Lex(false, q)| && IsErasedKind(Lex(false, q)[i].kind) && Fits(false, Lex(false, q), i, x)
    ensures var ts := Lex(false, q); var a, post := Before(ts, i), Behind(ts, i);
            && q == a + (ts[i].text + post)
            && (Masked(false, a + (x + post)) == Masked(false, q) <==>
                  EndsWord(ts[i].text) == EndsWord(x) || !StartsDigit(post))
            && (ts[i].kind != DollarQuote ==> Masked(false, a + (x + post)) == Masked(false, q))
  {
    hide Lex, Render, NextToken, EraseAll, Masked, Erase, EndsWord;
    var ts := Lex(false, q);
    var t, t' := ts[i], Token(ts[i].kind, x);
    var a, post := Before(ts, i), Behind(ts, i);
    TokenAt(false, q, i);
    TokenReplaced(false, q, i, x);
    assert ts == ts[..i] + ([t] + ts[i + 1..]);
    MaskedAround(false, ts[..i], t, EndsWord(t.text), post);
    MaskedAround(false, ts[..i], t', EndsWord(x), post);
    MaskedIs(false, q);
    MaskedIs(false, a + (x + post));
    SameErased(t, t');
    var front, mark := Render(EraseAll(ts[..i])), Erase(t).text;
    SameBehind(front, mark, Masked(EndsWord(t.text), post), Masked(EndsWord(x), post));
    if StartsDigit(post) && EndsWord(t.text) != EndsWord(x) {
      DigitDiffers(post);
    } else {
      LookBehind(EndsWord(t.text), EndsWord(x), post);
      MaskedIs(EndsWord(t.text), post);
      MaskedIs(EndsWord(x), post);
    }
    if t.kind != DollarQuote {
      SameLookBehind(false, q, i, x);
    }
  }

  lemma SameErased(t: Token, u: Token)
    requires IsErasedKind(t.kind) && u.kind == t.kind
    ensures Erase(t) == Erase(u)
  {
  }

  lemma SameBehind(front: string, mark: string, x: string, y: string)
    ensures front + (mark + x) == front + (mark + y) <==> x == y
  {
    if front + (mark + x) == front + (mark + y) {
      var n := |front| + |mark|;
      assert (front + (mark + x))[n..] == x && (front + (mark + y))[n..] == y;
    }
  }

  lemma SameLookBehind(w: bool, s: string, i: nat, x: string)
    requires i < |Lex(w, s)| && IsErasedKind(Lex(w, s)[i].kind) && Fits(w, Lex(w, s), i, x)
    requires Lex(w, s)[i].kind != DollarQuote
    ensures EndsWord(Lex(w, s)[i].text) == EndsWord(x) || !StartsDigit(Behind(Lex(w, s), i))
  {
    hide Lex, Render, NextToken, Erase, EndsWord, StartsDigit;
    var t, a, post := Lex(w, s)[i], Before(Lex(w, s), i), Behind(Lex(w, s), i);
    TokenAt(w, s, i);
    var v := if a == "" then w else EndsWord(a);
    EraseKeepsLookBehind(v, t.text + post);
    EraseKeepsLookBehind(v, x + post);
    assert (t.text + post)[|t.text|..] == post && (x + post)[|x|..] == post;
    SameErased(t, Token(t.kind, x));
  }
}

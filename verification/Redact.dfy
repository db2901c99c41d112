/** The masker's loop (internal/redact/redact.go), proved against the token grammar. */
module Redact {
  import opened Lexer

  /** The text from `i` on; nothing when the index has run past the end. */
  function From(r: string, i: nat): string {
    if i <= |r| then r[i..] else ""
  }

  predicate WordBefore(r: string, i: nat) {
    0 < i <= |r| && IsWord(r[i - 1])
  }

  /** Advancing the index by `n`, past the end or not, leaves the text after the first `n` characters. */
  lemma Cut(r: string, start: nat, n: nat)
    requires start < |r| && n > 0
    ensures var s := r[start..]; var m := Min(n, |s|);
            From(r, start + n) == s[m..] && (s[m..] != "" ==> WordBefore(r, start + n) == EndsWord(s[..m]))
  {
    var s := r[start..];
    if start + n <= |r| {
      assert s[..n][n - 1] == r[start + n - 1];
      assert r[start + n..] == s[n..];
    }
  }

  lemma Ends(r: string, i: nat)
    ensures i == 0 ==> Masked(WordBefore(r, i), From(r, i)) == Masked(false, r)
    ensures i >= |r| ==> Masked(WordBefore(r, i), From(r, i)) == ""
  {
    hide Masked;
    if i == 0 {
      assert From(r, i) == r;
    }
    if i >= |r| {
      assert From(r, i) == "";
      MaskedEmpty(WordBefore(r, i));
    }
  }

  lemma Stepped(r: string, start: nat)
    requires start < |r|
    ensures var w, s := WordBefore(r, start), r[start..];
            var i := start + Advance(w, s);
            Masked(w, From(r, start)) == Erase(NextToken(w, s)).text + Masked(WordBefore(r, i), From(r, i))
  {
    hide Advance, KindOf, Erase, Masked;
    var w, s := WordBefore(r, start), r[start..];
    MaskedStep(w, s);
    Cut(r, start, Advance(w, s));
    MaskedEmpty(EndsWord(NextToken(w, s).text));
    MaskedEmpty(WordBefore(r, start + Advance(w, s)));
  }

  /** One pass with an index over the query and an output buffer: the erased tokens of the query, in order. */
  method Mask(q: string) returns (b: string)
    ensures b == Render(EraseAll(Lex(false, q)))
  {
    hide Masked, Advance, NextToken, Erase, WordBefore, From;
    b := "";
    var r := q;
    var i := 0;
    Ends(r, i);
    while i < |r|
      invariant b + Masked(WordBefore(r, i), From(r, i)) == Masked(false, q)
      decreases |r| - i
    {
      Stepped(r, i);
      b, i := MaskToken(r, i, b);
    }
    Ends(r, i);
    MaskedIs(false, q);
  }

  /** A token that is copied: what was written is the token's text. */
  lemma Kept(w: bool, r: string, start: nat, i: nat, out: string, b: string)
    requires start < i <= |r| && b == out + [r[start]] + r[start + 1..i]
    requires KindOf(w, r[start..]) in {Param, QuotedIdent, Plain} && i == start + Advance(w, r[start..])
    ensures b == out + Erase(NextToken(w, r[start..])).text
  {
    hide Advance, KindOf;
    var s := r[start..];
    assert s[..i - start] == r[start..i] == [r[start]] + r[start + 1..i];
  }

  /** The body of the loop: reads the token at index `start` and writes what is kept of it. */
  method MaskToken(r: string, start: nat, out: string) returns (b: string, i: nat)
    requires start < |r|
    ensures i == start + Advance(WordBefore(r, start), r[start..])
    ensures b == out + Erase(NextToken(WordBefore(r, start), r[start..])).text
  {
    hide LineLen, BlockLen, StringLen, WordLen, DigitLen, IdentLen, NumberLen, IndexOf, ByteLen;
    ghost var w, s := WordBefore(r, start), r[start..];
    assert r[start + 1..] == s[1..];
    b, i := out, start;
    var c, n := r[i], |r|;
    if c == '-' && i + 1 < n && r[i + 1] == '-' {
      assert KindOf(w, s) == LineComment;
      b := b + "--?";
      i := SkipLine(r, i);
    } else if c == '/' && i + 1 < n && r[i + 1] == '*' {
      assert KindOf(w, s) == BlockComment;
      b := b + "/*?*/";
      i := SkipBlock(r, i);
      assert r[start + 2..] == s[2..];
    } else if c == '\'' {
      assert KindOf(w, s) == StringLit;
      b := b + "?";
      i := SkipString(r, i);
    } else if c == '$' {
      b, i := MaskDollar(r, i, b);
    } else if c == '"' {
      assert KindOf(w, s) == QuotedIdent;
      b := b + [c];
      i := i + 1;
      b, i := CopyIdent(r, i, b);
      Kept(w, r, start, i, out, b);
    } else if IsDigit(c) && (i == 0 || !IsWord(r[i - 1])) {
      assert KindOf(w, s) == Number;
      b := b + "?";
      i := SkipNumber(r, i);
    } else {
      assert KindOf(w, s) == Plain;
      b := b + [c];
      i := i + 1;
      Kept(w, r, start, i, out, b);
    }
  }

  /** A dollar sign: a dollar-quoted string when a complete tag follows, otherwise a parameter, whose digits are
      kept. */
  method MaskDollar(r: string, start: nat, out: string) returns (b: string, i: nat)
    requires start < |r| && r[start] == '$'
    ensures i == start + Advance(WordBefore(r, start), r[start..])
    ensures b == out + Erase(NextToken(WordBefore(r, start), r[start..])).text
  {
    hide WordLen, DigitLen, IndexOf, ByteLen;
    ghost var w, s := WordBefore(r, start), r[start..];
    assert r[start + 1..] == s[1..];
    b, i := out, start;
    var j := SkipTag(r, i);
    if j < |r| && r[j] == '$' {
      assert KindOf(w, s) == DollarQuote;
      b := b + "?";
      i := SkipDollar(r, i, j);
    } else {
      assert KindOf(w, s) == Param;
      b := b + [r[i]];
      i := i + 1;
      b, i := CopyDigits(r, i, b);
      Kept(w, r, start, i, out, b);
    }
  }

  method SkipLine(r: string, start: nat) returns (i: nat)
    requires start <= |r|
    ensures i == start + LineLen(r[start..])
  {
    i := start;
    while i < |r| && r[i] != '\n'
      invariant start <= i <= |r|
      invariant i + LineLen(r[i..]) == start + LineLen(r[start..])
    {
      assert r[i..][1..] == r[i + 1..];
      i := i + 1;
    }
  }

  method SkipBlock(r: string, start: nat) returns (i: nat)
    requires start + 2 <= |r|
    ensures i == start + Min(2 + BlockLen(r[start + 2..]) + 2, |r| - start)
  {
    i := start + 2;
    while i + 1 < |r| && !(r[i] == '*' && r[i + 1] == '/')
      invariant start + 2 <= i <= |r|
      invariant i + BlockLen(r[i..]) == start + 2 + BlockLen(r[start + 2..])
    {
      assert r[i..][1..] == r[i + 1..];
      i := i + 1;
    }
    i := i + 2;
    if i > |r| {
      i := |r|;
    }
  }

  method SkipString(r: string, start: nat) returns (i: nat)
    requires start < |r|
    ensures i == start + 1 + StringLen(r[start + 1..])
  {
    i := start + 1;
    while i < |r|
      invariant start < i <= |r|
      invariant i + StringLen(r[i..]) == start + 1 + StringLen(r[start + 1..])
      decreases |r| - i
    {
      if r[i] == '\'' {
        if i + 1 < |r| && r[i + 1] == '\'' {
          assert r[i..][2..] == r[i + 2..];
          i := i + 2;
          continue;
        }
        i := i + 1;
        return;
      }
      assert r[i..][1..] == r[i + 1..];
      i := i + 1;
    }
  }

  method SkipTag(r: string, start: nat) returns (j: nat)
    requires start < |r|
    ensures j == start + 1 + WordLen(r[start + 1..])
  {
    j := start + 1;
    while j < |r| && r[j] != '$' && IsWord(r[j])
      invariant start < j <= |r|
      invariant j + WordLen(r[j..]) == start + 1 + WordLen(r[start + 1..])
    {
      assert r[j..][1..] == r[j + 1..];
      j := j + 1;
    }
  }

  /** Skips to after the closing tag, or to the end. The offset of the closing tag comes back in bytes. */
  method SkipDollar(r: string, start: nat, j: nat) returns (i: nat)
    requires start < |r| && HasTag(r[start..]) && j == start + TagLen(r[start..]) - 1
    ensures var s := r[start..]; var m, k := TagLen(s), Closing(s);
            i == start + if k >= 0 then m + ByteLen(s[m..m + k]) + m else |s|
  {
    var tag := r[start..j + 1];
    var rest := r[j + 1..];
    ghost var s := r[start..];
    assert s[..TagLen(s)] == tag;
    assert s[TagLen(s)..] == rest;
    var k := IndexOf(rest, tag);
    if k >= 0 {
      assert s[TagLen(s)..TagLen(s) + k] == rest[..k];
      i := j + 1 + ByteLen(rest[..k]) + |tag|;
    } else {
      i := |r|;
    }
  }

  method CopyDigits(r: string, start: nat, b: string) returns (out: string, i: nat)
    requires start <= |r|
    ensures i == start + DigitLen(r[start..]) && out == b + r[start..i]
  {
    out, i := b, start;
    while i < |r| && IsDigit(r[i])
      invariant start <= i <= |r|
      invariant i + DigitLen(r[i..]) == start + DigitLen(r[start..])
      invariant out == b + r[start..i]
    {
      assert r[i..][1..] == r[i + 1..];
      out := out + [r[i]];
      i := i + 1;
    }
  }

  method CopyIdent(r: string, start: nat, b: string) returns (out: string, i: nat)
    requires start <= |r|
    ensures i == start + IdentLen(r[start..]) && out == b + r[start..i]
  {
    out, i := b, start;
    while i < |r|
      invariant start <= i <= |r|
      invariant i + IdentLen(r[i..]) == start + IdentLen(r[start..])
      invariant out == b + r[start..i]
    {
      assert r[i..][1..] == r[i + 1..];
      out := out + [r[i]];
      if r[i] == '"' {
        i := i + 1;
        return;
      }
      i := i + 1;
    }
  }

  method SkipNumber(r: string, start: nat) returns (i: nat)
    requires start < |r| && IsDigit(r[start])
    ensures i == start + 1 + NumberLen(r[start], r[start + 1..])
  {
    i := start;
    while i < |r| && (r[i] == '.' || IsExponent(r[i]) || IsSign(r[i]) || IsDigit(r[i]))
      invariant start <= i <= |r|
      invariant i > start ==> i + NumberLen(r[i - 1], r[i..]) == start + 1 + NumberLen(r[start], r[start + 1..])
    {
      if IsSign(r[i]) && !(i > 0 && IsExponent(r[i - 1])) {
        break;
      }
      assert i > start ==> r[i..][1..] == r[i + 1..];
      i := i + 1;
    }
  }
}

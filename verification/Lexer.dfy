/** The token grammar of the query masker (internal/redact/redact.go), as functions on the text that is
    still to be read.

    `w` always says whether the character just before that text is a word character: the masker
    looks one character back before it treats a digit as the start of a number.
 */
module Lexer {

  predicate IsDigit(c: char) {
    '0' <= c <= '9'
  }

  predicate IsWord(c: char) {
    c == '_' || 'a' <= c <= 'z' || 'A' <= c <= 'Z' || IsDigit(c)
  }

  predicate EndsWord(s: string) {
    s != "" && IsWord(s[|s| - 1])
  }

  predicate StartsDigit(s: string) {
    s != "" && IsDigit(s[0])
  }

  predicate Ascii(s: string) {
    forall i :: 0 <= i < |s| ==> (s[i] as int) < 0x80
  }

  function Min(a: nat, b: nat): nat {
    if a < b then a else b
  }

  /** The number of bytes a character takes in UTF-8. */
  function Width(c: char): nat {
    var n := c as int;
    if n < 0x80 then 1 else if n < 0x800 then 2 else if n < 0x10000 then 3 else 4
  }

  function ByteLen(s: string): nat {
    if s == "" then 0 else Width(s[0]) + ByteLen(s[1..])
  }

  // ---- Scans: how much of the text one inner loop of the masker consumes

  /** Up to, not including, the next newline. */
  function LineLen(s: string): (n: nat)
    ensures n <= |s|
  {
    if s == "" || s[0] == '\n' then 0 else 1 + LineLen(s[1..])
  }

  /** Up to, not including, the next end-of-comment marker; stops when fewer than two characters are left. */
  function BlockLen(s: string): (n: nat)
    ensures n <= |s|
  {
    if |s| < 2 || (s[0] == '*' && s[1] == '/') then 0 else 1 + BlockLen(s[1..])
  }

  /** The rest of a string literal, from after its opening quote to its closing quote, over doubled quotes. */
  function StringLen(s: string): (n: nat)
    ensures n <= |s|
  {
    if s == "" then 0
    else if s[0] == '\'' then
      if |s| > 1 && s[1] == '\'' then 2 + StringLen(s[2..]) else 1
    else 1 + StringLen(s[1..])
  }

  /** The rest of a quoted identifier, from after its opening quote to the next quote. */
  function IdentLen(s: string): (n: nat)
    ensures n <= |s|
  {
    if s == "" then 0 else if s[0] == '"' then 1 else 1 + IdentLen(s[1..])
  }

  function WordLen(s: string): (n: nat)
    ensures n <= |s|
  {
    if s == "" || !IsWord(s[0]) then 0 else 1 + WordLen(s[1..])
  }

  function DigitLen(s: string): (n: nat)
    ensures n <= |s|
  {
    if s == "" || !IsDigit(s[0]) then 0 else 1 + DigitLen(s[1..])
  }

  predicate IsExponent(c: char) {
    c == 'e' || c == 'E'
  }

  predicate IsSign(c: char) {
    c == '+' || c == '-'
  }

  /** The rest of a number, `prev` being the character just consumed: a sign only continues it after an exponent
      marker. */
  function NumberLen(prev: char, s: string): (n: nat)
    ensures n <= |s|
    decreases |s|
  {
    if s == "" || !(s[0] == '.' || IsExponent(s[0]) || IsSign(s[0]) || IsDigit(s[0])) then 0
    else if IsSign(s[0]) && !IsExponent(prev) then 0
    else 1 + NumberLen(s[0], s[1..])
  }

  /** The position of the first occurrence of `p` in `s`, or -1. */
  function IndexOf(s: string, p: string): (k: int)
    ensures -1 <= k && (k >= 0 ==> k + |p| <= |s| && s[k..k + |p|] == p)
  {
    if |p| <= |s| && s[..|p|] == p then 0
    else if s == "" then -1
    else var k := IndexOf(s[1..], p); if k < 0 then -1 else k + 1
  }

  // ---- Tokens

  datatype Kind = LineComment | BlockComment | StringLit | DollarQuote | Param | QuotedIdent | Number | Plain

  datatype Token = Token(kind: Kind, text: string)

  /** Does `s`, which begins with a dollar sign, begin with a complete opening tag? */
  predicate HasTag(s: string)
    requires s != ""
  {
    var m := WordLen(s[1..]);
    1 + m < |s| && s[1 + m] == '$'
  }

  function TagLen(s: string): (n: nat)
    requires s != "" && HasTag(s)
    ensures 2 <= n <= |s|
  {
    WordLen(s[1..]) + 2
  }

  /** Where the closing tag is, counted in characters after the opening tag; -1 when there is none. */
  function Closing(s: string): (k: int)
    requires s != "" && HasTag(s)
    ensures k >= 0 ==> TagLen(s) + k + TagLen(s) <= |s|
  {
    IndexOf(s[TagLen(s)..], s[..TagLen(s)])
  }

  function KindOf(w: bool, s: string): Kind
    requires s != ""
  {
    var c := s[0];
    if c == '-' && |s| > 1 && s[1] == '-' then LineComment
    else if c == '/' && |s| > 1 && s[1] == '*' then BlockComment
    else if c == '\'' then StringLit
    else if c == '$' then (if HasTag(s) then DollarQuote else Param)
    else if c == '"' then QuotedIdent
    else if IsDigit(c) && !w then Number
    else Plain
  }

  /** How far the masker's index advances over the token at the head of `s`. After a closed dollar quote the
      byte offset of the closing tag is added to an index that counts characters, so the advance can be longer
      than the quote, and can even pass the end of the text. */
  function Advance(w: bool, s: string): (n: nat)
    requires s != ""
    ensures n > 0
  {
    match KindOf(w, s)
    case LineComment => assert LineLen(s) == 1 + LineLen(s[1..]); LineLen(s)
    case BlockComment => Min(2 + BlockLen(s[2..]) + 2, |s|)
    case StringLit => 1 + StringLen(s[1..])
    case DollarQuote =>
      var m, k := TagLen(s), Closing(s);
      if k >= 0 then m + ByteLen(s[m..m + k]) + m else |s|
    case Param => 1 + DigitLen(s[1..])
    case QuotedIdent => 1 + IdentLen(s[1..])
    case Number => 1 + NumberLen(s[0], s[1..])
    case Plain => 1
  }

  function TokenLen(w: bool, s: string): (n: nat)
    requires s != ""
    ensures 0 < n <= |s|
  {
    Min(Advance(w, s), |s|)
  }

  function NextToken(w: bool, s: string): (t: Token)
    requires s != ""
    ensures |t.text| == TokenLen(w, s) && t.text == s[..|t.text|] && t.text + s[|t.text|..] == s
  {
    Token(KindOf(w, s), s[..TokenLen(w, s)])
  }

  function Lex(w: bool, s: string): seq<Token>
    decreases |s|
  {
    if s == "" then []
    else
      var t := NextToken(w, s);
      [t] + Lex(EndsWord(t.text), s[|t.text|..])
  }

  // ---- Masking, on tokens

  /** What the masker leaves of a token: the marker of a comment, a question mark for a literal. */
  function Erase(t: Token): Token {
    match t.kind
    case LineComment => Token(LineComment, "--?")
    case BlockComment => Token(BlockComment, "/*?*/")
    case StringLit => Token(Plain, "?")
    case DollarQuote => Token(Plain, "?")
    case Number => Token(Plain, "?")
    case _ => t
  }

  function EraseAll(ts: seq<Token>): (r: seq<Token>)
    ensures |r| == |ts| && forall i :: 0 <= i < |ts| ==> r[i] == Erase(ts[i])
  {
    if ts == [] then [] else [Erase(ts[0])] + EraseAll(ts[1..])
  }

  function Render(ts: seq<Token>): string {
    if ts == [] then "" else ts[0].text + Render(ts[1..])
  }

  /** The masked form of `s`, standing after a word character or not. */
  function Masked(w: bool, s: string): string {
    Render(EraseAll(Lex(w, s)))
  }

  lemma MaskedIs(w: bool, s: string)
    ensures Masked(w, s) == Render(EraseAll(Lex(w, s)))
  {
  }

  lemma MaskedEmpty(w: bool)
    ensures Masked(w, "") == ""
  {
  }

  /** One step of the masker. */
  lemma MaskedStep(w: bool, s: string)
    requires s != ""
    ensures var t := NextToken(w, s);
            Masked(w, s) == Erase(t).text + Masked(EndsWord(t.text), s[|t.text|..])
  {
    hide Advance, KindOf, Erase;
    var t := NextToken(w, s);
    var rest := Lex(EndsWord(t.text), s[|t.text|..]);
    assert Lex(w, s) == [t] + rest;
    assert ([t] + rest)[1..] == rest;
    var e := EraseAll([t] + rest);
    assert e == [Erase(t)] + EraseAll(rest);
    assert e[1..] == EraseAll(rest);
  }

  lemma RenderConcat(a: seq<Token>, b: seq<Token>)
    ensures Render(a + b) == Render(a) + Render(b)
  {
    if a == [] {
      assert a + b == b;
    } else {
      assert (a + b)[1..] == a[1..] + b;
      RenderConcat(a[1..], b);
    }
  }

  /** Nothing is lost: the tokens spell the query. */
  lemma {:induction false} LexLossless(w: bool, s: string)
    ensures Render(Lex(w, s)) == s
    decreases |s|
  {
    if s != "" {
      var t := NextToken(w, s);
      LexLossless(EndsWord(t.text), s[|t.text|..]);
      var rest := Lex(EndsWord(t.text), s[|t.text|..]);
      assert Lex(w, s)[1..] == rest;
    }
  }
}

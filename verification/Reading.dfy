/** What each token of the masker is, said without its scans: which characters it is made of, where it begins and
    where it ends (internal/redact/redact.go). The masker's tokens are exactly the ones described here, so what it
    writes for numbers, names, strings and comments can be read off.
 */
module Reading {
  import opened Lexer
  import opened MaskTheory
  import opened Grants

  // ---- Characters

  predicate Digit(c: char) {
    '0' <= c <= '9'
  }

  predicate Word(c: char) {
    c == '_' || 'a' <= c <= 'z' || 'A' <= c <= 'Z' || '0' <= c <= '9'
  }

  /** May this character be part of a number, `before` standing in front of it? */
  predicate Numeral(before: char, c: char) {
    c in {'0', '1', '2', '3', '4', '5', '6', '7', '8', '9', '.', 'e', 'E'} || (c in {'+', '-'} && before in {'e', 'E'})
  }

  /** How many bytes more than characters a text takes in UTF-8. */
  function Extra(s: string): nat {
    if s == "" then 0
    else
      var n := s[0] as int;
      Extra(s[1..]) + (if n < 0x80 then 0 else if n < 0x800 then 1 else if n < 0x10000 then 2 else 3)
  }

  predicate NewlineAt(s: string, i: nat) {
    i < |s| && s[i] == '\n'
  }

  predicate EndMarkAt(s: string, i: nat) {
    i + 2 <= |s| && s[i] == '*' && s[i + 1] == '/'
  }

  predicate QuoteAt(s: string, i: nat) {
    i < |s| && s[i] == '"'
  }

  predicate OccursAt(s: string, p: string, i: nat) {
    i + |p| <= |s| && s[i..i + |p|] == p
  }

  // ---- Tokens

  /** Does `s` begin with a tag of `m` characters? */
  predicate TagOf(s: string, m: nat) {
    2 <= m <= |s| && s[0] == '$' && s[m - 1] == '$' && forall i :: 1 <= i < m - 1 ==> Word(s[i])
  }

  ghost predicate LineReads(s: string, n: nat) {
    && 2 <= n <= |s| && s[0] == '-' && s[1] == '-'
    && (forall i :: 0 <= i < n ==> !NewlineAt(s, i)) && (n == |s| || NewlineAt(s, n))
  }

  ghost predicate BlockReads(s: string, n: nat) {
    && 2 <= n <= |s| && s[0] == '/' && s[1] == '*'
    && (forall i :: 2 <= i < n - 2 ==> !EndMarkAt(s, i))
    && ((n >= 4 && EndMarkAt(s, n - 2)) || (n == |s| && forall i: nat :: 2 <= i ==> !EndMarkAt(s, i)))
  }

  /** A string closes at a quote that is not doubled, or not at all. */
  ghost predicate StringReads(s: string, n: nat) {
    && 1 <= n <= |s|
    && ((exists v :: s[..n] == "'" + (Doubled(v, '\'') + "'") && (n == |s| || s[n] != '\''))
        || (exists v :: n == |s| && s == "'" + Doubled(v, '\'')))
  }

  /** Does the tag of `m` characters return for the first time `k` characters after itself? */
  ghost predicate ReturnsAt(s: string, m: nat, k: nat)
    requires m <= |s|
  {
    OccursAt(s[m..], s[..m], k) && forall i: nat :: i < k ==> !OccursAt(s[m..], s[..m], i)
  }

  /** A dollar quote closes at the first return of its tag, and takes one character more for every byte that its body
      has more than characters, as far as there are any; without a closing tag it takes the whole text. */
  ghost predicate DollarReads(s: string, n: nat) {
    exists m: nat :: TagOf(s, m) &&
      ((exists k: nat :: ReturnsAt(s, m, k) && n == Min(m + k + Extra(s[m..m + k]) + m, |s|))
       || (n == |s| && forall k: nat :: !ReturnsAt(s, m, k)))
  }

  ghost predicate ParamReads(s: string, n: nat) {
    && 1 <= n <= |s| && s[0] == '$' && (forall m: nat :: !TagOf(s, m))
    && (forall i :: 1 <= i < n ==> Digit(s[i])) && (n == |s| || !Digit(s[n]))
  }

  ghost predicate IdentReads(s: string, n: nat) {
    && 1 <= n <= |s| && s[0] == '"' && (forall i :: 1 <= i < n - 1 ==> !QuoteAt(s, i))
    && ((n >= 2 && QuoteAt(s, n - 1)) || (n == |s| && forall i: nat :: 1 <= i ==> !QuoteAt(s, i)))
  }

  ghost predicate NumberReads(w: bool, s: string, n: nat) {
    && 1 <= n <= |s| && !w && Digit(s[0])
    && (forall i :: 1 <= i < n ==> Numeral(s[i - 1], s[i])) && (n == |s| || !Numeral(s[n - 1], s[n]))
  }

  ghost predicate PlainReads(w: bool, s: string, n: nat) {
    && n == 1 <= |s| && s[0] !in {'\'', '$', '"'} && (Digit(s[0]) ==> w)
    && !(|s| > 1 && s[0] == '-' && s[1] == '-') && !(|s| > 1 && s[0] == '/' && s[1] == '*')
  }

  /** Does `s`, standing behind a word character or not, begin with a token of this kind that is `n` characters long? */
  ghost predicate Reads(w: bool, k: Kind, s: string, n: nat) {
    match k
    case LineComment => LineReads(s, n)
    case BlockComment => BlockReads(s, n)
    case StringLit => StringReads(s, n)
    case DollarQuote => DollarReads(s, n)
    case Param => ParamReads(s, n)
    case QuotedIdent => IdentReads(s, n)
    case Number => NumberReads(w, s, n)
    case Plain => PlainReads(w, s, n)
  }

  // ---- What the scans take

  lemma {:induction false} LineTakes(s: string, n: nat)
    requires n <= |s|
    ensures LineLen(s) == n <==> (forall i :: 0 <= i < n ==> !NewlineAt(s, i)) && (n == |s| || NewlineAt(s, n))
  {
    if s != "" && s[0] != '\n' && n > 0 {
      var t := s[1..];
      LineTakes(t, n - 1);
      forall i | 0 <= i < |s| - 1 ensures NewlineAt(t, i) == NewlineAt(s, i + 1) {
      }
      if forall i :: 0 <= i < n - 1 ==> !NewlineAt(t, i) {
        forall i | 0 <= i < n ensures !NewlineAt(s, i) {
          assert i == 0 || NewlineAt(s, i) == NewlineAt(t, i - 1);
        }
      }
    } else if n > 0 {
      assert NewlineAt(s, 0);
    }
  }

  lemma {:induction false} BlockTakes(s: string)
    ensures var n := BlockLen(s);
            && (forall i :: 0 <= i < n ==> !EndMarkAt(s, i))
            && (EndMarkAt(s, n) || (n + 2 > |s| && forall i: nat :: !EndMarkAt(s, i)))
  {
    var n := BlockLen(s);
    if |s| >= 2 && !EndMarkAt(s, 0) {
      var t := s[1..];
      BlockTakes(t);
      forall i: nat | 1 <= i ensures EndMarkAt(s, i) == EndMarkAt(t, i - 1) {
      }
    }
  }

  lemma {:induction false} IdentTakes(s: string)
    ensures var n := IdentLen(s);
            && (forall i :: 0 <= i < n - 1 ==> !QuoteAt(s, i))
            && ((n > 0 && QuoteAt(s, n - 1)) || (n == |s| && forall i: nat :: !QuoteAt(s, i)))
  {
    if s != "" && s[0] != '"' {
      var t := s[1..];
      IdentTakes(t);
      forall i: nat | 1 <= i ensures QuoteAt(s, i) == QuoteAt(t, i - 1) {
      }
    }
  }

  lemma {:induction false} WordTakes(s: string)
    ensures var n := WordLen(s); (forall i :: 0 <= i < n ==> Word(s[i])) && (n == |s| || !Word(s[n]))
  {
    if s != "" && IsWord(s[0]) {
      WordTakes(s[1..]);
      assert forall i :: 1 <= i < |s| ==> s[i] == s[1..][i - 1];
    }
  }

  lemma {:induction false} DigitsTaken(s: string)
    ensures var n := DigitLen(s); (forall i :: 0 <= i < n ==> Digit(s[i])) && (n == |s| || !Digit(s[n]))
  {
    if s != "" && IsDigit(s[0]) {
      DigitsTaken(s[1..]);
      assert forall i :: 1 <= i < |s| ==> s[i] == s[1..][i - 1];
    }
  }

  function CharBefore(prev: char, s: string, i: nat): char
    requires i <= |s|
  {
    if i == 0 then prev else s[i - 1]
  }

  lemma {:induction false} NumberTakes(prev: char, s: string)
    ensures var n := NumberLen(prev, s);
            && (forall i :: 0 <= i < n ==> Numeral(CharBefore(prev, s, i), s[i]))
            && (n == |s| || !Numeral(CharBefore(prev, s, n), s[n]))
    decreases |s|
  {
    var n := NumberLen(prev, s);
    if n > 0 {
      var t := s[1..];
      NumberTakes(s[0], t);
      hide NumberLen, Numeral;
      assert NumberLen(s[0], t) == n - 1 && Numeral(prev, s[0]) by { NumberFirst(prev, s); }
      forall i | 1 <= i < |s| ensures CharBefore(prev, s, i) == CharBefore(s[0], t, i - 1) && s[i] == t[i - 1] {
      }
      forall i | 0 <= i < n ensures Numeral(CharBefore(prev, s, i), s[i]) {
        if i > 0 {
          assert Numeral(CharBefore(s[0], t, i - 1), t[i - 1]);
        }
      }
    }
  }

  lemma NumberFirst(prev: char, s: string)
    requires NumberLen(prev, s) > 0
    ensures NumberLen(prev, s) == 1 + NumberLen(s[0], s[1..]) && Numeral(prev, s[0])
  {
  }

  /** Where a string ends, and the value read until then. */
  lemma {:induction false} StringTakes(s: string) returns (v: string)
    ensures var n := StringLen(s);
            (s[..n] == Doubled(v, '\'') + "'" && (n == |s| || s[n] != '\'')) || (n == |s| && s == Doubled(v, '\''))
    decreases |s|
  {
    hide Doubled;
    if s == "" || (s[0] == '\'' && !(|s| > 1 && s[1] == '\'')) {
      v := "";
      DoubledEmpty('\'');
      assert s != "" ==> s[..1] == "'";
    } else {
      var front := if s[0] == '\'' then "''" else [s[0]];
      var rest := s[|front|..];
      v := StringTakes(rest);
      DoubledFirst(s[0], v, '\'');
      CutFront(s, front, rest, StringLen(s));
      v := [s[0]] + v;
    }
  }

  lemma {:induction false} OpenString(v: string)
    ensures StringLen(Doubled(v, '\'')) == |Doubled(v, '\'')|
  {
    if v != "" {
      var d, rest := Doubled(v, '\''), Doubled(v[1..], '\'');
      OpenString(v[1..]);
      if v[0] == '\'' {
        assert d[2..] == rest;
      } else {
        assert d[1..] == rest;
      }
    }
  }

  lemma ExtraBytes(s: string)
    ensures ByteLen(s) == |s| + Extra(s)
  {
  }

  // ---- The masker's next token reads as it should

  lemma {:induction false} RunReaches(x: string, q: nat)
    requires q <= |x| && forall i :: 0 <= i < q ==> Word(x[i])
    ensures WordLen(x) >= q
  {
    if q > 0 {
      assert forall i :: 0 <= i < q - 1 ==> x[1..][i] == x[i + 1];
      RunReaches(x[1..], q - 1);
    }
  }

  lemma TagTaken(s: string)
    requires s != "" && s[0] == '$'
    ensures HasTag(s) ==> TagOf(s, TagLen(s))
    ensures forall m: nat :: TagOf(s, m) ==> HasTag(s) && TagLen(s) == m
  {
    hide WordLen;
    var x := s[1..];
    WordTakes(x);
    assert forall i :: 1 <= i < |s| ==> s[i] == x[i - 1];
    forall m: nat | TagOf(s, m) ensures HasTag(s) && TagLen(s) == m {
      assert forall i :: 0 <= i < m - 2 ==> x[i] == s[i + 1];
      RunReaches(x, m - 2);
      assert x[m - 2] == s[m - 1] == '$';
    }
  }

  lemma FirstReturn(s: string, m: nat)
    requires 0 < m <= |s|
    ensures var k := IndexOf(s[m..], s[..m]);
            if k >= 0 then ReturnsAt(s, m, k) && forall i: nat :: ReturnsAt(s, m, i) ==> i == k
            else forall i: nat :: !ReturnsAt(s, m, i)
  {
    var t, p := s[m..], s[..m];
    forall i: nat | OccursAt(t, p, i) ensures 0 <= IndexOf(t, p) <= i {
      IndexFirst(t, p, i);
    }
    var k := IndexOf(t, p);
    assert k >= 0 ==> OccursAt(t, p, k);
  }

  lemma DollarTaken(w: bool, s: string)
    requires s != "" && KindOf(w, s) == DollarQuote
    ensures DollarReads(s, TokenLen(w, s))
  {
    hide WordLen, IndexOf, ByteLen, Extra, ReturnsAt, TagOf;
    TagTaken(s);
    var m := TagLen(s);
    FirstReturn(s, m);
    assert TagOf(s, m);
    if Closing(s) >= 0 {
      var k: nat := Closing(s);
      ExtraBytes(s[m..m + k]);
      assert ReturnsAt(s, m, k);
    }
  }

  lemma ParamTaken(w: bool, s: string)
    requires s != "" && KindOf(w, s) == Param
    ensures ParamReads(s, TokenLen(w, s))
  {
    hide WordLen, DigitLen;
    TagTaken(s);
    DigitsTaken(s[1..]);
    assert forall i :: 1 <= i < |s| ==> s[i] == s[1..][i - 1];
  }

  lemma BlockTaken(w: bool, s: string)
    requires s != "" && KindOf(w, s) == BlockComment
    ensures BlockReads(s, TokenLen(w, s))
  {
    hide BlockLen;
    var x := s[2..];
    BlockTakes(x);
    forall i: nat | 2 <= i ensures EndMarkAt(s, i) == EndMarkAt(x, i - 2) {
    }
  }

  lemma IdentTaken(w: bool, s: string)
    requires s != "" && KindOf(w, s) == QuotedIdent
    ensures IdentReads(s, TokenLen(w, s))
  {
    hide IdentLen;
    var x := s[1..];
    IdentTakes(x);
    forall i: nat | 1 <= i ensures QuoteAt(s, i) == QuoteAt(x, i - 1) {
    }
  }

  lemma Shifted(s: string, i: nat)
    requires 0 < i < |s|
    ensures s[1..][i - 1] == s[i] && CharBefore(s[0], s[1..], i - 1) == s[i - 1]
  {
  }

  lemma NumberTaken(w: bool, s: string)
    requires s != "" && KindOf(w, s) == Number
    ensures NumberReads(w, s, TokenLen(w, s))
  {
    hide NumberLen, Numeral, CharBefore;
    var x, n := s[1..], TokenLen(w, s);
    NumberTakes(s[0], x);
    forall i | 1 <= i < n ensures Numeral(s[i - 1], s[i]) {
      Shifted(s, i);
      assert Numeral(CharBefore(s[0], x, i - 1), x[i - 1]);
    }
    if n < |s| {
      Shifted(s, n);
    }
  }

  lemma StringTaken(w: bool, s: string)
    requires s != "" && KindOf(w, s) == StringLit
    ensures StringReads(s, TokenLen(w, s))
  {
    hide StringLen, Doubled;
    var x := s[1..];
    var v := StringTakes(x);
    var n := StringLen(x);
    assert s == "'" + x && s[..n + 1] == "'" + x[..n];
    if x[..n] == Doubled(v, '\'') + "'" && (n == |x| || x[n] != '\'') {
      assert n < |x| ==> s[n + 1] == x[n];
      assert s[..n + 1] == "'" + (Doubled(v, '\'') + "'");
    } else {
      assert s == "'" + Doubled(v, '\'');
    }
  }

  lemma TokenReads(w: bool, s: string)
    requires s != ""
    ensures Reads(w, KindOf(w, s), s, TokenLen(w, s))
  {
    match KindOf(w, s)
    case LineComment => LineTakes(s, LineLen(s));
    case BlockComment => BlockTaken(w, s);
    case StringLit => StringTaken(w, s);
    case DollarQuote => DollarTaken(w, s);
    case Param => ParamTaken(w, s);
    case QuotedIdent => IdentTaken(w, s);
    case Number => NumberTaken(w, s);
    case Plain =>
  }

  // ---- And there is no other reading

  lemma ReadsKind(w: bool, k: Kind, s: string, n: nat)
    requires Reads(w, k, s, n)
    ensures s != "" && KindOf(w, s) == k
  {
    if s != "" && s[0] == '$' {
      TagTaken(s);
    }
    hide Doubled, Extra;
    if k == StringLit {
      StringBegins(s, n);
    }
  }

  lemma StringBegins(s: string, n: nat)
    requires StringReads(s, n)
    ensures s[0] == '\'' && n == 1 + StringLen(s[1..])
  {
    hide StringLen, Doubled;
    if v :| s[..n] == "'" + (Doubled(v, '\'') + "'") && (n == |s| || s[n] != '\'') {
      var d := Doubled(v, '\'') + "'";
      assert s[0] == s[..n][0] == '\'';
      assert s[1..] == d + s[n..] by { assert s == s[..n] + s[n..]; }
      DoubledRead(v, s[n..]);
    } else {
      var v :| n == |s| && s == "'" + Doubled(v, '\'');
      assert s[1..] == Doubled(v, '\'');
      OpenString(v);
    }
  }

  lemma DollarOnce(s: string, n: nat, o: nat)
    requires DollarReads(s, n) && DollarReads(s, o)
    ensures n == o
  {
    hide Extra, ReturnsAt;
    TagTaken(s);
    var m := TagLen(s);
    FirstReturn(s, m);
  }

  lemma NumberOnce(w: bool, s: string, n: nat, o: nat)
    requires NumberReads(w, s, n) && NumberReads(w, s, o)
    ensures n <= o
  {
    hide Numeral;
  }

  lemma ReadsOnce(w: bool, k: Kind, s: string, n: nat, o: nat)
    requires Reads(w, k, s, n) && Reads(w, k, s, o)
    ensures n == o
  {
    match k
    case StringLit =>
      StringBegins(s, n);
      StringBegins(s, o);
    case DollarQuote => DollarOnce(s, n, o);
    case Number =>
      NumberOnce(w, s, n, o);
      NumberOnce(w, s, o, n);
    case _ =>
  }

  /** The masker's next token is the one that is described, and no other. */
  lemma NextTokenIs(w: bool, s: string, k: Kind, n: nat)
    requires s != ""
    ensures Reads(w, k, s, n) <==> k == KindOf(w, s) && n == TokenLen(w, s)
  {
    hide Reads, KindOf, Advance, TokenLen;
    TokenReads(w, s);
    if Reads(w, k, s, n) {
      ReadsKind(w, k, s, n);
      ReadsOnce(w, k, s, n, TokenLen(w, s));
    }
  }

  // ---- Whole queries

  /** What is written for a token. */
  function Mark(t: Token): string {
    match t.kind
    case LineComment => "--?"
    case BlockComment => "/*?*/"
    case StringLit => "?"
    case DollarQuote => "?"
    case Number => "?"
    case Param => t.text
    case QuotedIdent => t.text
    case Plain => t.text
  }

  function Marks(ts: seq<Token>): string {
    if ts == [] then "" else Mark(ts[0]) + Marks(ts[1..])
  }

  /** Are these the tokens of `s`, one behind the other, each reading as described? */
  ghost predicate Tokens(w: bool, s: string, ts: seq<Token>)
    decreases |ts|
  {
    if ts == [] then s == ""
    else
      var x := ts[0].text;
      x != "" && x <= s && Reads(w, ts[0].kind, s, |x|) && Tokens(Word(x[|x| - 1]), s[|x|..], ts[1..])
  }

  lemma {:induction false} LexReads(w: bool, s: string)
    ensures Tokens(w, s, Lex(w, s))
    decreases |s|
  {
    hide Reads, KindOf, Advance, Lex;
    LexEmpty(w);
    if s != "" {
      var t := NextToken(w, s);
      LexStep(w, s);
      TokenReads(w, s);
      var rest := Lex(EndsWord(t.text), s[|t.text|..]);
      assert Lex(w, s)[1..] == rest;
      LexReads(EndsWord(t.text), s[|t.text|..]);
    }
  }

  lemma {:induction false} TokensAreLex(w: bool, s: string, ts: seq<Token>)
    requires Tokens(w, s, ts)
    ensures ts == Lex(w, s)
    decreases |ts|
  {
    hide Reads, KindOf, Advance, Lex, TokenLen;
    LexEmpty(w);
    if ts != [] {
      var x := ts[0].text;
      NextTokenIs(w, s, ts[0].kind, |x|);
      assert x == s[..|x|];
      assert ts[0] == NextToken(w, s) by { TokenIs(w, s); }
      LexStep(w, s);
      TokensAreLex(Word(x[|x| - 1]), s[|x|..], ts[1..]);
      assert ts == [ts[0]] + ts[1..];
    }
  }

  lemma TokenIs(w: bool, s: string)
    requires s != ""
    ensures NextToken(w, s) == Token(KindOf(w, s), s[..TokenLen(w, s)])
  {
  }

  lemma {:induction false} MarksErased(ts: seq<Token>)
    ensures Marks(ts) == Render(EraseAll(ts))
  {
    if ts != [] {
      MarksErased(ts[1..]);
      assert EraseAll(ts) == [Erase(ts[0])] + EraseAll(ts[1..]);
      assert EraseAll(ts)[1..] == EraseAll(ts[1..]);
    }
  }

  /** Every query has exactly one list of tokens that read as described, and what the masker writes is their marks. */
  lemma MaskReads(q: string, ts: seq<Token>)
    ensures exists us :: Tokens(false, q, us)
    ensures Tokens(false, q, ts) ==> ts == Lex(false, q) && Masked(false, q) == Marks(ts)
  {
    hide Lex, Tokens, EraseAll, Render;
    LexReads(false, q);
    if Tokens(false, q, ts) {
      TokensAreLex(false, q, ts);
      MarksErased(ts);
      MaskedIs(false, q);
    }
  }

  // ---- Numbers and names

  /** One token, and what is behind it. */
  lemma OneToken(w: bool, k: Kind, x: string, post: string)
    requires x != "" && Reads(w, k, x + post, |x|)
    ensures Masked(w, x + post) == Mark(Token(k, x)) + Masked(Word(x[|x| - 1]), post)
  {
    hide Reads, KindOf, Advance, Masked, TokenLen;
    var s := x + post;
    NextTokenIs(w, s, k, |x|);
    TokenIs(w, s);
    assert s[..|x|] == x && s[|x|..] == post;
    MaskedStep(w, s);
  }

  lemma NoDigitNext(v: bool, post: string)
    requires post == "" || !('0' <= post[0] <= '9')
    ensures Masked(v, post) == Masked(false, post)
  {
    hide Lex;
    LookBehind(v, false, post);
  }

  /** Digits, then anything that may go on a number: digits, points, exponent markers, and signs right behind such a
      marker. */
  lemma NumeralMasked(x: string, post: string)
    requires x != "" && '0' <= x[0] <= '9'
    requires forall i :: 1 <= i < |x| ==>
               '0' <= x[i] <= '9' || x[i] in {'.', 'e', 'E'} || (x[i] in {'+', '-'} && x[i - 1] in {'e', 'E'})
    requires post == "" || !('0' <= post[0] <= '9' || post[0] in {'.', 'e', 'E'})
    requires post != "" && post[0] in {'+', '-'} ==> x[|x| - 1] !in {'e', 'E'}
    ensures Masked(false, x + post) == "?" + Masked(false, post)
  {
    hide Masked;
    var s := x + post;
    forall i | 1 <= i < |x| ensures Numeral(s[i - 1], s[i]) {
      assert s[i - 1] == x[i - 1] && s[i] == x[i];
    }
    assert post != "" ==> s[|x|] == post[0] && s[|x| - 1] == x[|x| - 1];
    OneToken(false, Number, x, post);
    NoDigitNext(Word(x[|x| - 1]), post);
  }

  /** A number: digits, then a fraction or not, then an exponent with or without a sign or not. Not behind a word
      character it is masked as a whole. */
  lemma NumberMasked(digits: string, fraction: string, exponent: string, post: string)
    requires digits != "" && forall i :: 0 <= i < |digits| ==> '0' <= digits[i] <= '9'
    requires fraction == "" || (fraction[0] == '.' && forall i :: 1 <= i < |fraction| ==> '0' <= fraction[i] <= '9')
    requires exponent == "" || (exponent[0] in {'e', 'E'} &&
               forall i :: 1 <= i < |exponent| ==> '0' <= exponent[i] <= '9' || (i == 1 && exponent[i] in {'+', '-'}))
    requires post == "" || !('0' <= post[0] <= '9' || post[0] in {'.', 'e', 'E'})
    requires post != "" && post[0] in {'+', '-'} ==> |exponent| != 1
    ensures Masked(false, digits + fraction + exponent + post) == "?" + Masked(false, post)
  {
    hide Masked;
    var x := digits + fraction + exponent;
    var d, f := |digits|, |digits| + |fraction|;
    forall i | 1 <= i < |x|
      ensures '0' <= x[i] <= '9' || x[i] in {'.', 'e', 'E'} || (x[i] in {'+', '-'} && x[i - 1] in {'e', 'E'})
    {
      if i < d {
        assert x[i] == digits[i];
      } else if i < f {
        assert x[i] == fraction[i - d];
      } else {
        assert x[i] == exponent[i - f];
        if i == f + 1 {
          assert x[i - 1] == exponent[0];
        }
      }
    }
    assert x[0] == digits[0];
    if |exponent| != 1 {
      LastOfNumber(digits, fraction, exponent);
    }
    NumeralMasked(x, post);
  }

  lemma LastOfNumber(digits: string, fraction: string, exponent: string)
    requires digits != "" && forall i :: 0 <= i < |digits| ==> '0' <= digits[i] <= '9'
    requires fraction == "" || (fraction[0] == '.' && forall i :: 1 <= i < |fraction| ==> '0' <= fraction[i] <= '9')
    requires |exponent| != 1
    requires exponent == "" || (exponent[0] in {'e', 'E'} &&
               forall i :: 1 <= i < |exponent| ==> '0' <= exponent[i] <= '9' || (i == 1 && exponent[i] in {'+', '-'}))
    ensures var x := digits + fraction + exponent; x[|x| - 1] !in {'e', 'E'}
  {
  }

  /** A name - letters, digits and underscores, no digit first - passes through, and what follows stands behind a
      word. */
  lemma NameMasked(w: bool, name: string, post: string)
    requires name != "" && !('0' <= name[0] <= '9')
    requires forall i :: 0 <= i < |name| ==>
               name[i] == '_' || 'a' <= name[i] <= 'z' || 'A' <= name[i] <= 'Z' || '0' <= name[i] <= '9'
    ensures Masked(w, name + post) == name + Masked(true, post)
  {
    hide Masked;
    var c, rest := name[0], name[1..];
    assert name + post == [c] + (rest + post);
    OneToken(w, Plain, [c], rest + post);
    WordMasked(rest, post);
    assert [c] + (rest + Masked(true, post)) == name + Masked(true, post);
  }

  /** So do digits that continue a word. */
  lemma {:induction false} WordMasked(rest: string, post: string)
    requires forall i :: 0 <= i < |rest| ==>
               rest[i] == '_' || 'a' <= rest[i] <= 'z' || 'A' <= rest[i] <= 'Z' || '0' <= rest[i] <= '9'
    ensures Masked(true, rest + post) == rest + Masked(true, post)
  {
    hide Masked;
    if rest == "" {
      assert rest + post == post;
    } else {
      var c, more := rest[0], rest[1..];
      assert rest + post == [c] + (more + post);
      OneToken(true, Plain, [c], more + post);
      WordMasked(more, post);
      assert [c] + (more + Masked(true, post)) == rest + Masked(true, post);
    }
  }
}

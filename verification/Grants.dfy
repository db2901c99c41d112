/** The provisioning script (internal/setup/grants.go): its two quoting functions print what the masker's string and
    identifier rules read back, so the masked script is known for every role and password.
 */
module Grants {
  import opened Wrappers
  import opened Lexer
  import opened MaskTheory

  /** Doubles every `quote`. */
  function Doubled(s: string, quote: char): string {
    if s == "" then "" else (if s[0] == quote then [quote, quote] else [s[0]]) + Doubled(s[1..], quote)
  }

  function QuoteIdent(s: string): string {
    "\"" + Doubled(s, '"') + "\""
  }

  function QuoteLiteral(s: string): string {
    "'" + Doubled(s, '\'') + "'"
  }

  // ---- String literals

  /** The value a string literal stands for, read from behind its opening quote up to its closing one. */
  function Unquoted(s: string): string
    decreases |s|
  {
    if s == "" then ""
    else if s[0] == '\'' then
      if |s| > 1 && s[1] == '\'' then "'" + Unquoted(s[2..]) else ""
    else [s[0]] + Unquoted(s[1..])
  }

  predicate StartsQuote(s: string) {
    s != "" && s[0] == '\''
  }

  lemma {:induction false} DoubledRead(s: string, post: string)
    requires !StartsQuote(post)
    ensures var d := Doubled(s, '\'') + "'";
            StringLen(d + post) == |d| && Unquoted(d + post) == s
  {
    var d := Doubled(s, '\'') + "'";
    if s == "" {
      assert d + post == "'" + post;
    } else {
      var d' := Doubled(s[1..], '\'') + "'";
      DoubledRead(s[1..], post);
      if s[0] == '\'' {
        assert (d + post)[2..] == d' + post;
      } else {
        assert (d + post)[1..] == d' + post;
      }
    }
  }

  lemma DoubledFirst(c: char, v: string, quote: char)
    ensures Doubled([c] + v, quote) == (if c == quote then [quote, quote] else [c]) + Doubled(v, quote)
  {
    assert ([c] + v)[1..] == v;
  }

  lemma CutFront(x: string, front: string, rest: string, n: nat)
    requires x == front + rest && |front| <= n <= |x|
    ensures x[..n] == front + rest[..n - |front|]
  {
  }

  /** And the other way round: a string token that anything follows is the quoted form of the value read from it. */
  lemma {:induction false} ClosedIsQuoted(x: string)
    requires StringLen(x) < |x|
    ensures x[..StringLen(x)] == Doubled(Unquoted(x), '\'') + "'"
    decreases |x|
  {
    hide Doubled;
    if x[0] == '\'' && !(|x| > 1 && x[1] == '\'') {
      assert Doubled("", '\'') == "" by { DoubledEmpty('\''); }
      assert x[..1] == "'";
    } else {
      var front := if x[0] == '\'' then "''" else [x[0]];
      var rest := x[|front|..];
      ClosedIsQuoted(rest);
      DoubledFirst(x[0], Unquoted(rest), '\'');
      CutFront(x, front, rest, StringLen(x));
    }
  }

  lemma DoubledEmpty(quote: char)
    ensures Doubled("", quote) == ""
  {
  }

  /** Printer and lexer agree: in front of anything but a quote, a quoted literal is one string token, and the value
      read back from it is the one that was quoted. */
  lemma LiteralRoundTrip(w: bool, s: string, post: string)
    requires !StartsQuote(post)
    ensures NextToken(w, QuoteLiteral(s) + post) == Token(StringLit, QuoteLiteral(s))
    ensures Unquoted(QuoteLiteral(s)[1..]) == s
  {
    hide StringLen, Unquoted;
    var l := QuoteLiteral(s);
    var d := Doubled(s, '\'') + "'";
    assert (l + post)[1..] == d + post && l[1..] == d + "";
    DoubledRead(s, post);
    DoubledRead(s, "");
    assert (l + post)[..|l|] == l;
  }

  /** Does a quote right behind `pre` start a string of its own? Not when `pre` ends inside a comment, an identifier, an
      open string, or just behind a string it would continue. */
  predicate QuoteStartsFresh(pre: string) {
    FreshEnd(Lex(false, pre + "'"))
  }

  /** The first token of `a`, when it ends before a quote behind `a`, is the same with anything behind that quote. */
  lemma FreshStep(w: bool, a: string, x: string)
    requires a != "" && TokenLen(w, a + "'") <= |a|
    ensures var t := NextToken(w, a); var v, a' := EndsWord(t.text), a[|t.text|..];
            && Lex(w, a) == [t] + Lex(v, a')
            && Lex(w, a + "'") == [t] + Lex(v, a' + "'")
            && Lex(w, a + "'" + x) == [t] + Lex(v, a' + "'" + x)
  {
    hide Advance, KindOf, Lex;
    var z := a + "'";
    TokenCut(w, a, "'");
    TokenExtend(w, z, x);
    var t := NextToken(w, a);
    LexStep(w, a);
    LexStep(w, z);
    LexStep(w, z + x);
    assert z[|t.text|..] == a[|t.text|..] + "'";
    assert (z + x)[|t.text|..] == a[|t.text|..] + "'" + x;
  }

  predicate FreshEnd(ts: seq<Token>) {
    ts != [] && ts[|ts| - 1] == Token(StringLit, "'")
  }

  /** The tokens of `a` followed by a quote that starts a string of its own stay, whatever follows the quote. */
  lemma {:induction false} FreshExtends(w: bool, a: string, x: string)
    requires FreshEnd(Lex(w, a + "'"))
    ensures Lex(w, a + "'" + x) == Lex(w, a) + Lex(if a == "" then w else EndsWord(a), "'" + x)
    decreases |a|
  {
    hide NextToken, Lex;
    var z := a + "'";
    LexStep(w, z);
    LexEmpty(w);
    var t := NextToken(w, z);
    if a == "" {
      assert z + x == "'" + x;
    } else if |t.text| == |z| {
      LexEmpty(EndsWord(t.text));
      assert false;
    } else {
      FreshStep(w, a, x);
      var v, a' := EndsWord(t.text), a[|t.text|..];
      TokenCut(w, a, "'");
      FreshTail(t, Lex(v, a' + "'"));
      FreshExtends(v, a', x);
      assert a == t.text + a';
      Reassociate(t, Lex(v, a'), Lex(if a' == "" then v else EndsWord(a'), "'" + x));
    }
  }

  lemma FreshTail(t: Token, ts: seq<Token>)
    requires FreshEnd([t] + ts) && ts != []
    ensures FreshEnd(ts)
  {
    assert ([t] + ts)[|ts|] == ts[|ts| - 1];
  }

  lemma Reassociate(t: Token, a: seq<Token>, b: seq<Token>)
    ensures [t] + (a + b) == ([t] + a) + b
  {
  }

  lemma LexCutMasked(w: bool, a: string, b: string, v: bool)
    requires Lex(w, a + b) == Lex(w, a) + Lex(v, b)
    ensures Masked(w, a + b) == Masked(w, a) + Masked(v, b)
  {
    hide Lex, EraseAll, Render;
    EraseAllConcat(Lex(w, a), Lex(v, b));
    RenderConcat(EraseAll(Lex(w, a)), EraseAll(Lex(v, b)));
  }

  /** Text with a quoted literal in it masks to the same thing for every value of the literal. */
  lemma LiteralMasked(pre: string, s: string, post: string)
    requires QuoteStartsFresh(pre) && !StartsQuote(post)
    ensures Masked(false, pre + QuoteLiteral(s) + post) == Masked(false, pre) + "?" + Masked(false, post)
  {
    hide Lex, EraseAll, Render, Advance, KindOf;
    var l := QuoteLiteral(s);
    var x := l[1..] + post;
    assert l + post == "'" + x;
    FreshExtends(false, pre, x);
    assert pre + "'" + x == pre + ("'" + x) == pre + l + post;
    var v := if pre == "" then false else EndsWord(pre);
    LexCutMasked(false, pre, "'" + x, v);
    LiteralRoundTrip(v, s, post);
    MaskedStep(v, l + post);
    assert (l + post)[|l|..] == post;
    assert l[|l| - 1] == '\'';
    assert Masked(false, pre) + ("?" + Masked(false, post)) == Masked(false, pre) + "?" + Masked(false, post);
  }

  /** So the masked text does not depend on the value. */
  lemma LiteralIndependent(pre: string, s: string, t: string, post: string)
    requires QuoteStartsFresh(pre) && !StartsQuote(post)
    ensures Masked(false, pre + QuoteLiteral(s) + post) == Masked(false, pre + QuoteLiteral(t) + post)
  {
    hide Masked, QuoteLiteral, QuoteStartsFresh;
    LiteralMasked(pre, s, post);
    LiteralMasked(pre, t, post);
  }

  // ---- Quoted identifiers

  lemma IdentLenAt(p: string, y: string)
    requires '"' !in p
    ensures IdentLen(p + "\"" + y) == |p| + 1
  {
    var s := p + "\"" + y;
    if p != "" {
      assert s[1..] == p[1..] + "\"" + y;
      IdentLenAt(p[1..], y);
    }
  }

  /** The identifier token that closes at the next quote. */
  lemma IdentToken(w: bool, p: string, y: string)
    requires '"' !in p
    ensures Masked(w, "\"" + p + "\"" + y) == "\"" + p + "\"" + Masked(false, y)
  {
    hide Masked, IdentLen;
    var s := "\"" + p + "\"" + y;
    assert s[1..] == p + "\"" + y;
    IdentLenAt(p, y);
    MaskedStep(w, s);
    var t := NextToken(w, s);
    assert t.text == "\"" + p + "\"" && t.text[|p| + 1] == '"' && s[|t.text|..] == y;
  }

  /** Reading on inside an identifier, `p` being what was read of it: every doubled quote ends one identifier token and
      starts the next, and all of them are copied. */
  lemma {:induction false} InsideIdent(w: bool, p: string, s: string, post: string)
    requires '"' !in p
    ensures var d := Doubled(s, '"') + "\"";
            Masked(w, "\"" + p + d + post) == "\"" + p + d + Masked(false, post)
    decreases |s|
  {
    hide Masked;
    var d := Doubled(s, '"') + "\"";
    if s == "" {
      assert "\"" + p + d + post == "\"" + p + "\"" + post;
      IdentToken(w, p, post);
    } else {
      var d' := Doubled(s[1..], '"') + "\"";
      if s[0] == '"' {
        InsideIdent(false, "", s[1..], post);
        var y := "\"" + "" + d' + post;
        IdentToken(w, p, y);
        assert "\"" + p + "\"" + y == "\"" + p + d + post;
        assert "\"" + p + "\"" + ("\"" + "" + d' + Masked(false, post)) == "\"" + p + d + Masked(false, post);
      } else {
        InsideIdent(w, p + [s[0]], s[1..], post);
        assert "\"" + (p + [s[0]]) + d' + post == "\"" + p + d + post;
        assert "\"" + (p + [s[0]]) + d' + Masked(false, post) == "\"" + p + d + Masked(false, post);
      }
    }
  }

  /** A quoted identifier, whatever name it quotes, passes through the masker unchanged. */
  lemma IdentMasked(w: bool, s: string, post: string)
    ensures Masked(w, QuoteIdent(s) + post) == QuoteIdent(s) + Masked(false, post)
    ensures Masked(false, QuoteIdent(s)) == QuoteIdent(s)
  {
    hide Masked;
    var d := Doubled(s, '"') + "\"";
    InsideIdent(w, "", s, post);
    assert "\"" + "" + d + post == QuoteIdent(s) + post;
    assert "\"" + "" + d + Masked(false, post) == QuoteIdent(s) + Masked(false, post);
    InsideIdent(false, "", s, "");
    MaskedEmpty(false);
    assert "\"" + "" + d + "" == QuoteIdent(s);
  }

  // ---- Comments

  lemma LineLenAt(p: string, y: string)
    requires '\n' !in p
    ensures LineLen(p + "\n" + y) == |p|
  {
    var s := p + "\n" + y;
    if p != "" {
      assert s[1..] == p[1..] + "\n" + y;
      LineLenAt(p[1..], y);
    }
  }

  predicate IsComment(s: string) {
    |s| >= 2 && s[0] == '-' && s[1] == '-' && '\n' !in s
  }

  lemma CommentMasked(w: bool, p: string, x: string)
    requires IsComment(p)
    ensures Masked(w, p + "\n" + x) == "--?\n" + Masked(false, x)
  {
    hide Masked, LineLen;
    var s := p + "\n" + x;
    LineLenAt(p, x);
    MaskedStep(w, s);
    assert NextToken(w, s) == Token(LineComment, p);
    var rest := s[|p|..];
    assert rest == "\n" + x;
    MaskedStep(EndsWord(p), rest);
    assert NextToken(EndsWord(p), rest) == Token(Plain, "\n") by { assert rest[..1] == "\n"; }
    assert rest[1..] == x;
    assert "--?" + ("\n" + Masked(false, x)) == "--?\n" + Masked(false, x);
  }

  // ---- The script

  datatype GrantOptions = GrantOptions(role: string, password: string, signal: bool)

  const HEADER1 := "--" + " pglockr access role," + " generated by" + " `pglockr grants`." + " Review before applying."
  const HEADER2 := "--" + " pg_monitor lets pglockr" + " read other backends'" + " query texts;"
  const HEADER3 := "--" + " pg_signal_backend lets it" + " cancel/terminate them."
  const VIEWER := "--" + " (read-only viewer:" + " pg_signal_backend omitted;" + " cancel/terminate disabled)"

  lemma Dashes()
    ensures IsComment("--")
  {
  }

  lemma Continued(c: string, s: string)
    requires IsComment(c) && '\n' !in s
    ensures IsComment(c + s)
  {
  }

  lemma Header1IsComment()
    ensures IsComment(HEADER1)
  {
    hide IsComment;
    var c0 := "--";
    Dashes();
    Continued(c0, " pglockr access role,");
    var c1 := c0 + " pglockr access role,";
    Continued(c1, " generated by");
    var c2 := c1 + " generated by";
    Continued(c2, " `pglockr grants`.");
    var c3 := c2 + " `pglockr grants`.";
    Continued(c3, " Review before applying.");
  }

  lemma Header2IsComment()
    ensures IsComment(HEADER2)
  {
    hide IsComment;
    var c0 := "--";
    Dashes();
    Continued(c0, " pg_monitor lets pglockr");
    var c1 := c0 + " pg_monitor lets pglockr";
    Continued(c1, " read other backends'");
    var c2 := c1 + " read other backends'";
    Continued(c2, " query texts;");
  }

  lemma Header3IsComment()
    ensures IsComment(HEADER3)
  {
    hide IsComment;
    var c0 := "--";
    Dashes();
    Continued(c0, " pg_signal_backend lets it");
    var c1 := c0 + " pg_signal_backend lets it";
    Continued(c1, " cancel/terminate them.");
  }

  lemma ViewerIsComment()
    ensures IsComment(VIEWER)
  {
    hide IsComment;
    var c0 := "--";
    Dashes();
    Continued(c0, " (read-only viewer:");
    var c1 := c0 + " (read-only viewer:";
    Continued(c1, " pg_signal_backend omitted;");
    var c2 := c1 + " pg_signal_backend omitted;";
    Continued(c2, " cancel/terminate disabled)");
  }

  function GrantLines(o: GrantOptions): string {
    var role := QuoteIdent(o.role);
    "GRANT pg_monitor TO " + (role + (";\n" +
      if o.signal then "GRANT pg_signal_backend TO " + (role + ";\n") else VIEWER + "\n" + ""))
  }

  function Script(o: GrantOptions): string {
    HEADER1 + "\n" + (HEADER2 + "\n" + (HEADER3 + "\n" + ("\nCREATE ROLE " + (QuoteIdent(o.role) + (" LOGIN PASSWORD " +
      (QuoteLiteral(o.password) + (";\n" + GrantLines(o))))))))
  }

  lemma GrantLinesMasked(o: GrantOptions)
    ensures Masked(false, GrantLines(o)) ==
            "GRANT pg_monitor TO " + (QuoteIdent(o.role) + (";\n" +
              if o.signal then "GRANT pg_signal_backend TO " + (QuoteIdent(o.role) + ";\n") else "--?\n"))
  {
    hide Masked, QuoteIdent, IsComment;
    ViewerIsComment();
    var role := QuoteIdent(o.role);
    var tail := if o.signal then "GRANT pg_signal_backend TO " + (role + ";\n") else VIEWER + "\n" + "";
    assert GrantLines(o) == "GRANT pg_monitor TO " + (role + (";\n" + tail));
    QuietMasked(false, "GRANT pg_monitor TO ", role + (";\n" + tail));
    IdentMasked(false, o.role, ";\n" + tail);
    QuietMasked(false, ";\n", tail);
    MaskedEmpty(false);
    if o.signal {
      QuietMasked(false, "GRANT pg_signal_backend TO ", role + ";\n");
      IdentMasked(false, o.role, ";\n");
      QuietMasked(false, ";\n", "");
      assert ";\n" + "" == ";\n";
    } else {
      CommentMasked(false, VIEWER, "");
      assert "--?\n" + "" == "--?\n";
    }
  }

  lemma LiteralHere(w: bool, s: string, post: string)
    requires !StartsQuote(post)
    ensures Masked(w, QuoteLiteral(s) + post) == "?" + Masked(false, post)
  {
    hide Masked;
    LiteralRoundTrip(w, s, post);
    MaskedStep(w, QuoteLiteral(s) + post);
    assert (QuoteLiteral(s) + post)[|QuoteLiteral(s)|..] == post;
  }

  /** The masked provisioning script, for every role and password: its comments are emptied, its password is gone, its
      role and its statements are all there. */
  lemma ScriptMasked(o: GrantOptions)
    ensures Masked(false, Script(o)) ==
            "--?\n" + ("--?\n" + ("--?\n" + ("\nCREATE ROLE " + (QuoteIdent(o.role) + (" LOGIN PASSWORD " +
              ("?" + (";\n" + ("GRANT pg_monitor TO " + (QuoteIdent(o.role) + (";\n" +
              if o.signal then "GRANT pg_signal_backend TO " + (QuoteIdent(o.role) + ";\n") else "--?\n"))))))))))
  {
    hide Masked, QuoteIdent, QuoteLiteral, GrantLines, IsComment;
    Header1IsComment();
    Header2IsComment();
    Header3IsComment();
    var post := ";\n" + GrantLines(o);
    var lit := QuoteLiteral(o.password) + post;
    var body := QuoteIdent(o.role) + (" LOGIN PASSWORD " + lit);
    var create := "\nCREATE ROLE " + body;
    CommentMasked(false, HEADER1, HEADER2 + "\n" + (HEADER3 + "\n" + create));
    CommentMasked(false, HEADER2, HEADER3 + "\n" + create);
    CommentMasked(false, HEADER3, create);
    QuietMasked(false, "\nCREATE ROLE ", body);
    IdentMasked(false, o.role, " LOGIN PASSWORD " + lit);
    QuietMasked(false, " LOGIN PASSWORD ", lit);
    LiteralHere(false, o.password, post);
    QuietMasked(false, ";\n", GrantLines(o));
    GrantLinesMasked(o);
  }

  /** Reads a quoted text from behind its opening quote: the value, and what is behind the closing quote. */
  function ReadQuoted(quote: char, s: string): (string, string)
    decreases |s|
  {
    if s == "" then ("", "")
    else if s[0] != quote then
      var r := ReadQuoted(quote, s[1..]);
      ([s[0]] + r.0, r.1)
    else if |s| > 1 && s[1] == quote then
      var r := ReadQuoted(quote, s[2..]);
      ([quote] + r.0, r.1)
    else ("", s[1..])
  }

  lemma {:induction false} QuotedRead(quote: char, s: string, post: string)
    requires post == "" || post[0] != quote
    ensures ReadQuoted(quote, Doubled(s, quote) + ([quote] + post)) == (s, post)
  {
    var x := Doubled(s, quote) + ([quote] + post);
    if s == "" {
      assert x == [quote] + post && x[1..] == post;
    } else {
      var rest := Doubled(s[1..], quote) + ([quote] + post);
      QuotedRead(quote, s[1..], post);
      assert [s[0]] + s[1..] == s;
      if s[0] == quote {
        assert x[2..] == rest;
      } else {
        assert x[1..] == rest;
      }
    }
  }

  lemma Regroup(a: string, b: string, c: string, d: string)
    ensures (a + b + c) + d == a + (b + (c + d))
  {
  }

  lemma Front(a: string, b: string)
    ensures a <= a + b && (a + b)[|a|..] == b
  {
  }

  /** The text behind `front`, if `s` begins with that. */
  function Behind(front: string, s: string): Option<string> {
    if front <= s then Some(s[|front|..]) else None
  }

  /** The quoted value behind `front`, and what is behind it. */
  function ReadBehind(front: string, quote: char, s: string): Option<(string, string)> {
    match Behind(front, s)
    case None => None
    case Some(x) => Some(ReadQuoted(quote, x))
  }

  lemma ReadAfter(front: string, quote: char, x: string)
    ensures ReadBehind(front + [quote], quote, front + ([quote] + x)) == Some(ReadQuoted(quote, x))
  {
    hide ReadQuoted;
    assert front + ([quote] + x) == (front + [quote]) + x;
    Front(front + [quote], x);
  }

  /** What a reader of such a script learns: the role created, its password, the role given the monitoring role, and
      the one given the signal role, if any. */
  datatype Provisioned = Provisioned(role: string, password: string, monitor: string,
      signal: Option<string>) | Unreadable

  function ReadScript(s: string): Provisioned {
    match ReadBehind(HEADER1 + "\n" + (HEADER2 + "\n" + (HEADER3 + "\n" + "\nCREATE ROLE ")) + "\"", '"', s)
    case None => Unreadable
    case Some(role) => ReadPassword(role.0, role.1)
  }

  function ReadPassword(role: string, s: string): Provisioned {
    match ReadBehind(" LOGIN PASSWORD " + "'", '\'', s)
    case None => Unreadable
    case Some(password) => ReadGrants(role, password.0, password.1)
  }

  function ReadGrants(role: string, password: string, s: string): Provisioned {
    match ReadBehind(";\n" + "GRANT pg_monitor TO " + "\"", '"', s)
    case None => Unreadable
    case Some(monitor) => ReadSignal(role, password, monitor.0, monitor.1)
  }

  function ReadSignal(role: string, password: string, monitor: string, s: string): Provisioned {
    match ReadBehind(";\n" + "GRANT pg_signal_backend TO " + "\"", '"', s)
    case None => if s == ";\n" + (VIEWER + "\n" + "") then Provisioned(role, password, monitor, None) else Unreadable
    case Some(signal) =>
      if signal.1 == ";\n" then Provisioned(role, password, monitor, Some(signal.0)) else Unreadable
  }

  lemma QuotedBehind(front: string, quote: char, s: string, post: string)
    requires post == "" || post[0] != quote
    ensures ReadBehind(front + [quote], quote, front + (([quote] + Doubled(s, quote) + [quote]) + post)) ==
        Some((s, post))
  {
    var x := Doubled(s, quote) + ([quote] + post);
    QuotedRead(quote, s, post);
    hide Doubled, ReadQuoted;
    Regroup([quote], Doubled(s, quote), [quote], post);
    ReadAfter(front, quote, x);
  }

  lemma Nested(a: string, b: string, c: string, d: string, x: string)
    ensures a + (b + (c + (d + x))) == (a + (b + (c + d))) + x
  {
  }

  lemma SignalRead(o: GrantOptions, password: string)
    ensures var tail := if o.signal then "GRANT pg_signal_backend TO " + (QuoteIdent(o.role) + ";\n")
        else VIEWER + "\n" + "";
            ReadSignal(o.role, password, o.role, ";\n" + tail) ==
            Provisioned(o.role, password, o.role, if o.signal then Some(o.role) else None)
  {
    hide Doubled, ReadQuoted;
    if o.signal {
      QuotedBehind(";\n" + "GRANT pg_signal_backend TO ", '"', o.role, ";\n");
      assert ";\n" + ("GRANT pg_signal_backend TO " + (QuoteIdent(o.role) + ";\n")) ==
             (";\n" + "GRANT pg_signal_backend TO ") + (QuoteIdent(o.role) + ";\n");
    } else {
      var s := ";\n" + (VIEWER + "\n" + "");
      assert s[2] == '-';
    }
  }

  /** Read back, the script creates the role with the password, and grants to that role - the signal role exactly if
      asked for. */
  lemma ScriptSays(o: GrantOptions)
    ensures ReadScript(Script(o)) ==
            Provisioned(o.role, o.password, o.role, if o.signal then Some(o.role) else None)
  {
    hide ReadQuoted, Doubled, ReadBehind, ReadSignal;
    var tail := if o.signal then "GRANT pg_signal_backend TO " + (QuoteIdent(o.role) + ";\n") else VIEWER + "\n" + "";
    SignalRead(o, o.password);
    QuotedBehind(";\n" + "GRANT pg_monitor TO ", '"', o.role, ";\n" + tail);
    var grants := GrantLines(o);
    assert ";\n" + grants == (";\n" + "GRANT pg_monitor TO ") + (QuoteIdent(o.role) + (";\n" + tail)) by {
      assert grants == "GRANT pg_monitor TO " + (QuoteIdent(o.role) + (";\n" + tail));
    }
    QuotedBehind(" LOGIN PASSWORD ", '\'', o.password, ";\n" + grants);
    var lit := " LOGIN PASSWORD " + (QuoteLiteral(o.password) + (";\n" + grants));
    var front := HEADER1 + "\n" + (HEADER2 + "\n" + (HEADER3 + "\n" + "\nCREATE ROLE "));
    QuotedBehind(front, '"', o.role, lit);
    Nested(HEADER1 + "\n", HEADER2 + "\n", HEADER3 + "\n", "\nCREATE ROLE ", QuoteIdent(o.role) + lit);
  }

  lemma ScriptHidesPassword(o: GrantOptions, password: string)
    ensures Masked(false, Script(o)) == Masked(false, Script(o.(password := password)))
  {
    hide Masked, Script, QuoteIdent;
    ScriptMasked(o);
    ScriptMasked(o.(password := password));
  }
}

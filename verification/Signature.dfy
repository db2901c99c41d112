/** The key that tells the web page whether the forest changed shape (web/src/Forest.tsx): process ids in order, then
    edges in order, as one string. It is a faithful key.
 */
module Signature {
  import opened Seqs
  import opened Graph

  // ---- Decimal numbers

  function Digit(d: nat): char
    requires d < 10
  {
    ('0' as int + d) as char
  }

  function PrintNat(n: nat): (s: string)
    ensures s != ""
  {
    if n < 10 then [Digit(n)] else PrintNat(n / 10) + [Digit(n % 10)]
  }

  function Print(n: int): (s: string) {
    if n < 0 then "-" + PrintNat(-n) else PrintNat(n)
  }

  function ReadNat(s: string): int {
    if s == "" then 0 else ReadNat(s[..|s| - 1]) * 10 + (s[|s| - 1] as int - '0' as int)
  }

  function Read(s: string): int {
    if s != "" && s[0] == '-' then -ReadNat(s[1..]) else ReadNat(s)
  }

  predicate IsNumeral(s: string) {
    s != "" && forall i :: 0 <= i < |s| ==> '0' <= s[i] <= '9' || s[i] == '-'
  }

  lemma {:induction false} PrintNatRead(n: nat)
    ensures ReadNat(PrintNat(n)) == n && forall i :: 0 <= i < |PrintNat(n)| ==> '0' <= PrintNat(n)[i] <= '9'
  {
    var s := PrintNat(n);
    if n < 10 {
      assert s[..0] == "";
    } else {
      PrintNatRead(n / 10);
      assert s[..|s| - 1] == PrintNat(n / 10);
    }
  }

  /** Every number can be read back from its numeral. */
  lemma PrintRead(n: int)
    ensures Read(Print(n)) == n && IsNumeral(Print(n))
  {
    if n < 0 {
      PrintNatRead(-n);
      assert Print(n)[1..] == PrintNat(-n);
    } else {
      PrintNatRead(n);
      assert Print(n)[0] != '-';
    }
  }

  // ---- Joining and splitting

  function Join(items: seq<string>, sep: char): string {
    if items == [] then "" else if |items| == 1 then items[0] else items[0] + [sep] + Join(items[1..], sep)
  }

  ghost predicate Free(s: string, sep: char) {
    sep !in s
  }

  ghost predicate Joinable(items: seq<string>, sep: char) {
    forall i :: 0 <= i < |items| ==> items[i] != "" && Free(items[i], sep)
  }

  function Until(s: string, c: char): (n: nat)
    ensures n <= |s|
  {
    if s == "" || s[0] == c then 0 else 1 + Until(s[1..], c)
  }

  lemma UntilAt(a: string, c: char, x: string)
    requires Free(a, c)
    ensures Until(a + [c] + x, c) == |a|
  {
    if a != "" {
      assert (a + [c] + x)[1..] == a[1..] + [c] + x;
      UntilAt(a[1..], c, x);
    }
  }

  /** A text splits at its first separator in one way. */
  lemma SplitUnique(a: string, x: string, b: string, y: string, sep: char)
    requires Free(a, sep) && Free(b, sep) && a + [sep] + x == b + [sep] + y
    ensures a == b && x == y
  {
    var s := a + [sep] + x;
    UntilAt(a, sep, x);
    UntilAt(b, sep, y);
    assert a == s[..|a|] && b == s[..|b|];
    assert x == s[|a| + 1..] && y == s[|b| + 1..];
  }

  lemma JoinStep(a: seq<string>, sep: char)
    requires |a| > 1
    ensures Join(a, sep) == a[0] + [sep] + Join(a[1..], sep) && sep in Join(a, sep)
  {
    var s := Join(a, sep);
    assert s[|a[0]|] == sep;
  }

  /** Joining loses nothing, when no item is empty or holds the separator. */
  lemma {:induction false} JoinInjective(a: seq<string>, b: seq<string>, sep: char)
    requires Joinable(a, sep) && Joinable(b, sep) && Join(a, sep) == Join(b, sep)
    ensures a == b
    decreases |a|
  {
    if |a| > 1 { JoinStep(a, sep); }
    if |b| > 1 { JoinStep(b, sep); }
    if |a| == 0 || |b| == 0 {
      assert a == b;
    } else if |a| == 1 || |b| == 1 {
      assert a[0] != "" && Free(a[0], sep) && Free(b[0], sep);
      assert |a| == 1 && |b| == 1;
      assert a == [a[0]] && b == [b[0]];
    } else {
      SplitUnique(a[0], Join(a[1..], sep), b[0], Join(b[1..], sep), sep);
      JoinInjective(a[1..], b[1..], sep);
      assert a == [a[0]] + a[1..] && b == [b[0]] + b[1..];
    }
  }

  // ---- Order of strings, by character code

  predicate TextLeq(a: string, b: string) {
    if a == "" then true
    else if b == "" then false
    else if a[0] != b[0] then a[0] < b[0]
    else TextLeq(a[1..], b[1..])
  }

  lemma {:induction false} TextTotal(a: string, b: string)
    ensures TextLeq(a, b) || TextLeq(b, a)
    ensures TextLeq(a, b) && TextLeq(b, a) ==> a == b
  {
    if a != "" && b != "" && a[0] == b[0] {
      TextTotal(a[1..], b[1..]);
      assert a == [a[0]] + a[1..] && b == [b[0]] + b[1..];
    }
  }

  lemma {:induction false} TextTransitive(a: string, b: string, c: string)
    requires TextLeq(a, b) && TextLeq(b, c)
    ensures TextLeq(a, c)
  {
    if a != "" && b != "" && c != "" && a[0] == b[0] && b[0] == c[0] {
      TextTransitive(a[1..], b[1..], c[1..]);
    }
  }

  lemma TextOrder()
    ensures TotalOrder(TextLeq)
  {
    forall a: string, b: string ensures TextLeq(a, b) || TextLeq(b, a) {
      TextTotal(a, b);
    }
    forall a: string, b: string, c: string | TextLeq(a, b) && TextLeq(b, c) ensures TextLeq(a, c) {
      TextTransitive(a, b, c);
    }
  }

  // ---- The signature

  function Involved(snap: Snapshot): set<int> {
    (set p | p in snap.roots) + (set e | e in snap.edges :: e.waiter) + (set e | e in snap.edges :: e.blocker)
  }

  /** The elements of a set in ascending order. */
  function Ordered(s: set<int>): (r: seq<int>)
    ensures Sorted(r, IntLeq) && NoDuplicates(r) && forall x :: x in r <==> x in s
    decreases |s|
  {
    if s == {} then []
    else
      LeastExists(s);
      var m :| IsLeast(m, s);
      [m] + Ordered(s - {m})
  }

  predicate IsLeast(m: int, s: set<int>) {
    m in s && forall x :: x in s ==> m <= x
  }

  lemma LeastExists(s: set<int>)
    requires s != {}
    ensures exists m :: IsLeast(m, s)
    decreases |s|
  {
    Inhabited(s);
    var x :| x in s;
    var rest := s - {x};
    if rest == {} {
      assert s == {x};
      assert IsLeast(x, s);
    } else {
      LeastExists(rest);
      var m :| IsLeast(m, rest);
      LeastOfBoth(s, x, m);
    }
  }

  lemma LeastOfBoth(s: set<int>, x: int, m: int)
    requires x in s && IsLeast(m, s - {x})
    ensures IsLeast(if x < m then x else m, s)
  {
    forall y | y in s ensures (if x < m then x else m) <= y {
      assert y == x || y in s - {x};
    }
  }

  function EdgeText(e: Edge): string {
    Print(e.blocker) + ">" + Print(e.waiter)
  }

  function PidText(snap: Snapshot): string {
    Join(Map(Print, Ordered(Involved(snap))), ',')
  }

  function EdgesText(snap: Snapshot): string {
    Join(Sort(Map(EdgeText, snap.edges), TextLeq), '|')
  }

  /** A set is filled in a loop; the rest are expressions over it. */
  method StructureSignature(snap: Snapshot) returns (sig: string)
    ensures sig == PidText(snap) + "#" + EdgesText(snap)
  {
    var involved := set p | p in snap.roots;
    for k := 0 to |snap.edges|
      invariant forall p :: p in involved <==>
          p in snap.roots || exists i :: 0 <= i < k && (snap.edges[i].waiter == p || snap.edges[i].blocker == p)
    {
      involved := involved + {snap.edges[k].waiter};
      involved := involved + {snap.edges[k].blocker};
    }
    forall p ensures p in involved <==> p in Involved(snap) {
      if i :| 0 <= i < |snap.edges| && (snap.edges[i].waiter == p || snap.edges[i].blocker == p) {
        assert snap.edges[i] in snap.edges;
      }
    }
    assert involved == Involved(snap);
    var pids := Join(Map(Print, Ordered(involved)), ',');
    var edges := Join(Sort(Map(EdgeText, snap.edges), TextLeq), '|');
    sig := pids + "#" + edges;
  }

  /** The shape of the graph: an edge's ends, as often as they are joined. */
  datatype Ends = Ends(blocker: int, waiter: int)

  function EndsOf(e: Edge): Ends {
    Ends(e.blocker, e.waiter)
  }

  ghost predicate SameShape(x: Snapshot, y: Snapshot) {
    Involved(x) == Involved(y) && multiset(Map(EndsOf, x.edges)) == multiset(Map(EndsOf, y.edges))
  }

  /** What counts: a process is involved as a root or as an end of an edge; an edge counts with both its ends and
      with nothing else. */
  lemma ShapeMeans(x: Snapshot, e: Edge, f: Edge)
    ensures forall p :: p in Involved(x) <==>
              p in x.roots || exists i :: 0 <= i < |x.edges| && (x.edges[i].waiter == p || x.edges[i].blocker == p)
    ensures EndsOf(e) == EndsOf(f) <==> e.waiter == f.waiter && e.blocker == f.blocker
  {
    forall p | p in Involved(x)
      ensures p in x.roots || exists i :: 0 <= i < |x.edges| && (x.edges[i].waiter == p || x.edges[i].blocker == p)
    {
      if p !in x.roots {
        var g :| g in x.edges && (g.waiter == p || g.blocker == p);
        var i :| 0 <= i < |x.edges| && x.edges[i] == g;
      }
    }
    forall i | 0 <= i < |x.edges| ensures x.edges[i].waiter in Involved(x) && x.edges[i].blocker in Involved(x) {
      assert x.edges[i] in x.edges;
    }
  }

  function EndsText(e: Ends): string {
    Print(e.blocker) + ">" + Print(e.waiter)
  }

  function ReadEnds(s: string): Ends {
    var k := Until(s, '>');
    Ends(Read(s[..k]), if k < |s| then Read(s[k + 1..]) else 0)
  }

  lemma EndsTextRead(e: Ends)
    ensures ReadEnds(EndsText(e)) == e
    ensures EndsText(e) != "" && Free(EndsText(e), '|') && Free(EndsText(e), '#')
  {
    PrintRead(e.blocker);
    PrintRead(e.waiter);
    var a, b := Print(e.blocker), Print(e.waiter);
    var s := EndsText(e);
    assert s == a + ['>'] + b;
    UntilAt(a, '>', b);
    assert s[..|a|] == a && s[|a| + 1..] == b;
  }

  lemma EdgeTexts(edges: seq<Edge>)
    ensures Map(EdgeText, edges) == Map(EndsText, Map(EndsOf, edges))
  {
  }

  lemma ReadTexts(es: seq<Ends>)
    ensures Map(ReadEnds, Map(EndsText, es)) == es
    ensures forall s :: s in Map(EndsText, es) ==> s != "" && Free(s, '|') && Free(s, '#')
  {
    forall i | 0 <= i < |es|
      ensures ReadEnds(EndsText(es[i])) == es[i] && EndsText(es[i]) != "" && Free(EndsText(es[i]), '|')
        && Free(EndsText(es[i]), '#')
    {
      EndsTextRead(es[i]);
    }
  }

  // ---- Faithfulness

  lemma EdgeTextsJoinable(edges: seq<Edge>)
    ensures Joinable(Sort(Map(EdgeText, edges), TextLeq), '|')
  {
    hide Sort, Map;
    EdgeTexts(edges);
    ReadTexts(Map(EndsOf, edges));
    var texts := Map(EdgeText, edges);
    var sorted := Sort(texts, TextLeq);
    SortKeeps(texts, TextLeq);
    forall i | 0 <= i < |sorted| ensures sorted[i] != "" && Free(sorted[i], '|') {
      assert sorted[i] in sorted && sorted[i] in texts;
    }
  }

  lemma NumeralOk(n: int)
    ensures Read(Print(n)) == n && Print(n) != "" && Free(Print(n), ',') && Free(Print(n), '#')
  {
    PrintRead(n);
  }

  lemma NumeralsJoinable(pids: seq<int>)
    ensures Joinable(Map(Print, pids), ',') && Map(Read, Map(Print, pids)) == pids
    ensures forall i :: 0 <= i < |pids| ==> Free(Map(Print, pids)[i], '#')
  {
    hide Print, Read, Map, Free;
    var texts := Map(Print, pids);
    forall i | 0 <= i < |pids|
      ensures texts[i] != "" && Free(texts[i], ',') && Free(texts[i], '#') && Read(texts[i]) == pids[i]
    {
      NumeralOk(pids[i]);
    }
    var back := Map(Read, texts);
    assert forall i :: 0 <= i < |pids| ==> back[i] == Read(texts[i]);
    assert back == pids;
  }

  lemma {:induction false} JoinFree(items: seq<string>, sep: char, c: char)
    requires c != sep && forall i :: 0 <= i < |items| ==> Free(items[i], c)
    ensures Free(Join(items, sep), c)
    decreases |items|
  {
    if |items| > 1 {
      JoinFree(items[1..], sep, c);
    }
  }

  lemma PidTextFree(snap: Snapshot)
    ensures Free(PidText(snap), '#')
  {
    hide Map;
    var pids := Ordered(Involved(snap));
    NumeralsJoinable(pids);
    JoinFree(Map(Print, pids), ',', '#');
  }

  lemma EqualPidTexts(x: Snapshot, y: Snapshot)
    requires PidText(x) == PidText(y)
    ensures Involved(x) == Involved(y)
  {
    hide Map, Involved;
    var a, b := Ordered(Involved(x)), Ordered(Involved(y));
    NumeralsJoinable(a);
    NumeralsJoinable(b);
    JoinInjective(Map(Print, a), Map(Print, b), ',');
    assert a == b;
    assert forall p :: p in Involved(x) <==> p in a;
  }

  lemma EqualEdgesTexts(x: Snapshot, y: Snapshot)
    requires EdgesText(x) == EdgesText(y)
    ensures multiset(Map(EndsOf, x.edges)) == multiset(Map(EndsOf, y.edges))
  {
    hide Map, Sort;
    var a, b := Map(EdgeText, x.edges), Map(EdgeText, y.edges);
    EdgeTextsJoinable(x.edges);
    EdgeTextsJoinable(y.edges);
    JoinInjective(Sort(a, TextLeq), Sort(b, TextLeq), '|');
    MapPermuted(ReadEnds, a, b);
    EdgeTexts(x.edges);
    EdgeTexts(y.edges);
    ReadTexts(Map(EndsOf, x.edges));
    ReadTexts(Map(EndsOf, y.edges));
  }

  lemma SameEdgesText(x: Snapshot, y: Snapshot)
    requires multiset(Map(EndsOf, x.edges)) == multiset(Map(EndsOf, y.edges))
    ensures EdgesText(x) == EdgesText(y)
  {
    hide Map, Sort;
    var a, b := Map(EdgeText, x.edges), Map(EdgeText, y.edges);
    EdgeTexts(x.edges);
    EdgeTexts(y.edges);
    MapPermuted(EndsText, Map(EndsOf, x.edges), Map(EndsOf, y.edges));
    TextOrder();
    SortSorted(a, TextLeq);
    SortSorted(b, TextLeq);
    forall s: string, t: string | TextLeq(s, t) && TextLeq(t, s) ensures s == t {
      TextTotal(s, t);
    }
    SortUnique(Sort(a, TextLeq), Sort(b, TextLeq), TextLeq);
  }

  /** Two snapshots have the same signature exactly when they involve the same processes and have the same edges,
      each as often. */
  lemma SignatureFaithful(x: Snapshot, y: Snapshot)
    ensures PidText(x) + "#" + EdgesText(x) == PidText(y) + "#" + EdgesText(y) <==> SameShape(x, y)
  {
    hide PidText, EdgesText, Involved, Map;
    if PidText(x) + "#" + EdgesText(x) == PidText(y) + "#" + EdgesText(y) {
      PidTextFree(x);
      PidTextFree(y);
      SplitUnique(PidText(x), EdgesText(x), PidText(y), EdgesText(y), '#');
      EqualPidTexts(x, y);
      EqualEdgesTexts(x, y);
    }
    if SameShape(x, y) {
      SameEdgesText(x, y);
      SamePidText(x, y);
    }
  }

  lemma SamePidText(x: Snapshot, y: Snapshot)
    requires Involved(x) == Involved(y)
    ensures PidText(x) == PidText(y)
  {
  }
}

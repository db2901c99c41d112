/** The ring of retained snapshots (internal/store/store.go), with its modular indices, as a value. */
module Rings {
  import opened Seqs

  /** `head` is the index of the next write, `size` the number of valid entries; the capacity is the buffer's length. */
  datatype Ring<T> = Ring(buf: seq<T>, head: nat, size: nat) {
    ghost predicate Valid() {
      head < |buf| && size <= |buf|
    }

    /** The index of the i-th entry, counted from the oldest. */
    function Index(i: nat): (k: nat)
      requires Valid() && i < size
      ensures k < |buf|
    {
      (head - size + i + |buf| * 2) % |buf|
    }

    /** The entries, oldest first. */
    function Contents(): (s: seq<T>)
      requires Valid()
      ensures |s| == size
    {
      seq(size, i requires 0 <= i < size => buf[Index(i)])
    }

    function Put(x: T): (r: Ring<T>)
      requires Valid()
      ensures r.Valid()
    {
      Ring(buf[head := x], (head + 1) % |buf|, if size < |buf| then size + 1 else size)
    }
  }

  lemma Wrap(a: int, c: nat)
    requires 0 <= a < 3 * c
    ensures a % c == if a < c then a else if a < 2 * c then a - c else a - 2 * c
  {
    var q, r := a / c, a % c;
    assert a == q * c + r;
    assert q >= 3 ==> q * c >= 3 * c;
  }

  /** The index, without the arithmetic. */
  lemma IndexWraps<T>(r: Ring<T>, i: nat)
    requires r.Valid() && i < r.size
    ensures r.Index(i) == if r.head - r.size + i < 0 then r.head - r.size + i + |r.buf| else r.head - r.size + i
  {
    Wrap(r.head - r.size + i + |r.buf| * 2, |r.buf|);
  }

  /** Scanning back from the newest entry. */
  lemma IndexBack<T>(r: Ring<T>, i: nat)
    requires r.Valid() && i < r.size
    ensures var k := (r.head - 1 - i + |r.buf| * 2) % |r.buf|; r.buf[k] == r.Contents()[r.size - 1 - i]
  {
    IndexWraps(r, r.size - 1 - i);
    Wrap(r.head - 1 - i + |r.buf| * 2, |r.buf|);
  }

  /** A write adds the newest entry and, once the ring is full, drops the oldest. */
  lemma PutContents<T>(r: Ring<T>, x: T)
    requires r.Valid()
    ensures r.Put(x).Contents() == LastN(r.Contents() + [x], |r.buf|)
  {
    var p := r.Put(x);
    var want := LastN(r.Contents() + [x], |r.buf|);
    assert |want| == p.size;
    Wrap(r.head + 1, |r.buf|);
    var shift := if r.size < |r.buf| then 0 else 1;
    forall i | 0 <= i < p.size ensures p.Contents()[i] == want[i] {
      IndexWraps(p, i);
      if i + shift < r.size {
        IndexWraps(r, i + shift);
        assert want[i] == r.Contents()[i + shift];
      } else {
        assert want[i] == x;
      }
    }
  }

  function PutAll<T>(r: Ring<T>, xs: seq<T>): (q: Ring<T>)
    requires r.Valid()
    ensures q.Valid()
    decreases |xs|
  {
    if xs == [] then r else PutAll(r, xs[..|xs| - 1]).Put(xs[|xs| - 1])
  }

  /** After any run of writes the ring holds exactly the last ones, as many as fit, oldest first. */
  lemma {:induction false} RingHoldsLast<T>(buf: seq<T>, xs: seq<T>)
    requires buf != []
    ensures var r := PutAll(Ring(buf, 0, 0), xs);
            r.Contents() == LastN(xs, |buf|) && |r.buf| == |buf|
    decreases |xs|
  {
    if xs == [] {
      assert PutAll(Ring(buf, 0, 0), xs).Contents() == [];
    } else {
      hide Ring.Contents, LastN;
      var init, x := xs[..|xs| - 1], xs[|xs| - 1];
      RingHoldsLast(buf, init);
      PutContents(PutAll(Ring(buf, 0, 0), init), x);
      LastNStep(init, x, |buf|);
      assert xs == init + [x];
    }
  }

  /** Entry by entry. */
  lemma RingEntries<T>(buf: seq<T>, xs: seq<T>)
    requires buf != []
    ensures var c := PutAll(Ring(buf, 0, 0), xs).Contents();
            && |c| == (if |xs| < |buf| then |xs| else |buf|)
            && forall i :: 0 <= i < |c| ==> c[i] == xs[|xs| - |c| + i]
  {
    hide PutAll, Ring.Contents;
    RingHoldsLast(buf, xs);
  }
}

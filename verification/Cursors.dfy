/**
 The wrapping cursors of src/benchmark.cc: the file offset of a worker (64-bit) and the offset
 into the RDMA data pool (32-bit). Both advance by one block per transfer and return to zero
 when the block after the next one would no longer fit strictly below the size.
 */
module Cursors {
  import opened Arithmetic

  /** One cursor step on unbounded integers. */
  function Advance(c: nat, bs: nat, size: nat): nat {
    var next := c + bs;
    if next + bs >= size then 0 else next
  }

  /** The file cursor as the machine computes it: every sum is an `unsigned long`. */
  function AdvanceFile(c: nat, bs: nat, size: nat): nat {
    var next := (c + bs) % TWO_TO_THE_64;
    if (next + bs) % TWO_TO_THE_64 >= size then 0 else next
  }

  /** The pool cursor as the machine computes it: stored in 32 bits, compared in 64. */
  function AdvancePool(c: nat, bs: nat, size: nat): nat {
    var next := (c + bs) % TWO_TO_THE_32;
    if (next + bs) % TWO_TO_THE_64 >= size then 0 else next
  }

  /** The cursor after n transfers, starting from zero. */
  function After(n: nat, bs: nat, size: nat): nat {
    if n == 0 then 0 else Advance(After(n - 1, bs, size), bs, size)
  }

  /** The number of distinct positions a cursor takes: max(1, ceil(size / bs) - 1). */
  function Period(bs: nat, size: nat): (p: nat)
    requires bs > 0
    ensures p > 0
  {
    if CeilDiv(size, bs) <= 2 then 1 else CeilDiv(size, bs) - 1
  }

  /** Two transfers of `bs` bytes share no byte. */
  predicate Disjoint(a: nat, b: nat, bs: nat) {
    a + bs <= b || b + bs <= a
  }

  lemma CeilBounds(bs: nat, size: nat)
    requires bs > 0
    ensures bs * CeilDiv(size, bs) >= size
    ensures size > 0 ==> bs * (CeilDiv(size, bs) - 1) < size
  {
  }

  /** The wrap test fires exactly at the last position of a period. */
  lemma WrapTest(k: nat, bs: nat, size: nat)
    requires bs > 0 && k < Period(bs, size)
    ensures bs * k + bs + bs >= size <==> k + 1 == Period(bs, size)
  {
    var b := CeilDiv(size, bs);
    CeilBounds(bs, size);
    assert bs * k + bs + bs == bs * (k + 2);
    if k + 2 >= b {
      MulMonotone(bs, b, k + 2);
    } else {
      MulMonotone(bs, k + 2, b - 1);
    }
  }

  lemma ModStep(n: nat, p: nat)
    requires p > 0
    ensures (n + 1) % p == if n % p + 1 == p then 0 else n % p + 1
  {
    var q := n / p;
    assert n == p * q + n % p;
    if n % p + 1 == p {
      assert n + 1 == p * (q + 1);
      DivModUnique(n + 1, p, q + 1, 0);
    } else {
      DivModUnique(n + 1, p, q, n % p + 1);
    }
  }

  /** After n transfers the cursor is at block n mod P. */
  lemma {:induction false} CursorClosedForm(n: nat, bs: nat, size: nat)
    requires bs > 0
    ensures After(n, bs, size) == bs * (n % Period(bs, size))
  {
    var p := Period(bs, size);
    if n == 0 {
      DivModUnique(0, p, 0, 0);
    } else {
      hide Period, CeilDiv;
      CursorClosedForm(n - 1, bs, size);
      var k := (n - 1) % p;
      WrapTest(k, bs, size);
      ModStep(n - 1, p);
      assert bs * (k + 1) == bs * k + bs;
    }
  }

  /** Every transfer lies inside the file or pool exactly when one block fits into it. */
  lemma TransfersInBounds(bs: nat, size: nat)
    requires bs > 0
    ensures (forall n: nat :: After(n, bs, size) + bs <= size) <==> bs <= size
  {
    if bs <= size {
      forall n: nat ensures After(n, bs, size) + bs <= size {
        TransferEnd(n, bs, size);
      }
    } else {
      assert After(0, bs, size) + bs > size;
    }
  }

  /** A transfer ends no later than byte P * bs, and that is inside the size. */
  lemma TransferEnd(n: nat, bs: nat, size: nat)
    requires 0 < bs <= size
    ensures After(n, bs, size) + bs <= bs * Period(bs, size) <= size
  {
    TransferBelow(n, bs, size);
    CeilBounds(bs, size);
    if CeilDiv(size, bs) >= 2 { MulMonotone(bs, Period(bs, size), CeilDiv(size, bs) - 1); }
  }

  lemma DisjointBlocks(i: nat, j: nat, bs: nat)
    requires bs > 0
    ensures Disjoint(bs * i, bs * j, bs) <==> i != j
  {
    if i < j { MulMonotone(bs, i + 1, j); assert bs * (i + 1) == bs * i + bs; }
    if j < i { MulMonotone(bs, j + 1, i); assert bs * (j + 1) == bs * j + bs; }
  }

  /** Two transfers are disjoint exactly when their numbers differ modulo the period. */
  lemma DisjointTransfers(m: nat, n: nat, bs: nat, size: nat)
    requires bs > 0
    ensures Disjoint(After(m, bs, size), After(n, bs, size), bs)
       <==> m % Period(bs, size) != n % Period(bs, size)
  {
    CursorClosedForm(m, bs, size);
    CursorClosedForm(n, bs, size);
    DisjointBlocks(m % Period(bs, size), n % Period(bs, size), bs);
  }

  lemma WindowDistinct(i: nat, j: nat, p: nat)
    requires 0 < p && i < j < i + p
    ensures i % p != j % p
  {
    if i % p == j % p {
      var d := j / p - i / p;
      assert p * d == j - i by { assert j == p * (j / p) + j % p; assert i == p * (i / p) + i % p; }
      if d >= 1 { MulMonotone(p, 1, d); } else { MulMonotone(p, d, 0); }
    }
  }

  lemma SamePosition(i: nat, p: nat)
    requires p > 0
    ensures (i + p) % p == i % p
  {
    assert i == p * (i / p) + i % p;
    DivModUnique(i + p, p, i / p + 1, i % p);
  }

  /** All transfers numbered first, ..., first + count - 1 are pairwise disjoint. */
  ghost predicate WindowDisjoint(first: nat, count: nat, bs: nat, size: nat) {
    forall i: nat, j: nat :: first <= i < j < first + count
      ==> Disjoint(After(i, bs, size), After(j, bs, size), bs)
  }

  /** Any window of consecutive transfers is pairwise disjoint iff it is no longer than the period. */
  lemma WindowDisjointIff(first: nat, count: nat, bs: nat, size: nat)
    requires bs > 0
    ensures WindowDisjoint(first, count, bs, size) <==> count <= Period(bs, size)
  {
    var p := Period(bs, size);
    if count <= p {
      forall i: nat, j: nat | first <= i < j < first + count
        ensures Disjoint(After(i, bs, size), After(j, bs, size), bs)
      {
        WindowDistinct(i, j, p);
        DisjointTransfers(i, j, bs, size);
      }
    } else {
      var j := first + p;
      SamePosition(first, p);
      DisjointTransfers(first, j, bs, size);
      assert !Disjoint(After(first, bs, size), After(j, bs, size), bs);
    }
  }

  /** No transfer numbered c, ..., w - 1 meets one of the n transfers that follow them. */
  ghost predicate WindowsDisjoint(c: nat, w: nat, n: nat, bs: nat, size: nat) {
    forall k: nat, j: nat :: c <= k < w <= j < w + n
      ==> Disjoint(After(k, bs, size), After(j, bs, size), bs)
  }

  /** Two adjoining windows are disjoint iff one is empty or together they fit into the period. */
  lemma WindowsDisjointIff(c: nat, w: nat, n: nat, bs: nat, size: nat)
    requires bs > 0 && c <= w
    ensures WindowsDisjoint(c, w, n, bs, size) <==> c == w || n == 0 || w - c + n <= Period(bs, size)
  {
    hide After, Period, CeilDiv;
    var p := Period(bs, size);
    if w - c + n <= p {
      forall k: nat, j: nat | c <= k < w <= j < w + n
        ensures Disjoint(After(k, bs, size), After(j, bs, size), bs)
      {
        WindowDistinct(k, j, p);
        DisjointTransfers(k, j, bs, size);
      }
    } else if c < w && n > 0 {
      // the oldest write that lies one period before a following transfer
      var k := if c + p < w then w - p else c;
      SamePosition(k, p);
      DisjointTransfers(k, k + p, bs, size);
      assert !Disjoint(After(k, bs, size), After(k + p, bs, size), bs);
    }
  }

  /** Some transfer covers byte x. */
  ghost predicate Covered(x: nat, bs: nat, size: nat) {
    exists n: nat :: After(n, bs, size) <= x < After(n, bs, size) + bs
  }

  lemma BlockOf(x: nat, bs: nat, p: nat)
    requires bs > 0 && x < bs * p
    ensures x / bs < p && bs * (x / bs) <= x < bs * (x / bs) + bs
  {
    assert x == bs * (x / bs) + x % bs;
    if x / bs >= p { MulMonotone(bs, p, x / bs); }
  }

  lemma TransferBelow(n: nat, bs: nat, size: nat)
    requires bs > 0
    ensures After(n, bs, size) + bs <= bs * Period(bs, size)
  {
    var p := Period(bs, size);
    CursorClosedForm(n, bs, size);
    MulMonotone(bs, n % p + 1, p);
    assert bs * (n % p + 1) == bs * (n % p) + bs;
  }

  /** The transfers cover exactly the first P blocks. */
  lemma CoverageExact(x: nat, bs: nat, size: nat)
    requires bs > 0
    ensures Covered(x, bs, size) <==> x < bs * Period(bs, size)
  {
    hide After, Period, CeilDiv;
    var p := Period(bs, size);
    if x < bs * p {
      BlockOf(x, bs, p);
      var n := x / bs;
      SmallMod(n, p);
      CursorClosedForm(n, bs, size);
      assert After(n, bs, size) <= x < After(n, bs, size) + bs;
    }
    if Covered(x, bs, size) {
      var n: nat :| After(n, bs, size) <= x < After(n, bs, size) + bs;
      TransferBelow(n, bs, size);
    }
  }

  /** "The benchmark touches the whole file" holds only in the one-block case: otherwise the
      strict wrap test leaves out the last block. */
  lemma WholeFileCoveredIff(bs: nat, size: nat)
    requires 0 < bs <= size
    ensures (forall x: nat :: x < size ==> Covered(x, bs, size)) <==> size == bs
  {
    var p := Period(bs, size);
    CeilBounds(bs, size);
    CoverageExact(size - 1, bs, size);
    if size == bs {
      assert bs * p >= bs by { MulMonotone(bs, 1, p); }
      forall x: nat | x < size ensures Covered(x, bs, size) { CoverageExact(x, bs, size); }
    } else {
      if CeilDiv(size, bs) < 2 { MulMonotone(bs, CeilDiv(size, bs), 1); }
      MulMonotone(bs, p, CeilDiv(size, bs) - 1);
      assert !Covered(size - 1, bs, size);
    }
  }

  /** On the cursor's own positions the 32-bit and 64-bit sums never wrap. */
  lemma MachineCursorsExact(n: nat, bs: nat, size: nat)
    requires 0 < bs
    ensures bs < TWO_TO_THE_32 && size < TWO_TO_THE_32
      ==> AdvancePool(After(n, bs, size), bs, size) == After(n + 1, bs, size) < TWO_TO_THE_32
    ensures bs < TWO_TO_THE_32 && size + bs <= TWO_TO_THE_64
      ==> AdvanceFile(After(n, bs, size), bs, size) == After(n + 1, bs, size) < TWO_TO_THE_64
  {
    BelowSize(n, bs, size);
    var c := After(n, bs, size);
    assert After(n + 1, bs, size) == Advance(c, bs, size);
    hide After;
    if bs < TWO_TO_THE_32 && size < TWO_TO_THE_32 {
      SmallMod(c + bs, TWO_TO_THE_32);
      SmallMod(c + bs + bs, TWO_TO_THE_64);
    }
    if bs < TWO_TO_THE_32 && size + bs <= TWO_TO_THE_64 {
      SmallMod(c + bs, TWO_TO_THE_64);
      SmallMod(c + bs + bs, TWO_TO_THE_64);
    }
  }

  lemma {:induction false} BelowSize(n: nat, bs: nat, size: nat)
    ensures After(n, bs, size) == 0 || After(n, bs, size) + bs < size
  {
  }
}

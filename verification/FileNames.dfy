/**
 The files of AppendOneLargeFileAsyncExpr in src/file_target.cc: each stream draws a nonce from an
 atomic counter, opens files named by the nonce and an index, and deals its requests out to them in
 turn.
 */
module FileNames {
  import opened Arithmetic

  // ---------------------------------------------------------------------------- names

  function DigitChar(d: nat): char
    requires d < 10
  {
    '0' + d as char
  }

  /** std::to_string of a number that is not negative. */
  function Digits(n: nat): (s: string)
    ensures s != [] && '-' !in s
  {
    if n < 10 then [DigitChar(n)] else Digits(n / 10) + [DigitChar(n % 10)]
  }

  function ToString(n: int): string {
    if n < 0 then "-" + Digits(-n) else Digits(n)
  }

  function FileName(nonce: int, index: nat): string {
    "/mnt/large-file-" + ToString(nonce) + "-" + ToString(index)
  }

  /** The number a digit string denotes. */
  function Value(s: string): int {
    if s == [] then 0 else 10 * Value(s[..|s| - 1]) + (s[|s| - 1] as int - '0' as int)
  }

  lemma {:induction false} ValueOfDigits(n: nat)
    ensures Value(Digits(n)) == n
  {
    var s := Digits(n);
    if n >= 10 {
      ValueOfDigits(n / 10);
      assert s[..|s| - 1] == Digits(n / 10);
    } else {
      assert s[..|s| - 1] == [];
    }
  }

  lemma ToStringInjective(m: int, n: int)
    ensures ToString(m) == ToString(n) <==> m == n
  {
    var a, b := if m < 0 then -m else m, if n < 0 then -n else n;
    ValueOfDigits(a);
    ValueOfDigits(b);
    if ToString(m) == ToString(n) {
      assert m < 0 <==> ToString(m)[0] == '-' by { assert Digits(a)[0] in Digits(a); }
      assert n < 0 <==> ToString(n)[0] == '-' by { assert Digits(b)[0] in Digits(b); }
      if m < 0 {
        assert Digits(a) == ToString(m)[1..] == ToString(n)[1..] == Digits(b);
      }
    }
  }

  lemma InTail(a: string, d: string, k: nat)
    ensures |a| < k < |a + "-" + d| ==> (a + "-" + d)[k] in d
  {
    if |a| < k < |a + "-" + d| {
      assert (a + "-" + d)[k] == d[k - |a| - 1];
    }
  }

  /** The last '-' of a string splits it in one way. */
  lemma LastDash(a: string, d: string, a': string, d': string)
    requires a + "-" + d == a' + "-" + d' && '-' !in d && '-' !in d'
    ensures a == a' && d == d'
  {
    var s := a + "-" + d;
    assert s[|a|] == '-' && s[|a'|] == '-';
    InTail(a, d, |a'|);
    InTail(a', d', |a|);
    assert a == s[..|a|] && a' == s[..|a|];
    assert d == s[|a| + 1..] && d' == s[|a| + 1..];
  }

  lemma FileNameInjective(m: int, i: nat, n: int, j: nat)
    ensures FileName(m, i) == FileName(n, j) <==> m == n && i == j
  {
    if FileName(m, i) == FileName(n, j) {
      var p := "/mnt/large-file-";
      LastDash(p + ToString(m), ToString(i), p + ToString(n), ToString(j));
      assert ToString(m) == (p + ToString(m))[|p|..] == (p + ToString(n))[|p|..] == ToString(n);
      ToStringInjective(m, n);
      ToStringInjective(i, j);
    }
  }

  predicate IsDigit(c: char) {
    '0' <= c <= '9'
  }

  /** Decimal notation: digits, without a leading zero, and a sign only for negative numbers. */
  predicate Numeral(s: string, n: int) {
    if n < 0 then s != [] && s[0] == '-' && Plain(s[1..]) && Value(s[1..]) == -n
    else Plain(s) && Value(s) == n
  }

  predicate Plain(s: string) {
    s != [] && (forall k :: 0 <= k < |s| ==> IsDigit(s[k])) && (|s| > 1 ==> s[0] != '0')
  }

  lemma {:induction false} DigitsPlain(n: nat)
    ensures Plain(Digits(n)) && (n > 0 ==> Digits(n)[0] != '0')
  {
    if n >= 10 {
      DigitsPlain(n / 10);
    }
  }

  /** A file name reads as the prefix, the nonce and the index, in decimal notation. */
  lemma FileNameReads(nonce: int, index: nat)
    ensures exists a, d :: FileName(nonce, index) == "/mnt/large-file-" + a + "-" + d
                        && Numeral(a, nonce) && Numeral(d, index)
  {
    var m := if nonce < 0 then -nonce else nonce;
    DigitsPlain(m);
    ValueOfDigits(m);
    DigitsPlain(index);
    ValueOfDigits(index);
    var a, d := ToString(nonce), ToString(index);
    assert nonce < 0 ==> a[1..] == Digits(m);
    assert Numeral(a, nonce) && Numeral(d, index);
    assert FileName(nonce, index) == "/mnt/large-file-" + a + "-" + d;
  }

  // ---------------------------------------------------------------------------- nonces

  /** The value of a 32-bit two's complement integer after k increments from zero. */
  function Wrapped(k: nat): int {
    var r := k % TWO_TO_THE_32;
    if r < TWO_TO_THE_32 / 2 then r else r - TWO_TO_THE_32
  }

  class GRPCFileServerSync {
    var dummy: int           // atomic_int dummy
    ghost var streams: nat   // streams that have drawn a nonce

    constructor ()
      ensures Valid() && streams == 0
    {
      dummy, streams := 0, 0;
    }

    ghost predicate Valid()
      reads this
    {
      dummy == Wrapped(streams)
    }

    /** dummy++ on an atomic integer, which wraps. */
    method DrawNonce() returns (nonce: int)
      requires Valid()
      modifies this
      ensures Valid() && streams == old(streams) + 1
      ensures nonce == Wrapped(old(streams))
    {
      nonce := dummy;
      dummy := if dummy == TWO_TO_THE_32 / 2 - 1 then -(TWO_TO_THE_32 / 2) else dummy + 1;
      streams := streams + 1;
    }

    /** The request loop of one stream: request n goes to file n mod fn. */
    method DealOut(requests: nat, fn: nat) returns (files: seq<nat>)
      requires fn > 0
      ensures |files| == requests
      ensures forall k :: 0 <= k < requests ==> files[k] < fn && Congruent(k, files[k], fn)
      ensures forall i :: 0 <= i < fn ==> multiset(files)[i] == Share(requests, fn, i)
    {
      NothingYet(fn);
      hide Share, Congruent;
      files := [];
      var n := 0;
      while n < requests
        invariant n == |files| <= requests
        invariant forall k :: 0 <= k < n ==> files[k] < fn && Congruent(k, files[k], fn)
        invariant forall i :: 0 <= i < fn ==> multiset(files)[i] == Share(n, fn, i)
      {
        ShareStep(n, fn);
        Remainder(n, fn);
        files := files + [n % fn];
        n := n + 1;
      }
    }
  }

  /** m and n leave the same remainder. */
  predicate Congruent(m: nat, n: nat, fn: nat)
    requires fn > 0
  {
    m % fn == n % fn
  }

  lemma Remainder(n: nat, fn: nat)
    requires fn > 0
    ensures n % fn < fn && Congruent(n, n % fn, fn)
  {
    DivModUnique(n % fn, fn, 0, n % fn);
  }

  /** The requests of the first n that fall to file i. */
  function Share(n: nat, fn: nat, i: nat): nat
    requires fn > 0
  {
    n / fn + if i < n % fn then 1 else 0
  }

  lemma NothingYet(fn: nat)
    requires fn > 0
    ensures forall i :: 0 <= i < fn ==> Share(0, fn, i) == 0
  {
    DivModUnique(0, fn, 0, 0);
  }

  lemma ShareStep(n: nat, fn: nat)
    requires fn > 0
    ensures forall i :: 0 <= i < fn ==>
      Share(n + 1, fn, i) == Share(n, fn, i) + if i == n % fn then 1 else 0
  {
    var q, r := n / fn, n % fn;
    assert n == fn * q + r;
    if r + 1 == fn {
      assert n + 1 == fn * (q + 1);
      DivModUnique(n + 1, fn, q + 1, 0);
    } else {
      DivModUnique(n + 1, fn, q, r + 1);
    }
  }

  /** The k-th and l-th streams share a file exactly when 2^32 draws lie between them, and then
      exactly the files of the same index. */
  lemma SharedFileIff(k: nat, i: nat, l: nat, j: nat)
    ensures FileName(Wrapped(k), i) == FileName(Wrapped(l), j)
       <==> i == j && k % TWO_TO_THE_32 == l % TWO_TO_THE_32
  {
    FileNameInjective(Wrapped(k), i, Wrapped(l), j);
  }

  /** So streams drawn within 2^32 of each other never share one. */
  lemma StreamsShareNoFile(k: nat, i: nat, l: nat, j: nat)
    requires k < l < k + TWO_TO_THE_32
    ensures FileName(Wrapped(k), i) != FileName(Wrapped(l), j)
  {
    SharedFileIff(k, i, l, j);
  }

  /** Within a stream the files' shares differ by at most one. */
  lemma FairShares(n: nat, fn: nat, i: nat, j: nat)
    requires i < fn && j < fn
    ensures -1 <= Share(n, fn, i) - Share(n, fn, j) <= 1
  {
  }
}

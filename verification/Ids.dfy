/** Requests are numbered; each number is in exactly one place. */
module Ids {

  /** The numbers 0, ..., n - 1 are shared out among a multiset and two sequences, each number
      appearing in one of them, once, and no other number appearing. */
  ghost predicate SharedOut(k: multiset<nat>, c: seq<nat>, r: seq<nat>, n: nat) {
    && (forall i: nat :: k[i] + multiset(c)[i] + multiset(r)[i] == if i < n then 1 else 0)
    && |k| + |c| + |r| == n
  }

  /** The first element of the first sequence may move to the end of the second. */
  lemma MoveHead(k: multiset<nat>, c: seq<nat>, r: seq<nat>, n: nat)
    requires c != [] && SharedOut(k, c, r, n)
    ensures SharedOut(k, c[1..], r + [c[0]], n)
  {
    assert c == [c[0]] + c[1..];
    assert multiset(c) == multiset{c[0]} + multiset(c[1..]);
  }

  /** Any element of the multiset may move to the end of the first sequence. */
  lemma MoveOut(k: multiset<nat>, c: seq<nat>, r: seq<nat>, n: nat, i: nat)
    requires i in k && SharedOut(k, c, r, n)
    ensures SharedOut(k - multiset{i}, c + [i], r, n)
  {
  }

  /** The next number may join the multiset. */
  lemma MoveIn(k: multiset<nat>, c: seq<nat>, r: seq<nat>, n: nat)
    requires SharedOut(k, c, r, n)
    ensures SharedOut(k + multiset{n}, c, r, n + 1)
  {
  }

  /** Any element of the multiset may move to the end of the second sequence. */
  lemma MoveDone(k: multiset<nat>, c: seq<nat>, r: seq<nat>, n: nat, i: nat)
    requires i in k && SharedOut(k, c, r, n)
    ensures SharedOut(k - multiset{i}, c, r + [i], n)
  {
  }

  /** The next number may join the first sequence. */
  lemma Enqueue(k: multiset<nat>, c: seq<nat>, r: seq<nat>, n: nat)
    requires SharedOut(k, c, r, n)
    ensures SharedOut(k, c + [n], r, n + 1)
  {
  }

  /** A prefix of the first sequence may move to the multiset. */
  lemma MovePrefix(k: multiset<nat>, c: seq<nat>, r: seq<nat>, n: nat, t: nat)
    requires t <= |c| && SharedOut(k, c, r, n)
    ensures SharedOut(k + multiset(c[..t]), c[t..], r, n)
  {
    assert c == c[..t] + c[t..];
    assert multiset(c) == multiset(c[..t]) + multiset(c[t..]);
  }

  lemma InOnePlace(k: multiset<nat>, c: seq<nat>, r: seq<nat>, n: nat, i: nat)
    requires i in k && SharedOut(k, c, r, n)
    ensures i !in c && i !in r
  {
    assert k[i] + multiset(c)[i] + multiset(r)[i] <= 1;
    assert i !in multiset(c) && i !in multiset(r);
  }

  /** No number occurs twice. */
  ghost predicate NoRepeats(s: seq<nat>) {
    forall i, j :: 0 <= i < j < |s| ==> s[i] != s[j]
  }

  lemma CountedTwice(s: seq<nat>, i: nat, j: nat)
    requires i < j < |s| && s[i] == s[j]
    ensures multiset(s)[s[i]] >= 2
  {
    var t := s[i + 1..];
    assert s == s[..i] + [s[i]] + t;
    assert t[j - i - 1] == s[j];
    assert s[j] in multiset(t);
  }

  /** A sequence that takes part in a sharing out repeats nothing and holds nothing another
      part holds. */
  lemma SharedOnce(k: multiset<nat>, c: seq<nat>, r: seq<nat>, n: nat)
    requires SharedOut(k, c, r, n)
    ensures NoRepeats(r)
    ensures forall i :: 0 <= i < |r| ==> r[i] < n && r[i] !in k && r[i] !in c
  {
    forall i | 0 <= i < |r| ensures r[i] < n && r[i] !in k && r[i] !in c {
      assert r[i] in multiset(r);
      assert k[r[i]] + multiset(c)[r[i]] + multiset(r)[r[i]] >= 1;
      assert r[i] !in multiset(c);
    }
    forall i, j | 0 <= i < j < |r| ensures r[i] != r[j] {
      if r[i] == r[j] {
        CountedTwice(r, i, j);
        assert false;
      }
    }
  }
}

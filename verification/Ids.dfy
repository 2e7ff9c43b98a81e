/** Peer identifiers and the exclusive-or distance between them. */
module Ids {
  import opened Bytes

  type Id = seq<byte>

  datatype Peer = Peer(id: Id, addr: string)

  /** big.Int.SetBytes. */
  function BigEndian(s: seq<byte>): nat {
    if s == [] then 0 else 256 * BigEndian(s[..|s| - 1]) + s[|s| - 1]
  }

  function Xored(a: Id, b: Id): (s: seq<byte>)
    requires |a| == |b|
    ensures |s| == |a|
  {
    seq(|a|, i requires 0 <= i < |a| => XorByte(a[i], b[i]))
  }

  function Distance(a: Id, b: Id): nat
    requires |a| == |b|
  {
    BigEndian(Xored(a, b))
  }

  /** distenceBetween. */
  method DistanceBetween(id: Id, key: Id) returns (d: nat)
    requires |id| == |key|
    ensures d == Distance(id, key)
  {
    var xored := new byte[|key|](_ => 0);
    var i := 0;
    while i < |key|
      invariant 0 <= i <= |key|
      invariant xored[..i] == Xored(id, key)[..i]
    {
      xored[i] := XorByte(id[i], key[i]);
      i := i + 1;
    }
    assert xored[..] == Xored(id, key);
    return BigEndian(xored[..]);
  }

  // ---------- The distance is the exclusive or of the numbers ----------

  lemma {:induction false} XorShifted(x: nat, y: nat, u: nat, v: nat, k: nat)
    requires u < Pow2(k) && v < Pow2(k)
    ensures Xor(Pow2(k) * x + u, Pow2(k) * y + v) == Pow2(k) * Xor(x, y) + Xor(u, v)
    decreases k
  {
    hide Xor;
    if k == 0 {
      XorZero(u, v);
    } else {
      var h := Pow2(k - 1);
      XorShifted(x, y, u / 2, v / 2, k - 1);
      DoubledStep(h * x, h * y, u, v);
      XorStep(u, v);
      PowTimes(k, x);
      PowTimes(k, y);
      PowTimes(k, Xor(x, y));
    }
  }

  lemma PowTimes(k: nat, z: nat)
    requires k > 0
    ensures Pow2(k) * z == 2 * (Pow2(k - 1) * z)
  {
  }

  lemma DoubledStep(m: nat, n: nat, u: nat, v: nat)
    ensures Xor(2 * m + u, 2 * n + v) == 2 * Xor(m + u / 2, n + v / 2) + (u + v) % 2
  {
    hide Xor;
    XorStep(2 * m + u, 2 * n + v);
    assert (2 * m + u) / 2 == m + u / 2 && (2 * n + v) / 2 == n + v / 2;
    assert (2 * m + u + (2 * n + v)) % 2 == (u + v) % 2;
  }

  lemma {:induction false} DistanceIsXor(a: Id, b: Id)
    requires |a| == |b|
    ensures Distance(a, b) == Xor(BigEndian(a), BigEndian(b))
    decreases |a|
  {
    if a != [] {
      var n := |a| - 1;
      DistanceIsXor(a[..n], b[..n]);
      assert Xored(a, b)[..n] == Xored(a[..n], b[..n]);
      assert Pow2(8) == 256 by { assert Pow2(4) == 16; }
      XorShifted(BigEndian(a[..n]), BigEndian(b[..n]), a[n], b[n], 8);
    }
  }

  lemma {:induction false} BigEndianInjective(a: Id, b: Id)
    requires |a| == |b| && BigEndian(a) == BigEndian(b)
    ensures a == b
    decreases |a|
  {
    if a != [] {
      var n := |a| - 1;
      BigEndianInjective(a[..n], b[..n]);
      assert a == a[..n] + [a[n]] && b == b[..n] + [b[n]];
    }
  }

  function Pow256(n: nat): nat {
    if n == 0 then 1 else 256 * Pow256(n - 1)
  }

  lemma {:induction false} BigEndianBelow(a: Id)
    ensures BigEndian(a) < Pow256(|a|)
    decreases |a|
  {
    if a != [] {
      BigEndianBelow(a[..|a| - 1]);
    }
  }

  // ---------- The first byte decides ----------

  lemma {:induction false} BigEndianFirst(s: Id)
    requires s != []
    ensures BigEndian(s) == s[0] * Pow256(|s| - 1) + BigEndian(s[1..])
    decreases |s|
  {
    var n := |s| - 1;
    if n > 0 {
      BigEndianFirst(s[..n]);
      assert s[..n][1..] == s[1..][..n - 1] && s[1..][n - 1] == s[n];
      assert 256 * (s[0] * Pow256(n - 1)) == s[0] * Pow256(n) by { TimesPow256(s[0], n); }
    } else {
      assert s[1..] == [] && s[..0] == [];
    }
  }

  lemma TimesPow256(x: nat, n: nat)
    requires n > 0
    ensures 256 * (x * Pow256(n - 1)) == x * Pow256(n)
  {
  }

  /** The number of an identifier is read from the first byte on. */
  lemma {:induction false} FirstByteDecides(a: Id, b: Id)
    requires |a| == |b| > 0 && a[0] < b[0]
    ensures BigEndian(a) < BigEndian(b)
  {
    var n := |a| - 1;
    BigEndianFirst(a);
    BigEndianFirst(b);
    BigEndianBelow(a[1..]);
    assert (a[0] + 1) * Pow256(n) <= b[0] * Pow256(n) by { MoreTimes(a[0] + 1, b[0], Pow256(n)); }
    assert (a[0] + 1) * Pow256(n) == a[0] * Pow256(n) + Pow256(n);
  }

  lemma MoreTimes(x: nat, y: nat, z: nat)
    requires x <= y
    ensures x * z <= y * z
  {
  }

  /** Up to byte `i` the identifiers agree, and there the exclusive or of `a` with the key is the smaller one. */
  predicate CloserAt(a: Id, b: Id, key: Id, i: nat)
    requires |a| == |b| == |key|
  {
    i < |key| && a[..i] == b[..i] && XorByte(a[i], key[i]) < XorByte(b[i], key[i])
  }

  /** Of two identifiers that one is closer to the key whose exclusive or with it is smaller at the first byte at
      which they differ. */
  lemma {:induction false} CloserIff(a: Id, b: Id, key: Id)
    requires |a| == |b| == |key|
    ensures Distance(a, key) < Distance(b, key) <==> exists i: nat :: CloserAt(a, b, key, i)
  {
    if i: nat :| CloserAt(a, b, key, i) {
      CloserAtFirst(a, b, key, i);
    } else if a != b {
      var i := FirstDifference(a, b);
      assert !CloserAt(a, b, key, i);
      XorCancels(a[i], b[i], key[i]);
      assert CloserAt(b, a, key, i);
      CloserAtFirst(b, a, key, i);
    }
  }

  lemma XorCancels(a: byte, b: byte, k: byte)
    ensures XorByte(a, k) == XorByte(b, k) ==> a == b
  {
    XorInvolution(a, k);
    XorInvolution(b, k);
  }

  lemma {:induction false} FirstDifference(a: Id, b: Id) returns (i: nat)
    requires |a| == |b| && a != b
    ensures i < |a| && a[..i] == b[..i] && a[i] != b[i]
    decreases |a|
  {
    var n := |a| - 1;
    if a[..n] == b[..n] {
      i := n;
      assert a == a[..n] + [a[n]] && b == b[..n] + [b[n]];
    } else {
      i := FirstDifference(a[..n], b[..n]);
      assert a[..n][..i] == a[..i] && b[..n][..i] == b[..i];
    }
  }

  lemma {:induction false} CloserAtFirst(a: Id, b: Id, key: Id, i: nat)
    requires |a| == |b| == |key| && CloserAt(a, b, key, i)
    ensures Distance(a, key) < Distance(b, key)
    decreases i
  {
    var x, y := Xored(a, key), Xored(b, key);
    if i == 0 {
      FirstByteDecides(x, y);
    } else {
      assert a[0] == a[..i][0] == b[..i][0] == b[0];
      assert a[1..][..i - 1] == a[..i][1..] && b[1..][..i - 1] == b[..i][1..];
      CloserAtFirst(a[1..], b[1..], key[1..], i - 1);
      assert x[1..] == Xored(a[1..], key[1..]) && y[1..] == Xored(b[1..], key[1..]);
      BigEndianFirst(x);
      BigEndianFirst(y);
    }
  }

  // ---------- A metric ----------

  /** The distance is a metric on the identifiers of one length. */
  lemma DistanceIsMetric(a: Id, b: Id, c: Id)
    requires |a| == |b| == |c|
    ensures Distance(a, b) == 0 <==> a == b
    ensures Distance(a, b) == Distance(b, a)
    ensures Distance(a, c) <= Distance(a, b) + Distance(b, c)
  {
    DistanceIsXor(a, b);
    DistanceIsXor(b, a);
    DistanceIsXor(b, c);
    DistanceIsXor(a, c);
    XorZero(BigEndian(a), BigEndian(b));
    XorSymmetric(BigEndian(a), BigEndian(b));
    XorTriangle(BigEndian(a), BigEndian(b), BigEndian(c));
    if Distance(a, b) == 0 {
      BigEndianInjective(a, b);
    }
  }

  /** For a fixed key the distance tells the identifiers apart. */
  lemma DistanceInjective(a: Id, b: Id, key: Id)
    requires |a| == |b| == |key|
    ensures Distance(a, key) == Distance(b, key) <==> a == b
  {
    if Distance(a, key) == Distance(b, key) {
      DistanceIsXor(a, key);
      DistanceIsXor(b, key);
      XorInvolution(BigEndian(a), BigEndian(key));
      XorInvolution(BigEndian(b), BigEndian(key));
      BigEndianInjective(a, b);
    }
  }

  /** Among identifiers of `n` bytes there are at most 256^n different ones. */
  lemma {:induction false} DistinctIdsBounded(ids: seq<Id>, n: nat)
    requires forall i :: 0 <= i < |ids| ==> |ids[i]| == n
    requires forall i, j :: 0 <= i < j < |ids| ==> ids[i] != ids[j]
    ensures |ids| <= Pow256(n)
  {
    var numbers := seq(|ids|, i requires 0 <= i < |ids| => BigEndian(ids[i]));
    forall i | 0 <= i < |ids| ensures numbers[i] < Pow256(n) {
      BigEndianBelow(ids[i]);
    }
    forall i, j | 0 <= i < j < |ids| ensures numbers[i] != numbers[j] {
      if BigEndian(ids[i]) == BigEndian(ids[j]) {
        BigEndianInjective(ids[i], ids[j]);
      }
    }
    Pigeonhole(numbers, Pow256(n));
  }

  lemma {:induction false} Pigeonhole(s: seq<nat>, n: nat)
    requires forall i :: 0 <= i < |s| ==> s[i] < n
    requires forall i, j :: 0 <= i < j < |s| ==> s[i] != s[j]
    ensures |s| <= n
    decreases n
  {
    if n > 0 {
      if exists k :: 0 <= k < |s| && s[k] == n - 1 {
        var k :| 0 <= k < |s| && s[k] == n - 1;
        var rest := s[..k] + s[k + 1..];
        assert forall i :: 0 <= i < |rest| ==> rest[i] == s[if i < k then i else i + 1];
        forall i | 0 <= i < |rest| ensures rest[i] < n - 1 {
          assert s[if i < k then i else i + 1] != s[k];
        }
        Pigeonhole(rest, n - 1);
      } else {
        Pigeonhole(s, n - 1);
      }
    }
  }

  /** The identifier of `n` bytes that is the number `v`. */
  function Digits(v: nat, n: nat): (id: Id)
    ensures |id| == n
  {
    if n == 0 then [] else Digits(v / 256, n - 1) + [v % 256]
  }

  lemma {:induction false} DigitsOfNumber(id: Id)
    ensures Digits(BigEndian(id), |id|) == id
    decreases |id|
  {
    if id != [] {
      DigitsOfNumber(id[..|id| - 1]);
    }
  }
}

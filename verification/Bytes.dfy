/** Bytes, exclusive or, little-endian frame lengths, and the counter-mode keystream. */
module Bytes {
  type byte = b: nat | b < 256

  const TWO_32 := 0x1_0000_0000

  function Min(a: nat, b: nat): nat {
    if a < b then a else b
  }

  function Max(a: nat, b: nat): nat {
    if a < b then b else a
  }

  // ---------- Byte strings put together ----------

  function Flat(chunks: seq<seq<byte>>): seq<byte> {
    if chunks == [] then [] else chunks[0] + Flat(chunks[1..])
  }

  lemma FlatOne(chunk: seq<byte>)
    ensures Flat([chunk]) == chunk
  {
    assert Flat([chunk][1..]) == [];
  }

  lemma {:induction false} FlatAppend(a: seq<seq<byte>>, b: seq<seq<byte>>)
    ensures Flat(a + b) == Flat(a) + Flat(b)
    decreases |a|
  {
    if a == [] {
      assert a + b == b;
    } else {
      FlatAppend(a[1..], b);
      assert (a + b)[1..] == a[1..] + b;
    }
  }

  lemma Regroup(a: seq<byte>, b: seq<byte>, c: seq<byte>)
    ensures a + (b + c) == (a + b) + c
  {
  }

  // ---------- Exclusive or ----------

  /** Bitwise exclusive or, from the lowest bit up. */
  function Xor(a: nat, b: nat): nat {
    if a == 0 && b == 0 then 0 else 2 * Xor(a / 2, b / 2) + (a + b) % 2
  }

  function XorByte(a: byte, b: byte): byte {
    XorBelow(a, b, 8);
    assert Pow2(8) == 256 by { assert Pow2(4) == 16; }
    Xor(a, b)
  }

  ghost function Pow2(k: nat): nat {
    if k == 0 then 1 else 2 * Pow2(k - 1)
  }

  lemma {:induction false} XorBelow(a: nat, b: nat, k: nat)
    requires a < Pow2(k) && b < Pow2(k)
    ensures Xor(a, b) < Pow2(k)
    decreases k
  {
    if k > 0 && (a != 0 || b != 0) {
      XorBelow(a / 2, b / 2, k - 1);
    }
  }

  lemma {:induction false} XorSymmetric(a: nat, b: nat)
    ensures Xor(a, b) == Xor(b, a)
  {
    if a != 0 || b != 0 {
      XorSymmetric(a / 2, b / 2);
    }
  }

  lemma {:induction false} XorZero(a: nat, b: nat)
    ensures Xor(a, b) == 0 <==> a == b
  {
    if a != 0 || b != 0 {
      XorZero(a / 2, b / 2);
    }
  }

  /** Exclusive or with one mask can be undone, so it is injective. */
  lemma {:induction false} XorInvolution(a: nat, k: nat)
    ensures Xor(Xor(a, k), k) == a
  {
    if a != 0 || k != 0 {
      XorInvolution(a / 2, k / 2);
      var x := Xor(a, k);
      XorStep(a, k);
      XorStep(x, k);
      HighAndLow(a, k, Xor(a / 2, k / 2), x);
    }
  }

  lemma HighAndLow(a: nat, k: nat, high: nat, x: nat)
    requires x == 2 * high + (a + k) % 2
    ensures x / 2 == high && (x + k) % 2 == a % 2
  {
    assert (a + k + k) % 2 == a % 2;
  }

  lemma ZeroXor(b: byte)
    ensures XorByte(0, b) == b
  {
    XorInvolution(0, b);
    XorZero(Xor(0, b), b);
  }

  /** Carries only ever add: the middle point can not shorten the way. */
  lemma {:induction false} XorTriangle(a: nat, b: nat, c: nat)
    ensures Xor(a, c) <= Xor(a, b) + Xor(b, c)
  {
    if a != 0 || b != 0 || c != 0 {
      XorTriangle(a / 2, b / 2, c / 2);
      XorStep(a, b);
      XorStep(b, c);
      XorStep(a, c);
      LowBits(a, b, c);
    }
  }

  lemma {:induction false} XorStep(a: nat, b: nat)
    ensures Xor(a, b) == 2 * Xor(a / 2, b / 2) + (a + b) % 2
  {
  }

  lemma LowBits(a: nat, b: nat, c: nat)
    ensures (a + c) % 2 <= (a + b) % 2 + (b + c) % 2
  {
  }

  /** Bit `i` of a number. */
  predicate Bit(n: nat, i: nat)
    decreases i
  {
    if i == 0 then n % 2 == 1 else Bit(n / 2, i - 1)
  }

  /** It is the exclusive or, bit by bit. */
  lemma {:induction false} XorBits(a: nat, b: nat, i: nat)
    ensures Bit(Xor(a, b), i) <==> (Bit(a, i) <==> !Bit(b, i))
    decreases i
  {
    hide Xor;
    XorStep(a, b);
    var high := Xor(a / 2, b / 2);
    LowAndHigh(high, (a + b) % 2);
    if i > 0 {
      XorBits(a / 2, b / 2, i - 1);
    } else {
      assert (a + b) % 2 == 1 <==> (a % 2 == 1 <==> b % 2 != 1);
    }
  }

  lemma LowAndHigh(high: nat, low: nat)
    requires low < 2
    ensures (2 * high + low) / 2 == high && (2 * high + low) % 2 == low
  {
  }

  // ---------- binary.LittleEndian, 32 bits ----------

  /** PutUint32(uint32(n)): the conversion keeps the low 32 bits only. */
  function PutUint32(n: nat): (s: seq<byte>)
    ensures |s| == 4
  {
    [n % 256, n / 256 % 256, n / 256 / 256 % 256, n / 256 / 256 / 256 % 256]
  }

  function Uint32(s: seq<byte>): (n: nat)
    requires |s| == 4
    ensures n < TWO_32
  {
    s[0] as int + 0x100 * s[1] as int + 0x1_0000 * s[2] as int + 0x100_0000 * s[3] as int
  }

  /** A length survives the header exactly when it fits in 32 bits. */
  lemma Uint32RoundTrip(n: nat)
    ensures Uint32(PutUint32(n)) == n <==> n < TWO_32
  {
    var top := n / 256 / 256 / 256;
    assert n == n % 256 + 0x100 * (n / 256 % 256) + 0x1_0000 * (n / 256 / 256 % 256) + 0x100_0000 * top;
    if n < TWO_32 {
      assert top < 256;
    }
  }

  /** The lowest byte comes first, in reading and in writing. */
  lemma LittleEndian(s: seq<byte>, b: byte, n: nat)
    requires |s| == 4
    ensures Uint32(s) == s[0] + 256 * Uint32(s[1..] + [0])
    ensures PutUint32(256 * n + b) == [b] + PutUint32(n)[..3]
  {
    assert (256 * n + b) % 256 == b && (256 * n + b) / 256 == n;
  }

  // ---------- Counter mode (NIST SP 800-38A, section 6.5) ----------

  /** The keystream of one key: the byte for every position. */
  type Keystream = nat -> byte

  /** What XORKeyStream makes of `data` when the stream stands at `pos`. */
  function Ctr(ks: Keystream, pos: nat, data: seq<byte>): (r: seq<byte>)
    ensures |r| == |data|
    ensures forall i :: 0 <= i < |data| ==> r[i] == XorByte(data[i], ks(pos + i))
  {
    seq(|data|, i requires 0 <= i < |data| => XorByte(data[i], ks(pos + i)))
  }

  /** Two streams with one key and position undo each other. */
  lemma CtrInverse(ks: Keystream, pos: nat, data: seq<byte>)
    ensures Ctr(ks, pos, Ctr(ks, pos, data)) == data
  {
    forall i | 0 <= i < |data| ensures Ctr(ks, pos, Ctr(ks, pos, data))[i] == data[i] {
      XorInvolution(data[i], ks(pos + i));
    }
  }

  /** The keystream runs on across calls: cutting the data changes nothing. */
  lemma CtrAppend(ks: Keystream, pos: nat, a: seq<byte>, b: seq<byte>)
    ensures Ctr(ks, pos, a + b) == Ctr(ks, pos, a) + Ctr(ks, pos + |a|, b)
  {
    var l, r := Ctr(ks, pos, a + b), Ctr(ks, pos, a) + Ctr(ks, pos + |a|, b);
    forall i | 0 <= i < |l| ensures l[i] == r[i] {
      if |a| <= i {
        assert pos + |a| + (i - |a|) == pos + i;
      }
    }
  }

  /** Encrypting keeps prefixes, which is what lets a partly read stream be decrypted. */
  lemma CtrPrefix(ks: Keystream, pos: nat, a: seq<byte>, b: seq<byte>)
    requires a <= b
    ensures Ctr(ks, pos, a) <= Ctr(ks, pos, b)
  {
    CtrAppend(ks, pos, a, b[|a|..]);
    assert a + b[|a|..] == b;
  }

  /** A keystream, and the position at which it stands in one direction before the first byte counted. */
  datatype Key = Key(stream: Keystream, from: nat)

  /** Encrypting the first bytes of a direction; decrypting is the same. */
  function Enc(key: Key, data: seq<byte>): (r: seq<byte>)
    ensures |r| == |data|
  {
    Ctr(key.stream, key.from, data)
  }
}

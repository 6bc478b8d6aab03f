/** The 12-byte little-endian counter of `src/protocol/shadowsocks.ts`. */
module Nonces {
  import opened Common

  const NONCE_LENGTH: nat := 12

  /** 256 to the power n. */
  function Pow256(n: nat): (r: nat)
    ensures 0 < r
  {
    if n == 0 then 1 else 256 * Pow256(n - 1)
  }

  /** The number a buffer denotes, lowest byte first. */
  function LittleEndian(s: bytes): nat {
    if s == [] then 0 else s[0] + 256 * LittleEndian(s[1..])
  }

  lemma {:induction false} LittleEndianBound(s: bytes)
    ensures LittleEndian(s) < Pow256(|s|)
  {
    if s != [] {
      LittleEndianBound(s[1..]);
    }
  }

  lemma {:induction false} LittleEndianInjective(a: bytes, b: bytes)
    requires |a| == |b| && LittleEndian(a) == LittleEndian(b)
    ensures a == b
  {
    if a != [] {
      LittleEndianInjective(a[1..], b[1..]);
      assert a == [a[0]] + a[1..] && b == [b[0]] + b[1..];
    }
  }

  /** Adding one to a buffer: the carry runs through the leading 0xff bytes. */
  function Increment(s: bytes): (r: bytes)
    ensures |r| == |s|
  {
    if s == [] then []
    else if s[0] == 255 then [0] + Increment(s[1..])
    else [s[0] + 1] + s[1..]
  }

  /** Incrementing the buffer adds one to its value, modulo 256 to its length. */
  lemma {:induction false} IncrementAddsOne(s: bytes)
    ensures LittleEndian(Increment(s)) == (LittleEndian(s) + 1) % Pow256(|s|)
  {
    LittleEndianBound(s);
    if s == [] {
    } else if s[0] == 255 {
      var tail := s[1..];
      IncrementAddsOne(tail);
      LittleEndianBound(tail);
      assert Increment(s)[1..] == Increment(tail);
      CarryRemainder(LittleEndian(tail), Pow256(|tail|));
    } else {
      assert Increment(s)[1..] == s[1..];
      LittleEndianBound(Increment(s));
      SmallRemainder(LittleEndian(s) + 1, Pow256(|s|));
    }
  }

  lemma CarryRemainder(v: nat, p: nat)
    requires v < p
    ensures (256 * (v + 1)) % (256 * p) == 256 * ((v + 1) % p)
  {
    if v + 1 < p {
      RemainderUnique(v + 1, 0, v + 1, p);
      RemainderUnique(256 * (v + 1), 0, 256 * (v + 1), 256 * p);
    } else {
      RemainderUnique(v + 1, 1, 0, p);
      RemainderUnique(256 * (v + 1), 1, 0, 256 * p);
    }
  }

  lemma SmallRemainder(v: nat, p: nat)
    requires v < p
    ensures v % p == v
  {
  }

  function Zeros(n: nat): (r: bytes)
    ensures |r| == n
  {
    seq(n, _ => 0)
  }

  /** Where the carry stops: past the leading 0xff bytes. */
  lemma {:induction false} CarryStops(s: bytes, i: nat)
    requires i <= |s| && forall k :: 0 <= k < i ==> s[k] == 255
    ensures i == |s| ==> Increment(s) == Zeros(i)
    ensures i < |s| && s[i] != 255 ==> Increment(s) == Zeros(i) + [s[i] + 1] + s[i + 1..]
  {
    if i != 0 {
      CarryStops(s[1..], i - 1);
      assert Zeros(i) == [0] + Zeros(i - 1);
    }
  }

  /** `incrementNonce`: the in-place carry loop. */
  method IncrementNonce(nonce: array<byte>)
    modifies nonce
    ensures nonce[..] == Increment(old(nonce[..]))
  {
    ghost var was := nonce[..];
    var index := 0;
    while index < nonce.Length
      invariant 0 <= index <= nonce.Length
      invariant forall k :: 0 <= k < index ==> was[k] == 255 && nonce[k] == 0
      invariant forall k :: index <= k < nonce.Length ==> nonce[k] == was[k]
    {
      var current: int := nonce[index];
      nonce[index] := (current + 1) % 256;
      if nonce[index] != 0 {
        CarryStops(was, index);
        assert nonce[..] == Zeros(index) + [was[index] + 1] + was[index + 1..];
        return;
      }
      index := index + 1;
    }
    CarryStops(was, index);
  }

  /** The nonce a direction of the stream uses for its k-th sealed block. */
  function NonceAt(k: nat): (r: bytes)
    ensures |r| == 12
  {
    if k == 0 then Zeros(NONCE_LENGTH) else Increment(NonceAt(k - 1))
  }

  lemma {:induction false} ZerosValue(n: nat)
    ensures LittleEndian(Zeros(n)) == 0
  {
    if n != 0 {
      ZerosValue(n - 1);
      assert Zeros(n)[1..] == Zeros(n - 1);
    }
  }

  /** The k-th nonce denotes k, in twelve bytes, lowest first. */
  lemma {:induction false} NonceValue(k: nat)
    ensures LittleEndian(NonceAt(k)) == k % Pow256(NONCE_LENGTH)
  {
    hide Pow256, LittleEndian, Zeros;
    if k == 0 {
      ZerosValue(NONCE_LENGTH);
    } else {
      NonceValue(k - 1);
      IncrementAddsOne(NonceAt(k - 1));
      AddOneMod(k - 1, Pow256(NONCE_LENGTH));
    }
  }

  lemma AddOneMod(k: nat, p: nat)
    requires 0 < p
    ensures (k % p + 1) % p == (k + 1) % p
  {
    var q, r := k / p, k % p;
    assert k == q * p + r;
    if r + 1 < p {
      RemainderUnique(k + 1, q, r + 1, p);
      RemainderUnique(r + 1, 0, r + 1, p);
    } else {
      assert (q + 1) * p == q * p + p;
      RemainderUnique(k + 1, q + 1, 0, p);
      RemainderUnique(r + 1, 1, 0, p);
    }
  }

  lemma RemainderUnique(n: nat, q: nat, r: nat, p: nat)
    requires 0 < p && r < p && n == q * p + r
    ensures n % p == r
  {
    var q', r' := n / p, n % p;
    assert q' * p + r' == q * p + r;
    assert (q' - q) * p == r - r';
    if q' > q {
      assert (q' - q) * p >= p by { Grow(q' - q, p); }
    } else if q' < q {
      assert (q - q') * p >= p by { Grow(q - q', p); }
    }
  }

  lemma Grow(d: nat, p: nat)
    requires 0 < d
    ensures d * p >= p
  {
    assert d * p == (d - 1) * p + p;
  }

  lemma TwoTo96()
    ensures Pow256(NONCE_LENGTH) == 0x1_0000_0000_0000_0000_0000_0000
  {
    assert Pow256(4) == 0x1_0000_0000;
    assert Pow256(8) == 0x1_0000_0000_0000_0000;
  }

  /** No nonce repeats before 2^96 blocks have been sealed. */
  lemma NoncesDiffer(i: nat, j: nat)
    requires i < j < 0x1_0000_0000_0000_0000_0000_0000
    ensures NonceAt(i) != NonceAt(j)
  {
    TwoTo96();
    NonceValue(i);
    NonceValue(j);
    SmallRemainder(i, Pow256(NONCE_LENGTH));
    SmallRemainder(j, Pow256(NONCE_LENGTH));
  }

  /** The counter wraps: the sequence of nonces has period exactly 2^96. */
  lemma NoncesRepeat(i: nat, j: nat)
    ensures NonceAt(i) == NonceAt(j) <==>
            i % 0x1_0000_0000_0000_0000_0000_0000 == j % 0x1_0000_0000_0000_0000_0000_0000
  {
    TwoTo96();
    NonceValue(i);
    NonceValue(j);
    if LittleEndian(NonceAt(i)) == LittleEndian(NonceAt(j)) {
      LittleEndianInjective(NonceAt(i), NonceAt(j));
    }
  }
}

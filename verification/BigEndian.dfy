/** Network byte order: the memory image of an integer after `htons`, `htonl` or the 64-bit swap. */
module BigEndian {
  import opened Prelude

  type Be16 = b: Bytes | |b| == 2 witness [0, 0]
  type Be32 = b: Bytes | |b| == 4 witness [0, 0, 0, 0]
  type Be64 = b: Bytes | |b| == 8 witness [0, 0, 0, 0, 0, 0, 0, 0]

  function Pow256(n: nat): (p: nat)
    ensures p >= 1
  {
    if n == 0 then 1 else 256 * Pow256(n - 1)
  }

  /** The low `n` bytes of `v`, most significant first. */
  function ToBe(v: nat, n: nat): (b: Bytes)
    ensures |b| == n
  {
    if n == 0 then [] else ToBe(v / 256, n - 1) + [v % 256]
  }

  function FromBe(b: Bytes): (v: nat)
    ensures v < Pow256(|b|)
  {
    if b == [] then 0 else FromBe(b[..|b| - 1]) * 256 + b[|b| - 1]
  }

  lemma {:induction false} FromToBe(v: nat, n: nat)
    requires v < Pow256(n)
    ensures FromBe(ToBe(v, n)) == v
  {
    if n > 0 {
      FromToBe(v / 256, n - 1);
      assert ToBe(v, n)[..n - 1] == ToBe(v / 256, n - 1);
    }
  }

  lemma {:induction false} ToFromBe(b: Bytes)
    ensures ToBe(FromBe(b), |b|) == b
  {
    if b != [] {
      ToFromBe(b[..|b| - 1]);
    }
  }

  lemma Pow256Values()
    ensures Pow256(2) == 0x1_0000
    ensures Pow256(4) == 0x1_0000_0000
    ensures Pow256(8) == 0x1_0000_0000_0000_0000
  {
    assert Pow256(3) == 256 * Pow256(2);
    assert Pow256(4) == 256 * Pow256(3);
    assert Pow256(5) == 256 * Pow256(4);
    assert Pow256(6) == 256 * Pow256(5);
    assert Pow256(7) == 256 * Pow256(6);
  }

  function HostToNetwork16(v: u16): Be16 { ToBe(v, 2) }
  function HostToNetwork32(v: u32): Be32 { ToBe(v, 4) }
  function HostToNetwork64(v: u64): Be64 { ToBe(v, 8) }

  function NetworkToHost16(b: Be16): u16 { Pow256Values(); FromBe(b) }
  function NetworkToHost32(b: Be32): u32 { Pow256Values(); FromBe(b) }
  function NetworkToHost64(b: Be64): u64 { Pow256Values(); FromBe(b) }

  /** Conversion to network order loses nothing. */
  lemma ReadBack16(v: u16)
    ensures NetworkToHost16(HostToNetwork16(v)) == v
  {
    Pow256Values();
    FromToBe(v, 2);
  }

  lemma ReadBack32(v: u32)
    ensures NetworkToHost32(HostToNetwork32(v)) == v
  {
    Pow256Values();
    FromToBe(v, 4);
  }

  lemma ReadBack64(v: u64)
    ensures NetworkToHost64(HostToNetwork64(v)) == v
  {
    Pow256Values();
    FromToBe(v, 8);
  }

  lemma FourBytes(v: u32)
    ensures ToBe(v, 4) == [v / 0x100_0000, v / 0x1_0000 % 0x100, v / 0x100 % 0x100, v % 0x100]
  {
    assert v / 256 / 256 == v / 0x1_0000;
    assert v / 0x1_0000 / 256 == v / 0x100_0000;
    assert ToBe(v / 0x1_0000, 2) == ToBe(v / 0x100_0000, 1) + [v / 0x1_0000 % 0x100];
    assert ToBe(v / 256, 3) == ToBe(v / 0x1_0000, 2) + [v / 0x100 % 0x100];
  }

  lemma EightBytes(v: u64)
    ensures ToBe(v, 8) ==
            ToBe(v / 0x1_0000_0000, 4) + [v / 0x100_0000 % 0x100, v / 0x1_0000 % 0x100, v / 0x100 % 0x100, v % 0x100]
  {
    assert v / 256 / 256 == v / 0x1_0000;
    assert v / 0x1_0000 / 256 == v / 0x100_0000;
    assert v / 0x100_0000 / 256 == v / 0x1_0000_0000;
    assert ToBe(v / 0x100_0000, 5) == ToBe(v / 0x1_0000_0000, 4) + [v / 0x100_0000 % 0x100];
    assert ToBe(v / 0x1_0000, 6) == ToBe(v / 0x100_0000, 5) + [v / 0x1_0000 % 0x100];
    assert ToBe(v / 256, 7) == ToBe(v / 0x1_0000, 6) + [v / 0x100 % 0x100];
  }

  /** The images are the usual big-endian layouts, written out independently. */
  lemma NetworkLayout(a: u16, b: u32, c: u64)
    ensures HostToNetwork16(a) == [a / 0x100, a % 0x100]
    ensures HostToNetwork32(b) == [b / 0x100_0000, b / 0x1_0000 % 0x100, b / 0x100 % 0x100, b % 0x100]
    ensures HostToNetwork64(c) ==
            [c / 0x100_0000_0000_0000, c / 0x1_0000_0000_0000 % 0x100,
             c / 0x100_0000_0000 % 0x100, c / 0x1_0000_0000 % 0x100,
             c / 0x100_0000 % 0x100, c / 0x1_0000 % 0x100, c / 0x100 % 0x100, c % 0x100]
  {
    assert ToBe(a / 256, 1) == [a / 256];
    FourBytes(b);
    EightBytes(c);
    HighHalf(c);
    hide ToBe;
    FourBytes(c / 0x1_0000_0000);
  }

  lemma HighHalf(c: u64)
    ensures c / 0x1_0000_0000 / 0x100_0000 == c / 0x100_0000_0000_0000
    ensures c / 0x1_0000_0000 / 0x1_0000 == c / 0x1_0000_0000_0000
    ensures c / 0x1_0000_0000 / 0x100 == c / 0x100_0000_0000
  {
  }

  lemma NetworkHostNetwork(a: Be16, b: Be32, c: Be64)
    ensures HostToNetwork16(NetworkToHost16(a)) == a
    ensures HostToNetwork32(NetworkToHost32(b)) == b
    ensures HostToNetwork64(NetworkToHost64(c)) == c
  {
    ToFromBe(a);
    ToFromBe(b);
    ToFromBe(c);
  }
}

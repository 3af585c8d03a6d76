/** Big-endian unsigned integers, as `int.from_bytes(.., "big")` and `struct` read and write them. */
module BigEndian {
  import opened WireTypes

  function Pow256(width: nat): (r: nat)
    ensures r > 0
  {
    if width == 0 then 1 else 256 * Pow256(width - 1)
  }

  function Uint(bytes: Bytes): nat {
    if bytes == [] then 0 else 256 * Uint(bytes[..|bytes| - 1]) + bytes[|bytes| - 1]
  }

  // Keeps the low `width` bytes of `n`; callers check the range first.
  function UintBytes(n: nat, width: nat): (r: Bytes)
    ensures |r| == width
  {
    if width == 0 then [] else UintBytes(n / 256, width - 1) + [n % 256]
  }

  lemma Pow256Values()
    ensures Pow256(1) == 0x100
    ensures Pow256(2) == 0x1_0000
    ensures Pow256(4) == 0x1_0000_0000
    ensures Pow256(8) == 0x1_0000_0000_0000_0000
  {
    assert Pow256(3) == 0x100_0000;
    assert Pow256(5) == 0x100_0000_0000;
    assert Pow256(6) == 0x1_0000_0000_0000;
    assert Pow256(7) == 0x100_0000_0000_0000;
  }

  lemma {:induction false} UintBound(bytes: Bytes)
    ensures Uint(bytes) < Pow256(|bytes|)
  {
    if bytes != [] {
      UintBound(bytes[..|bytes| - 1]);
    }
  }

  lemma {:induction false} UintOfUintBytes(n: nat, width: nat)
    requires n < Pow256(width)
    ensures Uint(UintBytes(n, width)) == n
  {
    if width > 0 {
      UintOfUintBytes(n / 256, width - 1);
      assert UintBytes(n, width)[..width - 1] == UintBytes(n / 256, width - 1);
    }
  }

  lemma {:induction false} UintBytesOfUint(bytes: Bytes)
    ensures Uint(bytes) < Pow256(|bytes|)
    ensures UintBytes(Uint(bytes), |bytes|) == bytes
  {
    UintBound(bytes);
    if bytes != [] {
      var front := bytes[..|bytes| - 1];
      UintBytesOfUint(front);
      assert Uint(bytes) / 256 == Uint(front) && Uint(bytes) % 256 == bytes[|bytes| - 1];
      assert bytes == front + [bytes[|bytes| - 1]];
    }
  }

  /** The first byte is the most significant. */
  lemma {:induction false} FirstByteWeighsMost(first: Byte, rest: Bytes)
    ensures Uint([first] + rest) == first * Pow256(|rest|) + Uint(rest)
  {
    if rest == [] {
      assert ([first] + rest)[..0] == [];
    } else {
      var front := rest[..|rest| - 1];
      FirstByteWeighsMost(first, front);
      assert ([first] + rest)[..|rest|] == [first] + front;
      assert first * Pow256(|rest|) == 256 * (first * Pow256(|front|));
    }
  }
}

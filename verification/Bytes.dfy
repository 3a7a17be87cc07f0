/** Network-order integers, as `struct` packs and unpacks them. */
module Bytes {
  type byte = b: int | 0 <= b < 256

  function Pow256(w: nat): (p: nat)
    ensures p > 0
  {
    if w == 0 then 1 else 256 * Pow256(w - 1)
  }

  /** The `w` low-order bytes of `n`, most significant first. */
  function Pack(n: nat, w: nat): (s: seq<byte>)
    ensures |s| == w
    decreases w
  {
    if w == 0 then [] else Pack(n / 256, w - 1) + [n % 256]
  }

  function Unpack(s: seq<byte>): nat {
    if s == [] then 0 else Unpack(s[..|s| - 1]) * 256 + s[|s| - 1]
  }

  lemma {:induction false} UnpackPack(n: nat, w: nat)
    requires n < Pow256(w)
    ensures Unpack(Pack(n, w)) == n
    decreases w
  {
    if w > 0 {
      UnpackPack(n / 256, w - 1);
      assert Pack(n, w)[..w - 1] == Pack(n / 256, w - 1);
    }
  }

  lemma Associate(a: seq<byte>, b: seq<byte>, c: seq<byte>)
    ensures a + b + c == a + (b + c)
  {
  }

  /** Parts after a common front, taken together. */
  lemma Regroup(front: seq<byte>, a: seq<byte>, b: seq<byte>, c: seq<byte>)
    ensures front + a + b + c == front + (a + b + c)
  {
  }

  /** The widths that the protocol's fields have. */
  lemma Widths()
    ensures Pow256(1) == 256 && Pow256(2) == 65536 && Pow256(4) == 4294967296
    ensures Pow256(8) == 18446744073709551616
  {
    assert Pow256(2) == 256 * Pow256(1);
    assert Pow256(3) == 256 * Pow256(2);
    assert Pow256(4) == 256 * Pow256(3);
    assert Pow256(5) == 256 * Pow256(4);
    assert Pow256(6) == 256 * Pow256(5);
    assert Pow256(7) == 256 * Pow256(6);
    assert Pow256(8) == 256 * Pow256(7);
  }

  /** Two bytes: the first counts 256. */
  function Short(a: int, b: int): int {
    a * 256 + b
  }

  /** Four bytes: the first counts 2 to the 24th. */
  function Long(a: int, b: int, c: int, d: int): int {
    a * 16777216 + b * 65536 + c * 256 + d
  }

  lemma OneByte(a: byte)
    ensures Unpack([a]) == a && Pack(a, 1) == [a]
  {
    assert [a][..0] == [];
    assert Pack(a, 1) == Pack(0, 0) + [a];
  }

  lemma TwoBytes(a: byte, b: byte)
    ensures Unpack([a, b]) == Short(a, b) && Pack(Short(a, b), 2) == [a, b]
  {
    OneByte(a);
    assert [a, b][..1] == [a];
    assert Short(a, b) / 256 == a && Short(a, b) % 256 == b;
  }

  lemma FourBytes(a: byte, b: byte, c: byte, d: byte)
    ensures Unpack([a, b, c, d]) == Long(a, b, c, d) && Pack(Long(a, b, c, d), 4) == [a, b, c, d]
  {
    var high := Short(a, b);
    TwoBytes(a, b);
    assert [a, b, c][..2] == [a, b];
    assert Unpack([a, b, c]) == high * 256 + c;
    assert [a, b, c, d][..3] == [a, b, c];
    assert Long(a, b, c, d) == (high * 256 + c) * 256 + d;
    assert Long(a, b, c, d) / 256 == high * 256 + c && Long(a, b, c, d) % 256 == d;
    assert (high * 256 + c) / 256 == high && (high * 256 + c) % 256 == c;
    assert Pack(high * 256 + c, 3) == Pack(high, 2) + [c];
  }
}

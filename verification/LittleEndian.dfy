/** Numbers as bytes, least significant first. */
module LittleEndian {
  type Byte = x: int | 0 <= x < 256

  const TWO64: nat := 0x1_0000_0000_0000_0000

  function Pow256(n: nat): (p: nat)
    ensures p > 0
  {
    if n == 0 then 1 else 256 * Pow256(n - 1)
  }

  /** The low n bytes of a number. */
  function ToLe(v: nat, n: nat): (s: seq<Byte>)
    ensures |s| == n
  {
    if n == 0 then [] else [v % 256] + ToLe(v / 256, n - 1)
  }

  function FromLe(s: seq<Byte>): nat {
    if s == [] then 0 else s[0] + 256 * FromLe(s[1..])
  }

  /** A number that fits in its bytes is read back from them. */
  lemma {:induction false} LeRoundTrip(v: nat, n: nat)
    requires v < Pow256(n)
    ensures FromLe(ToLe(v, n)) == v
    decreases n
  {
    if n > 0 {
      assert v / 256 < Pow256(n - 1);
      LeRoundTrip(v / 256, n - 1);
      assert ToLe(v, n)[1..] == ToLe(v / 256, n - 1);
    }
  }

  /** Each byte counts 256 times as much as the one before it. */
  lemma {:induction false} LePositions(s: seq<Byte>, t: seq<Byte>)
    ensures FromLe(s + t) == FromLe(s) + Pow256(|s|) * FromLe(t)
  {
    if s == [] {
      assert s + t == t;
    } else {
      LePositions(s[1..], t);
      assert (s + t)[1..] == s[1..] + t;
      Scaled(s[0], FromLe(s[1..]), Pow256(|s| - 1), FromLe(t));
    }
  }

  lemma Scaled(b: int, low: int, p: int, high: int)
    ensures b + 256 * (low + p * high) == b + 256 * low + 256 * p * high
  {
  }

  lemma Powers()
    ensures Pow256(2) == 0x1_0000 && Pow256(4) == 0x1_0000_0000 && Pow256(8) == TWO64
  {
    assert Pow256(4) == 0x1_0000_0000;
    assert Pow256(8) == 256 * (256 * (256 * (256 * Pow256(4))));
  }
}

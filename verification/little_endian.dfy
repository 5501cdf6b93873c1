/** Little-endian byte strings: the representation SANE uses for every integer field of the
    header and for every element of the payload. */
module LittleEndian {

  /** An octet. */
  type byte = b: int | 0 <= b < 0x100

  /** 256^n: the number of distinct values that n bytes can hold. */
  function Pow256(n: nat): (r: nat)
    ensures r >= 1
  {
    if n == 0 then 1 else 0x100 * Pow256(n - 1)
  }

  /** The n low-order bytes of v, least significant first: Rust's `to_le_bytes` for an
      unsigned integer of n bytes (higher bytes of v, if any, are cut off). */
  function ToLe(v: nat, n: nat): (r: seq<byte>)
    ensures |r| == n
  {
    if n == 0 then [] else [v % 0x100] + ToLe(v / 0x100, n - 1)
  }

  /** The unsigned integer whose little-endian representation is bs: Rust's `from_le_bytes`. */
  function FromLe(bs: seq<byte>): (r: nat)
    ensures r < Pow256(|bs|)
  {
    if |bs| == 0 then 0 else bs[0] + 0x100 * FromLe(bs[1..])
  }

  /** Decoding inverts encoding for every value that fits in n bytes. */
  lemma {:induction false} FromLeToLe(v: nat, n: nat)
    requires v < Pow256(n)
    ensures FromLe(ToLe(v, n)) == v
  {
    if n > 0 {
      FromLeToLe(v / 0x100, n - 1);
      assert ToLe(v, n)[1..] == ToLe(v / 0x100, n - 1);
    }
  }

  /** Encoding inverts decoding: every byte string is the encoding of its value. */
  lemma {:induction false} ToLeFromLe(bs: seq<byte>)
    ensures ToLe(FromLe(bs), |bs|) == bs
  {
    if |bs| > 0 {
      ToLeFromLe(bs[1..]);
      var v := FromLe(bs);
      assert v % 0x100 == bs[0];
      assert v / 0x100 == FromLe(bs[1..]);
      assert bs == [bs[0]] + bs[1..];
    }
  }

  /** Regrouping a concatenation of six byte strings. */
  lemma ConcatAssoc(a: seq<byte>, b: seq<byte>, c: seq<byte>, d: seq<byte>, e: seq<byte>,
                    f: seq<byte>)
    ensures a + (b + (c + (d + (e + f)))) == a + b + c + d + e + f
  {
  }

  /** Regrouping a concatenation of three byte strings. */
  lemma ConcatAssoc3(a: seq<byte>, b: seq<byte>, c: seq<byte>)
    ensures (a + b) + c == a + (b + c)
  {
  }
}

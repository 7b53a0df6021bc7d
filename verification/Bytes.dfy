/** Fixed-width integers as byte sequences, in both byte orders. */
module Bytes {

  type byte = x: int | 0 <= x < 256

  function Pow256(k: nat): (p: nat)
    ensures p > 0
  {
    if k == 0 then 1 else 256 * Pow256(k - 1)
  }

  function ReadBE(bs: seq<byte>): (n: nat)
    ensures n < Pow256(|bs|)
  {
    if bs == [] then 0 else ReadBE(bs[..|bs| - 1]) * 256 + bs[|bs| - 1]
  }

  function WriteBE(v: nat, k: nat): (bs: seq<byte>)
    ensures |bs| == k
  {
    if k == 0 then [] else WriteBE(v / 256, k - 1) + [v % 256]
  }

  function ReadLE(bs: seq<byte>): (n: nat)
    ensures n < Pow256(|bs|)
  {
    if bs == [] then 0 else ReadLE(bs[1..]) * 256 + bs[0]
  }

  function WriteLE(v: nat, k: nat): (bs: seq<byte>)
    ensures |bs| == k
  {
    if k == 0 then [] else [v % 256] + WriteLE(v / 256, k - 1)
  }

  lemma {:induction false} ReadWriteBE(v: nat, k: nat)
    requires v < Pow256(k)
    ensures ReadBE(WriteBE(v, k)) == v
  {
    if k > 0 {
      ReadWriteBE(v / 256, k - 1);
      var bs := WriteBE(v, k);
      assert bs[..k - 1] == WriteBE(v / 256, k - 1);
    }
  }

  lemma {:induction false} WriteReadBE(bs: seq<byte>)
    ensures WriteBE(ReadBE(bs), |bs|) == bs
  {
    if bs != [] {
      var init, last := bs[..|bs| - 1], bs[|bs| - 1];
      WriteReadBE(init);
      DivMod256(ReadBE(init), last);
      assert bs == init + [last];
    }
  }

  lemma DivMod256(q: nat, r: byte)
    ensures (q * 256 + r) / 256 == q && (q * 256 + r) % 256 == r
  {
  }

  lemma {:induction false} ReadWriteLE(v: nat, k: nat)
    requires v < Pow256(k)
    ensures ReadLE(WriteLE(v, k)) == v
  {
    if k > 0 {
      ReadWriteLE(v / 256, k - 1);
      assert WriteLE(v, k)[1..] == WriteLE(v / 256, k - 1);
    }
  }

  lemma {:induction false} WriteReadLE(bs: seq<byte>)
    ensures WriteLE(ReadLE(bs), |bs|) == bs
  {
    if bs != [] {
      WriteReadLE(bs[1..]);
      DivMod256(ReadLE(bs[1..]), bs[0]);
      assert bs == [bs[0]] + bs[1..];
    }
  }

  lemma Widths()
    ensures Pow256(1) == 0x100 && Pow256(2) == 0x1_0000
    ensures Pow256(4) == 0x1_0000_0000 && Pow256(8) == 0x1_0000_0000_0000_0000
  {
    assert Pow256(2) == 256 * Pow256(1);
    assert Pow256(4) == 256 * 256 * Pow256(2);
    assert Pow256(6) == 256 * 256 * Pow256(4);
    assert Pow256(8) == 256 * 256 * Pow256(6);
  }

  /** What the two byte orders mean. */
  lemma OrdersMean(a: byte, b: byte, c: byte, d: byte)
    ensures ReadBE([a, b]) == 0x100 * a + b
    ensures ReadBE([a, b, c, d]) == 0x100_0000 * a + 0x1_0000 * b + 0x100 * c + d
    ensures ReadLE([a, b, c, d]) == a + 0x100 * b + 0x1_0000 * c + 0x100_0000 * d
  {
    assert [a, b, c, d][..3] == [a, b, c] && [a, b, c][..2] == [a, b] && [a, b][..1] == [a];
    assert [a][..0] == [] && ReadBE([a]) == a && ReadBE([a, b]) == 0x100 * a + b;
    assert ReadBE([a, b, c]) == 0x1_0000 * a + 0x100 * b + c;
    assert [a, b, c, d][1..] == [b, c, d] && [b, c, d][1..] == [c, d] && [c, d][1..] == [d];
    assert [d][1..] == [] && ReadLE([d]) == d && ReadLE([c, d]) == c + 0x100 * d;
    assert ReadLE([b, c, d]) == b + 0x100 * c + 0x1_0000 * d;
  }
}

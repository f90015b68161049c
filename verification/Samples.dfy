/** Entries for the examples. */
module Samples {
  import opened Bytes
  import opened LogReplay

  /** n blocks from the given one on, all bytes v. */
  function Fill(block: nat, n: nat, bs: nat, v: byte): Entry { Write(block, seq(n * bs, _ => v)) }

  lemma {:induction false} FillShape(block: nat, n: nat, bs: nat, v: byte)
    requires bs > 0 && n > 0
    ensures Fill(block, n, bs, v).Aligned(bs) && Fill(block, n, bs, v).NumBlocks(bs) == n
    ensures Fill(block, n, bs, v).Length() == n * bs
  {
    MulDivMod(n, bs);
  }
}

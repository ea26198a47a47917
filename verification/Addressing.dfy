/**
 Page addresses. A page index is block * pages_per_block + offset; products and
 quotients are written as repeated addition and subtraction so that proofs stay linear.
 */
module Addressing {
  import opened Arithmetic

  /** i * stride. */
  function Off(i: nat, stride: nat): (o: nat) {
    if i == 0 then 0 else Off(i - 1, stride) + stride
  }

  lemma {:induction false} OffIsProduct(i: nat, stride: nat)
    ensures Off(i, stride) == i * stride
  {
    if i == 0 {
    } else {
      OffIsProduct(i - 1, stride);
      assert i * stride == (i - 1) * stride + stride;
    }
  }

  lemma {:induction false} OffStep(i: nat, j: nat, stride: nat)
    requires i < j
    ensures Off(i, stride) + stride <= Off(j, stride)
    ensures Off(i + 1, stride) == Off(i, stride) + stride
  {
    if i + 1 == j {
    } else {
      OffStep(i, j - 1, stride);
    }
  }

  /** index / ppb. */
  function BlockOf(index: nat, ppb: nat): (b: nat)
    requires ppb > 0
  {
    if index < ppb then 0 else 1 + BlockOf(index - ppb, ppb)
  }

  /** index % ppb. */
  function PageOf(index: nat, ppb: nat): (o: nat)
    requires ppb > 0
    ensures o < ppb
  {
    if index < ppb then index else PageOf(index - ppb, ppb)
  }

  lemma {:induction false} BlockOfIsQuotient(index: nat, ppb: nat)
    requires ppb > 0
    ensures BlockOf(index, ppb) == index / ppb && PageOf(index, ppb) == index % ppb
  {
    if index >= ppb {
      BlockOfIsQuotient(index - ppb, ppb);
      QuotientStep(index, ppb);
    } else {
      assert index / ppb == 0;
    }
  }

  function Addr(b: nat, o: nat, ppb: nat): (index: nat) {
    Off(b, ppb) + o
  }

  /** Splitting the index of page o of block b gives b and o back. */
  lemma {:induction false} AddrSplit(b: nat, o: nat, ppb: nat)
    requires o < ppb
    ensures BlockOf(Addr(b, o, ppb), ppb) == b && PageOf(Addr(b, o, ppb), ppb) == o
  {
    if b == 0 {
    } else {
      AddrSplit(b - 1, o, ppb);
    }
  }

  /** Every index is the address of its block and page, and is below the total iff its block exists. */
  lemma {:induction false} AddrJoin(index: nat, ppb: nat, nbBlocks: nat)
    requires ppb > 0
    ensures Addr(BlockOf(index, ppb), PageOf(index, ppb), ppb) == index
    ensures index < Off(nbBlocks, ppb) <==> BlockOf(index, ppb) < nbBlocks
    decreases index
  {
    if index >= ppb {
      AddrJoin(index - ppb, ppb, if nbBlocks == 0 then 0 else nbBlocks - 1);
    }
  }
}

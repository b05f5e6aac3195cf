/** In-place compaction of a DMA block (adl_pci9118.c) and the scan accounting around it. */
module Pci9118 {
  import opened Word32
  import opened Cyclic
  import opened Decimation

  class Ai {
    const addFront: nat
    const nChan: nat
    const addBack: nat
    const nScanlen: nat

    var actDmapos: nat
    var actScan: u32
    var curChan: nat
    /** What reached Comedi's buffer, and whether a block was turned away. */
    var stored: seq<sampl>
    ghost var dropped: bool
    /** Every raw sample since the command started, and every wanted one among them. */
    ghost var raw: seq<sampl>
    ghost var wanted: seq<sampl>
    /** Scans finished, without the wrap of the 32-bit count. */
    ghost var scans: nat

    /** The samples of a raw scan. */
    function Frame(): (n: nat)
      ensures n - addFront - nChan == addBack
    {
      addFront + nChan + addBack
    }

    /** The wanted samples do not depend on how DMA blocks cut the stream, and the scan counters
        count them. */
    ghost predicate Valid()
      reads this
    {
      && nChan > 0 && nScanlen > 0 && Frame() < TWO_31 && nScanlen < TWO_31
      && actDmapos == Cell(|raw|, Frame())
      && wanted == Keep(raw, 0, Frame(), addFront, addFront + nChan)
      && (!dropped ==> stored == wanted)
      && curChan < nScanlen
      && actScan == Wrap(scans)
      && Samples(scans, nScanlen) + curChan == |wanted|
    }

    constructor (addFront: nat, nChan: nat, addBack: nat, nScanlen: nat)
      requires nChan > 0 && nScanlen > 0 && addFront + nChan + addBack < TWO_31 && nScanlen < TWO_31
      ensures Valid() && raw == [] && !dropped
    {
      this.addFront, this.nChan, this.addBack, this.nScanlen := addFront, nChan, addBack, nScanlen;
      actDmapos, actScan, curChan := 0, 0, 0;
      stored, raw, wanted, scans, dropped := [], [], [], 0, false;
    }

    /** defragment_dma_buffer: moves the wanted samples to the front of the block; a sample is only
        overwritten after it was read. */
    method Defragment(dmaBuffer: array<sampl>, numSamples: nat) returns (kept: nat)
      requires nChan > 0 && actDmapos < Frame() && numSamples <= dmaBuffer.Length
      modifies this`actDmapos, dmaBuffer
      ensures kept <= numSamples
      ensures dmaBuffer[..kept] ==
        Keep(old(dmaBuffer[..numSamples]), old(actDmapos), Frame(), addFront, addFront + nChan)
      ensures dmaBuffer[numSamples..] == old(dmaBuffer[numSamples..])
      ensures actDmapos == Cell(old(actDmapos) + numSamples, Frame())
    {
      hide Cell, Keep;
      var startPos, stopPos := addFront, addFront + nChan;
      var rawScanlen := addFront + nChan + addBack;
      ghost var before := dmaBuffer[..];
      var i, j := 0, 0;
      NothingKept(actDmapos, rawScanlen, startPos, stopPos);
      while i < numSamples
        invariant j <= i <= numSamples
        invariant actDmapos == Cell(old(actDmapos) + i, rawScanlen)
        invariant dmaBuffer[..j] == Keep(before[..i], old(actDmapos), rawScanlen, startPos, stopPos)
        invariant dmaBuffer[i..] == before[i..]
      {
        OneMoreSample(before, i, old(actDmapos), rawScanlen, startPos, stopPos);
        assert dmaBuffer[i] == before[i] by { assert dmaBuffer[i..][0] == before[i..][0]; }
        assert dmaBuffer[i + 1..] == before[i + 1..] by { Tail(dmaBuffer[..], before, i); }
        if startPos <= actDmapos && actDmapos < stopPos {
          dmaBuffer[j] := dmaBuffer[i];
          j := j + 1;
        }
        NextPos(old(actDmapos) + i, rawScanlen);
        actDmapos := actDmapos + 1;
        actDmapos := actDmapos % rawScanlen;
        i := i + 1;
      }
      kept := j;
      assert before[..numSamples] == old(dmaBuffer[..numSamples]);
    }

    /** move_block_from_dma: compacts a block, counts its scans and offers the wanted samples to
        Comedi's buffer, which takes all of them if they fit, or none. */
    method MoveBlock(dmaBuffer: array<sampl>, numSamples: nat, fits: bool) returns (ret: int, ghost block: seq<sampl>)
      requires Valid() && numSamples <= dmaBuffer.Length < TWO_31
      modifies this, dmaBuffer
      ensures Valid()
      ensures raw == old(raw) + old(dmaBuffer[..numSamples])
      ensures wanted == old(wanted) + block && block <= dmaBuffer[..]
      ensures ret == 0 <==> fits || block == []
      ensures if ret == 0 then dropped == old(dropped) else ret == -1 && dropped
      ensures stored == if fits then old(stored) + block else old(stored)
    {
      hide Cell, Keep, Wrap, Samples;
      var kept := Defragment(dmaBuffer, numSamples);
      block := dmaBuffer[..kept];
      KeepOfConcat(raw, old(dmaBuffer[..numSamples]), 0, Frame(), addFront, addFront + nChan);
      CellOfSum(|raw|, numSamples, Frame());
      CellOfSmall(0, Frame());
      raw := raw + old(dmaBuffer[..numSamples]);
      CountScans(scans, curChan, kept, nScanlen);
      actScan := Wrap(actScan + (curChan + kept) / nScanlen);
      scans := scans + (curChan + kept) / nScanlen;
      curChan := curChan + kept;
      curChan := curChan % nScanlen;
      wanted := wanted + block;
      var numStored := 0;
      if fits {
        stored := stored + dmaBuffer[..kept];
        numStored := kept;
      }
      if numStored < kept {
        dropped := true;
        return -1, block;
      }
      ret := 0;
    }
  }

  lemma NothingKept(pos: nat, frame: nat, lo: nat, hi: nat)
    requires pos < frame
    ensures Keep([], pos, frame, lo, hi) == [] && Cell(pos, frame) == pos
  {
  }

  lemma Tail(a: seq<sampl>, b: seq<sampl>, i: nat)
    requires i < |a| == |b| && a[i..] == b[i..]
    ensures a[i + 1..] == b[i + 1..]
  {
    assert a[i + 1..] == a[i..][1..];
  }

  /** Keeping one sample more. */
  lemma OneMoreSample(s: seq<sampl>, i: nat, pos: nat, frame: nat, lo: nat, hi: nat)
    requires pos < frame && i < |s|
    ensures Keep(s[..i + 1], pos, frame, lo, hi) == Keep(s[..i], pos, frame, lo, hi) +
      (if lo <= Cell(pos + i, frame) < hi then [s[i]] else [])
  {
    hide Cell;
    assert s[..i + 1] == s[..i] + [s[i]];
    KeepOfConcat(s[..i], [s[i]], pos, frame, lo, hi);
    KeepSingle(s[i], Cell(pos + i, frame), frame, lo, hi);
  }

  lemma KeepSingle(x: sampl, pos: nat, frame: nat, lo: nat, hi: nat)
    requires pos < frame
    ensures Keep([x], pos, frame, lo, hi) == if lo <= pos < hi then [x] else []
  {
    assert [x][1..] == [];
  }

  lemma NextPos(p: nat, n: nat)
    requires n > 0
    ensures (Cell(p, n) + 1) % n == Cell(p + 1, n)
  {
    CellIsMod(Cell(p, n) + 1, n);
    CellOfSum(p, 1, n);
  }

  function Samples(scans: nat, len: nat): nat {
    scans * len
  }

  /** Scans finished and position within the scan, after `kept` more samples. */
  lemma CountScans(scans: nat, cur: nat, kept: nat, len: nat)
    requires len > 0
    ensures (cur + kept) / len >= 0
    ensures var s := scans + (cur + kept) / len;
      && Samples(s, len) + (cur + kept) % len == Samples(scans, len) + cur + kept
      && Wrap(Wrap(scans) + (cur + kept) / len) == Wrap(s)
  {
    var d := (cur + kept) / len;
    assert cur + kept == len * d + (cur + kept) % len;
    assert (scans + d) * len == scans * len + len * d;
    WrapOfSum(scans, d);
  }
}

/** What the three-stage buffer means: a growing stream of committed bytes, of which a prefix has
    been munged, a prefix claimed by the reader and a prefix handed back, laid out cyclically. */
module RingSpec {
  import opened Cyclic

  /** A driver's per-sample conversion: it sees the channel index and one sample's bytes. */
  type SampleConversion = f: (nat, seq<byte>) -> seq<byte> | forall c, s :: |f(c, s)| == |s|
    witness (c: nat, s: seq<byte>) => s

  /** How samples pass through the buffer; inactive means raw bytes are left alone. */
  datatype Munger = Munger(active: bool, lsampl: bool, chans: nat, convert: SampleConversion)

  /** All positions count from the last reset, without wrap-around. */
  datatype Ring = Ring(committed: seq<byte>, writeAlloc: nat, munged: nat, readAlloc: nat, read: nat)

  const EMPTY_RING := Ring([], 0, 0, 0, 0)

  function SampleBytes(lsampl: bool): nat { if lsampl then 4 else 2 }

  function SampleIndex(lsampl: bool, p: nat): nat { if lsampl then p / 4 else p / 2 }

  function SampleStart(lsampl: bool, p: nat): nat { if lsampl then p / 4 * 4 else p / 2 * 2 }

  function PartialBytes(lsampl: bool, p: nat): nat { if lsampl then p % 4 else p % 2 }

  /** A position is a whole number of samples and a part of one. */
  lemma Parts(lsampl: bool, p: nat)
    ensures SampleStart(lsampl, p) == if lsampl then 4 * SampleIndex(lsampl, p) else 2 * SampleIndex(lsampl, p)
    ensures p == SampleStart(lsampl, p) + PartialBytes(lsampl, p)
    ensures PartialBytes(lsampl, p) < SampleBytes(lsampl)
  {
  }

  lemma SampleOffset(lsampl: bool, k: nat, i: nat)
    requires i < SampleBytes(lsampl)
    ensures var start := if lsampl then 4 * k else 2 * k;
      && SampleIndex(lsampl, start + i) == k
      && SampleStart(lsampl, start + i) == start
      && PartialBytes(lsampl, start + i) == i
  {
  }

  /** The bytes of the whole sample that starts at `start`. */
  function SampleAt(lsampl: bool, s: seq<byte>, start: nat): (sample: seq<byte>)
    requires start + SampleBytes(lsampl) <= |s|
    ensures |sample| == SampleBytes(lsampl)
  {
    if lsampl then [s[start], s[start + 1], s[start + 2], s[start + 3]] else [s[start], s[start + 1]]
  }

  /** Read <= claimed <= munged <= written <= granted to the writer <= one buffer past read. */
  ghost predicate Chain(r: Ring, bufsz: nat) {
    r.read <= r.readAlloc <= r.munged <= |r.committed| <= r.writeAlloc <= r.read + bufsz
  }

  /** Everything that can be munged has been: less than one sample ever waits. */
  ghost function MungedLength(m: Munger, written: nat): nat {
    if m.active then SampleStart(m.lsampl, written) else written
  }

  /** The sample holding a munged byte lies wholly within what was written. */
  lemma WholeSample(lsampl: bool, p: nat, written: nat)
    requires p < SampleStart(lsampl, written)
    ensures SampleStart(lsampl, p) + SampleBytes(lsampl) <= written
    ensures PartialBytes(lsampl, p) < SampleBytes(lsampl)
  {
    hide SampleIndex, SampleStart, PartialBytes;
    Parts(lsampl, p);
    Parts(lsampl, written);
    if lsampl {} else {}
  }

  lemma WholeSampleOf(lsampl: bool, p: nat, bytes: nat)
    requires p < bytes && PartialBytes(lsampl, bytes) == 0
    ensures SampleStart(lsampl, p) + SampleBytes(lsampl) <= bytes
    ensures PartialBytes(lsampl, p) < SampleBytes(lsampl)
  {
    hide SampleIndex, SampleStart, PartialBytes;
    Parts(lsampl, bytes);
    WholeSample(lsampl, p, bytes);
  }

  /** Byte `p` of the stream the reader is entitled to. */
  ghost function StreamByte(m: Munger, committed: seq<byte>, p: nat): byte
    requires m.chans > 0 && p < MungedLength(m, |committed|)
  {
    if m.active then
      WholeSample(m.lsampl, p, |committed|);
      m.convert(Cell(SampleIndex(m.lsampl, p), m.chans),
                SampleAt(m.lsampl, committed, SampleStart(m.lsampl, p)))[PartialBytes(m.lsampl, p)]
    else
      committed[p]
  }

  ghost function Stream(m: Munger, committed: seq<byte>): seq<byte>
    requires m.chans > 0
  {
    seq(MungedLength(m, |committed|), p requires 0 <= p < MungedLength(m, |committed|) =>
      StreamByte(m, committed, p))
  }

  /** The `k` bytes laid out from stream position `from` on. */
  ghost function Region(cells: seq<byte>, from: nat, k: nat): seq<byte>
    requires |cells| > 0
  {
    seq(k, i requires 0 <= i => At(cells, from + i))
  }

  /** Cells between read and munged hold stream bytes, those between munged and written the
      committed bytes still to be munged. */
  ghost predicate Stores(cells: seq<byte>, m: Munger, r: Ring)
    requires |cells| > 0 && m.chans > 0 && r.munged <= MungedLength(m, |r.committed|)
  {
    && (forall p | r.read <= p < r.munged :: At(cells, p) == StreamByte(m, r.committed, p))
    && (forall p | r.munged <= p < |r.committed| :: At(cells, p) == r.committed[p])
  }

  /** Where sample `k` starts. */
  function StartOf(lsampl: bool, k: nat): nat { if lsampl then 4 * k else 2 * k }

  /** Every whole sample committed between `from` and `to` lies converted in its cells, sample `k` with
      channel index `k` modulo the channel list length. */
  ghost predicate Converted(cells: seq<byte>, lsampl: bool, chans: nat, convert: SampleConversion,
                            committed: seq<byte>, from: nat, to: nat)
    requires |cells| > 0 && chans > 0 && to <= |committed|
  {
    forall k: nat | from <= StartOf(lsampl, k) && StartOf(lsampl, k) + SampleBytes(lsampl) <= to ::
      var start := StartOf(lsampl, k);
      var end := start + SampleBytes(lsampl);
      Region(cells, start, SampleBytes(lsampl)) == convert(k % chans, committed[start..end])
  }

  // ---------------------------------------------------------------- the byte queue

  ghost function Room(r: Ring, bufsz: nat): int {
    r.read + bufsz - r.writeAlloc
  }

  ghost function GrantWrite(r: Ring, n: nat): Ring {
    r.(writeAlloc := r.writeAlloc + n)
  }

  ghost function Commit(m: Munger, r: Ring, data: seq<byte>): Ring {
    r.(committed := r.committed + data, munged := MungedLength(m, |r.committed + data|))
  }

  ghost function GrantRead(r: Ring, n: nat): Ring {
    r.(readAlloc := r.readAlloc + n)
  }

  ghost function Release(r: Ring, n: nat): Ring {
    r.(read := r.read + n)
  }

  // ---------------------------------------------------------------- layout lemmas

  lemma StreamByteStable(m: Munger, committed: seq<byte>, data: seq<byte>, p: nat)
    requires m.chans > 0 && p < MungedLength(m, |committed|)
    ensures p < MungedLength(m, |committed + data|)
    ensures StreamByte(m, committed + data, p) == StreamByte(m, committed, p)
  {
    if m.active {
      SampleStable(m.lsampl, committed, data, p);
    }
  }

  lemma SampleStable(lsampl: bool, committed: seq<byte>, data: seq<byte>, p: nat)
    requires p < SampleStart(lsampl, |committed|)
    ensures SampleStart(lsampl, |committed|) <= SampleStart(lsampl, |committed + data|)
    ensures SampleStart(lsampl, p) + SampleBytes(lsampl) <= |committed|
    ensures SampleAt(lsampl, committed + data, SampleStart(lsampl, p))
         == SampleAt(lsampl, committed, SampleStart(lsampl, p))
  {
    hide SampleIndex, SampleStart, PartialBytes;
    WholeSample(lsampl, p, |committed|);
    Parts(lsampl, |committed|);
    Parts(lsampl, |committed + data|);
  }

  lemma StreamLengthGrows(m: Munger, written: nat, k: nat)
    ensures MungedLength(m, written) <= MungedLength(m, written + k)
  {
    hide SampleIndex, SampleStart, PartialBytes;
    Parts(m.lsampl, written);
    Parts(m.lsampl, written + k);
  }

  /** Bytes already in the stream do not change when more are committed. */
  lemma StreamOnlyGrows(m: Munger, committed: seq<byte>, data: seq<byte>)
    requires m.chans > 0
    ensures Stream(m, committed) <= Stream(m, committed + data)
  {
    hide StreamByte, SampleStart;
    StreamLengthGrows(m, |committed|, |data|);
    forall p: nat | p < MungedLength(m, |committed|)
      ensures p < MungedLength(m, |committed + data|)
      ensures Stream(m, committed + data)[p] == Stream(m, committed)[p]
    {
      StreamByteStable(m, committed, data, p);
    }
  }

  lemma CommitKeepsStores(cells: seq<byte>, m: Munger, r: Ring, k: nat)
    requires 0 < |cells| && m.chans > 0 && Chain(r, |cells|)
    requires r.munged <= MungedLength(m, |r.committed|)
    requires |r.committed| + k <= r.writeAlloc
    requires Stores(cells, m, r)
    ensures Stores(cells, m, r.(committed := r.committed + Region(cells, |r.committed|, k)))
  {
    hide Cell, StreamByte, SampleStart;
    var data := Region(cells, |r.committed|, k);
    StreamLengthGrows(m, |r.committed|, k);
    forall p: nat | r.read <= p < r.munged
      ensures p < MungedLength(m, |r.committed + data|)
      ensures At(cells, p) == StreamByte(m, r.committed + data, p)
    {
      StreamByteStable(m, r.committed, data, p);
    }
    assert r.munged <= MungedLength(m, |r.committed + data|);
  }

  /** Two layouts that agree on every cell between read and written store the same stream. */
  lemma SameCellsSameStores(cells: seq<byte>, cells': seq<byte>, m: Munger, r: Ring)
    requires |cells'| == |cells| > 0 && m.chans > 0
    requires r.read <= r.munged <= MungedLength(m, |r.committed|)
    requires Stores(cells, m, r)
    requires forall p | r.read <= p < |r.committed| :: At(cells', p) == At(cells, p)
    ensures Stores(cells', m, r)
  {
  }

  /** Writer cells and reader cells are physically disjoint. */
  lemma WriterReaderDisjoint(r: Ring, bufsz: nat, p: nat, q: nat)
    requires bufsz > 0 && Chain(r, bufsz)
    requires r.read <= p < |r.committed| <= q < r.writeAlloc
    ensures Cell(p, bufsz) != Cell(q, bufsz)
  {
    CellInjective(p, q, bufsz);
  }

  /** What the callback writes at offset `i` of a block whose first sample has channel `chan`. */
  ghost function MungedByte(m: Munger, data: seq<byte>, chan: nat, i: nat): byte
    requires m.chans > 0 && i < |data| && PartialBytes(m.lsampl, |data|) == 0
  {
    WholeSampleOf(m.lsampl, i, |data|);
    m.convert(Cell(chan + SampleIndex(m.lsampl, i), m.chans),
              SampleAt(m.lsampl, data, SampleStart(m.lsampl, i)))[PartialBytes(m.lsampl, i)]
  }

  lemma MungedByteIsStreamByte(m: Munger, r: Ring, data: seq<byte>, i: nat)
    requires m.chans > 0 && m.active && i < |data| && PartialBytes(m.lsampl, |data|) == 0
    requires PartialBytes(m.lsampl, r.munged) == 0 && r.munged + |data| <= |r.committed|
    requires data == r.committed[r.munged..r.munged + |data|]
    ensures MungedByte(m, data, Cell(SampleIndex(m.lsampl, r.munged), m.chans), i)
         == StreamByte(m, r.committed, r.munged + i)
  {
    hide Cell, SampleIndex, SampleStart, PartialBytes;
    Parts(m.lsampl, |r.committed|);
    WholeSampleOf(m.lsampl, i, |data|);
    CellOfSum(SampleIndex(m.lsampl, r.munged), SampleIndex(m.lsampl, i), m.chans);
    SampleInBlock(m.lsampl, r.committed, r.munged, data, i);
  }

  lemma SampleInBlock(lsampl: bool, s: seq<byte>, from: nat, data: seq<byte>, i: nat)
    requires PartialBytes(lsampl, from) == 0 && PartialBytes(lsampl, |data|) == 0
    requires from + |data| <= |s| && data == s[from..from + |data|] && i < |data|
    requires SampleStart(lsampl, i) + SampleBytes(lsampl) <= |data|
    ensures SampleIndex(lsampl, from + i) == SampleIndex(lsampl, from) + SampleIndex(lsampl, i)
    ensures PartialBytes(lsampl, from + i) == PartialBytes(lsampl, i)
    ensures SampleStart(lsampl, from + i) == from + SampleStart(lsampl, i)
    ensures SampleAt(lsampl, data, SampleStart(lsampl, i)) == SampleAt(lsampl, s, from + SampleStart(lsampl, i))
  {
    hide SampleIndex, SampleStart, PartialBytes;
    Parts(lsampl, from);
    Parts(lsampl, i);
    SampleOffset(lsampl, SampleIndex(lsampl, from) + SampleIndex(lsampl, i), PartialBytes(lsampl, i));
  }

  /** The cells of a block that does not run over the end of the buffer. */
  lemma ContiguousBlock(p: nat, k: nat, n: nat, q: nat)
    requires n > 0 && Cell(p, n) + k <= n && p <= q < p + n
    ensures Cell(p, n) <= Cell(q, n) < Cell(p, n) + k <==> q < p + k
    ensures q < p + k ==> Cell(q, n) == Cell(p, n) + (q - p)
  {
    CellStep(p, q - p, n);
  }

  lemma OutsideBlock(p: nat, k: nat, n: nat, q: nat)
    requires n > 0 && Cell(p, n) + k <= n && q < p && p + k <= q + n
    ensures !(Cell(p, n) <= Cell(q, n) < Cell(p, n) + k)
  {
    CellStep(q, p - q, n);
  }

  /** One call of the munge callback on the contiguous block that starts at the munge position. */
  lemma MungeBlockKeepsStores(cells: seq<byte>, cells': seq<byte>, m: Munger, r: Ring, block: nat)
    requires |cells'| == |cells| > 0 && m.chans > 0 && m.active && Chain(r, |cells|)
    requires PartialBytes(m.lsampl, r.munged) == 0 && PartialBytes(m.lsampl, block) == 0
    requires r.munged + block <= MungedLength(m, |r.committed|) <= |r.committed|
    requires Cell(r.munged, |cells|) + block <= |cells|
    requires Stores(cells, m, r)
    requires CallbackRan(cells, cells', m, r.munged, block)
    ensures Stores(cells', m, r.(munged := r.munged + block))
  {
    hide Cell, StreamByte, MungedByte, MungedLength, PartialBytes, SampleIndex;
    var n := |cells|;
    forall p: nat | r.munged <= p < r.munged + block
      ensures At(cells', p) == StreamByte(m, r.committed, p)
    {
      MungedCell(cells, cells', m, r, block, p);
    }
    forall p: nat | r.read <= p < |r.committed| && !(r.munged <= p < r.munged + block)
      ensures At(cells', p) == At(cells, p)
    {
      if p < r.munged {
        OutsideBlock(r.munged, block, n, p);
      } else {
        ContiguousBlock(r.munged, block, n, p);
      }
    }
  }

  /** The callback rewrote the block at the cell of `munged` and nothing else. */
  ghost predicate CallbackRan(cells: seq<byte>, cells': seq<byte>, m: Munger, munged: nat, block: nat)
    requires |cells'| == |cells| > 0 && m.chans > 0 && PartialBytes(m.lsampl, block) == 0
    requires Cell(munged, |cells|) + block <= |cells|
  {
    var ptr := Cell(munged, |cells|);
    var chan := Cell(SampleIndex(m.lsampl, munged), m.chans);
    BlockMunged(cells, cells', m, ptr, block, chan)
  }

  /** The callback's effect on the bytes from cell `ptr` on. */
  ghost predicate BlockMunged(cells: seq<byte>, cells': seq<byte>, m: Munger, ptr: nat, block: nat, chan: nat)
    requires m.chans > 0 && PartialBytes(m.lsampl, block) == 0 && ptr + block <= |cells| == |cells'|
  {
    var data := cells[ptr..ptr + block];
    && (forall c | 0 <= c < |cells| && !(ptr <= c < ptr + block) :: cells'[c] == cells[c])
    && (forall c | ptr <= c < ptr + block :: cells'[c] == MungedByte(m, data, chan, c - ptr))
  }

  /** The cells of the positions from `from` up to `to` hold what they held. */
  ghost predicate Untouched(cells: seq<byte>, cells': seq<byte>, from: nat, to: nat)
    requires |cells| > 0 && |cells'| > 0
  {
    forall p | from <= p < to :: At(cells', p) == At(cells, p)
  }

  lemma UntouchedTwice(a: seq<byte>, b: seq<byte>, c: seq<byte>, from: nat, to: nat)
    requires |a| > 0 && |b| > 0 && |c| > 0
    requires Untouched(a, b, from, to) && Untouched(b, c, from, to)
    ensures Untouched(a, c, from, to)
  {
    hide At;
    forall p | from <= p < to ensures At(c, p) == At(a, p) {
      assert At(b, p) == At(a, p);
    }
  }

  /** Munging leaves alone what the writer was granted and has not committed. */
  lemma BlockLeavesGranted(cells: seq<byte>, cells': seq<byte>, m: Munger, r: Ring, block: nat)
    requires |cells'| == |cells| > 0 && m.chans > 0 && Chain(r, |cells|)
    requires PartialBytes(m.lsampl, block) == 0
    requires r.munged + block <= |r.committed| && Cell(r.munged, |cells|) + block <= |cells|
    requires CallbackRan(cells, cells', m, r.munged, block)
    ensures Untouched(cells, cells', |r.committed|, r.writeAlloc)
  {
    hide Cell, MungedByte, PartialBytes, SampleIndex;
    forall p: nat | |r.committed| <= p < r.writeAlloc ensures At(cells', p) == At(cells, p) {
      ContiguousBlock(r.munged, block, |cells|, p);
    }
  }

  lemma OneSample(m: Munger, data: seq<byte>, chan: nat, pos: nat)
    requires m.chans > 0 && PartialBytes(m.lsampl, |data|) == 0
    requires pos < |data| && PartialBytes(m.lsampl, pos) == 0
    ensures pos + SampleBytes(m.lsampl) <= |data|
    ensures PartialBytes(m.lsampl, pos + SampleBytes(m.lsampl)) == 0
    ensures forall i | pos <= i < pos + SampleBytes(m.lsampl) ::
      MungedByte(m, data, chan, i)
        == m.convert(Cell(chan + SampleIndex(m.lsampl, pos), m.chans), SampleAt(m.lsampl, data, pos))[i - pos]
  {
    hide Cell, SampleIndex, SampleStart, PartialBytes;
    WholeSampleOf(m.lsampl, pos, |data|);
    Parts(m.lsampl, pos);
    SampleOffset(m.lsampl, SampleIndex(m.lsampl, pos) + 1, 0);
    forall i | pos <= i < pos + SampleBytes(m.lsampl)
      ensures MungedByte(m, data, chan, i)
        == m.convert(Cell(chan + SampleIndex(m.lsampl, pos), m.chans), SampleAt(m.lsampl, data, pos))[i - pos]
    {
      SampleOffset(m.lsampl, SampleIndex(m.lsampl, pos), i - pos);
    }
  }

  lemma MungedCell(cells: seq<byte>, cells': seq<byte>, m: Munger, r: Ring, block: nat, p: nat)
    requires |cells'| == |cells| > 0 && m.chans > 0 && m.active && Chain(r, |cells|)
    requires PartialBytes(m.lsampl, r.munged) == 0 && PartialBytes(m.lsampl, block) == 0
    requires r.munged + block <= MungedLength(m, |r.committed|) <= |r.committed|
    requires Cell(r.munged, |cells|) + block <= |cells|
    requires Stores(cells, m, r)
    requires CallbackRan(cells, cells', m, r.munged, block)
    requires r.munged <= p < r.munged + block
    ensures At(cells', p) == StreamByte(m, r.committed, p)
  {
    hide Cell, PartialBytes, MungedByte, StreamByte, MungedLength;
    var ptr := Cell(r.munged, |cells|);
    var data := cells[ptr..ptr + block];
    BlockIsCommitted(cells, m, r, block);
    MungedByteIsStreamByte(m, r, data, p - r.munged);
    ContiguousBlock(r.munged, block, |cells|, p);
  }

  lemma BlockIsCommitted(cells: seq<byte>, m: Munger, r: Ring, block: nat)
    requires |cells| > 0 && m.chans > 0 && Chain(r, |cells|)
    requires r.munged + block <= |r.committed| && r.munged <= MungedLength(m, |r.committed|)
    requires Cell(r.munged, |cells|) + block <= |cells|
    requires Stores(cells, m, r)
    ensures var ptr := Cell(r.munged, |cells|);
      cells[ptr..ptr + block] == r.committed[r.munged..r.munged + block]
  {
    hide Cell, MungedLength;
    var ptr := Cell(r.munged, |cells|);
    var data := cells[ptr..ptr + block];
    forall q: nat | r.munged <= q < r.munged + block ensures data[q - r.munged] == r.committed[q] {
      ContiguousBlock(r.munged, block, |cells|, q);
      assert At(cells, q) == r.committed[q];
    }
    forall i | 0 <= i < block ensures data[i] == r.committed[r.munged..r.munged + block][i] {
      assert r.committed[r.munged + i] == data[r.munged + i - r.munged];
    }
  }

  /** A contiguous copy at the cell of `p` puts `block` at positions p.. and disturbs no other
      position of the lap that starts at `low`. */
  lemma BlockWritten(cells: seq<byte>, cells': seq<byte>, p: nat, block: seq<byte>, low: nat)
    requires |cells| == |cells'| > 0 && low <= p && p + |block| <= low + |cells|
    requires Cell(p, |cells|) + |block| <= |cells|
    requires forall c | 0 <= c < |cells| ::
      var at := Cell(p, |cells|);
      cells'[c] == (if at <= c < at + |block| then block[c - at] else cells[c])
    ensures forall q | low <= q < low + |cells| ::
      At(cells', q) == (if p <= q < p + |block| then block[q - p] else At(cells, q))
  {
    forall q: nat | low <= q < low + |cells|
      ensures At(cells', q) == if p <= q < p + |block| then block[q - p] else At(cells, q)
    {
      hide Cell;
      if q < p {
        OutsideBlock(p, |block|, |cells|, q);
      } else {
        ContiguousBlock(p, |block|, |cells|, q);
      }
    }
  }

  lemma BlockRead(cells: seq<byte>, p: nat, k: nat)
    requires |cells| > 0 && Cell(p, |cells|) + k <= |cells|
    ensures forall q | p <= q < p + k :: At(cells, q) == cells[Cell(p, |cells|)..Cell(p, |cells|) + k][q - p]
  {
    forall q: nat | p <= q < p + k
      ensures At(cells, q) == cells[Cell(p, |cells|)..Cell(p, |cells|) + k][q - p]
    {
      hide Cell;
      ContiguousBlock(p, k, |cells|, q);
    }
  }

  lemma RegionIs(cells: seq<byte>, from: nat, data: seq<byte>)
    requires |cells| > 0
    requires forall p | from <= p < from + |data| :: At(cells, p) == data[p - from]
    ensures Region(cells, from, |data|) == data
  {
    hide At;
    forall i: nat | i < |data| ensures Region(cells, from, |data|)[i] == data[i] {
      assert At(cells, from + i) == data[from + i - from];
    }
  }

  lemma CopiedIsStream(cells: seq<byte>, m: Munger, r: Ring, base: nat, dest: seq<byte>)
    requires |cells| > 0 && m.chans > 0 && Chain(r, |cells|) && r.munged <= MungedLength(m, |r.committed|)
    requires Stores(cells, m, r)
    requires r.read <= base && base + |dest| <= r.munged
    requires forall p | base <= p < base + |dest| :: dest[p - base] == At(cells, p)
    ensures dest == Stream(m, r.committed)[base..base + |dest|]
  {
    hide At, StreamByte, MungedLength;
    var want := Stream(m, r.committed)[base..base + |dest|];
    forall i: nat | i < |dest| ensures dest[i] == want[i] {
      assert dest[base + i - base] == At(cells, base + i);
    }
  }

  /** What is munged of `written` bytes, for a driver that munges. */
  lemma WholeSampleLength(m: Munger, written: nat)
    requires m.active
    ensures MungedLength(m, written) <= written < MungedLength(m, written) + SampleBytes(m.lsampl)
    ensures PartialBytes(m.lsampl, MungedLength(m, written)) == 0
  {
    hide SampleIndex, SampleStart, PartialBytes;
    Parts(m.lsampl, written);
    SampleOffset(m.lsampl, SampleIndex(m.lsampl, written), 0);
  }

  /** Stored stream bytes are converted samples. */
  lemma StoredIsConverted(cells: seq<byte>, m: Munger, r: Ring, from: nat)
    requires |cells| > 0 && m.chans > 0 && m.active && r.read <= from
    requires r.munged <= MungedLength(m, |r.committed|) && r.munged <= |r.committed| && Stores(cells, m, r)
    ensures Converted(cells, m.lsampl, m.chans, m.convert, r.committed, from, r.munged)
  {
    hide At, Cell, Stores, StreamByte, MungedLength, SampleIndex, SampleStart, PartialBytes;
    forall k: nat | from <= StartOf(m.lsampl, k) && StartOf(m.lsampl, k) + SampleBytes(m.lsampl) <= r.munged
      ensures var start := StartOf(m.lsampl, k);
        var end := start + SampleBytes(m.lsampl);
        Region(cells, start, SampleBytes(m.lsampl)) == m.convert(k % m.chans, r.committed[start..end])
    {
      OneConverted(cells, m, r, k);
    }
  }

  lemma OneConverted(cells: seq<byte>, m: Munger, r: Ring, k: nat)
    requires |cells| > 0 && m.chans > 0 && m.active && r.read <= StartOf(m.lsampl, k)
    requires r.munged <= MungedLength(m, |r.committed|) && r.munged <= |r.committed| && Stores(cells, m, r)
    requires StartOf(m.lsampl, k) + SampleBytes(m.lsampl) <= r.munged
    ensures var start := StartOf(m.lsampl, k);
      var end := start + SampleBytes(m.lsampl);
      Region(cells, start, SampleBytes(m.lsampl)) == m.convert(k % m.chans, r.committed[start..end])
  {
    hide At, Cell, MungedLength, SampleIndex, SampleStart, PartialBytes;
    CellIsMod(k, m.chans);
    var start := StartOf(m.lsampl, k);
    var sample := r.committed[start..start + SampleBytes(m.lsampl)];
    SampleOffset(m.lsampl, k, 0);
    assert sample == SampleAt(m.lsampl, r.committed, start);
    var want := m.convert(k % m.chans, sample);
    forall i: nat | i < SampleBytes(m.lsampl) ensures At(cells, start + i) == want[i] {
      SampleOffset(m.lsampl, k, i);
      assert At(cells, start + i) == StreamByte(m, r.committed, start + i);
    }
    forall p: nat | start <= p < start + |want| ensures At(cells, p) == want[p - start] {
      assert At(cells, start + (p - start)) == want[p - start];
    }
    RegionIs(cells, start, want);
  }
}

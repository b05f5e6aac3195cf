/** What a client of the buffer sees over whole runs: a byte queue whose items are munged sample
    by sample, however the writes, the reads and the counters' wraps fall. */
module BufferRuns {
  import opened Word32
  import opened Cyclic
  import opened RingSpec
  import opened AsyncBuffer

  /** Two commits munge exactly what one commit of the concatenation munges. */
  lemma MungingIgnoresChunking(m: Munger, r: Ring, a: seq<byte>, b: seq<byte>)
    ensures Commit(m, Commit(m, r, a), b) == Commit(m, r, a + b)
  {
    assert r.committed + a + b == r.committed + (a + b);
  }

  /** Sample `k` of the stream is sample `k` as committed, converted once, with channel index
      `k` modulo the channel list length. */
  lemma SampleOfStream(m: Munger, committed: seq<byte>, k: nat)
    requires m.active && m.chans > 0
    requires StartOf(m.lsampl, k) + SampleBytes(m.lsampl) <= |committed|
    ensures var start := StartOf(m.lsampl, k);
      var end := start + SampleBytes(m.lsampl);
      && end <= |Stream(m, committed)|
      && Stream(m, committed)[start..end] == m.convert(k % m.chans, committed[start..end])
  {
    hide Cell, MungedLength, SampleIndex, SampleStart, PartialBytes;
    CellIsMod(k, m.chans);
    var start := StartOf(m.lsampl, k);
    var end := start + SampleBytes(m.lsampl);
    WholeSampleMunged(m, k, |committed|);
    var sample := committed[start..end];
    assert sample == SampleAt(m.lsampl, committed, start);
    var got, want := Stream(m, committed)[start..end], m.convert(k % m.chans, sample);
    forall i: nat | i < SampleBytes(m.lsampl) ensures got[i] == want[i] {
      SampleOffset(m.lsampl, k, i);
      assert got[i] == StreamByte(m, committed, start + i);
    }
  }

  lemma WholeSampleMunged(m: Munger, k: nat, written: nat)
    requires m.active && StartOf(m.lsampl, k) + SampleBytes(m.lsampl) <= written
    ensures StartOf(m.lsampl, k) + SampleBytes(m.lsampl) <= MungedLength(m, written)
  {
    hide SampleIndex, SampleStart, PartialBytes;
    Parts(m.lsampl, written);
  }

  /** Less than one sample ever waits to be munged. */
  lemma LessThanOneSampleWaits(m: Munger, written: nat)
    ensures MungedLength(m, written) <= written < MungedLength(m, written) + SampleBytes(m.lsampl)
  {
    hide SampleIndex, SampleStart, PartialBytes;
    Parts(m.lsampl, written);
  }

  // ---------------------------------------------------------------- a byte queue

  /** A request the buffer is specified for: less than 2^31 bytes. */
  type request = n: int | 0 <= n < 0x8000_0000

  datatype Op =
    | AllocWrite(n: request)
    | Fill(offset: u32, data: seq<byte>)
    | FreeWrite(n: request)
    | AllocRead(n: request)
    | FreeRead(n: request)

  /** A byte the writer has put there, or whatever a granted cell held before. */
  datatype Filled = Old | Put(b: byte)

  /** The queue a client thinks of: what was committed, what is granted and may be filled, what the
      reader has claimed, and what it has handed back. */
  datatype Queue = Queue(committed: seq<Filled>, granted: seq<Filled>, readAlloc: nat, read: nat)

  const EMPTY_QUEUE := Queue([], [], 0, 0)

  function Olds(n: nat): (s: seq<Filled>)
    ensures |s| == n
  {
    seq(n, _ => Old)
  }

  function Puts(data: seq<byte>): (s: seq<Filled>)
    ensures |s| == |data|
  {
    seq(|data|, i requires 0 <= i < |data| => Put(data[i]))
  }

  ghost predicate QueueOk(m: Munger, bufsz: nat, q: Queue) {
    q.read <= q.readAlloc <= MungedLength(m, |q.committed|) && |q.committed| + |q.granted| <= q.read + bufsz
  }

  /** What one call does to the queue. */
  ghost function Do(m: Munger, bufsz: nat, q: Queue, op: Op): Queue
    requires QueueOk(m, bufsz, q)
  {
    match op
    case AllocWrite(n) =>
      q.(granted := q.granted + Olds(Min(n, q.read + bufsz - |q.committed| - |q.granted|)))
    case Fill(offset, data) =>
      if offset + |data| <= |q.granted|
      then q.(granted := q.granted[..offset] + Puts(data) + q.granted[offset + |data|..])
      else q
    case FreeWrite(n) =>
      var k := Min(n, |q.granted|);
      q.(committed := q.committed + q.granted[..k], granted := q.granted[k..])
    case AllocRead(n) => q.(readAlloc := q.readAlloc + Min(n, MungedLength(m, |q.committed|) - q.readAlloc))
    case FreeRead(n) => q.(read := q.read + Min(n, q.readAlloc - q.read))
  }

  lemma DoKeepsQueueOk(m: Munger, bufsz: nat, q: Queue, op: Op)
    requires QueueOk(m, bufsz, q)
    ensures QueueOk(m, bufsz, Do(m, bufsz, q, op))
  {
    hide SampleStart;
    if op.FreeWrite? {
      StreamLengthGrows(m, |q.committed|, Min(op.n, |q.granted|));
    }
  }

  /** The queue after a run of calls. */
  ghost function After(m: Munger, bufsz: nat, ops: seq<Op>): (q: Queue)
    ensures QueueOk(m, bufsz, q)
  {
    if ops == [] then
      Parts(m.lsampl, 0);
      EMPTY_QUEUE
    else
      var q := After(m, bufsz, ops[..|ops| - 1]);
      DoKeepsQueueOk(m, bufsz, q, ops[|ops| - 1]);
      Do(m, bufsz, q, ops[|ops| - 1])
  }

  /** The bytes agree with what the writer put; cells it never filled may hold anything. */
  ghost predicate Agrees(filled: seq<Filled>, bytes: seq<byte>) {
    |filled| == |bytes| && forall i | 0 <= i < |filled| :: filled[i].Put? ==> filled[i].b == bytes[i]
  }

  /** The buffer behaves as the queue: same positions, and bytes that agree. */
  ghost predicate Refines(q: Queue, r: Ring, cells: seq<byte>)
    requires |cells| > 0
  {
    && q.read == r.read && q.readAlloc == r.readAlloc
    && |q.committed| + |q.granted| == r.writeAlloc
    && Agrees(q.committed, r.committed)
    && Agrees(q.granted, Region(cells, |r.committed|, |q.granted|))
  }

  /** The queue of a writer that fills all it commits fixes every byte. */
  lemma FilledQueueFixesBytes(filled: seq<Filled>, a: seq<byte>, b: seq<byte>)
    requires Agrees(filled, a) && Agrees(filled, b)
    requires forall i | 0 <= i < |filled| :: filled[i].Put?
    ensures a == b
  {
  }

  lemma AgreesInParts(f: seq<Filled>, g: seq<Filled>, a: seq<byte>, b: seq<byte>)
    ensures Agrees(f, a) && Agrees(g, b) ==> Agrees(f + g, a + b)
  {
  }

  /** A region in two parts. */
  lemma RegionSplit(cells: seq<byte>, from: nat, k: nat, n: nat)
    requires |cells| > 0 && k <= n
    ensures Region(cells, from, n)[..k] == Region(cells, from, k)
    ensures Region(cells, from, n)[k..] == Region(cells, from + k, n - k)
  {
    hide At;
  }

  lemma RegionUntouched(cells: seq<byte>, cells': seq<byte>, from: nat, n: nat)
    requires |cells| > 0 && |cells'| > 0 && Untouched(cells, cells', from, from + n)
    ensures Region(cells', from, n) == Region(cells, from, n)
  {
    hide At;
    forall i: nat | i < n ensures Region(cells', from, n)[i] == Region(cells, from, n)[i] {
      assert At(cells', from + i) == At(cells, from + i);
    }
  }

  lemma OldsAgree(bytes: seq<byte>)
    ensures Agrees(Olds(|bytes|), bytes)
  {
  }

  lemma PutsAgree(data: seq<byte>)
    ensures Agrees(Puts(data), data)
  {
  }

  /** Granting more. */
  lemma GrantRefines(q: Queue, r: Ring, cells: seq<byte>, k: nat)
    requires |cells| > 0 && Refines(q, r, cells)
    ensures Refines(q.(granted := q.granted + Olds(k)), GrantWrite(r, k), cells)
  {
    hide Region, Agrees;
    var from, n := |r.committed|, |q.granted|;
    RegionSplit(cells, from, n, n + k);
    RegionLength(cells, from + n, k);
    RegionLength(cells, from, n + k);
    var all := Region(cells, from, n + k);
    assert all == all[..n] + all[n..];
    OldsAgree(Region(cells, from + n, k));
    AgreesInParts(q.granted, Olds(k), Region(cells, from, n), Region(cells, from + n, k));
    SameLengths(q, r, cells);
  }

  lemma SameLengths(q: Queue, r: Ring, cells: seq<byte>)
    requires |cells| > 0 && Refines(q, r, cells)
    ensures |q.committed| == |r.committed|
  {
  }

  lemma RegionLength(cells: seq<byte>, from: nat, k: nat)
    requires |cells| > 0
    ensures |Region(cells, from, k)| == k
  {
  }

  /** Filling part of what is granted. */
  lemma FillRefines(q: Queue, r: Ring, cells: seq<byte>, cells': seq<byte>, offset: nat, data: seq<byte>)
    requires |cells| > 0 && |cells'| > 0 && Refines(q, r, cells) && offset + |data| <= |q.granted|
    requires var base := |r.committed| + offset;
      && Region(cells', base, |data|) == data
      && Untouched(cells, cells', |r.committed|, base)
      && Untouched(cells, cells', base + |data|, r.writeAlloc)
    ensures Refines(q.(granted := q.granted[..offset] + Puts(data) + q.granted[offset + |data|..]), r, cells')
  {
    hide Region, Agrees, Untouched;
    var from, n, k := |r.committed|, |q.granted|, |data|;
    SameLengths(q, r, cells);
    var was, now := Region(cells, from, n), Region(cells', from, n);
    RegionLength(cells, from, n);
    RegionLength(cells', from, n);
    RegionSplit(cells, from, offset, n);
    RegionSplit(cells', from, offset, n);
    RegionSplit(cells, from, offset + k, n);
    RegionSplit(cells', from, offset + k, n);
    RegionSplit(cells', from + offset, k, n - offset);
    RegionUntouched(cells, cells', from, offset);
    RegionUntouched(cells, cells', from + offset + k, n - offset - k);
    assert now == now[..offset] + now[offset..][..k] + now[offset + k..];
    AgreesSlice(q.granted, was, 0, offset);
    AgreesSlice(q.granted, was, offset + k, n);
    PutsAgree(data);
    AgreesInParts(q.granted[..offset], Puts(data), was[..offset], data);
    AgreesInParts(q.granted[..offset] + Puts(data), q.granted[offset + k..], was[..offset] + data, was[offset + k..]);
  }

  lemma AgreesSlice(f: seq<Filled>, a: seq<byte>, i: nat, j: nat)
    requires Agrees(f, a) && i <= j <= |f|
    ensures j <= |a| && Agrees(f[i..j], a[i..j])
    ensures j == |f| ==> f[i..j] == f[i..] && a[i..j] == a[i..]
    ensures i == 0 ==> f[i..j] == f[..j] && a[i..j] == a[..j]
  {
  }

  /** Committing the first part of what is granted. */
  lemma CommitRefines(m: Munger, q: Queue, r: Ring, cells: seq<byte>, cells': seq<byte>, k: nat)
    requires |cells| > 0 && |cells'| > 0 && Refines(q, r, cells) && k <= |q.granted|
    requires Untouched(cells, cells', |r.committed| + k, r.writeAlloc)
    ensures Refines(q.(committed := q.committed + q.granted[..k], granted := q.granted[k..]),
                    Commit(m, r, Region(cells, |r.committed|, k)), cells')
  {
    hide Region, Agrees, Untouched, MungedLength;
    var from, n := |r.committed|, |q.granted|;
    SameLengths(q, r, cells);
    var was := Region(cells, from, n);
    RegionLength(cells, from, n);
    RegionLength(cells, from, k);
    RegionSplit(cells, from, k, n);
    RegionUntouched(cells, cells', from + k, n - k);
    AgreesSlice(q.granted, was, 0, k);
    AgreesSlice(q.granted, was, k, n);
    AgreesInParts(q.committed, q.granted[..k], r.committed, was[..k]);
  }

  // ---------------------------------------------------------------- runs

  /** Any interleaving of writer and reader calls on a buffer fresh from a reset, the reader copying
      out what it is about to free: the buffer is the queue, and the reader receives exactly the
      munged bytes the writer filled and committed, in order, up to where it has read. A fill outside
      the granted region is not made. */
  method Run(buf: Async, ops: seq<Op>) returns (delivered: seq<byte>)
    requires buf.Shape()
    modifies buf, buf.preallocBuf
    ensures buf.Valid() && buf.preallocBuf == old(buf.preallocBuf) && buf.Config() == old(buf.Config())
    ensures Refines(After(buf.Config(), buf.preallocBuf.Length, ops), buf.ring, buf.preallocBuf[..])
    ensures buf.ring.read <= |Stream(buf.Config(), buf.ring.committed)|
    ensures delivered == Stream(buf.Config(), buf.ring.committed)[..buf.ring.read]
    ensures buf.ring.read <= |buf.ring.committed| && |delivered| == buf.ring.read
    ensures !buf.hasMunge || buf.rawData ==> delivered == buf.ring.committed[..buf.ring.read]
    ensures buf.hasMunge && !buf.rawData ==> forall k: nat ::
      var start, end := StartOf(buf.lsampl, k), StartOf(buf.lsampl, k) + SampleBytes(buf.lsampl);
      end <= |delivered| ==>
        delivered[start..end] == buf.convert(k % buf.chanlistLen, buf.ring.committed[start..end])
  {
    hide Cell, Wrap, Stores, MungedLength, StreamByte, Region, Refines, Do, QueueOk, Moves;
    ghost var m, n := buf.Config(), buf.preallocBuf.Length;
    buf.Reset();
    delivered := [];
    ghost var q := After(m, n, []);
    EmptyRefines(buf.preallocBuf[..]);
    for i := 0 to |ops|
      invariant buf.Valid() && buf.preallocBuf == old(buf.preallocBuf) && buf.Config() == m
      invariant q == After(m, n, ops[..i])
      invariant Refines(q, buf.ring, buf.preallocBuf[..])
      invariant buf.ring.read <= |Stream(m, buf.ring.committed)|
      invariant delivered == Stream(m, buf.ring.committed)[..buf.ring.read]
    {
      assert ops[..i + 1][..i] == ops[..i];
      delivered := Step(buf, ops[i], q, delivered);
      q := Do(m, n, q, ops[i]);
    }
    assert ops[..|ops|] == ops;
    DeliveredIs(buf.Config(), buf.ring.committed, buf.ring.read);
  }

  /** What reaches the reader: the committed bytes themselves, or the converted samples. */
  lemma DeliveredIs(m: Munger, committed: seq<byte>, read: nat)
    requires m.chans > 0 && read <= |Stream(m, committed)|
    ensures read <= |committed|
    ensures !m.active ==> Stream(m, committed)[..read] == committed[..read]
    ensures m.active ==> forall k: nat ::
      var start, end := StartOf(m.lsampl, k), StartOf(m.lsampl, k) + SampleBytes(m.lsampl);
      end <= read ==> Stream(m, committed)[..read][start..end] == m.convert(k % m.chans, committed[start..end])
  {
    hide Stream, StreamByte, SampleStart;
    StreamLength(m, committed);
    LessThanOneSampleWaits(m, |committed|);
    if m.active {
      forall k: nat | StartOf(m.lsampl, k) + SampleBytes(m.lsampl) <= read
        ensures var start, end := StartOf(m.lsampl, k), StartOf(m.lsampl, k) + SampleBytes(m.lsampl);
          Stream(m, committed)[..read][start..end] == m.convert(k % m.chans, committed[start..end])
      {
        SampleOfStream(m, committed, k);
        SliceOfPrefix(Stream(m, committed), read, StartOf(m.lsampl, k), StartOf(m.lsampl, k) + SampleBytes(m.lsampl));
      }
    } else {
      RawStream(m, committed);
    }
  }

  lemma StreamLength(m: Munger, committed: seq<byte>)
    requires m.chans > 0
    ensures |Stream(m, committed)| == MungedLength(m, |committed|)
  {
  }

  lemma RawStream(m: Munger, committed: seq<byte>)
    requires m.chans > 0 && !m.active
    ensures Stream(m, committed) == committed
  {
  }

  lemma SliceOfPrefix(s: seq<byte>, k: nat, i: nat, j: nat)
    requires i <= j <= k <= |s|
    ensures s[..k][i..j] == s[i..j]
  {
  }

  lemma EmptyRefines(cells: seq<byte>)
    requires |cells| > 0
    ensures Refines(EMPTY_QUEUE, EMPTY_RING, cells)
  {
  }

  /** How one call moves the positions, and that a fill within the granted region arrives. */
  ghost predicate Moves(op: Op, r: Ring, r': Ring, bufsz: nat, cells': seq<byte>)
    requires |cells'| > 0
  {
    match op
    case AllocWrite(n) => r' == r.(writeAlloc := Min(r.writeAlloc + n, r.read + bufsz))
    case Fill(offset, data) =>
      r' == r && (|r.committed| + offset + |data| <= r.writeAlloc ==>
                    Region(cells', |r.committed| + offset, |data|) == data)
    case FreeWrite(n) =>
      && r' == r.(committed := r'.committed, munged := r'.munged)
      && r.committed <= r'.committed && |r'.committed| == Min(|r.committed| + n, r.writeAlloc)
    case AllocRead(n) => r' == r.(readAlloc := Min(r.readAlloc + n, r.munged))
    case FreeRead(n) => r' == r.(read := Min(r.read + n, r.readAlloc))
  }

  // One call each, on a buffer that is the queue `q`.

  method WriterGrants(buf: Async, ghost q: Queue, n: request)
    requires buf.Valid() && QueueOk(buf.Config(), buf.preallocBuf.Length, q)
    requires Refines(q, buf.ring, buf.preallocBuf[..])
    modifies buf
    ensures buf.Valid() && buf.preallocBuf == old(buf.preallocBuf) && buf.Config() == old(buf.Config())
    ensures Refines(Do(buf.Config(), buf.preallocBuf.Length, q, AllocWrite(n)), buf.ring, buf.preallocBuf[..])
    ensures Moves(AllocWrite(n), old(buf.ring), buf.ring, buf.preallocBuf.Length, buf.preallocBuf[..])
    ensures buf.ring == GrantWrite(old(buf.ring), buf.ring.writeAlloc - old(buf.ring.writeAlloc))
  {
    hide Cell, Wrap, Stores, StreamByte, Agrees, Region, Untouched;
    SameLengths(q, buf.ring, buf.preallocBuf[..]);
    GrantRefines(q, buf.ring, buf.preallocBuf[..], Min(n, Room(buf.ring, buf.preallocBuf.Length)));
    var _ := buf.WriteAlloc(n);
  }

  method WriterFills(buf: Async, ghost q: Queue, offset: u32, data: seq<byte>)
    requires buf.Valid() && QueueOk(buf.Config(), buf.preallocBuf.Length, q)
    requires Refines(q, buf.ring, buf.preallocBuf[..])
    modifies buf.preallocBuf
    ensures buf.Valid() && buf.preallocBuf == old(buf.preallocBuf) && buf.Config() == old(buf.Config())
    ensures Refines(Do(buf.Config(), buf.preallocBuf.Length, q, Fill(offset, data)), buf.ring, buf.preallocBuf[..])
    ensures Moves(Fill(offset, data), old(buf.ring), buf.ring, buf.preallocBuf.Length, buf.preallocBuf[..])
  {
    hide Cell, Wrap, Stores, StreamByte, Agrees, Region, MungedLength;
    ghost var cells := buf.preallocBuf[..];
    SameLengths(q, buf.ring, cells);
    var granted := Wrap(buf.bufWriteAllocCount - buf.bufWriteCount);
    WrapOfDifference(buf.ring.writeAlloc, |buf.ring.committed|);
    if offset + |data| <= granted {
      buf.MemcpyTo(offset, data);
      FillRefines(q, buf.ring, cells, buf.preallocBuf[..], offset, data);
    }
  }

  method WriterCommits(buf: Async, ghost q: Queue, n: request)
    requires buf.Valid() && QueueOk(buf.Config(), buf.preallocBuf.Length, q)
    requires Refines(q, buf.ring, buf.preallocBuf[..])
    modifies buf, buf.preallocBuf
    ensures buf.Valid() && buf.preallocBuf == old(buf.preallocBuf) && buf.Config() == old(buf.Config())
    ensures Refines(Do(buf.Config(), buf.preallocBuf.Length, q, FreeWrite(n)), buf.ring, buf.preallocBuf[..])
    ensures Moves(FreeWrite(n), old(buf.ring), buf.ring, buf.preallocBuf.Length, buf.preallocBuf[..])
    ensures exists data :: buf.ring == Commit(buf.Config(), old(buf.ring), data)
  {
    hide Cell, Wrap, Stores, StreamByte, Agrees, Region, Untouched, MungedLength;
    ghost var m, r, cells := buf.Config(), buf.ring, buf.preallocBuf[..];
    SameLengths(q, r, cells);
    var k := buf.WriteFree(n);
    RegionLength(cells, |r.committed|, k);
    CommitRefines(m, q, r, cells, buf.preallocBuf[..], k);
  }

  method ReaderClaims(buf: Async, ghost q: Queue, n: request)
    requires buf.Valid() && QueueOk(buf.Config(), buf.preallocBuf.Length, q)
    requires Refines(q, buf.ring, buf.preallocBuf[..])
    modifies buf
    ensures buf.Valid() && buf.preallocBuf == old(buf.preallocBuf) && buf.Config() == old(buf.Config())
    ensures Refines(Do(buf.Config(), buf.preallocBuf.Length, q, AllocRead(n)), buf.ring, buf.preallocBuf[..])
    ensures Moves(AllocRead(n), old(buf.ring), buf.ring, buf.preallocBuf.Length, buf.preallocBuf[..])
    ensures buf.ring.committed == old(buf.ring.committed) && buf.ring.read == old(buf.ring.read)
  {
    hide Cell, Wrap, Stores, StreamByte, Agrees, Region, MungedLength;
    SameLengths(q, buf.ring, buf.preallocBuf[..]);
    var _ := buf.ReadAlloc(n);
  }

  method ReaderTakes(buf: Async, ghost q: Queue, n: request, before: seq<byte>) returns (delivered: seq<byte>)
    requires buf.Valid() && QueueOk(buf.Config(), buf.preallocBuf.Length, q)
    requires Refines(q, buf.ring, buf.preallocBuf[..])
    requires buf.ring.read <= |Stream(buf.Config(), buf.ring.committed)|
    requires before == Stream(buf.Config(), buf.ring.committed)[..buf.ring.read]
    modifies buf
    ensures buf.Valid() && buf.preallocBuf == old(buf.preallocBuf) && buf.Config() == old(buf.Config())
    ensures Refines(Do(buf.Config(), buf.preallocBuf.Length, q, FreeRead(n)), buf.ring, buf.preallocBuf[..])
    ensures Moves(FreeRead(n), old(buf.ring), buf.ring, buf.preallocBuf.Length, buf.preallocBuf[..])
    ensures buf.ring.read <= |Stream(buf.Config(), buf.ring.committed)|
    ensures delivered == Stream(buf.Config(), buf.ring.committed)[..buf.ring.read]
  {
    hide Cell, Wrap, Stores, StreamByte, Agrees, Region, MungedLength;
    var claimed := Wrap(buf.bufReadAllocCount - buf.bufReadCount);
    WrapOfDifference(buf.ring.readAlloc, buf.ring.read);
    var out := buf.MemcpyFrom(0, Min(n, claimed));
    delivered := before + out;
    var _ := buf.ReadFree(n);
  }

  method Step(buf: Async, op: Op, ghost q: Queue, before: seq<byte>) returns (delivered: seq<byte>)
    requires buf.Valid() && QueueOk(buf.Config(), buf.preallocBuf.Length, q)
    requires Refines(q, buf.ring, buf.preallocBuf[..])
    requires buf.ring.read <= |Stream(buf.Config(), buf.ring.committed)|
    requires before == Stream(buf.Config(), buf.ring.committed)[..buf.ring.read]
    modifies buf, buf.preallocBuf
    ensures buf.Valid() && buf.preallocBuf == old(buf.preallocBuf) && buf.Config() == old(buf.Config())
    ensures Refines(Do(buf.Config(), buf.preallocBuf.Length, q, op), buf.ring, buf.preallocBuf[..])
    ensures Moves(op, old(buf.ring), buf.ring, buf.preallocBuf.Length, buf.preallocBuf[..])
    ensures buf.ring.read <= |Stream(buf.Config(), buf.ring.committed)|
    ensures delivered == Stream(buf.Config(), buf.ring.committed)[..buf.ring.read]
  {
    hide Cell, Wrap, Stores, StreamByte, Region, Refines, Do, QueueOk, MungedLength, Moves;
    delivered := before;
    ghost var m, r := buf.Config(), buf.ring;
    match op
    case AllocWrite(n) => WriterGrants(buf, q, n);
    case Fill(offset, data) => WriterFills(buf, q, offset, data);
    case FreeWrite(n) =>
      WriterCommits(buf, q, n);
      ghost var data :| buf.ring == Commit(m, r, data);
      StreamOnlyGrows(m, r.committed, data);
      PrefixOfPrefix(Stream(m, r.committed), Stream(m, buf.ring.committed), r.read);
    case AllocRead(n) => ReaderClaims(buf, q, n);
    case FreeRead(n) => delivered := ReaderTakes(buf, q, n, before);
  }

  lemma PrefixOfPrefix(a: seq<byte>, b: seq<byte>, k: nat)
    requires a <= b && k <= |a|
    ensures b[..k] == a[..k]
  {
  }
}

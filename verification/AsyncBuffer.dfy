/** The asynchronous ring buffer of a subdevice (comedi/drivers.c): fill, munge, drain. */
module AsyncBuffer {
  import opened Word32
  import opened Cyclic
  import opened RingSpec

  /** No channel list of this length, at four bytes an entry, can be allocated. */
  const MAX_CHANLIST: nat := 0x1000_0000

  datatype Event = Eos | Eoa | Block | Error | Overflow

  /** The samples of a scan: one for each channel, or on digital subdevices as few as hold one bit for
      each. */
  function ScanSamples(digital: bool, lsampl: bool, chans: nat): (k: nat)
    requires 0 < chans
    ensures 0 < k <= chans
    ensures !digital ==> k == chans
    ensures digital && lsampl ==> 32 * (k - 1) < chans <= 32 * k
    ensures digital && !lsampl ==> 16 * (k - 1) < chans <= 16 * k
  {
    if !digital then chans
    else if lsampl then (chans + 31) / 32
    else (chans + 15) / 16
  }

  class Async {
    const lsampl: bool
    const digital: bool
    const hasMunge: bool
    const convert: SampleConversion

    var rawData: bool
    var chanlistLen: u32
    var preallocBuf: array<byte>

    var bufWriteAllocCount: u32
    var bufWriteCount: u32
    var mungeCount: u32
    var bufReadAllocCount: u32
    var bufReadCount: u32

    var bufWritePtr: u32
    var mungePtr: u32
    var bufReadPtr: u32
    var mungeChan: u32
    var curChan: u32
    var scanProgress: u32
    var events: set<Event>

    /** The stream positions behind the wrapping counters. */
    ghost var ring: Ring

    ghost function Config(): Munger
      reads this`rawData, this`chanlistLen
    {
      Munger(hasMunge && !rawData, lsampl, chanlistLen, convert)
    }

    /** What allocation and the command ioctl establish: a buffer of whole samples below 2^31
        bytes and a channel list. */
    ghost predicate Shape()
      reads this`chanlistLen, this`preallocBuf
    {
      && 0 < preallocBuf.Length < TWO_31
      && PartialBytes(lsampl, preallocBuf.Length) == 0
      && 0 < chanlistLen < MAX_CHANLIST
    }

    /** The 32-bit counters are the positions, wrapped. */
    ghost predicate Counters()
      reads this
    {
      && bufWriteAllocCount == Wrap(ring.writeAlloc)
      && bufWriteCount == Wrap(|ring.committed|)
      && mungeCount == Wrap(ring.munged)
      && bufReadAllocCount == Wrap(ring.readAlloc)
      && bufReadCount == Wrap(ring.read)
    }

    /** The separately kept offsets are the positions modulo the buffer size, although the size
        need not divide 2^32. */
    ghost predicate Offsets()
      requires Shape()
      reads this
    {
      && bufReadPtr == Cell(ring.read, preallocBuf.Length)
      && (Config().active ==>
           && PartialBytes(lsampl, ring.munged) == 0
           && mungePtr == Cell(ring.munged, preallocBuf.Length)
           && mungeChan == Cell(SampleIndex(lsampl, ring.munged), chanlistLen))
    }

    /** Everything but the write offset and the completeness of munging. */
    ghost predicate Consistent()
      reads this, preallocBuf
    {
      && Shape()
      && Chain(ring, preallocBuf.Length)
      && Counters()
      && Offsets()
      && ring.munged <= MungedLength(Config(), |ring.committed|)
      && Stores(preallocBuf[..], Config(), ring)
    }

    ghost predicate Valid()
      reads this, preallocBuf
    {
      && Consistent()
      && bufWritePtr == Cell(|ring.committed|, preallocBuf.Length)
      && ring.munged == MungedLength(Config(), |ring.committed|)
    }

    constructor (lsampl: bool, digital: bool, hasMunge: bool, convert: SampleConversion, buf: array<byte>)
      ensures this.lsampl == lsampl && this.digital == digital && this.hasMunge == hasMunge && this.convert == convert
      ensures preallocBuf == buf && chanlistLen == 0
    {
      this.lsampl, this.digital, this.hasMunge, this.convert := lsampl, digital, hasMunge, convert;
      preallocBuf, rawData, chanlistLen := buf, false, 0;
    }

    /** comedi_reset_async_buf: whatever state an idle subdevice was left in, the stream starts
        afresh. */
    method Reset()
      requires Shape()
      modifies this
      ensures Valid() && ring == EMPTY_RING && events == {} && curChan == 0 && scanProgress == 0
      ensures unchanged(this`rawData) && unchanged(this`chanlistLen) && unchanged(this`preallocBuf)
    {
      hide StreamByte, At, Wrap, Cell;
      ZeroPositions(preallocBuf.Length, chanlistLen);
      bufWriteAllocCount := 0;
      bufWriteCount := 0;
      bufReadAllocCount := 0;
      bufReadCount := 0;
      bufWritePtr := 0;
      bufReadPtr := 0;
      mungeChan := 0;
      mungeCount := 0;
      mungePtr := 0;
      ring := EMPTY_RING;
      assert Shape();
      assert Chain(ring, preallocBuf.Length);
      assert Offsets();
      ResetProgress();
    }

    /** The part of the reset that concerns scans and events. */
    method ResetProgress()
      requires Valid()
      modifies this`curChan, this`scanProgress, this`events
      ensures Valid() && events == {} && curChan == 0 && scanProgress == 0
    {
      hide Stores, MungedLength, Cell, Wrap;
      curChan := 0;
      scanProgress := 0;
      events := {};
    }

    // ------------------------------------------------------------ writer side

    /** comedi_buf_write_n_available */
    method WriteAvailable() returns (nbytes: u32)
      requires Valid()
      ensures var room := ring.read + preallocBuf.Length - ring.writeAlloc;
        nbytes <= room < nbytes + SampleBytes(lsampl)
      ensures PartialBytes(lsampl, nbytes) == 0
    {
      hide Wrap, Cell, Stores, MungedLength, PartialBytes, At;
      var freeEnd := Wrap(bufReadCount + preallocBuf.Length);
      WrapOfSum(ring.read, preallocBuf.Length);
      WrapOfDifference(ring.read + preallocBuf.Length, ring.writeAlloc);
      nbytes := Wrap(freeEnd - bufWriteAllocCount);
      WholeSamples(lsampl, nbytes);
      nbytes := nbytes - PartialBytes(lsampl, nbytes);
    }

    /** comedi_buf_write_alloc: grants what fits. A request of 2^31 bytes or more above the room is
        granted in full, and the chain of positions is lost exactly then. */
    method WriteAlloc(nbytes: u32) returns (granted: u32)
      requires Valid()
      modifies this`bufWriteAllocCount, this`ring
      ensures Valid() <==> nbytes < TWO_31 + old(Room(ring, preallocBuf.Length))
      ensures granted == if Valid() then Min(nbytes, old(Room(ring, preallocBuf.Length))) else nbytes
      ensures ring == GrantWrite(old(ring), granted)
      ensures Valid() ==>
        ring.writeAlloc == Min(old(ring.writeAlloc) + nbytes, ring.read + preallocBuf.Length)
    {
      hide Wrap, Signed, Cell, At, StreamByte, MungedLength;
      var freeEnd := Wrap(bufReadCount + preallocBuf.Length);
      granted := nbytes;
      WrapOfSum(ring.read, preallocBuf.Length);
      CounterClamp(ring.writeAlloc, ring.read + preallocBuf.Length, nbytes);
      if Signed(Wrap(bufWriteAllocCount + nbytes - freeEnd)) > 0 {
        granted := Wrap(freeEnd - bufWriteAllocCount);
      }
      WrapOfSum(ring.writeAlloc, granted);
      bufWriteAllocCount := Wrap(bufWriteAllocCount + granted);
      ring := GrantWrite(ring, granted);
    }

    /** comedi_buf_write_alloc_strict: grants all or nothing, with the same exception. */
    method WriteAllocStrict(nbytes: u32) returns (granted: u32)
      requires Valid()
      modifies this`bufWriteAllocCount, this`ring
      ensures Valid() <==> nbytes < TWO_31 + old(Room(ring, preallocBuf.Length))
      ensures granted == if Valid() && nbytes > old(Room(ring, preallocBuf.Length)) then 0 else nbytes
      ensures ring == GrantWrite(old(ring), granted)
      ensures var fits := old(ring.writeAlloc) + nbytes <= ring.read + preallocBuf.Length;
        Valid() ==> ring.writeAlloc == old(ring.writeAlloc) + (if fits then nbytes else 0)
    {
      hide Wrap, Signed, Cell, At, StreamByte, MungedLength;
      var freeEnd := Wrap(bufReadCount + preallocBuf.Length);
      granted := nbytes;
      WrapOfSum(ring.read, preallocBuf.Length);
      CounterClamp(ring.writeAlloc, ring.read + preallocBuf.Length, nbytes);
      if Signed(Wrap(bufWriteAllocCount + nbytes - freeEnd)) > 0 {
        granted := 0;
      }
      WrapOfSum(ring.writeAlloc, granted);
      bufWriteAllocCount := Wrap(bufWriteAllocCount + granted);
      ring := GrantWrite(ring, granted);
    }

    /** memcpy into the buffer, not running over its end. */
    method StoreBytes(at: nat, data: seq<byte>)
      requires at + |data| <= preallocBuf.Length
      modifies preallocBuf
      ensures forall c | 0 <= c < preallocBuf.Length ::
        preallocBuf[c] == if at <= c < at + |data| then data[c - at] else old(preallocBuf[c])
    {
      forall k | 0 <= k < |data| {
        preallocBuf[at + k] := data[k];
      }
    }

    method ConvertSample(at: nat, chan: nat)
      requires at + SampleBytes(lsampl) <= preallocBuf.Length
      modifies preallocBuf
      ensures forall c | 0 <= c < preallocBuf.Length ::
        preallocBuf[c] == if at <= c < at + SampleBytes(lsampl)
                          then convert(chan, SampleAt(lsampl, old(preallocBuf[..]), at))[c - at]
                          else old(preallocBuf[c])
    {
      var converted := convert(chan, SampleAt(lsampl, preallocBuf[..], at));
      StoreBytes(at, converted);
    }

    /** The driver's munge callback: converts the samples of one contiguous block in place, the
        first with channel index `startChan`, the next with its successor, cyclically. */
    method MungeCallback(ptr: nat, numBytes: nat, startChan: nat)
      requires Shape() && ptr + numBytes <= preallocBuf.Length
      requires PartialBytes(lsampl, numBytes) == 0
      modifies preallocBuf
      ensures BlockMunged(old(preallocBuf[..]), preallocBuf[..], Config(), ptr, numBytes, startChan)
    {
      hide Cell, MungedByte, SampleIndex, SampleStart, SampleAt, PartialBytes;
      AlignedArithmetic(lsampl, 0, 0);
      var m := Config();
      ghost var before := preallocBuf[..];
      ghost var data := before[ptr..ptr + numBytes];
      var pos: nat := 0;
      while pos < numBytes
        invariant pos <= numBytes && PartialBytes(lsampl, pos) == 0
        invariant forall c | 0 <= c < preallocBuf.Length && !(ptr <= c < ptr + pos) :: preallocBuf[c] == before[c]
        invariant forall c | ptr <= c < ptr + pos :: preallocBuf[c] == MungedByte(m, data, startChan, c - ptr)
      {
        OneSample(m, data, startChan, pos);
        SameSample(lsampl, preallocBuf[..], ptr, data, pos);
        ConvertSample(ptr + pos, Cell(startChan + SampleIndex(lsampl, pos), chanlistLen));
        pos := pos + SampleBytes(lsampl);
      }
    }

    /** comedi_buf_munge: with a munge callback and no raw-data command, converts the whole samples of
        what was written, each once and with its own channel index; otherwise everything counts as
        munged as it is. */
    method BufMunge(numBytes: u32) returns (count: u32)
      requires Consistent() && numBytes == |ring.committed| - ring.munged
      modifies this`mungeCount, this`mungePtr, this`mungeChan, this`ring, preallocBuf
      ensures Consistent()
      ensures ring == old(ring).(munged := MungedLength(Config(), |old(ring).committed|))
      ensures count == ring.munged - old(ring.munged)
      ensures !hasMunge || rawData ==>
        preallocBuf[..] == old(preallocBuf[..]) && ring.munged == |ring.committed|
      ensures hasMunge && !rawData ==>
        && PartialBytes(lsampl, ring.munged) == 0
        && ring.munged <= |ring.committed| < ring.munged + SampleBytes(lsampl)
        && Converted(preallocBuf[..], lsampl, chanlistLen, convert, ring.committed, old(ring.munged), ring.munged)
      ensures Untouched(old(preallocBuf[..]), preallocBuf[..], |ring.committed|, ring.writeAlloc)
    {
      hide Wrap, Signed, Cell, At, Stores, StreamByte, PartialBytes, SampleStart, Converted;
      if !hasMunge || rawData {
        SkipMunge(numBytes);
        return numBytes;
      }
      WholeSamplesLeft(lsampl, ring.munged, |ring.committed|);
      var wanted := numBytes - PartialBytes(lsampl, numBytes);
      MungeWhole(wanted);
      WholeSampleLength(Config(), |ring.committed|);
      StoredIsConverted(preallocBuf[..], Config(), ring, old(ring.munged));
      count := wanted;
      SignedDifferenceIsExact(ring.munged, |ring.committed|);
      if Signed(Wrap(mungeCount - bufWriteCount)) > 0 {
        assert false;  // BUG()
      }
    }

    /** The raw path: only the counter moves. */
    method SkipMunge(numBytes: u32)
      requires Consistent() && !Config().active && numBytes == |ring.committed| - ring.munged
      modifies this`mungeCount, this`ring
      ensures Consistent() && ring == old(ring).(munged := |ring.committed|)
    {
      hide Wrap, Signed, Cell, At;
      WrapOfSum(ring.munged, numBytes);
      SignedDifferenceIsExact(|ring.committed|, |ring.committed|);
      ring := ring.(munged := ring.munged + numBytes);
      mungeCount := Wrap(mungeCount + numBytes);
      if Signed(Wrap(mungeCount - bufWriteCount)) > 0 {
        assert false;  // BUG()
      }
    }

    /** The munge loop: one callback for each contiguous block. */
    method MungeWhole(wanted: u32)
      requires Consistent() && Config().active && PartialBytes(lsampl, wanted) == 0
      requires ring.munged + wanted <= MungedLength(Config(), |ring.committed|) <= |ring.committed|
      modifies this`mungeCount, this`mungePtr, this`mungeChan, this`ring, preallocBuf
      ensures Consistent() && ring == old(ring).(munged := old(ring.munged) + wanted)
      ensures Untouched(old(preallocBuf[..]), preallocBuf[..], |ring.committed|, ring.writeAlloc)
    {
      hide Wrap, Signed, Cell, At, Stores, StreamByte, PartialBytes, SampleStart, MungedLength;
      var count: u32 := 0;
      AlignedArithmetic(lsampl, 0, 0);
      while count < wanted
        invariant count <= wanted && PartialBytes(lsampl, count) == 0
        invariant Consistent() && ring == old(ring).(munged := old(ring.munged) + count)
        invariant Untouched(old(preallocBuf[..]), preallocBuf[..], |ring.committed|, ring.writeAlloc)
      {
        ghost var before := preallocBuf[..];
        var blockSize := wanted - count;
        AlignedArithmetic(lsampl, wanted, count);
        BlockTest(mungePtr, blockSize, preallocBuf.Length);
        if Signed(Wrap(Wrap(mungePtr + blockSize) - preallocBuf.Length)) > 0 {
          CellAligned(lsampl, ring.munged, preallocBuf.Length);
          AlignedArithmetic(lsampl, preallocBuf.Length, mungePtr);
          blockSize := preallocBuf.Length - mungePtr;
        }
        MungeStep(blockSize);
        UntouchedTwice(old(preallocBuf[..]), before, preallocBuf[..], |ring.committed|, ring.writeAlloc);
        AlignedSum(lsampl, count, blockSize);
        count := count + blockSize;
      }
    }

    /** One turn of the munge loop. */
    method MungeStep(blockSize: u32)
      requires Consistent() && Config().active
      requires 0 < blockSize && PartialBytes(lsampl, blockSize) == 0
      requires ring.munged + blockSize <= MungedLength(Config(), |ring.committed|) <= |ring.committed|
      requires mungePtr + blockSize <= preallocBuf.Length
      modifies this`mungeCount, this`mungePtr, this`mungeChan, this`ring, preallocBuf
      ensures Consistent() && ring == old(ring).(munged := old(ring.munged) + blockSize)
      ensures Untouched(old(preallocBuf[..]), preallocBuf[..], |ring.committed|, ring.writeAlloc)
    {
      hide Cell, Wrap, At, Stores, StreamByte, MungedLength, BlockMunged, PartialBytes, SampleIndex, SampleStart,
        Untouched;
      ghost var before := preallocBuf[..];
      MungeCallback(mungePtr, blockSize, mungeChan);
      assert CallbackRan(before, preallocBuf[..], Config(), ring.munged, blockSize);
      MungeBlockKeepsStores(before, preallocBuf[..], Config(), ring, blockSize);
      BlockLeavesGranted(before, preallocBuf[..], Config(), ring, blockSize);
      PassBlock(blockSize);
    }

    /** Moves the munge position over a block the callback has converted. */
    method PassBlock(blockSize: u32)
      requires Shape() && Chain(ring, preallocBuf.Length) && Counters() && Offsets() && Config().active
      requires PartialBytes(lsampl, blockSize) == 0
      requires ring.munged + blockSize <= MungedLength(Config(), |ring.committed|) <= |ring.committed|
      requires mungePtr + blockSize <= preallocBuf.Length
      requires Stores(preallocBuf[..], Config(), ring.(munged := ring.munged + blockSize))
      modifies this`mungeCount, this`mungePtr, this`mungeChan, this`ring
      ensures Consistent() && ring == old(ring).(munged := old(ring.munged) + blockSize)
    {
      hide Cell, Wrap, Stores, MungedLength, PartialBytes, SampleIndex;
      SamplesAdd(lsampl, ring.munged, blockSize);
      Advance(ring.munged, blockSize, preallocBuf.Length);
      Advance(SampleIndex(lsampl, ring.munged), SampleIndex(lsampl, blockSize), chanlistLen);
      WrapOfSum(ring.munged, blockSize);
      mungeChan := Wrap(mungeChan + SampleIndex(lsampl, blockSize));
      mungeChan := mungeChan % chanlistLen;
      mungeCount := Wrap(mungeCount + blockSize);
      mungePtr := Wrap(mungePtr + blockSize);
      mungePtr := mungePtr % preallocBuf.Length;
      ring := ring.(munged := ring.munged + blockSize);
    }

    /** comedi_buf_write_free: commits the bytes now lying in the first `freed` cells of the
        writer's region, then munges what became whole. The rest of the region keeps its bytes. */
    method WriteFree(nbytes: u32) returns (freed: u32)
      requires Valid()
      requires nbytes < TWO_31 + (ring.writeAlloc - |ring.committed|)
      modifies this`bufWriteCount, this`bufWritePtr, this`ring, preallocBuf
      modifies this`mungeCount, this`mungePtr, this`mungeChan
      ensures Valid()
      ensures freed == Min(nbytes, old(ring.writeAlloc - |ring.committed|))
      ensures ring == Commit(Config(), old(ring), Region(old(preallocBuf[..]), |old(ring).committed|, freed))
      ensures ring.committed == old(ring.committed) + Region(old(preallocBuf[..]), |old(ring).committed|, freed)
      ensures !hasMunge || rawData ==>
        preallocBuf[..] == old(preallocBuf[..]) && ring.munged == |ring.committed|
      ensures hasMunge && !rawData ==>
        && PartialBytes(lsampl, ring.munged) == 0
        && ring.munged <= |ring.committed| < ring.munged + SampleBytes(lsampl)
        && Converted(preallocBuf[..], lsampl, chanlistLen, convert, ring.committed, old(ring.munged), ring.munged)
      ensures Untouched(old(preallocBuf[..]), preallocBuf[..], |ring.committed|, ring.writeAlloc)
    {
      hide Wrap, Signed, Cell, Stores, MungedLength, Region, Converted, Untouched, PartialBytes;
      freed := nbytes;
      CounterClamp(|ring.committed|, ring.writeAlloc, nbytes);
      if Signed(Wrap(bufWriteCount + nbytes - bufWriteAllocCount)) > 0 {
        freed := Wrap(bufWriteAllocCount - bufWriteCount);
      }
      Append(freed);
      WrapOfDifference(|ring.committed|, ring.munged);
      var _ := BufMunge(Wrap(bufWriteCount - mungeCount));
      if bufWritePtr >= preallocBuf.Length {
        bufWritePtr := bufWritePtr % preallocBuf.Length;
      }
    }

    /** Counts `freed` bytes as written, before any of them is munged. */
    method Append(freed: u32)
      requires Valid() && |ring.committed| + freed <= ring.writeAlloc
      modifies this`bufWriteCount, this`bufWritePtr, this`ring
      ensures Consistent()
      ensures var committed := old(ring).committed;
        ring == old(ring).(committed := committed + Region(preallocBuf[..], |committed|, freed))
      ensures Cell(|ring.committed|, preallocBuf.Length)
           == if bufWritePtr >= preallocBuf.Length then bufWritePtr % preallocBuf.Length else bufWritePtr
    {
      hide Wrap, Cell, Stores, StreamByte;
      CommitKeepsStores(preallocBuf[..], Config(), ring, freed);
      WrapOfSum(|ring.committed|, freed);
      Advance(|ring.committed|, freed, preallocBuf.Length);
      StreamLengthGrows(Config(), |ring.committed|, freed);
      bufWriteCount := Wrap(bufWriteCount + freed);
      bufWritePtr := Wrap(bufWritePtr + freed);
      ring := ring.(committed := ring.committed + Region(preallocBuf[..], |ring.committed|, freed));
    }

    /** comedi_buf_memcpy_to: copies into the writer's region, splitting at the end of the buffer. */
    method MemcpyTo(offset: u32, data: seq<byte>)
      requires Valid()
      requires |ring.committed| + offset + |data| <= ring.writeAlloc
      modifies preallocBuf
      ensures Valid()
      ensures Region(preallocBuf[..], |ring.committed| + offset, |data|) == data
      ensures forall p | ring.read <= p < ring.read + preallocBuf.Length
          && !(|ring.committed| + offset <= p < |ring.committed| + offset + |data|) ::
        At(preallocBuf[..], p) == At(old(preallocBuf[..]), p)
    {
      hide Wrap, Cell, At, Stores, MungedLength, Region, PartialBytes;
      ghost var n := preallocBuf.Length;
      ghost var base := |ring.committed| + offset;
      ghost var before := preallocBuf[..];
      var writePtr := StartPtr(bufWritePtr, offset, |ring.committed|);
      var done := 0;
      while done < |data|
        invariant done <= |data|
        invariant done < |data| ==> writePtr == Cell(base + done, n)
        invariant forall p | base <= p < base + done :: At(preallocBuf[..], p) == data[p - base]
        invariant forall p | ring.read <= p < ring.read + n && !(base <= p < base + done) ::
          At(preallocBuf[..], p) == At(before, p)
      {
        var numBytes := |data| - done;
        var blockSize := numBytes;
        if writePtr + numBytes > preallocBuf.Length {
          blockSize := preallocBuf.Length - writePtr;
        }
        ghost var cells := preallocBuf[..];
        StoreBytes(writePtr, data[done..done + blockSize]);
        BlockWritten(cells, preallocBuf[..], base + done, data[done..done + blockSize], ring.read);
        CellStep(base + done, blockSize, n);
        done := done + blockSize;
        writePtr := 0;
      }
      SameCellsSameStores(before, preallocBuf[..], Config(), ring);
      RegionIs(preallocBuf[..], base, data);
    }

    /** The first cell of a copy `offset` bytes on from the pointer kept for position `p`. */
    method StartPtr(ptr: u32, offset: u32, ghost p: nat) returns (start: u32)
      requires Shape() && ptr == Cell(p, preallocBuf.Length) && offset <= preallocBuf.Length
      ensures start == Cell(p + offset, preallocBuf.Length)
    {
      hide Cell, Wrap;
      Advance(p, offset, preallocBuf.Length);
      start := Wrap(ptr + offset);
      if start >= preallocBuf.Length {
        start := start % preallocBuf.Length;
      }
    }

    // ------------------------------------------------------------ reader side

    /** comedi_buf_read_n_available */
    method ReadAvailable() returns (nbytes: u32)
      requires Valid()
      ensures nbytes == ring.munged - ring.read
    {
      hide Wrap;
      WrapOfDifference(ring.munged, ring.read);
      nbytes := Wrap(mungeCount - bufReadCount);
    }

    /** comedi_buf_read_alloc: claims munged bytes only, with the same exception. */
    method ReadAlloc(nbytes: u32) returns (granted: u32)
      requires Valid()
      modifies this`bufReadAllocCount, this`ring
      ensures Valid() <==> nbytes < TWO_31 + old(ring.munged - ring.readAlloc)
      ensures granted == if Valid() then Min(nbytes, old(ring.munged - ring.readAlloc)) else nbytes
      ensures ring == GrantRead(old(ring), granted) && ring.readAlloc == old(ring.readAlloc) + granted
    {
      hide Wrap, Signed, Cell, At, StreamByte, MungedLength;
      granted := nbytes;
      CounterClamp(ring.readAlloc, ring.munged, nbytes);
      if Signed(Wrap(bufReadAllocCount + nbytes - mungeCount)) > 0 {
        granted := Wrap(mungeCount - bufReadAllocCount);
      }
      WrapOfSum(ring.readAlloc, granted);
      bufReadAllocCount := Wrap(bufReadAllocCount + granted);
      ring := GrantRead(ring, granted);
    }

    /** comedi_buf_read_free: hands claimed bytes back to the writer, with the same exception. */
    method ReadFree(nbytes: u32) returns (freed: u32)
      requires Valid()
      modifies this`bufReadCount, this`bufReadPtr, this`ring
      ensures Valid() <==> nbytes < TWO_31 + old(ring.readAlloc - ring.read)
      ensures freed == if Valid() then Min(nbytes, old(ring.readAlloc - ring.read)) else nbytes
      ensures ring == Release(old(ring), freed) && ring.read == old(ring.read) + freed
    {
      hide Wrap, Signed, Cell, At, StreamByte, MungedLength;
      freed := nbytes;
      CounterClamp(ring.read, ring.readAlloc, nbytes);
      if Signed(Wrap(bufReadCount + nbytes - bufReadAllocCount)) > 0 {
        freed := Wrap(bufReadAllocCount - bufReadCount);
      }
      WrapOfSum(ring.read, freed);
      if freed < TWO_31 { Advance(ring.read, freed, preallocBuf.Length); }
      bufReadCount := Wrap(bufReadCount + freed);
      bufReadPtr := Wrap(bufReadPtr + freed);
      bufReadPtr := bufReadPtr % preallocBuf.Length;
      ring := Release(ring, freed);
    }

    /** comedi_buf_memcpy_from: the bytes copied out of the claimed region are stream bytes. */
    method MemcpyFrom(offset: u32, nbytes: u32) returns (dest: seq<byte>)
      requires Valid()
      requires ring.read + offset + nbytes <= ring.readAlloc
      ensures dest == Stream(Config(), ring.committed)[ring.read + offset..ring.read + offset + nbytes]
    {
      hide Wrap, Cell, MungedLength, StreamByte;
      ghost var n := preallocBuf.Length;
      ghost var base := ring.read + offset;
      var readPtr := StartPtr(bufReadPtr, offset, ring.read);
      var left := nbytes;
      dest := [];
      while left > 0
        invariant 0 <= left <= nbytes && |dest| == nbytes - left
        invariant left > 0 ==> readPtr == Cell(base + |dest|, n)
        invariant forall p | base <= p < base + |dest| :: dest[p - base] == At(preallocBuf[..], p)
      {
        var blockSize := left;
        if left >= preallocBuf.Length - readPtr {
          blockSize := preallocBuf.Length - readPtr;
        }
        BlockRead(preallocBuf[..], base + |dest|, blockSize);
        CellStep(base + |dest|, blockSize, n);
        dest := dest + preallocBuf[readPtr..readPtr + blockSize];
        left := left - blockSize;
        readPtr := 0;
      }
      CopiedIsStream(preallocBuf[..], Config(), ring, base, dest);
    }

    // ------------------------------------------------------------ whole transfers

    /** A store straight through the write pointer, as comedi_buf_put and comedi_write do. */
    method StoreAtWritePtr(data: seq<byte>)
      requires Valid()
      requires |ring.committed| + |data| <= ring.writeAlloc
      requires bufWritePtr + |data| <= preallocBuf.Length
      modifies preallocBuf
      ensures Valid()
      ensures Region(preallocBuf[..], |ring.committed|, |data|) == data
    {
      hide Cell, Stores, MungedLength, Region, Wrap;
      ghost var before := preallocBuf[..];
      StoreBytes(bufWritePtr, data);
      BlockWritten(before, preallocBuf[..], |ring.committed|, data, ring.read);
      SameCellsSameStores(before, preallocBuf[..], Config(), ring);
      RegionIs(preallocBuf[..], |ring.committed|, data);
    }

    /** comedi_buf_put: one 16-bit sample in, or an error event when there is no room for it. */
    method Put(x: seq<byte>) returns (ok: bool)
      requires Valid() && |x| == 2 && PartialBytes(false, |ring.committed|) == 0
      modifies this, preallocBuf
      ensures Valid() && preallocBuf == old(preallocBuf) && Config() == old(Config())
      ensures ok <==> 2 <= old(Room(ring, preallocBuf.Length))
      ensures ok ==> ring == Commit(Config(), GrantWrite(old(ring), 2), x) && events == old(events)
      ensures !ok ==> ring == old(ring) && events == old(events) + {Error}
    {
      hide Cell, Stores, MungedLength, Region, Wrap, Signed;
      var n := WriteAllocStrict(2);
      if n < 2 {
        events := events + {Error};
        return false;
      }
      PairFits(lsampl, |ring.committed|, preallocBuf.Length);
      StoreAtWritePtr(x);
      var _ := WriteFree(2);
      return true;
    }

    /** comedi_buf_get: one 16-bit sample out, once it is there. */
    method Get() returns (ok: bool, x: seq<byte>)
      requires Valid() && PartialBytes(false, ring.read) == 0
      modifies this`bufReadAllocCount, this`bufReadCount, this`bufReadPtr, this`ring
      ensures Valid()
      ensures ok <==> 2 <= old(ring.munged - ring.read)
      ensures ok ==> old(ring.read) + 2 <= |Stream(Config(), ring.committed)|
      ensures ok ==> x == Stream(Config(), ring.committed)[old(ring.read)..old(ring.read) + 2]
      ensures ok ==> ring == Release(GrantRead(old(ring), Min(2, old(ring.munged - ring.readAlloc))), 2)
      ensures !ok ==> ring == old(ring)
    {
      hide Cell, MungedLength, Wrap, Signed, StreamByte;
      x := [];
      var n := ReadAvailable();
      if n < 2 {
        return false, x;
      }
      var _ := ReadAlloc(2);
      PairFits(lsampl, ring.read, preallocBuf.Length);
      x := preallocBuf[bufReadPtr..bufReadPtr + 2];
      BlockRead(preallocBuf[..], ring.read, 2);
      CopiedIsStream(preallocBuf[..], Config(), ring, ring.read, x);
      var _ := ReadFree(2);
      return true, x;
    }

    /** cfc_bytes_per_scan */
    function BytesPerScan(): (n: nat)
      requires 0 < chanlistLen < MAX_CHANLIST
      reads this`chanlistLen
      ensures 0 < n < TWO_31
      ensures n == StartOf(lsampl, ScanSamples(digital, lsampl, chanlistLen))
    {
      ScanSamples(digital, lsampl, chanlistLen) * SampleBytes(lsampl)
    }

    /** increment_scan_progress: the progress is the bytes moved, modulo a scan, and passing the end
        of a scan is signalled. */
    method IncrementScanProgress(numBytes: u32)
      requires 0 < chanlistLen < MAX_CHANLIST && scanProgress < BytesPerScan() && numBytes < TWO_31
      modifies this`scanProgress, this`events
      ensures scanProgress == Cell(old(scanProgress) + numBytes, BytesPerScan()) < BytesPerScan()
      ensures events == old(events) + if old(scanProgress) + numBytes >= BytesPerScan() then {Eos} else {}
    {
      hide BytesPerScan, Cell, Wrap;
      SmallWord(scanProgress + numBytes);
      CellIsMod(scanProgress + numBytes, BytesPerScan());
      OwnCell(scanProgress + numBytes, BytesPerScan());
      scanProgress := Wrap(scanProgress + numBytes);
      if scanProgress >= BytesPerScan() {
        scanProgress := scanProgress % BytesPerScan();
        events := events + {Eos};
      }
    }

    /** cfc_write_array_to_buffer: all of `data` or nothing; a refusal still claims the room left. */
    method WriteArray(data: seq<byte>) returns (stored: u32)
      requires Valid() && |data| < TWO_31 && scanProgress < BytesPerScan()
      modifies this, preallocBuf
      ensures Valid() && preallocBuf == old(preallocBuf) && Config() == old(Config()) && chanlistLen == old(chanlistLen)
      ensures scanProgress == Cell(old(scanProgress) + stored, BytesPerScan()) < BytesPerScan()
      ensures stored == if |data| <= old(Room(ring, preallocBuf.Length)) then |data| else 0
      ensures stored == |data| ==>
        && ring == Commit(Config(), GrantWrite(old(ring), |data|), data)
        && events == old(events) + (if data == [] then {} else {Block})
          + (if old(scanProgress) + |data| >= BytesPerScan() then {Eos} else {})
      ensures stored != |data| ==>
        ring == GrantWrite(old(ring), old(Room(ring, preallocBuf.Length))) && events == old(events) + {Overflow}
    {
      hide Cell, Stores, MungedLength, Region, Wrap, Signed, BytesPerScan, Untouched;
      if |data| == 0 {
        NothingToCommit(Config(), ring);
        OwnCell(scanProgress, BytesPerScan());
        return 0;
      }
      stored := WriteAlloc(|data|);
      if stored != |data| {
        events := events + {Overflow};
        OwnCell(scanProgress, BytesPerScan());
        return 0;
      }
      PlaceBytes(data);
      Account(|data|);
    }

    /** What follows a transfer through an array: scan progress, and waking whoever waits. */
    method Account(numBytes: u32)
      requires Valid() && scanProgress < BytesPerScan() && numBytes < TWO_31
      modifies this`scanProgress, this`events
      ensures Valid()
      ensures scanProgress == Cell(old(scanProgress) + numBytes, BytesPerScan()) < BytesPerScan()
      ensures events == old(events) + {Block} + (if old(scanProgress) + numBytes >= BytesPerScan() then {Eos} else {})
    {
      hide Cell, Stores, MungedLength, Wrap, BytesPerScan;
      IncrementScanProgress(numBytes);
      events := events + {Block};
    }

    /** Copies into the granted region and commits. */
    method PlaceBytes(data: seq<byte>)
      requires Valid() && |data| < TWO_31 && |ring.committed| + |data| <= ring.writeAlloc
      modifies this`bufWriteCount, this`bufWritePtr, this`ring, preallocBuf
      modifies this`mungeCount, this`mungePtr, this`mungeChan
      ensures Valid() && ring == Commit(Config(), old(ring), data)
    {
      hide Cell, Stores, MungedLength, Region, Wrap, Signed, Untouched;
      MemcpyTo(0, data);
      var _ := WriteFree(|data|);
    }

    /** cfc_read_array_from_buffer */
    method ReadArray(nbytes: u32) returns (data: seq<byte>)
      requires Valid() && nbytes < TWO_31 && scanProgress < BytesPerScan()
      modifies this`bufReadAllocCount, this`bufReadCount, this`bufReadPtr, this`ring, this`scanProgress, this`events
      ensures Valid()
      ensures scanProgress == Cell(old(scanProgress) + |data|, BytesPerScan()) < BytesPerScan()
      ensures events == old(events) + (if nbytes == 0 then {} else {Block})
        + (if old(scanProgress) + |data| >= BytesPerScan() then {Eos} else {})
      ensures |data| == Min(nbytes, old(ring.munged - ring.readAlloc))
      ensures old(ring.read) + |data| <= |Stream(Config(), ring.committed)|
      ensures data == Stream(Config(), ring.committed)[old(ring.read)..old(ring.read) + |data|]
      ensures ring == Release(GrantRead(old(ring), |data|), |data|)
    {
      hide Cell, MungedLength, Wrap, Signed, StreamByte, BytesPerScan, Stores;
      if nbytes == 0 {
        OwnCell(scanProgress, BytesPerScan());
        return [];
      }
      data := TakeBytes(nbytes);
      Account(|data|);
    }

    /** Claims, copies out and hands back. */
    method TakeBytes(nbytes: u32) returns (data: seq<byte>)
      requires Valid() && nbytes < TWO_31
      modifies this`bufReadAllocCount, this`bufReadCount, this`bufReadPtr, this`ring
      ensures Valid()
      ensures |data| == Min(nbytes, old(ring.munged - ring.readAlloc))
      ensures old(ring.read) + |data| <= |Stream(Config(), ring.committed)|
      ensures data == Stream(Config(), ring.committed)[old(ring.read)..old(ring.read) + |data|]
      ensures ring == Release(GrantRead(old(ring), |data|), |data|)
    {
      hide Cell, MungedLength, Wrap, Signed, StreamByte, Stores;
      var n := ReadAlloc(nbytes);
      data := MemcpyFrom(0, n);
      var _ := ReadFree(n);
    }

    // ------------------------------------------------------------ resizing an idle buffer

    /** comedi_buf_alloc on an idle subdevice swaps the buffer and touches no counter. */
    method Resize(buf: array<byte>)
      requires 0 < buf.Length < TWO_31 && PartialBytes(lsampl, buf.Length) == 0
      requires Shape()
      modifies this`preallocBuf
      ensures Shape() && preallocBuf == buf
    {
      preallocBuf := buf;
    }

    /** poll() on an idle write subdevice grants the whole buffer; resizing then keeps the chain of
        positions exactly if the buffer does not shrink. The next command resets the counters. */
    method IdlePollThenResize(buf: array<byte>)
      requires Valid() && 0 < buf.Length < TWO_31 && PartialBytes(lsampl, buf.Length) == 0
      modifies this
      ensures Shape() && preallocBuf == buf
      ensures Chain(ring, buf.Length) <==> buf.Length >= old(preallocBuf.Length)
    {
      hide Cell, Stores, MungedLength, Wrap, Signed;
      var _ := WriteAlloc(preallocBuf.Length);
      Resize(buf);
    }
  }

  lemma OwnCell(a: nat, n: nat)
    requires n > 0
    ensures a < n ==> Cell(a, n) == a
  {
  }

  lemma ZeroPositions(bufsz: nat, chans: nat)
    requires bufsz > 0 && chans > 0
    ensures Wrap(0) == 0 && Cell(0, bufsz) == 0 && Cell(0, chans) == 0
  {
  }

  /** What `x -= x % bytes_per_sample` leaves. */
  lemma WholeSamples(lsampl: bool, k: nat)
    ensures PartialBytes(lsampl, k) < SampleBytes(lsampl) && PartialBytes(lsampl, k) <= k
    ensures PartialBytes(lsampl, k - PartialBytes(lsampl, k)) == 0
  {
    hide SampleIndex, SampleStart, PartialBytes;
    Parts(lsampl, k);
    SampleOffset(lsampl, SampleIndex(lsampl, k), 0);
  }

  lemma WholeSamplesLeft(lsampl: bool, munged: nat, written: nat)
    requires PartialBytes(lsampl, munged) == 0 && munged <= written
    ensures var k := written - munged;
      && munged + (k - PartialBytes(lsampl, k)) == SampleStart(lsampl, written) <= written
      && 0 <= k - PartialBytes(lsampl, k)
      && PartialBytes(lsampl, k - PartialBytes(lsampl, k)) == 0
  {
    hide SampleIndex, SampleStart, PartialBytes;
    WholeSamples(lsampl, written - munged);
    Parts(lsampl, munged);
    Parts(lsampl, written);
    SampleOffset(lsampl, SampleIndex(lsampl, written) - SampleIndex(lsampl, munged), PartialBytes(lsampl, written));
  }

  lemma AlignedArithmetic(lsampl: bool, a: nat, b: nat)
    requires b <= a
    ensures PartialBytes(lsampl, a) == 0 && PartialBytes(lsampl, b) == 0 ==> PartialBytes(lsampl, a - b) == 0
    ensures PartialBytes(lsampl, 0) == 0
  {
    hide SampleIndex, SampleStart, PartialBytes;
    Parts(lsampl, a);
    Parts(lsampl, b);
    SampleOffset(lsampl, 0, 0);
    if PartialBytes(lsampl, a) == 0 && PartialBytes(lsampl, b) == 0 {
      SampleOffset(lsampl, SampleIndex(lsampl, a) - SampleIndex(lsampl, b), 0);
    }
  }

  lemma AlignedSum(lsampl: bool, a: nat, b: nat)
    requires PartialBytes(lsampl, a) == 0 && PartialBytes(lsampl, b) == 0
    ensures PartialBytes(lsampl, a + b) == 0
  {
    hide PartialBytes;
    AlignedShift(lsampl, a, b);
  }

  /** Samples never straddle the end of the buffer. */
  lemma {:induction false} CellAligned(lsampl: bool, p: nat, n: nat)
    requires n > 0 && PartialBytes(lsampl, n) == 0
    ensures PartialBytes(lsampl, Cell(p, n)) == PartialBytes(lsampl, p)
  {
    hide PartialBytes;
    if p >= n {
      CellAligned(lsampl, p - n, n);
      AlignedShift(lsampl, p - n, n);
    }
  }

  lemma AlignedShift(lsampl: bool, p: nat, n: nat)
    requires PartialBytes(lsampl, n) == 0
    ensures PartialBytes(lsampl, p + n) == PartialBytes(lsampl, p)
  {
    hide SampleIndex, SampleStart, PartialBytes;
    Parts(lsampl, p);
    Parts(lsampl, n);
    SampleOffset(lsampl, SampleIndex(lsampl, p) + SampleIndex(lsampl, n), PartialBytes(lsampl, p));
  }

  lemma BlockTest(ptr: u32, blockSize: u32, bufsz: u32)
    requires ptr < bufsz < TWO_31 && blockSize <= bufsz
    ensures Signed(Wrap(Wrap(ptr + blockSize) - bufsz)) > 0 <==> ptr + blockSize > bufsz
  {
  }

  lemma SameSample(lsampl: bool, cells: seq<byte>, ptr: nat, data: seq<byte>, pos: nat)
    requires ptr + |data| <= |cells| && pos + SampleBytes(lsampl) <= |data|
    requires forall c | ptr + pos <= c < ptr + |data| :: cells[c] == data[c - ptr]
    ensures SampleAt(lsampl, cells, ptr + pos) == SampleAt(lsampl, data, pos)
  {
  }

  /** A 16-bit sample at an even position does not run over the end of the buffer. */
  lemma PairFits(lsampl: bool, p: nat, n: nat)
    requires n > 0 && PartialBytes(lsampl, n) == 0 && PartialBytes(false, p) == 0
    ensures Cell(p, n) + 2 <= n
  {
    hide Cell;
    CellAligned(false, p, n);
  }

  lemma NothingToCommit(m: Munger, r: Ring)
    requires r.munged == MungedLength(m, |r.committed|)
    ensures Commit(m, GrantWrite(r, 0), []) == r
  {
    assert r.committed + [] == r.committed;
  }

  /** An offset kept with `%=` stays the position modulo `n`. */
  lemma Advance(p: nat, k: nat, n: nat)
    requires 0 < n && Cell(p, n) + k < TWO_32
    ensures Wrap(Cell(p, n) + k) == Cell(p, n) + k
    ensures Wrap(Cell(p, n) + k) % n == Cell(p + k, n)
    ensures Cell(p, n) + k < n ==> Cell(p + k, n) == Cell(p, n) + k
  {
    CellIsMod(Cell(p, n) + k, n);
    CellOfSum(p, k, n);
  }

  lemma SamplesAdd(lsampl: bool, p: nat, k: nat)
    requires PartialBytes(lsampl, p) == 0 && PartialBytes(lsampl, k) == 0
    ensures SampleIndex(lsampl, p + k) == SampleIndex(lsampl, p) + SampleIndex(lsampl, k)
    ensures PartialBytes(lsampl, p + k) == 0
    ensures 2 * SampleIndex(lsampl, k) <= k
  {
    hide SampleIndex, SampleStart, PartialBytes;
    Parts(lsampl, p);
    Parts(lsampl, k);
    SampleOffset(lsampl, SampleIndex(lsampl, p) + SampleIndex(lsampl, k), 0);
  }

  /** The test every allocation makes on counters `from` and `to`, in terms of positions. */
  lemma CounterClamp(from: nat, to: nat, nbytes: u32)
    requires from <= to && to - from < TWO_31
    ensures Signed(Wrap(Wrap(from) + nbytes - Wrap(to))) > 0 <==> to - from < nbytes < TWO_31 + (to - from)
    ensures Wrap(Wrap(to) - Wrap(from)) == to - from
  {
    hide Wrap, Signed;
    WrapOfDifference(to, from);
    SumOfWraps(from, nbytes, to);
    WrapOfDifferences(from + nbytes, to);
    SignOf(nbytes - (to - from));
  }

  lemma WrapOfDifferences(a: int, b: int)
    ensures Wrap(Wrap(a) - Wrap(b)) == Wrap(a - b)
  {
  }

  lemma SignOf(x: int)
    requires -TWO_31 < x < TWO_32
    ensures Signed(Wrap(x)) > 0 <==> 0 < x < TWO_31
  {
  }

  lemma SumOfWraps(from: nat, nbytes: u32, to: nat)
    ensures Wrap(Wrap(from) + nbytes - Wrap(to)) == Wrap(Wrap(from + nbytes) - Wrap(to))
  {
  }
}

/** What every step of the device keeps, and what a reader is promised. */
module LifecycleLaws {
  import opened Word32
  import opened Cyclic
  import opened RingSpec
  import opened AsyncBuffer
  import opened Lifecycle

  // ---------------------------------------------------------------- the invariant

  /** Between steps: only a file's command runs or is real-time, the command's owner is the lock's
      owner, and the channel list exists exactly while a file is busy. */
  predicate SubdOk(s: Subd) {
    && s.busy != Insn && s.lock != Insn
    && (s.running ==> s.busy.File?)
    && (s.rt ==> s.busy.File?)
    && (s.busy.File? && s.lock.File? ==> s.busy == s.lock)
    && (s.chanlist.Allocated? <==> s.busy.File?)
    && (s.busy.File? ==> s.cfg.hasAsync && FifoChain(s.fifo, s.bufsz))
  }

  /** How many subdevices are flagged real-time. */
  function RtCount(subds: seq<Subd>): nat {
    if subds == [] then 0
    else RtCount(subds[..|subds| - 1]) + (if subds[|subds| - 1].rt then 1 else 0)
  }

  /** Every live allocation is the channel list of exactly one subdevice, and only those are live. */
  ghost predicate Owned(d: Dev) {
    && (forall i | 0 <= i < |d.subds| && d.subds[i].chanlist.Allocated? ::
         d.subds[i].chanlist.id in d.live && d.subds[i].chanlist.id < d.nextId)
    && (forall i, j | 0 <= i < j < |d.subds| && d.subds[i].chanlist.Allocated? ::
         d.subds[i].chanlist != d.subds[j].chanlist)
    && (forall id | id in d.live :: exists i :: 0 <= i < |d.subds| && d.subds[i].chanlist == Allocated(id))
  }

  /** The real-time count, the installed handler, and the allocations are right. */
  ghost predicate DevOk(d: Dev) {
    && d.rt == RtCount(d.subds)
    && d.installs == (if d.rt > 0 then 1 else 0)
    && (!d.irqEntry ==> d.rt == 0)
    && Owned(d) && !d.badFree
  }

  ghost predicate Inv(d: Dev) {
    DevOk(d) && forall i | 0 <= i < |d.subds| :: SubdOk(d.subds[i])
  }

  // ---------------------------------------------------------------- the buffer behind the positions

  ghost function Positions(r: Ring): Fifo {
    Fifo(r.writeAlloc, |r.committed|, r.munged, r.readAlloc, r.read)
  }

  /** The buffer calls used here move the positions as the calls of Async move its ring, with the
      grants its contracts give, whether or not the request is within the reach of the clamp. */
  lemma PositionsFollowRing(c: SubdConfig, m: Munger, r: Ring, bufsz: bufsize, n: u32, data: seq<byte>)
    requires Chain(r, bufsz) && r.munged == MungedLength(m, |r.committed|)
    requires c.munges == m.active && c.lsampl == m.lsampl
    requires |data| == Min(n, r.writeAlloc - |r.committed|)
    ensures var room := Room(r, bufsz);
      WriteAlloc(Positions(r), bufsz, n) == Positions(GrantWrite(r, if n < TWO_31 + room then Min(n, room) else n))
    ensures n < TWO_31 + (r.writeAlloc - |r.committed|) ==>
      WriteFree(c, Positions(r), n) == Positions(Commit(m, r, data))
    ensures var room := r.munged - r.readAlloc;
      ReadAlloc(Positions(r), n) == Positions(GrantRead(r, if n < TWO_31 + room then Min(n, room) else n))
    ensures var room := r.readAlloc - r.read;
      ReadFree(Positions(r), n) == Positions(Release(r, if n < TWO_31 + room then Min(n, room) else n))
  {
    hide SampleStart, Grant, MungedLength, WriteFree;
    GrantExactly(n, Room(r, bufsz));
    GrantExactly(n, r.munged - r.readAlloc);
    GrantExactly(n, r.readAlloc - r.read);
    if n < TWO_31 + (r.writeAlloc - |r.committed|) { CommitFollowsRing(c, m, r, bufsz, n, data); }
  }

  lemma CommitFollowsRing(c: SubdConfig, m: Munger, r: Ring, bufsz: bufsize, n: u32, data: seq<byte>)
    requires Chain(r, bufsz) && r.munged == MungedLength(m, |r.committed|)
    requires c.munges == m.active && c.lsampl == m.lsampl
    requires n < TWO_31 + (r.writeAlloc - |r.committed|) && |data| == Min(n, r.writeAlloc - |r.committed|)
    ensures WriteFree(c, Positions(r), n) == Positions(Commit(m, r, data))
  {
    hide SampleStart, SampleIndex, PartialBytes, Grant;
    GrantExactly(n, r.writeAlloc - |r.committed|);
    SmallWord(|r.committed + data| - r.munged);
    if m.active {
      Parts(m.lsampl, |r.committed|);
      SampleOffset(m.lsampl, SampleIndex(m.lsampl, |r.committed|), 0);
      WholeSamplesLeft(m.lsampl, r.munged, |r.committed + data|);
    }
  }

  // ---------------------------------------------------------------- counting and ownership

  lemma {:induction false} RtCountUpdate(subds: seq<Subd>, i: nat, s: Subd)
    requires i < |subds|
    ensures RtCount(subds[i := s]) ==
      RtCount(subds) - (if subds[i].rt then 1 else 0) + (if s.rt then 1 else 0)
    ensures subds[i].rt ==> RtCount(subds) > 0
  {
    var n := |subds| - 1;
    if i == n {
      assert subds[i := s][..n] == subds[..n];
    } else {
      assert subds[i := s][..n] == subds[..n][i := s];
      RtCountUpdate(subds[..n], i, s);
    }
  }

  /** Changing a subdevice but not its channel list or real-time flag. */
  lemma LocalChange(d: Dev, i: nat, s: Subd)
    requires i < |d.subds| && DevOk(d)
    requires s.chanlist == d.subds[i].chanlist && s.rt == d.subds[i].rt
    ensures DevOk(SetSubd(d, i, s))
  {
    RtCountUpdate(d.subds, i, s);
    OwnedSameLists(d, SetSubd(d, i, s));
  }

  lemma OwnedSameLists(d: Dev, e: Dev)
    requires Owned(d) && |d.subds| == |e.subds| && e.live == d.live && e.nextId == d.nextId
    requires forall i | 0 <= i < |d.subds| :: e.subds[i].chanlist == d.subds[i].chanlist
    ensures Owned(e)
  {
    forall id | id in e.live ensures exists i :: 0 <= i < |e.subds| && e.subds[i].chanlist == Allocated(id) {
      var i :| 0 <= i < |d.subds| && d.subds[i].chanlist == Allocated(id);
      assert e.subds[i].chanlist == Allocated(id);
    }
  }

  lemma KmallocKeeps(d: Dev, i: nat)
    requires i < |d.subds| && DevOk(d) && d.subds[i].chanlist == Null
    ensures DevOk(Kmalloc(d, i))
  {
    var e := Kmalloc(d, i);
    RtCountUpdate(d.subds, i, e.subds[i]);
    forall id | id in e.live ensures exists j :: 0 <= j < |e.subds| && e.subds[j].chanlist == Allocated(id) {
      if id == d.nextId {
        assert e.subds[i].chanlist == Allocated(id);
      } else {
        var j :| 0 <= j < |d.subds| && d.subds[j].chanlist == Allocated(id);
        assert e.subds[j].chanlist == Allocated(id);
      }
    }
  }

  /** Freeing a subdevice's channel list and clearing the pointer. */
  lemma FreeKeepsOwned(d: Dev, i: nat, s: Subd)
    requires i < |d.subds| && Owned(d) && s.chanlist == Null
    ensures Owned(SetSubd(Kfree(d, d.subds[i].chanlist), i, s))
    ensures Kfree(d, d.subds[i].chanlist).badFree == d.badFree
  {
    var e := SetSubd(Kfree(d, d.subds[i].chanlist), i, s);
    forall id | id in e.live ensures exists j :: 0 <= j < |e.subds| && e.subds[j].chanlist == Allocated(id) {
      var j :| 0 <= j < |d.subds| && d.subds[j].chanlist == Allocated(id);
      assert e.subds[j].chanlist == Allocated(id);
    }
  }

  /** Going idle restores everything, wherever in its command the subdevice was. */
  lemma NonbusyKeeps(d: Dev, i: nat)
    requires i < |d.subds| && DevOk(d)
    ensures DevOk(BecomeNonbusy(d, i))
  {
    var s := d.subds[i];
    var d1 := if s.rt then SwitchToNonRt(d) else d;
    RtCountUpdate(d.subds, i, Idle(s));
    OwnedSameLists(d, d1);
    FreeKeepsOwned(d1, i, Idle(s));
  }

  lemma LaunchKeeps(d: Dev, i: nat, file: nat, priority: bool)
    requires i < |d.subds| && DevOk(d) && !d.subds[i].rt
    ensures DevOk(Launch(d, i, file, priority))
  {
    var e := Launch(d, i, file, priority);
    RtCountUpdate(d.subds, i, e.subds[i]);
    OwnedSameLists(d, e);
  }

  // ---------------------------------------------------------------- steps

  datatype Action =
    | Cmd(i: nat, file: nat, req: CmdRequest)
    | Instruction(i: nat, file: nat, badChanspec: bool, driverRet: int)
    | Lock(i: nat, file: nat)
    | Unlock(i: nat, file: nat)
    | Cancel(i: nat, file: nat, driverRet: int)
    | Close(file: nat)
    | Read(i: nat, file: nat, attempt: Attempt)
    | WokenRead(i: nat, file: nat, attempt: Attempt, signal: bool)
    | Write(i: nat, file: nat, attempt: Attempt)
    | Bufinfo(i: nat, file: nat, bytesRead: u32, bytesWritten: u32)
    | Poll(i: nat)
    | Resize(i: nat, bufsz: bufsize)
    | DriverEvent(i: nat, events: set<Event>)
    | DriverMoves(i: nat, transfer: Transfer)

  /** One atomic step; actions on subdevices that do not exist change nothing. */
  function Step(d: Dev, a: Action): Dev {
    match a
    case Cmd(i, file, req) => DoCmd(d, i, file, req).0
    case Instruction(i, file, bad, ret) => d
    case Lock(i, file) => DoLock(d, i, file).0
    case Unlock(i, file) => DoUnlock(d, i, file).0
    case Cancel(i, file, ret) => DoCancelIoctl(d, i, file, ret).0
    case Close(file) => CloseFrom(d, file, 0)
    case Read(i, file, attempt) => if i < |d.subds| then DoRead(d, i, file, attempt).0 else d
    case WokenRead(i, file, attempt, signal) =>
      if i < |d.subds| then DoWokenRead(d, i, file, attempt, signal).0 else d
    case Write(i, file, attempt) => if i < |d.subds| then DoWrite(d, i, file, attempt).0 else d
    case Bufinfo(i, file, r, w) => DoBufinfo(d, i, file, r, w).0
    case Poll(i) => if i < |d.subds| then DoPoll(d, i) else d
    case Resize(i, bufsz) => if i < |d.subds| then DoResize(d, i, bufsz).0 else d
    case DriverEvent(i, events) =>
      if i < |d.subds| then SetSubd(d, i, EventFlags(d.subds[i], events)) else d
    case DriverMoves(i, transfer) => if i < |d.subds| then DriverTransfer(d, i, transfer) else d
  }

  function Run(d: Dev, actions: seq<Action>): Dev {
    if actions == [] then d else Step(Run(d, actions[..|actions| - 1]), actions[|actions| - 1])
  }

  // Counts that reach a buffer call unchecked come from the user's bufinfo and from drivers. The
  // buffer's comparisons are right for less than 2^31 bytes more than there are.

  predicate ReadInReach(f: Fifo, n: u32) {
    n < TWO_31 + (f.munged - f.readAlloc)
  }

  predicate WriteInReach(f: Fifo, bufsz: bufsize, n: u32) {
    n < TWO_31 + (f.read + bufsz - f.writeAlloc)
  }

  predicate TransferInReach(s: Subd, t: Transfer) {
    s.running ==>
      match t
      case AllocateWrite(n) => WriteInReach(s.fifo, s.bufsz, n)
      case FreeWrite(n) => n < TWO_31 + (s.fifo.writeAlloc - s.fifo.written)
      case AllocateRead(n) => ReadInReach(s.fifo, n)
      case FreeRead(n) => n < TWO_31 + (s.fifo.readAlloc - s.fifo.read)
  }

  predicate BufinfoInReach(d: Dev, i: nat, file: nat, r: u32, w: u32) {
    i < |d.subds| && d.subds[i].busy == File(file) ==>
      var s := d.subds[i];
      && (s.cfg.cmdRead ==> ReadInReach(s.fifo, r))
      && (s.cfg.cmdWrite ==>
           var s' := (if s.cfg.cmdRead then BufinfoRead(d, i, r).0 else d).subds[i];
           s'.busy.File? ==> WriteInReach(s'.fifo, s'.bufsz, w))
  }

  predicate InReach(d: Dev, a: Action) {
    match a
    case Bufinfo(i, file, r, w) => BufinfoInReach(d, i, file, r, w)
    case DriverMoves(i, t) => i < |d.subds| ==> TransferInReach(d.subds[i], t)
    case _ => true
  }

  predicate RunInReach(d: Dev, actions: seq<Action>) {
    actions == [] ||
    (RunInReach(d, actions[..|actions| - 1]) && InReach(Run(d, actions[..|actions| - 1]), actions[|actions| - 1]))
  }

  /** Counts below 2^31 are in reach in every state that satisfies the invariant. */
  predicate SmallCounts(a: Action) {
    match a
    case Bufinfo(_, _, r, w) => r < TWO_31 && w < TWO_31
    case DriverMoves(_, t) => t.n < TWO_31
    case _ => true
  }

  /** A device as attach leaves it. */
  predicate Attached(d: Dev) {
    && d.rt == 0 && d.installs == 0 && d.live == {} && !d.badFree
    && forall i | 0 <= i < |d.subds| ::
      d.subds[i].busy == Nobody && d.subds[i].lock == Nobody && !d.subds[i].running && !d.subds[i].rt
      && d.subds[i].chanlist == Null
  }

  lemma {:induction false} NoneRt(subds: seq<Subd>)
    requires forall i | 0 <= i < |subds| :: !subds[i].rt
    ensures RtCount(subds) == 0
  {
    if subds != [] { NoneRt(subds[..|subds| - 1]); }
  }

  lemma InvKeptAt(d: Dev, e: Dev, i: nat)
    requires Inv(d) && DevOk(e) && i < |d.subds| == |e.subds| && SubdOk(e.subds[i])
    requires forall j | 0 <= j < |d.subds| && j != i :: e.subds[j] == d.subds[j]
    ensures Inv(e)
  {
  }

  lemma SubdOkAt(d: Dev, i: nat)
    requires Inv(d) && i < |d.subds|
    ensures SubdOk(d.subds[i])
  {
  }

  lemma NonbusyInv(d: Dev, i: nat)
    requires i < |d.subds| && Inv(d)
    ensures Inv(BecomeNonbusy(d, i)) && |BecomeNonbusy(d, i).subds| == |d.subds|
  {
    NonbusyKeeps(d, i);
  }

  lemma LocalInv(d: Dev, i: nat, s: Subd)
    requires i < |d.subds| && Inv(d) && SubdOk(s)
    requires s.chanlist == d.subds[i].chanlist && s.rt == d.subds[i].rt
    ensures Inv(SetSubd(d, i, s))
  {
    LocalChange(d, i, s);
  }

  lemma CmdKeepsInv(d: Dev, i: nat, file: nat, req: CmdRequest)
    requires Inv(d)
    ensures Inv(DoCmd(d, i, file, req).0)
  {
    if CmdRefusal(d, i, file, req) == 0 {
      hide Inv, SubdOk, BecomeNonbusy, Kmalloc, Launch, EventFlags;
      SubdOkAt(d, i);
      RejectedCmdKeepsInv(d, i);
      StartedCmdKeepsInv(d, i, file, req.priority, req.driverEvents);
    }
  }

  /** A command given up after its channel list was allocated. */
  lemma RejectedCmdKeepsInv(d: Dev, i: nat)
    requires Inv(d) && i < |d.subds| && d.subds[i].busy == Nobody
    ensures Inv(BecomeNonbusy(Kmalloc(d, i), i))
  {
    hide DevOk;
    SubdOkAt(d, i);
    KmallocKeeps(d, i);
    NonbusyKeeps(Kmalloc(d, i), i);
    InvKeptAt(d, BecomeNonbusy(Kmalloc(d, i), i), i);
  }

  /** A command the driver took, whether or not it then failed. */
  lemma StartedCmdKeepsInv(d: Dev, i: nat, file: nat, priority: bool, events: set<Event>)
    requires Inv(d) && i < |d.subds| && d.subds[i].busy == Nobody && d.subds[i].cfg.hasAsync
    requires d.subds[i].lock == Nobody || d.subds[i].lock == File(file)
    ensures var launched := Launch(Kmalloc(d, i), i, file, priority);
      var driven := SetSubd(launched, i, EventFlags(launched.subds[i], events));
      Inv(driven) && Inv(BecomeNonbusy(driven, i))
  {
    hide DevOk, BecomeNonbusy;
    SubdOkAt(d, i);
    KmallocKeeps(d, i);
    LaunchKeeps(Kmalloc(d, i), i, file, priority);
    var launched := Launch(Kmalloc(d, i), i, file, priority);
    var driven := SetSubd(launched, i, EventFlags(launched.subds[i], events));
    LocalChange(launched, i, driven.subds[i]);
    InvKeptAt(d, driven, i);
    NonbusyInv(driven, i);
  }

  lemma CloseOneKeepsInv(d: Dev, file: nat, i: nat)
    requires Inv(d) && i < |d.subds|
    ensures var e := CloseOne(d, file, i);
      && Inv(e) && |e.subds| == |d.subds|
      && e.subds[i].busy != File(file) && e.subds[i].lock != File(file)
      && (forall j | 0 <= j < |d.subds| ::
            j != i || (d.subds[j].busy != File(file) && d.subds[j].lock != File(file)) ==> e.subds[j] == d.subds[j])
  {
    hide DevOk;
    var d1 := if d.subds[i].busy == File(file) then BecomeNonbusy(d, i) else d;
    NonbusyInv(d, i);
    var s := d1.subds[i];
    LocalInv(d1, i, if s.lock == File(file) then s.(lock := Nobody) else s);
  }

  lemma {:induction false} CloseKeepsInv(d: Dev, file: nat, i: nat)
    requires Inv(d) && i <= |d.subds|
    ensures Inv(CloseFrom(d, file, i)) && |CloseFrom(d, file, i).subds| == |d.subds|
    decreases |d.subds| - i
  {
    hide Inv, CloseOne;
    if i < |d.subds| {
      CloseOneKeepsInv(d, file, i);
      CloseKeepsInv(CloseOne(d, file, i), file, i + 1);
    }
  }

  /** Reading `n` of the bytes there are. */
  lemma ReadMoves(f: Fifo, bufsz: bufsize, n: u32)
    requires FifoChain(f, bufsz) && n <= f.munged - f.read
    ensures FifoChain(ReadFree(ReadAlloc(f, n), n), bufsz)
    ensures ReadFree(ReadAlloc(f, n), n)
         == f.(read := f.read + n, readAlloc := Max(f.readAlloc, Min(f.readAlloc + n, f.munged)))
  {
    hide Grant;
    GrantExactly(n, f.munged - f.readAlloc);
    GrantExactly(n, ReadAlloc(f, n).readAlloc - f.read);
  }

  /** What a read attempt finds, and that it is drained when nothing is left unread. */
  lemma ReadFinds(s: Subd, a: Attempt)
    requires FifoChain(s.fifo, s.bufsz)
    ensures ReadSample(s, a) <= s.fifo.munged - s.fifo.read
    ensures ReadSample(s, a) > 0 <==> a.nbytes > 0 && s.fifo.munged > s.fifo.read
    ensures Drained(s.fifo) <==> s.fifo.read == s.fifo.written
  {
    hide Contiguous;
    SmallWord(s.fifo.munged - s.fifo.read);
    DrainedExactly(s.fifo, s.bufsz);
  }

  lemma DrainedExactly(f: Fifo, bufsz: bufsize)
    requires FifoChain(f, bufsz)
    ensures Drained(f) <==> f.read == f.written
  {
  }

  lemma TailKeepsInv(d: Dev, i: nat)
    requires Inv(d) && i < |d.subds|
    ensures Inv(LeaveIfDrained(d, i))
  {
    hide Inv, BecomeNonbusy;
    NonbusyInv(d, i);
  }

  lemma ReadRestKeepsInv(d: Dev, i: nat, a: Attempt, n: u32)
    requires Inv(d) && i < |d.subds| && d.subds[i].busy.File? && n <= d.subds[i].fifo.munged - d.subds[i].fifo.read
    ensures Inv(ReadRest(d, i, a, n).0)
  {
    hide Inv, ReadAlloc, ReadFree, FifoChain, BecomeNonbusy, LeaveIfDrained;
    SubdOkAt(d, i);
    var s := d.subds[i];
    NonbusyInv(d, i);
    if n > 0 {
      var copied: u32 := n - Min(a.fault, n);
      ReadMoves(s.fifo, s.bufsz, copied);
      var s' := s.(fifo := ReadFree(ReadAlloc(s.fifo, copied), copied));
      LocalInv(d, i, s');
      TailKeepsInv(SetSubd(d, i, s'), i);
    }
  }

  lemma ReadKeepsInv(d: Dev, i: nat, file: nat, a: Attempt)
    requires Inv(d) && i < |d.subds|
    ensures Inv(DoRead(d, i, file, a).0)
  {
    hide Inv, FifoChain, ReadSample, ReadRest;
    SubdOkAt(d, i);
    if d.subds[i].busy == File(file) {
      ReadFinds(d.subds[i], a);
      ReadRestKeepsInv(d, i, a, ReadSample(d.subds[i], a));
    }
  }

  lemma WokenReadKeepsInv(d: Dev, i: nat, file: nat, a: Attempt, signal: bool)
    requires Inv(d) && i < |d.subds|
    ensures Inv(DoWokenRead(d, i, file, a, signal).0)
  {
    hide Inv, FifoChain, ReadSample, ReadRest, LeaveIfDrained;
    SubdOkAt(d, i);
    TailKeepsInv(d, i);
    if d.subds[i].busy == File(file) {
      ReadFinds(d.subds[i], a);
      ReadRestKeepsInv(d, i, a, ReadSample(d.subds[i], a));
    }
  }

  lemma WriteKeepsInv(d: Dev, i: nat, file: nat, a: Attempt)
    requires Inv(d) && i < |d.subds|
    ensures Inv(DoWrite(d, i, file, a).0)
  {
    hide Inv, Contiguous, WriteAlloc, WriteFree, FifoChain, BecomeNonbusy, Wrap;
    SubdOkAt(d, i);
    var s := d.subds[i];
    NonbusyInv(d, i);
    if s.busy == File(file) {
      var f := WriteAlloc(s.fifo, s.bufsz, s.bufsz);
      WholeBufferGranted(s.cfg, s.fifo, s.bufsz);
      LocalInv(d, i, s.(fifo := f));
      var n: u32 := Min(Contiguous(s.fifo.written, a.nbytes, s.bufsz), Wrap(f.writeAlloc - f.written));
      var copied: u32 := n - Min(a.fault, n);
      BufferCallsKeepChain(s.cfg, f, s.bufsz, copied);
      LocalInv(d, i, s.(fifo := WriteFree(s.cfg, f, copied)));
    }
  }

  lemma WholeBufferGranted(c: SubdConfig, f: Fifo, bufsz: bufsize)
    requires FifoChain(f, bufsz)
    ensures var g := WriteAlloc(f, bufsz, bufsz);
      FifoChain(g, bufsz) && Wrap(g.writeAlloc - g.written) == g.writeAlloc - g.written
  {
    BufferCallsKeepChain(c, f, bufsz, bufsz);
    SmallWord(WriteAlloc(f, bufsz, bufsz).writeAlloc - f.written);
  }

  /** Consuming through bufinfo keeps the chain exactly for counts in reach. Beyond it more is
      consumed than there is, and the buffer does not look drained. */
  lemma BufinfoConsumes(c: SubdConfig, f: Fifo, bufsz: bufsize, r: u32)
    requires FifoChain(f, bufsz)
    ensures FifoChain(AfterBufinfo(f, r), bufsz) <==> ReadInReach(f, r)
    ensures Granted(f, r) <= f.munged - f.readAlloc <==> ReadInReach(f, r)
    ensures ReadInReach(f, r) ==> AfterBufinfo(f, r).read == f.read + Granted(f, r)
    ensures !ReadInReach(f, r) ==> Granted(f, r) == r && !Drained(AfterBufinfo(f, r))
  {
    hide Grant;
    GrantExactly(r, f.munged - f.readAlloc);
    var g := Granted(f, r);
    if ReadInReach(f, r) {
      GrantExactly(g, ReadAlloc(f, r).readAlloc - f.read);
    } else {
      GrantBeyond(r, f.readAlloc - f.read);
    }
  }

  /** A count out of reach is granted whole twice over. */
  lemma GrantBeyond(n: u32, behind: int)
    requires 0 <= behind < TWO_31
    ensures Grant(n, n + behind) == n
  {
    SmallWord(n);
  }

  lemma BufinfoReadExactly(d: Dev, i: nat, r: u32)
    requires Inv(d) && i < |d.subds| && d.subds[i].busy.File?
    ensures Inv(BufinfoRead(d, i, r).0) <==> ReadInReach(d.subds[i].fifo, r)
    ensures |BufinfoRead(d, i, r).0.subds| == |d.subds|
  {
    hide Inv, FifoChain, BecomeNonbusy, AfterBufinfo, Drained, ReadInReach, Granted;
    SubdOkAt(d, i);
    var s := d.subds[i];
    var s' := s.(fifo := AfterBufinfo(s.fifo, r));
    BufinfoConsumes(s.cfg, s.fifo, s.bufsz, r);
    if ReadInReach(s.fifo, r) {
      LocalInv(d, i, s');
      NonbusyInv(SetSubd(d, i, s'), i);
    } else {
      BrokenChain(SetSubd(d, i, s'), i);
    }
  }

  /** A busy subdevice whose positions are out of order. */
  lemma BrokenChain(d: Dev, i: nat)
    requires i < |d.subds| && d.subds[i].busy.File? && !FifoChain(d.subds[i].fifo, d.subds[i].bufsz)
    ensures !Inv(d)
  {
    assert !SubdOk(d.subds[i]);
  }

  lemma BufinfoWriteExactly(d: Dev, i: nat, w: u32)
    requires Inv(d) && i < |d.subds|
    ensures var s := d.subds[i];
      s.busy.File? ==> (Inv(BufinfoWrite(d, i, w).0) <==> WriteInReach(s.fifo, s.bufsz, w))
    ensures !d.subds[i].busy.File? ==> Inv(BufinfoWrite(d, i, w).0)
  {
    hide Inv, FifoChain, AfterBufinfoWrite, WriteInReach;
    SubdOkAt(d, i);
    var s := d.subds[i];
    var s' := s.(fifo := AfterBufinfoWrite(s.cfg, s.fifo, s.bufsz, w));
    if !s.busy.File? {
      LocalInv(d, i, s');
    } else {
      BufinfoProduces(s.cfg, s.fifo, s.bufsz, w);
      if WriteInReach(s.fifo, s.bufsz, w) {
        LocalInv(d, i, s');
      } else {
        BrokenChain(SetSubd(d, i, s'), i);
      }
    }
  }

  lemma BufinfoProduces(c: SubdConfig, f: Fifo, bufsz: bufsize, w: u32)
    requires FifoChain(f, bufsz)
    ensures FifoChain(AfterBufinfoWrite(c, f, bufsz, w), bufsz) <==> WriteInReach(f, bufsz, w)
  {
    hide Grant, Munged;
    GrantExactly(w, f.read + bufsz - f.writeAlloc);
    if WriteInReach(f, bufsz, w) {
      BufferCallsKeepChain(c, f, bufsz, w);
      BufferCallsKeepChain(c, WriteAlloc(f, bufsz, w), bufsz, Grant(w, f.read + bufsz - f.writeAlloc));
    }
  }

  /** On a subdevice both read and written, a read count out of reach leaves the rest to the write
      count of the same call. */
  predicate LeftToWrite(d: Dev, i: nat, r: u32) {
    i < |d.subds| && d.subds[i].cfg.cmdRead && d.subds[i].cfg.cmdWrite && !ReadInReach(d.subds[i].fifo, r)
  }

  /** A bufinfo call by the owner keeps the invariant for counts in reach, and only for those unless
      a read count out of reach is left to the write count. */
  lemma BufinfoExactly(d: Dev, i: nat, file: nat, r: u32, w: u32)
    requires Inv(d)
    ensures BufinfoInReach(d, i, file, r, w) ==> Inv(DoBufinfo(d, i, file, r, w).0)
    ensures !LeftToWrite(d, i, r) ==> (Inv(DoBufinfo(d, i, file, r, w).0) <==> BufinfoInReach(d, i, file, r, w))
  {
    hide Inv, BufinfoRead, BufinfoWrite, ReadInReach, WriteInReach;
    if i < |d.subds| && d.subds[i].busy == File(file) {
      SubdOkAt(d, i);
      BufinfoReadExactly(d, i, r);
      BufinfoWriteExactly(d, i, w);
      var d1 := BufinfoRead(d, i, r).0;
      if Inv(d1) { BufinfoWriteExactly(d1, i, w); }
    }
  }

  /** The least count that can be out of reach. */
  const HUGE: u32 := 0x8000_0000

  /** The owner of a running command who asks to consume 2^31 bytes of an empty buffer is granted
      them all, and the positions are out of order. */
  lemma HugeBufinfoBreaksChain(d: Dev, i: nat, file: nat)
    requires Inv(d) && i < |d.subds| && d.subds[i].busy == File(file)
    requires d.subds[i].cfg.cmdRead && !d.subds[i].cfg.cmdWrite && d.subds[i].fifo == EMPTY_FIFO
    ensures Granted(d.subds[i].fifo, HUGE) == HUGE
    ensures !Inv(DoBufinfo(d, i, file, HUGE, 0).0)
  {
    hide Inv;
    ClampMissesHugeRequest();
    BufinfoExactly(d, i, file, HUGE, 0);
  }

  /** A write count can make up for such a read count: 2^31 bytes of each on an empty buffer. */
  lemma WriteCountMendsReadCount(d: Dev, i: nat, file: nat)
    requires Inv(d) && i < |d.subds| && d.subds[i].busy == File(file)
    requires d.subds[i].cfg.cmdRead && d.subds[i].cfg.cmdWrite && d.subds[i].fifo == EMPTY_FIFO
    ensures LeftToWrite(d, i, HUGE) && !BufinfoInReach(d, i, file, HUGE, HUGE)
    ensures Inv(DoBufinfo(d, i, file, HUGE, HUGE).0)
  {
    hide Inv, DoBufinfo, AfterBufinfo, AfterBufinfoWrite, Drained;
    SubdOkAt(d, i);
    var s := d.subds[i];
    HugeCounts(s.cfg, s.bufsz);
    BothSides(d, i, file, HUGE, HUGE);
    LocalInv(d, i, s.(fifo := Fifo(HUGE, HUGE, HUGE, HUGE, HUGE)));
  }

  /** Both sides of a bufinfo call that does not find the buffer drained. */
  lemma BothSides(d: Dev, i: nat, file: nat, r: u32, w: u32)
    requires i < |d.subds| && d.subds[i].busy == File(file) && SubdOk(d.subds[i])
    requires d.subds[i].cfg.cmdRead && d.subds[i].cfg.cmdWrite && !Drained(AfterBufinfo(d.subds[i].fifo, r))
    ensures var s := d.subds[i];
      var f := AfterBufinfo(s.fifo, r);
      DoBufinfo(d, i, file, r, w).0 == SetSubd(d, i, s.(fifo := AfterBufinfoWrite(s.cfg, f, s.bufsz, w)))
  {
    hide BecomeNonbusy, AfterBufinfo, AfterBufinfoWrite, Drained, Grant, Granted, FifoChain;
    var s := d.subds[i];
    var s' := s.(fifo := AfterBufinfo(s.fifo, r));
    var e := SetSubd(d, i, s');
    assert e.subds[i] == s' && BufinfoRead(d, i, r).0 == e;
    var s'' := s.(fifo := AfterBufinfoWrite(s.cfg, s'.fifo, s.bufsz, w));
    assert d.subds[i := s'][i := s''] == d.subds[i := s''];
  }

  lemma HugeCounts(c: SubdConfig, bufsz: bufsize)
    ensures var f := AfterBufinfo(EMPTY_FIFO, HUGE);
      && f == Fifo(0, 0, 0, HUGE, HUGE) && !Drained(f)
      && AfterBufinfoWrite(c, f, bufsz, HUGE) == Fifo(HUGE, HUGE, HUGE, HUGE, HUGE)
  {
    hide WriteAlloc, WriteFree, ReadAlloc, ReadFree, Grant;
    HugeRead();
    HugeWriteAlloc(bufsz);
    HugeWriteFree(c);
  }

  lemma HugeRead()
    ensures Granted(EMPTY_FIFO, HUGE) == HUGE
    ensures ReadAlloc(EMPTY_FIFO, HUGE) == Fifo(0, 0, 0, HUGE, 0)
    ensures ReadFree(Fifo(0, 0, 0, HUGE, 0), HUGE) == Fifo(0, 0, 0, HUGE, HUGE)
  {
    hide Grant;
    GrantExactly(HUGE, 0);
    GrantBeyond(HUGE, 0);
  }

  lemma HugeWriteAlloc(bufsz: bufsize)
    ensures Grant(HUGE, HUGE + bufsz - 0) == HUGE
    ensures WriteAlloc(Fifo(0, 0, 0, HUGE, HUGE), bufsz, HUGE) == Fifo(HUGE, 0, 0, HUGE, HUGE)
  {
    hide Grant;
    GrantBeyond(HUGE, bufsz);
  }

  lemma HugeWriteFree(c: SubdConfig)
    ensures WriteFree(c, Fifo(HUGE, 0, 0, HUGE, HUGE), HUGE) == Fifo(HUGE, HUGE, HUGE, HUGE, HUGE)
  {
    hide Grant, Munged, Wrap;
    GrantBeyond(HUGE, 0);
    SmallWord(HUGE);
    HugeIsWhole(c);
  }

  lemma HugeIsWhole(c: SubdConfig)
    ensures Munged(c, HUGE) == HUGE
  {
    assert HUGE % 4 == 0;
  }

  /** A driver's buffer call keeps the invariant exactly for counts in reach. */
  lemma DriverExactly(d: Dev, i: nat, t: Transfer)
    requires Inv(d) && i < |d.subds|
    ensures Inv(DriverTransfer(d, i, t)) <==> TransferInReach(d.subds[i], t)
  {
    hide Inv, FifoChain, WriteAlloc, WriteFree, ReadAlloc, ReadFree;
    SubdOkAt(d, i);
    var s := d.subds[i];
    if s.running {
      BufferCallsKeepChain(s.cfg, s.fifo, s.bufsz, t.n);
      var e := DriverTransfer(d, i, t);
      if TransferInReach(s, t) {
        LocalInv(d, i, e.subds[i]);
      } else {
        BrokenChain(e, i);
      }
    }
  }

  lemma SmallCountsInReach(d: Dev, a: Action)
    requires Inv(d) && SmallCounts(a)
    ensures InReach(d, a)
  {
    hide Inv;
    if a.DriverMoves? && a.i < |d.subds| {
      SubdOkAt(d, a.i);
    }
    if a.Bufinfo? && a.i < |d.subds| && d.subds[a.i].busy.File? {
      hide BufinfoRead;
      SubdOkAt(d, a.i);
      BufinfoReadExactly(d, a.i, a.bytesRead);
      SubdOkAt(BufinfoRead(d, a.i, a.bytesRead).0, a.i);
    }
  }

  /** Every step whose counts are in reach keeps the invariant. */
  lemma StepKeepsInv(d: Dev, a: Action)
    requires Inv(d) && InReach(d, a)
    ensures Inv(Step(d, a))
  {
    hide Inv, DoCmd, CloseFrom, DoRead, DoWokenRead, DoWrite, DoBufinfo, DoPoll, DriverTransfer, BecomeNonbusy,
      BufinfoInReach, TransferInReach;
    forall i: nat | i < |d.subds| ensures SubdOk(d.subds[i]) { SubdOkAt(d, i); }
    match a
    case Cmd(i, file, req) => CmdKeepsInv(d, i, file, req);
    case Instruction(i, file, bad, ret) =>
    case Lock(i, file) => if i < |d.subds| { LocalInv(d, i, DoLock(d, i, file).0.subds[i]); }
    case Unlock(i, file) => if i < |d.subds| { LocalInv(d, i, DoUnlock(d, i, file).0.subds[i]); }
    case Cancel(i, file, ret) => if i < |d.subds| { NonbusyInv(d, i); }
    case Close(file) => CloseKeepsInv(d, file, 0);
    case Read(i, file, attempt) => if i < |d.subds| { ReadKeepsInv(d, i, file, attempt); }
    case WokenRead(i, file, attempt, signal) => if i < |d.subds| { WokenReadKeepsInv(d, i, file, attempt, signal); }
    case Write(i, file, attempt) => if i < |d.subds| { WriteKeepsInv(d, i, file, attempt); }
    case Bufinfo(i, file, r, w) => BufinfoExactly(d, i, file, r, w);
    case Poll(i) => if i < |d.subds| { PollKeepsInv(d, i); }
    case Resize(i, bufsz) => if i < |d.subds| { LocalInv(d, i, DoResize(d, i, bufsz).0.subds[i]); }
    case DriverEvent(i, events) => if i < |d.subds| { LocalInv(d, i, EventFlags(d.subds[i], events)); }
    case DriverMoves(i, transfer) => if i < |d.subds| { DriverExactly(d, i, transfer); }
  }

  /** And only those, where no read count out of reach is left to a write count. */
  lemma StepExactly(d: Dev, a: Action)
    requires Inv(d)
    requires a.Bufinfo? ==> !LeftToWrite(d, a.i, a.bytesRead)
    ensures Inv(Step(d, a)) <==> InReach(d, a)
  {
    hide Inv, DoBufinfo, DriverTransfer, ReadInReach, WriteInReach, TransferInReach, BufinfoRead;
    if InReach(d, a) { StepKeepsInv(d, a); }
    if a.Bufinfo? { BufinfoExactly(d, a.i, a.file, a.bytesRead, a.bytesWritten); }
    if a.DriverMoves? && a.i < |d.subds| { DriverExactly(d, a.i, a.transfer); }
  }

  lemma PollKeepsInv(d: Dev, i: nat)
    requires Inv(d) && i < |d.subds|
    ensures Inv(DoPoll(d, i))
  {
    hide Inv, WriteAlloc, FifoChain;
    SubdOkAt(d, i);
    var s := d.subds[i];
    if FifoChain(s.fifo, s.bufsz) {
      WholeBufferGranted(s.cfg, s.fifo, s.bufsz);
    }
    LocalInv(d, i, DoPoll(d, i).subds[i]);
  }

  /** Every state reached by counts in reach satisfies the invariant. */
  lemma {:induction false} RunKeepsInv(d: Dev, actions: seq<Action>)
    requires Attached(d) && RunInReach(d, actions)
    ensures Inv(Run(d, actions))
  {
    hide Step, InReach;
    if actions == [] {
      NoneRt(d.subds);
    } else {
      RunKeepsInv(d, actions[..|actions| - 1]);
      StepKeepsInv(Run(d, actions[..|actions| - 1]), actions[|actions| - 1]);
    }
  }

  /** In particular every state reached by counts below 2^31. */
  lemma {:induction false} SmallRunKeepsInv(d: Dev, actions: seq<Action>)
    requires Attached(d) && forall k | 0 <= k < |actions| :: SmallCounts(actions[k])
    ensures RunInReach(d, actions) && Inv(Run(d, actions))
  {
    hide Step, InReach, SmallCounts, Inv;
    if actions != [] {
      var before := actions[..|actions| - 1];
      SmallRunKeepsInv(d, before);
      SmallCountsInReach(Run(d, before), actions[|actions| - 1]);
    }
    RunKeepsInv(d, actions);
  }

  // ---------------------------------------------------------------- closing a file

  /** After close(f) no subdevice is busy with or locked by f; the others are as they were. */
  lemma {:induction false} CloseReleases(d: Dev, file: nat, i: nat)
    requires Inv(d) && i <= |d.subds|
    ensures var e := CloseFrom(d, file, i);
      && |e.subds| == |d.subds|
      && (forall j | i <= j < |d.subds| :: e.subds[j].busy != File(file) && e.subds[j].lock != File(file))
      && (forall j | 0 <= j < |d.subds| ::
            j < i || (d.subds[j].busy != File(file) && d.subds[j].lock != File(file)) ==> e.subds[j] == d.subds[j])
    decreases |d.subds| - i
  {
    hide Inv, CloseOne;
    if i < |d.subds| {
      CloseOneKeepsInv(d, file, i);
      CloseReleases(CloseOne(d, file, i), file, i + 1);
    }
  }

  /** A woken reader of another file finds a finished, drained command without error. */
  predicate EndsByWaking(d: Dev, a: Action, i: nat)
    requires i < |d.subds|
  {
    && a.WokenRead? && a.i == i && a.attempt.nbytes > 0
    && !d.subds[i].running && !d.subds[i].error && d.subds[i].fifo.read == d.subds[i].fifo.written
  }

  /** A step of another file, or of the driver, takes a busy subdevice from its file exactly when it
      is a woken reader's and the command is over anyway; no step but its owner's own and this one
      touches its channel list. */
  lemma OthersCannotTake(d: Dev, a: Action, i: nat, file: nat)
    requires Inv(d) && i < |d.subds| && d.subds[i].busy == File(file)
    requires match a
      case Close(f) => f != file
      case Cmd(_, f, _) => f != file
      case Instruction(_, f, _, _) => f != file
      case Lock(_, f) => f != file
      case Unlock(_, f) => f != file
      case Cancel(_, f, _) => f != file
      case Read(_, f, _) => f != file
      case WokenRead(_, f, _, _) => f != file
      case Write(_, f, _) => f != file
      case Bufinfo(_, f, _, _) => f != file
      case _ => true
    ensures i < |Step(d, a).subds|
    ensures Step(d, a).subds[i].busy == File(file) <==> !EndsByWaking(d, a, i)
    ensures EndsByWaking(d, a, i) || Step(d, a).subds[i].chanlist == d.subds[i].chanlist
  {
    hide Inv, CloseFrom, DoCmd, DoRead, DoWokenRead, DoWrite, DoBufinfo, WriteAlloc, WriteFree, ReadAlloc, ReadFree,
      BecomeNonbusy;
    match a
    case Close(f) =>
      CloseReleases(d, f, 0);
      BusyAndLocked(d, i, file);
    case Cmd(j, f, req) => CmdElsewhere(d, j, f, req, i);
    case Read(j, f, attempt) => if j < |d.subds| { TransfersElsewhere(d, j, f, attempt, i, file); }
    case WokenRead(j, f, attempt, signal) => if j < |d.subds| { WokenElsewhere(d, j, f, attempt, signal, i, file); }
    case Write(j, f, attempt) => if j < |d.subds| { TransfersElsewhere(d, j, f, attempt, i, file); }
    case Bufinfo(j, f, r, w) => BufinfoElsewhere(d, j, f, r, w, i, file);
    case Cancel(j, f, ret) => if j < |d.subds| && j != i { NonbusyElsewhere(d, j, i); }
    case _ =>
  }

  /** It does happen: the reader of another file wakes after the last byte was read and the command
      has ended. */
  lemma WokenReaderEndsAnother(d: Dev, i: nat, file: nat, other: nat, a: Attempt)
    requires Inv(d) && i < |d.subds| && d.subds[i].busy == File(file) && file != other && a.nbytes > 0
    requires d.subds[i].running && !d.subds[i].error && d.subds[i].fifo.read == d.subds[i].fifo.written
    ensures var ended := Step(d, DriverEvent(i, {Eoa}));
      i < |ended.subds| && ended.subds[i].busy == File(file)
      && i < |Step(ended, WokenRead(i, other, a, false)).subds|
      && Step(ended, WokenRead(i, other, a, false)).subds[i].busy == Nobody
  {
    hide Inv, DoWokenRead, FifoChain;
    StepKeepsInv(d, DriverEvent(i, {Eoa}));
    WokenElsewhere(Step(d, DriverEvent(i, {Eoa})), i, other, a, false, i, file);
  }

  lemma NonbusyElsewhere(d: Dev, j: nat, i: nat)
    requires j < |d.subds| && i < |d.subds| && i != j
    ensures var e := BecomeNonbusy(d, j); |e.subds| == |d.subds| && e.subds[i] == d.subds[i]
  {
  }

  lemma CmdElsewhere(d: Dev, j: nat, f: nat, req: CmdRequest, i: nat)
    requires i < |d.subds| && d.subds[i].busy != Nobody
    ensures var e := DoCmd(d, j, f, req).0; i < |e.subds| && e.subds[i] == d.subds[i]
  {
    hide BecomeNonbusy, EventFlags, CmdRejection;
    if CmdRefusal(d, j, f, req) == 0 {
      var prepared := Kmalloc(d, j);
      var launched := Launch(prepared, j, f, req.priority);
      NonbusyElsewhere(prepared, j, i);
      NonbusyElsewhere(SetSubd(launched, j, EventFlags(launched.subds[j], req.driverEvents)), j, i);
    }
  }

  lemma TransfersElsewhere(d: Dev, j: nat, f: nat, attempt: Attempt, i: nat, file: nat)
    requires i < |d.subds| && j < |d.subds| && d.subds[i].busy == File(file) && f != file
    ensures var e := DoRead(d, j, f, attempt).0; i < |e.subds| && e.subds[i] == d.subds[i]
    ensures var e := DoWrite(d, j, f, attempt).0; i < |e.subds| && e.subds[i] == d.subds[i]
  {
    hide BecomeNonbusy, Contiguous, WriteAlloc, WriteFree, ReadAlloc, ReadFree, Drained;
    if i != j {
      NonbusyElsewhere(d, j, i);
      forall s: Subd
        ensures var e := BecomeNonbusy(SetSubd(d, j, s), j); |e.subds| == |d.subds| && e.subds[i] == d.subds[i]
      {
        NonbusyElsewhere(SetSubd(d, j, s), j, i);
      }
    }
  }

  lemma WokenElsewhere(d: Dev, j: nat, f: nat, a: Attempt, signal: bool, i: nat, file: nat)
    requires Inv(d) && i < |d.subds| && j < |d.subds| && d.subds[i].busy == File(file) && f != file
    ensures var e := DoWokenRead(d, j, f, a, signal).0;
      && i < |e.subds|
      && (EndsByWaking(d, WokenRead(j, f, a, signal), i) ==> e.subds[i].busy == Nobody)
      && (!EndsByWaking(d, WokenRead(j, f, a, signal), i) ==> e.subds[i] == d.subds[i])
  {
    hide Inv, Contiguous, ReadAlloc, ReadFree, Drained, FifoChain, SwitchToNonRt, Kfree;
    SubdOkAt(d, i);
    DrainedExactly(d.subds[i].fifo, d.subds[i].bufsz);
    IdleIsNobody(d, j);
    if i != j {
      NonbusyElsewhere(d, j, i);
      hide BecomeNonbusy;
      forall s: Subd
        ensures var e := BecomeNonbusy(SetSubd(d, j, s), j); |e.subds| == |d.subds| && e.subds[i] == d.subds[i]
      {
        NonbusyElsewhere(SetSubd(d, j, s), j, i);
      }
    }
  }

  lemma IdleIsNobody(d: Dev, i: nat)
    requires i < |d.subds|
    ensures var e := BecomeNonbusy(d, i); |e.subds| == |d.subds| && e.subds[i] == Idle(d.subds[i])
  {
  }

  lemma BufinfoElsewhere(d: Dev, j: nat, f: nat, r: u32, w: u32, i: nat, file: nat)
    requires i < |d.subds| && d.subds[i].busy == File(file) && f != file
    ensures var e := DoBufinfo(d, j, f, r, w).0; i < |e.subds| && e.subds[i] == d.subds[i]
  {
    hide BecomeNonbusy, WriteAlloc, WriteFree, Granted, AfterBufinfo, AfterBufinfoWrite, Drained, Grant;
    if i != j < |d.subds| {
      var s := d.subds[j];
      NonbusyElsewhere(SetSubd(d, j, s.(fifo := AfterBufinfo(s.fifo, r))), j, i);
    }
  }

  lemma BusyAndLocked(d: Dev, i: nat, file: nat)
    requires Inv(d) && i < |d.subds| && d.subds[i].busy == File(file)
    ensures d.subds[i].lock == Nobody || d.subds[i].lock == File(file)
  {
  }

  // ---------------------------------------------------------------- reading to the end

  /** The end of a read attempt that sampled `n` bytes. */
  lemma ReadRestDelivers(d: Dev, i: nat, a: Attempt, n: u32)
    requires Inv(d) && i < |d.subds| && d.subds[i].busy.File? && n <= d.subds[i].fifo.munged - d.subds[i].fifo.read
    ensures var s := d.subds[i];
      var (e, ret) := ReadRest(d, i, a, n);
      && i < |e.subds|
      && (n > 0 ==> ret == -EFAULT || ret == n - Min(a.fault, n))
      && (e.subds[i].busy == Nobody && n > 0 ==> !s.running && s.fifo.munged == s.fifo.read + Max(0, ret))
      && (e.subds[i].busy == Nobody && n == 0 ==> !s.running && ret == if s.error then -EPIPE else 0)
      && (ret == -EPIPE ==> n == 0 && e.subds[i].busy == Nobody)
      && (e.subds[i].busy != Nobody ==>
           e.subds[i].busy == s.busy && e.subds[i].fifo.munged == s.fifo.munged
           && e.subds[i].fifo.read == s.fifo.read + Max(0, ret) <= s.fifo.munged)
      && (n == 0 && !s.running ==> e.subds[i].busy == Nobody)
  {
    hide Inv, ReadAlloc, ReadFree, BecomeNonbusy, Drained, Grant;
    SubdOkAt(d, i);
    var s := d.subds[i];
    IdleIsNobody(d, i);
    if n > 0 {
      var copied: u32 := n - Min(a.fault, n);
      ReadMoves(s.fifo, s.bufsz, copied);
      var f := ReadFree(ReadAlloc(s.fifo, copied), copied);
      DrainedExactly(f, s.bufsz);
      IdleIsNobody(SetSubd(d, i, s.(fifo := f)), i);
    }
  }

  /** A read returns a command to idle, or reports -EPIPE with nothing delivered, only once every
      munged byte has been delivered. */
  lemma ReadEndsDelivered(d: Dev, i: nat, file: nat, a: Attempt)
    requires Inv(d) && i < |d.subds| && d.subds[i].busy == File(file)
    ensures EndsDelivered(d, i, DoRead(d, i, file, a))
  {
    hide Inv, ReadRest, ReadSample, FifoChain;
    SubdOkAt(d, i);
    ReadFinds(d.subds[i], a);
    ReadRestDelivers(d, i, a, ReadSample(d.subds[i], a));
  }

  /** What a reader is promised of an attempt on a busy subdevice, given the outcome. */
  predicate EndsDelivered(d: Dev, i: nat, outcome: (Dev, int))
    requires i < |d.subds|
  {
    var (e, ret) := outcome;
    && i < |e.subds|
    && (ret == -EPIPE ==> e.subds[i].busy == Nobody)
    && (e.subds[i].busy == Nobody ==>
         !d.subds[i].running && d.subds[i].fifo.munged == d.subds[i].fifo.read + Max(0, ret))
    && (e.subds[i].busy != Nobody ==>
         e.subds[i].busy == d.subds[i].busy
         && e.subds[i].fifo.read == d.subds[i].fifo.read + Max(0, ret) <= d.subds[i].fifo.munged)
  }

  /** The same holds for a reader that slept and wakes, whichever file owns the subdevice by then. */
  lemma WokenReadEndsDelivered(d: Dev, i: nat, file: nat, a: Attempt, signal: bool)
    requires Inv(d) && i < |d.subds| && d.subds[i].busy.File?
    ensures EndsDelivered(d, i, DoWokenRead(d, i, file, a, signal))
  {
    hide Inv, ReadRest, ReadSample, BecomeNonbusy, Drained;
    SubdOkAt(d, i);
    var s := d.subds[i];
    DrainedExactly(s.fifo, s.bufsz);
    IdleIsNobody(d, i);
    ReadFinds(s, a);
    if s.busy == File(file) && !signal && a.nbytes > 0 {
      ReadRestDelivers(d, i, a, ReadSample(s, a));
    }
  }

  /** So does the read side of bufinfo, for counts in reach; and only for those is what it grants
      bounded by what there is. */
  lemma BufinfoEndsDelivered(d: Dev, i: nat, bytesRead: u32)
    requires Inv(d) && i < |d.subds| && d.subds[i].busy.File?
    ensures var (e, granted, err) := BufinfoRead(d, i, bytesRead);
      var f := d.subds[i].fifo;
      && |e.subds| == |d.subds|
      && (granted <= Min(bytesRead, f.munged - f.readAlloc) <==> ReadInReach(f, bytesRead))
      && (err == -EPIPE ==> granted == 0 && d.subds[i].error && !d.subds[i].running)
      && (ReadInReach(f, bytesRead) && (e.subds[i].busy == Nobody || err == -EPIPE) ==> f.munged == f.read + granted)
      && (ReadInReach(f, bytesRead) && e.subds[i].busy != Nobody ==> e.subds[i].fifo.read == f.read + granted)
  {
    hide Inv, AfterBufinfo, BecomeNonbusy, Drained, Granted, ReadInReach;
    SubdOkAt(d, i);
    var s := d.subds[i];
    var f := AfterBufinfo(s.fifo, bytesRead);
    BufinfoConsumes(s.cfg, s.fifo, s.bufsz, bytesRead);
    GrantedAtMost(s.fifo, s.bufsz, bytesRead);
    if ReadInReach(s.fifo, bytesRead) { DrainedExactly(f, s.bufsz); }
    SameOtherPositions(s.fifo, bytesRead);
    IdleIsNobody(SetSubd(d, i, s.(fifo := f)), i);
  }

  lemma GrantedAtMost(f: Fifo, bufsz: bufsize, n: u32)
    requires FifoChain(f, bufsz)
    ensures Granted(f, n) <= n
  {
    hide Grant;
    GrantExactly(n, f.munged - f.readAlloc);
  }

  lemma SameOtherPositions(f: Fifo, n: u32)
    ensures var g := AfterBufinfo(f, n); g.munged == f.munged && g.written == f.written && g.writeAlloc == f.writeAlloc
  {
  }

  // ---------------------------------------------------------------- what is not promised

  /** The promise needs the attempt to be one step: the code samples what is available before it
      looks at the run flags. A second half that finds the command in state `d`, whatever happened
      since `n` bytes were sampled, delivers all before it goes idle exactly when it sampled
      something, or the command still runs, or there still is nothing to deliver. */
  lemma SplitReadExactly(d: Dev, i: nat, a: Attempt, n: u32)
    requires Inv(d) && i < |d.subds| && d.subds[i].busy.File? && n <= d.subds[i].fifo.munged - d.subds[i].fifo.read
    ensures var (e, ret) := ReadRest(d, i, a, n);
      var f := d.subds[i].fifo;
      && i < |e.subds|
      && ((e.subds[i].busy == Nobody ==> f.munged == f.read + Max(0, ret)) <==>
           n > 0 || d.subds[i].running || f.munged == f.read)
  {
    hide Inv, ReadRest;
    ReadRestDelivers(d, i, a, n);
  }

  /** When the last bytes and the end of the command arrive in between, the reader takes an ended
      command for an empty one and the bytes are lost. */
  lemma SplitReadLosesBytes(d: Dev, i: nat, file: nat, a: Attempt, k: u32)
    requires Inv(d) && i < |d.subds| && d.subds[i].busy == File(file)
    requires d.subds[i].running && !d.subds[i].error && !d.subds[i].cfg.munges
    requires d.subds[i].fifo.munged == d.subds[i].fifo.read
    requires 0 < k <= d.subds[i].fifo.writeAlloc - d.subds[i].fifo.written
    ensures ReadSample(d.subds[i], a) == 0
    ensures var ended := Step(Step(d, DriverMoves(i, FreeWrite(k))), DriverEvent(i, {Eoa}));
      var (e, ret) := ReadRest(ended, i, a, 0);
      && Inv(ended) && ended.subds[i].fifo.munged >= ended.subds[i].fifo.read + k
      && e.subds[i].busy == Nobody && ret == 0
  {
    hide Inv, WriteFree, BecomeNonbusy, ReadSample;
    SubdOkAt(d, i);
    var s := d.subds[i];
    ReadFinds(s, a);
    CommitRaw(s.cfg, s.fifo, s.bufsz, k);
    var moved := Step(d, DriverMoves(i, FreeWrite(k)));
    StepKeepsInv(d, DriverMoves(i, FreeWrite(k)));
    StepKeepsInv(moved, DriverEvent(i, {Eoa}));
    var ended := Step(moved, DriverEvent(i, {Eoa}));
    var f := s.fifo.(written := s.fifo.written + k, munged := s.fifo.written + k);
    assert ended.subds[i] == s.(fifo := f, running := false);
    IdleIsNobody(ended, i);
  }

  lemma CommitRaw(c: SubdConfig, f: Fifo, bufsz: bufsize, k: u32)
    requires FifoChain(f, bufsz) && !c.munges && k <= f.writeAlloc - f.written
    ensures WriteFree(c, f, k) == f.(written := f.written + k, munged := f.written + k)
  {
    hide Grant;
    GrantExactly(k, f.writeAlloc - f.written);
    SmallWord(f.written + k - f.munged);
  }

  /** The interrupt entry's own flag is right after a subdevice goes idle exactly unless this was one
      of several real-time subdevices. */
  lemma InterruptFlagExactly(d: Dev, i: nat)
    requires Inv(d) && i < |d.subds| && (d.itRt <==> d.rt > 0)
    ensures var e := BecomeNonbusy(d, i); (e.itRt <==> e.rt > 0) <==> !(d.subds[i].rt && d.rt > 1)
  {
    RtCountUpdate(d.subds, i, Idle(d.subds[i]));
    NonbusyKeeps(d, i);
  }

  /** It is cleared by the first real-time command to finish, although the handler stays installed
      for the others. */
  lemma InterruptFlagMisleads(d: Dev, i: nat, j: nat)
    requires Inv(d) && i < |d.subds| && j < |d.subds| && i != j
    requires d.subds[i].rt && d.subds[j].rt
    ensures var e := BecomeNonbusy(d, i); e.installs == 1 && e.rt > 0 && !e.itRt
  {
    RtCountUpdate(d.subds, i, Idle(d.subds[i]));
    NonbusyKeeps(d, i);
    RtCountUpdate(BecomeNonbusy(d, i).subds, j, d.subds[j]);
  }

  /** Polling an idle write subdevice grants its whole buffer; resizing the buffer then keeps the
      chain of positions exactly if it does not shrink. The invariant, which claims no positions of
      idle subdevices, is kept, and the next command starts afresh. */
  lemma PollThenResize(d: Dev, i: nat, size: bufsize)
    requires Inv(d) && i < |d.subds| && d.subds[i].busy == Nobody && d.subds[i].cfg.hasAsync && d.subds[i].cfg.cmdWrite
    requires d.subds[i].fifo == EMPTY_FIFO
    ensures var e := Step(Step(d, Poll(i)), Resize(i, size));
      && Inv(e) && i < |e.subds|
      && (FifoChain(e.subds[i].fifo, size) <==> size >= d.subds[i].bufsz)
  {
    hide Inv, Grant;
    GrantExactly(d.subds[i].bufsz, d.subds[i].bufsz);
    StepKeepsInv(d, Poll(i));
    StepKeepsInv(Step(d, Poll(i)), Resize(i, size));
  }
}

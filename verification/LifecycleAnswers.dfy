/** What each call on a device answers and leaves behind, in terms of the fields before and after it. */
module LifecycleAnswers {
  import opened Word32
  import opened Cyclic
  import opened RingSpec
  import opened AsyncBuffer
  import opened Lifecycle
  import opened LifecycleLaws

  // ---------------------------------------------------------------- what changes

  /** No other subdevice changes. */
  predicate SameBut(d: Dev, e: Dev, i: nat) {
    |e.subds| == |d.subds| && forall j | 0 <= j < |d.subds| && j != i :: e.subds[j] == d.subds[j]
  }

  /** Nothing changes but the positions of subdevice `i`. */
  predicate OnlyFifo(d: Dev, e: Dev, i: nat)
    requires i < |d.subds|
  {
    && SameBut(d, e, i) && e == d.(subds := e.subds)
    && e.subds[i] == d.subds[i].(fifo := e.subds[i].fifo)
  }

  /** A subdevice without a command: no owner, nothing runs, no channel list, an empty buffer. */
  predicate IsIdle(s: Subd) {
    && s.busy == Nobody && !s.running && !s.rt && s.chanlist == Null
    && s.fifo.read == s.fifo.readAlloc == s.fifo.munged == s.fifo.written == s.fifo.writeAlloc == 0
  }

  /** Subdevice `i` gave up its command: its channel list is freed, its real-time use ends, and lock,
      size and error flag stay. */
  predicate WentIdle(d: Dev, e: Dev, i: nat)
    requires i < |d.subds|
  {
    var s := d.subds[i];
    && SameBut(d, e, i)
    && IsIdle(e.subds[i])
    && e.subds[i].cfg == s.cfg && e.subds[i].lock == s.lock && e.subds[i].bufsz == s.bufsz
    && e.subds[i].error == s.error && e.subds[i].user == s.user
    && e.live == (if s.chanlist.Allocated? then d.live - {s.chanlist.id} else d.live)
    && e.rt == d.rt - (if s.rt then 1 else 0)
    && e.nextId == d.nextId && e.irqEntry == d.irqEntry && e.badFree == d.badFree
  }

  lemma GoingIdle(d: Dev, i: nat)
    requires i < |d.subds| && DevOk(d) && d.subds[i].cfg.hasAsync
    ensures WentIdle(d, BecomeNonbusy(d, i), i)
  {
    hide Owned;
    NonbusyKeeps(d, i);
    RtCountUpdate(d.subds, i, Idle(d.subds[i]));
    FreedWasLive(d, i);
  }

  lemma FreedWasLive(d: Dev, i: nat)
    requires i < |d.subds| && Owned(d)
    ensures d.subds[i].chanlist.Allocated? ==> d.subds[i].chanlist.id in d.live
    ensures d.nextId !in d.live
  {
  }

  // ---------------------------------------------------------------- commands

  /** The checks a command passes, in their order; each is made only when those before it passed. */
  predicate Addressed(d: Dev, i: nat, req: CmdRequest) {
    !req.badAddress && i < |d.subds|
  }

  predicate Capable(d: Dev, i: nat, req: CmdRequest) {
    Addressed(d, i, req) && !d.subds[i].cfg.unused && d.subds[i].cfg.hasCmd && d.subds[i].cfg.hasAsync
  }

  predicate NotLocked(d: Dev, i: nat, file: nat, req: CmdRequest) {
    Capable(d, i, req) && (d.subds[i].lock == Nobody || d.subds[i].lock == File(file))
  }

  predicate Free(d: Dev, i: nat, file: nat, req: CmdRequest) {
    NotLocked(d, i, file, req) && d.subds[i].busy == Nobody
  }

  predicate Listed(d: Dev, i: nat, file: nat, req: CmdRequest) {
    Free(d, i, file, req) && 1 <= req.chanlistLen <= d.subds[i].cfg.lenChanlist
  }

  /** From here on the subdevice is touched. */
  predicate Begun(d: Dev, i: nat, file: nat, req: CmdRequest) {
    Listed(d, i, file, req) && !req.allocFails
  }

  predicate Checked(d: Dev, i: nat, file: nat, req: CmdRequest) {
    Begun(d, i, file, req) && !req.chanlistFault && !req.badChanlist
  }

  predicate Approved(d: Dev, i: nat, file: nat, req: CmdRequest) {
    Checked(d, i, file, req) && !req.testFails
  }

  /** What the driver is then asked to start. */
  predicate Driven(d: Dev, i: nat, file: nat, req: CmdRequest) {
    Approved(d, i, file, req) && d.subds[i].bufsz > 0
  }

  /** The code returned for each check that fails. */
  predicate CmdCode(d: Dev, i: nat, file: nat, req: CmdRequest, ret: int) {
    && (req.badAddress ==> ret == -EFAULT)
    && (!req.badAddress && i >= |d.subds| ==> ret == -ENODEV)
    && (Addressed(d, i, req) && !Capable(d, i, req) ==> ret == -EIO)
    && (Capable(d, i, req) && !NotLocked(d, i, file, req) ==> ret == -EACCES)
    && (NotLocked(d, i, file, req) && !Free(d, i, file, req) ==> ret == -EBUSY)
    && (Free(d, i, file, req) && !Listed(d, i, file, req) ==> ret == -EINVAL)
    && (Listed(d, i, file, req) && !Begun(d, i, file, req) ==> ret == -ENOMEM)
    && (Begun(d, i, file, req) && req.chanlistFault ==> ret == -EFAULT)
    && (Begun(d, i, file, req) && !req.chanlistFault && req.badChanlist ==> ret == -EINVAL)
    && (Checked(d, i, file, req) && req.testFails ==> ret == if req.copyBackFault then -EFAULT else -EAGAIN)
    && (Approved(d, i, file, req) && d.subds[i].bufsz == 0 ==> ret == -ENOMEM)
    && (Driven(d, i, file, req) ==> ret == req.driverRet)
  }

  /** A started command: the file owns the subdevice, the buffer is empty, the channel list is a new
      allocation, and unless the driver has reported an end or an error it runs. */
  predicate Started(d: Dev, i: nat, file: nat, req: CmdRequest, e: Dev)
    requires i < |d.subds|
  {
    && SameBut(d, e, i)
    && var s, t := d.subds[i], e.subds[i];
      && t.busy == File(file) && t.lock == s.lock && t.cfg == s.cfg && t.bufsz == s.bufsz
      && t.fifo == Fifo(0, 0, 0, 0, 0) && t.user
      && (t.running <==> Eoa !in req.driverEvents && Error !in req.driverEvents && Overflow !in req.driverEvents)
      && (t.error <==> Error in req.driverEvents || Overflow in req.driverEvents)
      && (t.rt <==> req.priority && d.irqEntry)
      && t.chanlist.Allocated? && t.chanlist.id !in d.live && e.live == d.live + {t.chanlist.id}
      && e.rt == d.rt + (if t.rt then 1 else 0)
  }

  /** A command given up: the subdevice is idle and nothing is left over. */
  predicate GivenUp(d: Dev, i: nat, e: Dev)
    requires i < |d.subds|
  {
    && SameBut(d, e, i) && IsIdle(e.subds[i])
    && e.subds[i].lock == d.subds[i].lock && e.subds[i].cfg == d.subds[i].cfg && e.subds[i].bufsz == d.subds[i].bufsz
    && e.live == d.live && e.rt == d.rt && e.badFree == d.badFree
  }

  /** do_cmd_ioctl: what is returned and what is left. */
  predicate CmdAnswer(d: Dev, i: nat, file: nat, req: CmdRequest, e: Dev, ret: int) {
    && CmdCode(d, i, file, req, ret)
    && (ret == 0 <==> Driven(d, i, file, req) && req.driverRet == 0)
    && (!Begun(d, i, file, req) ==> e == d)
    && (ret == 0 ==> Started(d, i, file, req, e))
    && (Begun(d, i, file, req) && ret != 0 ==> GivenUp(d, i, e))
  }

  lemma CmdAnswers(d: Dev, i: nat, file: nat, req: CmdRequest)
    requires Inv(d)
    ensures CmdAnswer(d, i, file, req, DoCmd(d, i, file, req).0, DoCmd(d, i, file, req).1)
  {
    if Begun(d, i, file, req) {
      hide Inv, BecomeNonbusy, Launch, Kmalloc, EventFlags, Started, GivenUp;
      SubdOkAt(d, i);
      RejectedIsGivenUp(d, i);
      if Driven(d, i, file, req) {
        LaunchedIsStarted(d, i, file, req);
        FailedIsGivenUp(d, i, file, req);
      }
    } else {
      hide BecomeNonbusy, Launch, Kmalloc, EventFlags;
    }
  }

  lemma RejectedIsGivenUp(d: Dev, i: nat)
    requires Inv(d) && i < |d.subds| && d.subds[i].busy == Nobody && d.subds[i].cfg.hasAsync
    ensures GivenUp(d, i, BecomeNonbusy(Kmalloc(d, i), i))
  {
    hide BecomeNonbusy, Owned;
    SubdOkAt(d, i);
    KmallocKeeps(d, i);
    GoingIdle(Kmalloc(d, i), i);
    FreedWasLive(d, i);
  }

  /** The state in which the driver has been started and has raised its events. */
  function DrivenState(d: Dev, i: nat, file: nat, req: CmdRequest): Dev
    requires i < |d.subds|
  {
    var launched := Launch(Kmalloc(d, i), i, file, req.priority);
    SetSubd(launched, i, EventFlags(launched.subds[i], req.driverEvents))
  }

  lemma LaunchedIsStarted(d: Dev, i: nat, file: nat, req: CmdRequest)
    requires Inv(d) && i < |d.subds| && d.subds[i].busy == Nobody
    ensures Started(d, i, file, req, DrivenState(d, i, file, req))
  {
    hide Owned;
    SubdOkAt(d, i);
    FreedWasLive(d, i);
  }

  lemma FailedIsGivenUp(d: Dev, i: nat, file: nat, req: CmdRequest)
    requires Inv(d) && i < |d.subds| && d.subds[i].busy == Nobody && d.subds[i].cfg.hasAsync
    requires d.subds[i].lock == Nobody || d.subds[i].lock == File(file)
    ensures GivenUp(d, i, BecomeNonbusy(DrivenState(d, i, file, req), i))
  {
    hide BecomeNonbusy, Owned, DevOk;
    StartedCmdKeepsInv(d, i, file, req.priority, req.driverEvents);
    LaunchedIsStarted(d, i, file, req);
    InvIsDevOk(DrivenState(d, i, file, req));
    InvIsDevOk(d);
    GoingIdle(DrivenState(d, i, file, req), i);
    FreedWasLive(d, i);
  }

  lemma InvIsDevOk(d: Dev)
    requires Inv(d)
    ensures DevOk(d) && Owned(d) && !d.badFree
  {
  }

  /** A reader that does not want to wait is told so right after a command was started: the empty
      buffer of a running command is no end of file. */
  lemma NewCommandHasNothing(d: Dev, i: nat, file: nat, req: CmdRequest, e: Dev, a: Attempt)
    requires i < |d.subds| && d.subds[i].cfg.hasAsync && Started(d, i, file, req, e) && req.driverEvents == {}
    requires a.nbytes > 0 && a.nonblock
    ensures DoRead(e, i, file, a) == (e, -EAGAIN)
  {
    SmallWord(0);
  }

  /** parse_insn */
  predicate InsnAnswer(d: Dev, i: nat, file: nat, badChanspec: bool, driverRet: int, ret: int) {
    && (i >= |d.subds| ==> ret == -EINVAL)
    && (i < |d.subds| ==>
         var s := d.subds[i];
         var locked := s.lock != Nobody && s.lock != File(file);
         && (s.cfg.unused ==> ret == -EIO)
         && (!s.cfg.unused && locked ==> ret == -EACCES)
         && (!s.cfg.unused && !locked && badChanspec ==> ret == -EINVAL)
         && (!s.cfg.unused && !locked && !badChanspec && s.busy != Nobody ==> ret == -EBUSY)
         && (!s.cfg.unused && !locked && !badChanspec && s.busy == Nobody ==> ret == driverRet))
  }

  lemma InsnAnswers(d: Dev, i: nat, file: nat, badChanspec: bool, driverRet: int)
    ensures InsnAnswer(d, i, file, badChanspec, driverRet, DoInsn(d, i, file, badChanspec, driverRet))
  {
  }

  // ---------------------------------------------------------------- locks and cancelling

  /** do_lock_ioctl: a lock that returns 0 is held, and is given only to an idle, unlocked subdevice. */
  predicate LockAnswer(d: Dev, i: nat, file: nat, e: Dev, ret: int) {
    && (ret == 0 <==> i < |d.subds| && d.subds[i].busy == Nobody && d.subds[i].lock == Nobody)
    && (ret == 0 ==>
         && SameBut(d, e, i) && e == d.(subds := e.subds)
         && e.subds[i].lock == File(file) && e.subds[i] == d.subds[i].(lock := e.subds[i].lock))
    && (ret != 0 ==> e == d && ret == if i < |d.subds| then -EBUSY else -EINVAL)
  }

  lemma LockAnswers(d: Dev, i: nat, file: nat)
    ensures LockAnswer(d, i, file, DoLock(d, i, file).0, DoLock(d, i, file).1)
  {
  }

  /** do_unlock_ioctl: only the owner's call changes anything, and then the lock is gone. */
  predicate UnlockAnswer(d: Dev, i: nat, file: nat, e: Dev, ret: int) {
    && (ret == 0 <==> i < |d.subds| && d.subds[i].busy == Nobody
                      && (d.subds[i].lock == Nobody || d.subds[i].lock == File(file)))
    && (ret == 0 ==>
         && SameBut(d, e, i) && e == d.(subds := e.subds)
         && e.subds[i].lock == Nobody && e.subds[i] == d.subds[i].(lock := e.subds[i].lock))
    && (ret != 0 ==> e == d)
    && (ret != 0 ==> ret == if i >= |d.subds| then -EINVAL else if d.subds[i].busy != Nobody then -EBUSY else -EACCES)
  }

  lemma UnlockAnswers(d: Dev, i: nat, file: nat)
    ensures UnlockAnswer(d, i, file, DoUnlock(d, i, file).0, DoUnlock(d, i, file).1)
  {
  }

  /** do_cancel_ioctl: ends exactly the caller's own command. */
  predicate CancelAnswer(d: Dev, i: nat, file: nat, driverRet: int, e: Dev, ret: int) {
    var found := i < |d.subds| && d.subds[i].cfg.hasAsync;
    var open := found && (d.subds[i].lock == Nobody || d.subds[i].lock == File(file));
    && (!found ==> e == d && ret == -EINVAL)
    && (found && !open ==> e == d && ret == -EACCES)
    && (open && d.subds[i].busy == Nobody ==> e == d && ret == 0)
    && (open && d.subds[i].busy != Nobody && d.subds[i].busy != File(file) ==> e == d && ret == -EBUSY)
    && (open && d.subds[i].busy == File(file) ==>
         WentIdle(d, e, i) && ret == if d.subds[i].running && d.subds[i].cfg.hasCancel then driverRet else 0)
  }

  lemma CancelAnswers(d: Dev, i: nat, file: nat, driverRet: int)
    requires Inv(d)
    ensures var (e, ret) := DoCancelIoctl(d, i, file, driverRet); CancelAnswer(d, i, file, driverRet, e, ret)
  {
    hide Inv, BecomeNonbusy, WentIdle;
    InvIsDevOk(d);
    if i < |d.subds| && d.subds[i].cfg.hasAsync { GoingIdle(d, i); }
  }

  // ---------------------------------------------------------------- reading and writing

  /** The bytes one attempt can move: no more than asked for, than there are, or than lie before the
      end of the buffer. */
  function Movable(position: nat, available: nat, nbytes: nat, bufsz: nat): nat
    requires available <= bufsz
  {
    if available == 0 then 0 else Min(nbytes, Min(available, bufsz - position % bufsz))
  }

  lemma MovableIsContiguous(position: nat, available: nat, nbytes: nat, bufsz: nat)
    requires available <= bufsz
    ensures Min(nbytes, Contiguous(position, available, bufsz)) == Movable(position, available, nbytes, bufsz)
    ensures Min(Contiguous(position, nbytes, bufsz), available) == Movable(position, available, nbytes, bufsz)
  {
  }

  /** comedi_read by the owner, on positions in order. */
  predicate OwnerReads(d: Dev, i: nat, a: Attempt, e: Dev, ret: int)
    requires i < |d.subds| && FifoChain(d.subds[i].fifo, d.subds[i].bufsz)
  {
    var s := d.subds[i];
    var n := Movable(s.fifo.read, s.fifo.munged - s.fifo.read, a.nbytes, s.bufsz);
    var moved := if a.fault < n then n - a.fault else 0;
    var over := !s.running && !s.error && s.fifo.read + moved == s.fifo.written;
    && (n == 0 && s.running ==> e == d && ret == if a.nonblock then -EAGAIN else -ERESTARTSYS)
    && (n == 0 && !s.running ==> WentIdle(d, e, i) && ret == if s.error then -EPIPE else 0)
    && (n > 0 ==> ret == if moved > 0 then moved else -EFAULT)
    && (n > 0 && over ==> WentIdle(d, e, i))
    && (n > 0 && !over ==>
         && OnlyFifo(d, e, i)
         && var f, g := s.fifo, e.subds[i].fifo;
           && g.read == f.read + moved && g.readAlloc == Max(f.readAlloc, Min(f.readAlloc + moved, f.munged))
           && g.munged == f.munged && g.written == f.written && g.writeAlloc == f.writeAlloc)
  }

  predicate ReadAnswer(d: Dev, i: nat, file: nat, a: Attempt, e: Dev, ret: int)
    requires i < |d.subds| && SubdOk(d.subds[i])
  {
    var s := d.subds[i];
    && (!s.cfg.hasAsync ==> e == d && ret == -EIO)
    && (s.cfg.hasAsync && (a.nbytes == 0 || s.busy == Nobody) ==> e == d && ret == 0)
    && (s.cfg.hasAsync && a.nbytes > 0 && s.busy != Nobody && s.busy != File(file) ==> e == d && ret == -EACCES)
    && (s.cfg.hasAsync && a.nbytes > 0 && s.busy == File(file) ==> OwnerReads(d, i, a, e, ret))
  }

  lemma ReadAnswers(d: Dev, i: nat, file: nat, a: Attempt)
    requires Inv(d) && i < |d.subds|
    ensures SubdOk(d.subds[i]) && ReadAnswer(d, i, file, a, DoRead(d, i, file, a).0, DoRead(d, i, file, a).1)
  {
    hide Inv, OwnerReads, ReadRest, ReadSample;
    SubdOkAt(d, i);
    if d.subds[i].busy == File(file) {
      OwnerReadAnswers(d, i, a);
    }
  }

  lemma OwnerReadAnswers(d: Dev, i: nat, a: Attempt)
    requires Inv(d) && i < |d.subds| && d.subds[i].busy.File?
    ensures SubdOk(d.subds[i])
    ensures var (e, ret) := ReadRest(d, i, a, ReadSample(d.subds[i], a)); OwnerReads(d, i, a, e, ret)
  {
    hide Inv, ReadAlloc, ReadFree, BecomeNonbusy, Drained, WentIdle, Contiguous, Movable, Wrap;
    SubdOkAt(d, i);
    InvIsDevOk(d);
    GoingIdle(d, i);
    var s := d.subds[i];
    SmallWord(s.fifo.munged - s.fifo.read);
    MovableIsContiguous(s.fifo.read, s.fifo.munged - s.fifo.read, a.nbytes, s.bufsz);
    var n := ReadSample(s, a);
    ReadFinds(s, a);
    var moved: u32 := n - Min(a.fault, n);
    ReadMoves(s.fifo, s.bufsz, moved);
    var f := ReadFree(ReadAlloc(s.fifo, moved), moved);
    DrainedExactly(f, s.bufsz);
    IdleFromMoved(d, i, f);
  }

  /** Giving up a command does not depend on where its positions were. */
  lemma IdleFromMoved(d: Dev, i: nat, f: Fifo)
    requires i < |d.subds| && DevOk(d) && d.subds[i].cfg.hasAsync
    ensures WentIdle(d, BecomeNonbusy(SetSubd(d, i, d.subds[i].(fifo := f)), i), i)
  {
    hide DevOk, BecomeNonbusy;
    LocalChange(d, i, d.subds[i].(fifo := f));
    GoingIdle(SetSubd(d, i, d.subds[i].(fifo := f)), i);
  }

  /** A reader that slept and wakes: the owner reads on, anyone else is told why not; whoever it is, a
      command that is finished, without error and drained is over. */
  predicate WokenAnswer(d: Dev, i: nat, file: nat, a: Attempt, signal: bool, e: Dev, ret: int)
    requires i < |d.subds| && SubdOk(d.subds[i])
  {
    var s := d.subds[i];
    if s.busy == File(file) && !signal then OwnerReads(d, i, a, e, ret)
    else
      && ret == (if signal then -ERESTARTSYS else if s.busy == Nobody then 0 else -EACCES)
      && (s.busy.File? ==>
           if !s.running && !s.error && s.fifo.read == s.fifo.written then WentIdle(d, e, i) else e == d)
      && (s.busy == Nobody ==> SameBut(d, e, i) && e.subds[i].busy == Nobody && e.live == d.live && e.rt == d.rt)
  }

  lemma WokenAnswers(d: Dev, i: nat, file: nat, a: Attempt, signal: bool)
    requires Inv(d) && i < |d.subds| && d.subds[i].cfg.hasAsync && a.nbytes > 0
    ensures SubdOk(d.subds[i])
    ensures var (e, ret) := DoWokenRead(d, i, file, a, signal); WokenAnswer(d, i, file, a, signal, e, ret)
  {
    hide Inv, OwnerReads, ReadRest, ReadSample, BecomeNonbusy, Drained;
    SubdOkAt(d, i);
    InvIsDevOk(d);
    GoingIdle(d, i);
    if d.subds[i].busy.File? {
      DrainedExactly(d.subds[i].fifo, d.subds[i].bufsz);
      OwnerReadAnswers(d, i, a);
    }
  }

  /** What munging leaves of `written` bytes when `munged` were munged before: whole samples, or all of
      them when the driver does not munge. */
  predicate MungedRight(c: SubdConfig, before: nat, munged: nat, written: nat) {
    && before <= munged <= written
    && (!c.munges ==> munged == written)
    && (c.munges ==> written < munged + SampleBytes(c.lsampl) && PartialBytes(c.lsampl, munged - before) == 0)
  }

  lemma MungesRight(c: SubdConfig, before: nat, written: nat)
    requires before <= written && written - before < TWO_32
    ensures MungedRight(c, before, before + Munged(c, Wrap(written - before)), written)
  {
    hide PartialBytes, Wrap;
    SmallWord(written - before);
    WholeSamples(c.lsampl, written - before);
  }

  /** comedi_write by the owner of a running command: exactly what is reported is committed. */
  predicate OwnerWrites(d: Dev, i: nat, a: Attempt, e: Dev, ret: int)
    requires i < |d.subds| && FifoChain(d.subds[i].fifo, d.subds[i].bufsz)
  {
    var s := d.subds[i];
    var room := s.fifo.read + s.bufsz - s.fifo.written;
    var n := Movable(s.fifo.written, room, a.nbytes, s.bufsz);
    && OnlyFifo(d, e, i)
    && (n == 0 ==> ret == if a.nonblock then -EAGAIN else -ERESTARTSYS)
    && (n > 0 ==> ret == if a.fault < n then n - a.fault else -EFAULT)
    && (ret > 0 <==> room > 0 && a.nbytes > 0 && a.fault < n)
    && var f, g := s.fifo, e.subds[i].fifo;
      && g.written == f.written + Max(0, ret)
      && (ret > 0 ==> MungedRight(s.cfg, f.munged, g.munged, g.written))
      && (n == 0 ==> g.munged == f.munged)
      && g.writeAlloc == f.read + s.bufsz && g.readAlloc == f.readAlloc && g.read == f.read
  }

  predicate WriteAnswer(d: Dev, i: nat, file: nat, a: Attempt, e: Dev, ret: int)
    requires i < |d.subds| && SubdOk(d.subds[i])
  {
    var s := d.subds[i];
    var owned := s.cfg.hasAsync && a.nbytes > 0 && s.busy == File(file);
    && (!s.cfg.hasAsync ==> e == d && ret == -EIO)
    && (s.cfg.hasAsync && (a.nbytes == 0 || s.busy == Nobody) ==> e == d && ret == 0)
    && (s.cfg.hasAsync && a.nbytes > 0 && s.busy != Nobody && s.busy != File(file) ==> e == d && ret == -EACCES)
    && (owned && !s.running ==> WentIdle(d, e, i) && ret == if s.error then -EPIPE else 0)
    && (owned && s.running ==> OwnerWrites(d, i, a, e, ret))
  }

  lemma WriteAnswers(d: Dev, i: nat, file: nat, a: Attempt)
    requires Inv(d) && i < |d.subds|
    ensures SubdOk(d.subds[i]) && WriteAnswer(d, i, file, a, DoWrite(d, i, file, a).0, DoWrite(d, i, file, a).1)
  {
    hide Inv, OwnerWrites, WentIdle, BecomeNonbusy, WriteAlloc, WriteFree, Contiguous, Wrap;
    SubdOkAt(d, i);
    InvIsDevOk(d);
    if d.subds[i].cfg.hasAsync { GoingIdle(d, i); }
    if d.subds[i].busy == File(file) && d.subds[i].running && a.nbytes > 0 {
      OwnerWriteAnswers(d, i, file, a);
    }
  }

  lemma OwnerWriteAnswers(d: Dev, i: nat, file: nat, a: Attempt)
    requires Inv(d) && i < |d.subds| && d.subds[i].busy == File(file) && d.subds[i].running && a.nbytes > 0
    ensures SubdOk(d.subds[i]) && OwnerWrites(d, i, a, DoWrite(d, i, file, a).0, DoWrite(d, i, file, a).1)
  {
    hide Inv, WriteAlloc, WriteFree, Contiguous, Movable, Wrap, MungedRight, BecomeNonbusy;
    SubdOkAt(d, i);
    var s := d.subds[i];
    var f := WriteAlloc(s.fifo, s.bufsz, s.bufsz);
    WholeBufferClaimed(s.fifo, s.bufsz);
    SmallWord(f.writeAlloc - f.written);
    MovableIsContiguous(s.fifo.written, s.fifo.read + s.bufsz - s.fifo.written, a.nbytes, s.bufsz);
    var n: u32 := Min(Contiguous(s.fifo.written, a.nbytes, s.bufsz), Wrap(f.writeAlloc - f.written));
    SomethingMovable(s.fifo.written, s.fifo.read + s.bufsz - s.fifo.written, a.nbytes, s.bufsz);
    CommitMoves(s.cfg, f, s.bufsz, n - Min(a.fault, n));
  }

  lemma SomethingMovable(position: nat, available: nat, nbytes: nat, bufsz: nat)
    requires available <= bufsz
    ensures Movable(position, available, nbytes, bufsz) > 0 <==> available > 0 && nbytes > 0
  {
  }

  lemma WholeBufferClaimed(f: Fifo, bufsz: bufsize)
    requires FifoChain(f, bufsz)
    ensures WriteAlloc(f, bufsz, bufsz) == f.(writeAlloc := f.read + bufsz)
  {
    hide Grant;
    GrantExactly(bufsz, f.read + bufsz - f.writeAlloc);
  }

  /** Committing `n` of the bytes granted. */
  lemma CommitMoves(c: SubdConfig, f: Fifo, bufsz: bufsize, n: u32)
    requires FifoChain(f, bufsz) && n <= f.writeAlloc - f.written
    ensures var g := WriteFree(c, f, n);
      g == f.(written := f.written + n, munged := g.munged) && MungedRight(c, f.munged, g.munged, g.written)
  {
    hide Grant, Munged, Wrap, MungedRight;
    GrantExactly(n, f.writeAlloc - f.written);
    MungesRight(c, f.munged, f.written + n);
  }

  // ---------------------------------------------------------------- bufinfo

  /** The read side, for a count in reach: what is claimed is what there is, up to the count. */
  predicate BufinfoReads(d: Dev, i: nat, r: u32, e: Dev, granted: nat, err: int)
    requires i < |d.subds|
  {
    var s := d.subds[i];
    var f := s.fifo;
    var drained := f.read + granted == f.written;
    && granted == Min(r, f.munged - f.readAlloc)
    && (drained && !s.running && !s.error ==> WentIdle(d, e, i))
    && (!(drained && !s.running && !s.error) ==>
         && OnlyFifo(d, e, i)
         && e.subds[i].fifo == f.(read := f.read + granted, readAlloc := f.readAlloc + granted))
    && err == if drained && granted == 0 && !s.running && s.error then -EPIPE else 0
  }

  lemma BufinfoReadAnswers(d: Dev, i: nat, r: u32)
    requires Inv(d) && i < |d.subds| && d.subds[i].busy.File? && ReadInReach(d.subds[i].fifo, r)
    ensures var (e, granted, err) := BufinfoRead(d, i, r); BufinfoReads(d, i, r, e, granted, err)
  {
    hide Inv, BecomeNonbusy, Drained, WentIdle, Grant;
    SubdOkAt(d, i);
    InvIsDevOk(d);
    var s := d.subds[i];
    GrantExactly(r, s.fifo.munged - s.fifo.readAlloc);
    var g := Granted(s.fifo, r);
    GrantExactly(g, s.fifo.readAlloc + g - s.fifo.read);
    BufinfoConsumes(s.cfg, s.fifo, s.bufsz, r);
    var f := AfterBufinfo(s.fifo, r);
    DrainedExactly(f, s.bufsz);
    IdleFromMoved(d, i, f);
  }

  /** The write side, for a count in reach: what is granted is the room, up to the count, and all of
      it is committed. */
  predicate BufinfoWrites(d: Dev, i: nat, w: u32, e: Dev, err: int)
    requires i < |d.subds|
  {
    var s := d.subds[i];
    var f := s.fifo;
    var granted := Min(w, f.read + s.bufsz - f.writeAlloc);
    && OnlyFifo(d, e, i)
    && err == (if granted == 0 && !s.running && s.error then -EPIPE else 0)
    && var g := e.subds[i].fifo;
      && g.writeAlloc == f.writeAlloc + granted && g.written == f.written + granted
      && g.read == f.read && g.readAlloc == f.readAlloc
      && (if w > 0 then MungedRight(s.cfg, f.munged, g.munged, g.written) else g.munged == f.munged)
  }

  lemma BufinfoWriteAnswers(d: Dev, i: nat, w: u32)
    requires i < |d.subds| && FifoChain(d.subds[i].fifo, d.subds[i].bufsz)
    requires WriteInReach(d.subds[i].fifo, d.subds[i].bufsz, w)
    ensures var (e, err) := BufinfoWrite(d, i, w); BufinfoWrites(d, i, w, e, err)
  {
    hide Grant, WriteFree, MungedRight;
    var s := d.subds[i];
    var granted := Grant(w, s.fifo.read + s.bufsz - s.fifo.writeAlloc);
    GrantExactly(w, s.fifo.read + s.bufsz - s.fifo.writeAlloc);
    CommitMoves(s.cfg, WriteAlloc(s.fifo, s.bufsz, w), s.bufsz, granted);
    Parts(s.cfg.lsampl, 0);
  }

  /** do_bufinfo_ioctl: who is answered what, the read side first. */
  ghost predicate BufinfoAnswer(d: Dev, i: nat, file: nat, r: u32, w: u32, e: Dev, ret: int) {
    && (i >= |d.subds| ==> e == d && ret == -EINVAL)
    && (i < |d.subds| ==>
         var s := d.subds[i];
         var locked := s.lock != Nobody && s.lock != File(file);
         && (locked ==> e == d && ret == -EACCES)
         && (!locked && (!s.cfg.hasAsync || s.busy == Nobody) ==> e == d && ret == 0)
         && (!locked && s.cfg.hasAsync && s.busy != Nobody && s.busy != File(file) ==> e == d && ret == -EACCES)
         && (!locked && s.cfg.hasAsync && s.busy == File(file) ==> BothAnswer(d, i, r, w, e, ret)))
  }

  ghost predicate BothAnswer(d: Dev, i: nat, r: u32, w: u32, e: Dev, ret: int)
    requires i < |d.subds|
  {
    exists mid: Dev, granted: nat, err: int, err': int ::
      FirstSide(d, i, r, mid, granted, err) && SecondSide(d, i, w, mid, e, err')
      && ret == if err' != 0 then err' else err
  }

  predicate FirstSide(d: Dev, i: nat, r: u32, mid: Dev, granted: nat, err: int)
    requires i < |d.subds|
  {
    |mid.subds| == |d.subds|
    && if d.subds[i].cfg.cmdRead then BufinfoReads(d, i, r, mid, granted, err) else mid == d && err == 0
  }

  predicate SecondSide(d: Dev, i: nat, w: u32, mid: Dev, e: Dev, err: int)
    requires i < |d.subds|
  {
    |mid.subds| == |d.subds|
    && if !d.subds[i].cfg.cmdWrite then e == mid && err == 0
       else WriteInReach(mid.subds[i].fifo, mid.subds[i].bufsz, w) ==> BufinfoWrites(mid, i, w, e, err)
  }

  lemma BufinfoAnswers(d: Dev, i: nat, file: nat, r: u32, w: u32)
    requires Inv(d) && BufinfoInReach(d, i, file, r, w)
    ensures BufinfoAnswer(d, i, file, r, w, DoBufinfo(d, i, file, r, w).0, DoBufinfo(d, i, file, r, w).1)
  {
    hide Inv, BufinfoRead, BufinfoWrite, BufinfoReads, BufinfoWrites, ReadInReach, WriteInReach, FifoChain, BothAnswer;
    if i < |d.subds| && d.subds[i].busy == File(file) {
      SubdOkAt(d, i);
      BothAnswers(d, i, file, r, w);
    }
  }

  lemma BothAnswers(d: Dev, i: nat, file: nat, r: u32, w: u32)
    requires Inv(d) && BufinfoInReach(d, i, file, r, w) && i < |d.subds| && d.subds[i].busy == File(file)
    ensures BothAnswer(d, i, r, w, DoBufinfo(d, i, file, r, w).0, DoBufinfo(d, i, file, r, w).1)
  {
    hide Inv, BufinfoRead, BufinfoWrite, BufinfoReads, BufinfoWrites, ReadInReach, WriteInReach, FifoChain;
    SubdOkAt(d, i);
    var (mid, granted, err) := if d.subds[i].cfg.cmdRead then BufinfoRead(d, i, r) else (d, 0, 0);
    if d.subds[i].cfg.cmdRead {
      BufinfoReadAnswers(d, i, r);
      BufinfoReadExactly(d, i, r);
      ChainAfterRead(d, i, r);
    }
    var (e, err') := if d.subds[i].cfg.cmdWrite then BufinfoWrite(mid, i, w) else (mid, 0);
    if d.subds[i].cfg.cmdWrite && WriteInReach(mid.subds[i].fifo, mid.subds[i].bufsz, w) {
      BufinfoWriteAnswers(mid, i, w);
    }
    assert DoBufinfo(d, i, file, r, w) == (e, if err' != 0 then err' else err);
    assert FirstSide(d, i, r, mid, granted, err) && SecondSide(d, i, w, mid, e, err');
  }

  lemma ChainAfterRead(d: Dev, i: nat, r: u32)
    requires Inv(d) && i < |d.subds| && d.subds[i].busy.File? && ReadInReach(d.subds[i].fifo, r)
    ensures var e := BufinfoRead(d, i, r).0; |e.subds| == |d.subds| && FifoChain(e.subds[i].fifo, e.subds[i].bufsz)
  {
    hide Inv, BecomeNonbusy, Drained, AfterBufinfo, Granted;
    SubdOkAt(d, i);
    var s := d.subds[i];
    BufinfoConsumes(s.cfg, s.fifo, s.bufsz, r);
    IdleIsNobody(SetSubd(d, i, s.(fifo := AfterBufinfo(s.fifo, r))), i);
  }

  // ---------------------------------------------------------------- the driver, poll and resizing

  /** comedi_event: an end or an error stops a running command, an error is remembered, and nothing
      else happens. */
  predicate EventAnswer(d: Dev, i: nat, events: set<Event>, e: Dev)
    requires i < |d.subds|
  {
    && SameBut(d, e, i) && e == d.(subds := e.subds)
    && var s, t := d.subds[i], e.subds[i];
      && t == s.(running := t.running, error := t.error)
      && (t.running <==> s.running && Eoa !in events && Error !in events && Overflow !in events)
      && (t.error <==> s.error || (s.running && (Error in events || Overflow in events)))
  }

  lemma EventAnswers(d: Dev, i: nat, events: set<Event>)
    requires i < |d.subds|
    ensures EventAnswer(d, i, events, SetSubd(d, i, EventFlags(d.subds[i], events)))
  {
  }

  /** An error reaches the reader once everything munged has been read. */
  lemma ErrorReachesReader(d: Dev, i: nat, file: nat, events: set<Event>, a: Attempt)
    requires Inv(d) && i < |d.subds| && d.subds[i].busy == File(file) && d.subds[i].running && a.nbytes > 0
    requires (Error in events || Overflow in events) && d.subds[i].fifo.munged == d.subds[i].fifo.read
    ensures var e := SetSubd(d, i, EventFlags(d.subds[i], events));
      DoRead(e, i, file, a).1 == -EPIPE && DoRead(e, i, file, a).0.subds[i].busy == Nobody
  {
    hide Inv, BecomeNonbusy, DoRead;
    var e := SetSubd(d, i, EventFlags(d.subds[i], events));
    StepKeepsInv(d, DriverEvent(i, events));
    SubdOkAt(d, i);
    ReadAnswers(e, i, file, a);
  }

  /** resize_async_buffer: the size changes, of an idle subdevice only. */
  predicate ResizeAnswer(d: Dev, i: nat, size: bufsize, e: Dev, ret: int)
    requires i < |d.subds|
  {
    && (ret == 0 <==> d.subds[i].busy == Nobody)
    && (ret == 0 ==>
         SameBut(d, e, i) && e == d.(subds := e.subds)
         && e.subds[i].bufsz == size && e.subds[i] == d.subds[i].(bufsz := e.subds[i].bufsz))
    && (ret != 0 ==> e == d && ret == -EBUSY)
  }

  lemma ResizeAnswers(d: Dev, i: nat, size: bufsize)
    requires i < |d.subds|
    ensures ResizeAnswer(d, i, size, DoResize(d, i, size).0, DoResize(d, i, size).1)
  {
  }

  /** comedi_poll: a write subdevice's whole free buffer is granted to the writer. */
  predicate PollAnswer(d: Dev, i: nat, e: Dev)
    requires i < |d.subds|
  {
    var s := d.subds[i];
    var grants := s.cfg.hasAsync && s.cfg.cmdWrite;
    && OnlyFifo(d, e, i)
    && (!grants ==> e == d)
    && (grants && FifoChain(s.fifo, s.bufsz) ==> e.subds[i].fifo == s.fifo.(writeAlloc := s.fifo.read + s.bufsz))
  }

  lemma PollAnswers(d: Dev, i: nat)
    requires i < |d.subds|
    ensures PollAnswer(d, i, DoPoll(d, i))
  {
    hide WriteAlloc;
    var s := d.subds[i];
    if FifoChain(s.fifo, s.bufsz) { WholeBufferClaimed(s.fifo, s.bufsz); }
    assert d.subds[i := s] == d.subds;
  }

  /** A driver's buffer call on positions in order, for a count in reach: it moves the smaller of the
      count and what there is. */
  predicate MoveAnswer(d: Dev, i: nat, t: Transfer, e: Dev)
    requires i < |d.subds|
  {
    var s := d.subds[i];
    && OnlyFifo(d, e, i)
    && (!s.running ==> e == d)
    && (s.running && FifoChain(s.fifo, s.bufsz) && TransferInReach(s, t) ==>
         var f, g := s.fifo, e.subds[i].fifo;
         match t
         case AllocateWrite(n) => g == f.(writeAlloc := Min(f.writeAlloc + n, f.read + s.bufsz))
         case FreeWrite(n) =>
           && g == f.(written := Min(f.written + n, f.writeAlloc), munged := g.munged)
           && MungedRight(s.cfg, f.munged, g.munged, g.written)
         case AllocateRead(n) => g == f.(readAlloc := Min(f.readAlloc + n, f.munged))
         case FreeRead(n) => g == f.(read := Min(f.read + n, f.readAlloc)))
  }

  lemma MoveAnswers(d: Dev, i: nat, t: Transfer)
    requires i < |d.subds|
    ensures MoveAnswer(d, i, t, DriverTransfer(d, i, t))
  {
    hide WriteAlloc, WriteFree, ReadAlloc, ReadFree, MungedRight;
    var s := d.subds[i];
    assert d.subds[i := s] == d.subds;
    if s.running && FifoChain(s.fifo, s.bufsz) {
      CallsMove(s.cfg, s.fifo, s.bufsz, t.n);
    }
  }

  lemma CallsMove(c: SubdConfig, f: Fifo, bufsz: bufsize, n: u32)
    requires FifoChain(f, bufsz)
    ensures WriteInReach(f, bufsz, n) ==>
      WriteAlloc(f, bufsz, n) == f.(writeAlloc := Min(f.writeAlloc + n, f.read + bufsz))
    ensures n < TWO_31 + (f.writeAlloc - f.written) ==>
      var g := WriteFree(c, f, n);
      && g == f.(written := Min(f.written + n, f.writeAlloc), munged := g.munged)
      && MungedRight(c, f.munged, g.munged, g.written)
    ensures ReadInReach(f, n) ==> ReadAlloc(f, n) == f.(readAlloc := Min(f.readAlloc + n, f.munged))
    ensures n < TWO_31 + (f.readAlloc - f.read) ==> ReadFree(f, n) == f.(read := Min(f.read + n, f.readAlloc))
  {
    hide Grant, Munged, Wrap, MungedRight;
    GrantExactly(n, f.read + bufsz - f.writeAlloc);
    GrantExactly(n, f.writeAlloc - f.written);
    GrantExactly(n, f.munged - f.readAlloc);
    GrantExactly(n, f.readAlloc - f.read);
    MungesRight(c, f.munged, f.written + Min(n, f.writeAlloc - f.written));
  }

  // ---------------------------------------------------------------- who may unlock

  predicate SameLocks(d: Dev, e: Dev) {
    |e.subds| == |d.subds| && forall j | 0 <= j < |d.subds| :: e.subds[j].lock == d.subds[j].lock
  }

  /** Only the owner's unlock or close takes a lock away. */
  lemma OnlyOwnerUnlocks(d: Dev, a: Action, i: nat, file: nat)
    requires Inv(d) && i < |d.subds| && d.subds[i].lock == File(file)
    ensures i < |Step(d, a).subds|
    ensures Step(d, a).subds[i].lock != File(file) ==>
      (a.Unlock? && a.i == i && a.file == file) || (a.Close? && a.file == file)
  {
    hide Inv, DoCmd, DoRead, DoWokenRead, DoWrite, DoBufinfo, DoCancelIoctl, DoPoll, DriverTransfer, CloseFrom;
    match a
    case Cmd(j, f, req) => CmdKeepsLocks(d, j, f, req);
    case Cancel(j, f, ret) => CancelKeepsLocks(d, j, f, ret);
    case Close(f) => CloseKeepsLocks(d, f, 0, i);
    case Read(j, f, attempt) => if j < |d.subds| { ReadKeepsLocks(d, j, f, attempt, false); }
    case WokenRead(j, f, attempt, signal) => if j < |d.subds| { ReadKeepsLocks(d, j, f, attempt, signal); }
    case Write(j, f, attempt) => if j < |d.subds| { WriteKeepsLocks(d, j, f, attempt); }
    case Bufinfo(j, f, r, w) => BufinfoKeepsLocks(d, j, f, r, w);
    case Poll(j) => if j < |d.subds| { PollAnswers(d, j); }
    case DriverMoves(j, transfer) => if j < |d.subds| { MoveAnswers(d, j, transfer); }
    case _ =>
  }

  lemma IdleKeepsLocks(d: Dev, i: nat)
    requires i < |d.subds|
    ensures SameLocks(d, BecomeNonbusy(d, i))
  {
  }

  lemma CmdKeepsLocks(d: Dev, i: nat, file: nat, req: CmdRequest)
    ensures SameLocks(d, DoCmd(d, i, file, req).0)
  {
    hide BecomeNonbusy, CmdRejection, EventFlags;
    if CmdRefusal(d, i, file, req) == 0 {
      IdleKeepsLocks(Kmalloc(d, i), i);
      var launched := Launch(Kmalloc(d, i), i, file, req.priority);
      EventsKeepLock(launched.subds[i], req.driverEvents);
      IdleKeepsLocks(SetSubd(launched, i, EventFlags(launched.subds[i], req.driverEvents)), i);
    }
  }

  lemma EventsKeepLock(s: Subd, events: set<Event>)
    ensures EventFlags(s, events).lock == s.lock
  {
  }

  lemma CancelKeepsLocks(d: Dev, i: nat, file: nat, ret: int)
    ensures SameLocks(d, DoCancelIoctl(d, i, file, ret).0)
  {
    hide BecomeNonbusy;
    if i < |d.subds| { IdleKeepsLocks(d, i); }
  }

  lemma {:induction false} CloseKeepsLocks(d: Dev, file: nat, from: nat, i: nat)
    requires from <= |d.subds| && i < |d.subds|
    ensures var e := CloseFrom(d, file, from);
      |e.subds| == |d.subds| && (d.subds[i].lock != File(file) ==> e.subds[i].lock == d.subds[i].lock)
    decreases |d.subds| - from
  {
    hide BecomeNonbusy;
    if from < |d.subds| {
      IdleKeepsLocks(d, from);
      CloseKeepsLocks(CloseOne(d, file, from), file, from + 1, i);
    }
  }

  lemma ReadKeepsLocks(d: Dev, i: nat, file: nat, a: Attempt, signal: bool)
    requires i < |d.subds|
    ensures SameLocks(d, DoRead(d, i, file, a).0) && SameLocks(d, DoWokenRead(d, i, file, a, signal).0)
  {
    hide ReadRest, ReadSample, LeaveIfDrained;
    TailKeepsLocks(d, i);
    RestKeepsLocks(d, i, a, ReadSample(d.subds[i], a));
  }

  lemma TailKeepsLocks(d: Dev, i: nat)
    requires i < |d.subds|
    ensures SameLocks(d, LeaveIfDrained(d, i))
  {
    hide BecomeNonbusy, Drained;
    IdleKeepsLocks(d, i);
  }

  lemma RestKeepsLocks(d: Dev, i: nat, a: Attempt, n: u32)
    requires i < |d.subds|
    ensures SameLocks(d, ReadRest(d, i, a, n).0)
  {
    hide BecomeNonbusy, LeaveIfDrained, ReadAlloc, ReadFree;
    IdleKeepsLocks(d, i);
    if n > 0 {
      var copied: u32 := n - Min(a.fault, n);
      var s := d.subds[i].(fifo := ReadFree(ReadAlloc(d.subds[i].fifo, copied), copied));
      TailKeepsLocks(SetSubd(d, i, s), i);
    }
  }

  lemma WriteKeepsLocks(d: Dev, i: nat, file: nat, a: Attempt)
    requires i < |d.subds|
    ensures SameLocks(d, DoWrite(d, i, file, a).0)
  {
    hide BecomeNonbusy, WriteAlloc, WriteFree, Contiguous;
    IdleKeepsLocks(d, i);
  }

  lemma BufinfoKeepsLocks(d: Dev, i: nat, file: nat, r: u32, w: u32)
    ensures SameLocks(d, DoBufinfo(d, i, file, r, w).0)
  {
    hide BecomeNonbusy, AfterBufinfo, AfterBufinfoWrite, Drained, Grant, Granted;
    if i < |d.subds| {
      var s := d.subds[i];
      IdleKeepsLocks(SetSubd(d, i, s.(fifo := AfterBufinfo(s.fifo, r))), i);
    }
  }
}

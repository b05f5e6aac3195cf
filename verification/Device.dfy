/** The device as the code keeps it, updated in place; every operation is proved to be the step
    that Lifecycle describes. */
module Device {
  import opened Word32
  import opened AsyncBuffer
  import opened Lifecycle
  import opened LifecycleLaws
  import opened LifecycleAnswers

  datatype RunFlag = SrfUser | SrfRt | SrfError | SrfRunning

  class Comedi {
    var subds: seq<Subd>
    const irqEntry: bool
    var rt: int
    var itRt: bool
    var installs: int
    var nextId: nat
    ghost var live: set<nat>
    ghost var badFree: bool

    ghost function View(): Dev
      reads this
    {
      Dev(subds, irqEntry, rt, itRt, installs, live, nextId, badFree)
    }

    constructor (subds: seq<Subd>, irqEntry: bool)
      requires forall i | 0 <= i < |subds| ::
        var s := subds[i];
        s.busy == Nobody && s.lock == Nobody && !s.running && !s.rt && s.chanlist == Null
      ensures Attached(View()) && this.subds == subds && this.irqEntry == irqEntry
    {
      this.subds, this.irqEntry := subds, irqEntry;
      rt, itRt, installs, nextId := 0, false, 0, 0;
      live, badFree := {}, false;
    }

    // ------------------------------------------------------------ helpers of the core

    /** comedi_set_subdevice_runflags: clears the masked flags, then sets the masked bits. */
    method SetRunflags(i: nat, mask: set<RunFlag>, bits: set<RunFlag>)
      requires i < |subds|
      modifies this`subds
      ensures subds == old(subds)[i := old(subds)[i].(
        user := if SrfUser in mask then SrfUser in bits else old(subds)[i].user,
        rt := if SrfRt in mask then SrfRt in bits else old(subds)[i].rt,
        error := if SrfError in mask then SrfError in bits else old(subds)[i].error,
        running := if SrfRunning in mask then SrfRunning in bits else old(subds)[i].running)]
    {
      var s := subds[i];
      s := s.(user := s.user && SrfUser !in mask, rt := s.rt && SrfRt !in mask,
              error := s.error && SrfError !in mask, running := s.running && SrfRunning !in mask);
      var set' := bits * mask;
      s := s.(user := s.user || SrfUser in set', rt := s.rt || SrfRt in set',
              error := s.error || SrfError in set', running := s.running || SrfRunning in set');
      subds := subds[i := s];
    }

    /** comedi_switch_to_rt, the handler request succeeding. */
    method SwitchRt() returns (ret: int)
      modifies this`rt, this`itRt, this`installs
      ensures (View(), ret) == SwitchToRt(old(View()))
    {
      if !irqEntry {
        return -1;
      }
      if rt == 0 {
        installs := installs + 1;
      }
      rt := rt + 1;
      itRt := true;
      return 0;
    }

    /** comedi_switch_to_non_rt */
    method SwitchNonRt()
      modifies this`rt, this`itRt, this`installs
      ensures View() == SwitchToNonRt(old(View()))
    {
      if !irqEntry {
        return;
      }
      rt := rt - 1;
      if rt == 0 {
        installs := installs - 1;
      }
      itRt := false;
    }

    /** do_become_nonbusy */
    method MakeNonbusy(i: nat)
      requires i < |subds|
      modifies this
      ensures View() == BecomeNonbusy(old(View()), i)
      ensures |subds| == |old(subds)|
    {
      hide SwitchToNonRt, Idle;
      NonRtKeepsSubds(View());
      IdleOfStopped(subds[i]);
      StopRunning(i);
      ReleaseCommand(i);
    }

    /** Its second half: the buffer is emptied, the channel list freed, the owner forgotten. */
    method ReleaseCommand(i: nat)
      requires i < |subds| && !subds[i].running && !subds[i].rt
      modifies this`subds, this`live, this`badFree
      ensures View() == SetSubd(Kfree(old(View()), old(subds)[i].chanlist), i, Idle(old(subds)[i]))
    {
      ghost var before := subds;
      if subds[i].cfg.hasAsync {
        subds := subds[i := subds[i].(fifo := EMPTY_FIFO)];
      }
      Free(subds[i].chanlist);
      subds := subds[i := subds[i].(chanlist := Null)];
      subds := subds[i := subds[i].(busy := Nobody)];
      assert subds == before[i := Idle(before[i])];
    }

    /** The run flags' part of going idle. */
    method StopRunning(i: nat)
      requires i < |subds|
      modifies this`subds, this`rt, this`itRt, this`installs
      ensures var s := old(subds)[i];
        var d := if s.rt then SwitchToNonRt(old(View())) else old(View());
        View() == SetSubd(d, i, s.(running := false, rt := false))
      ensures subds == old(subds)[i := old(subds)[i].(running := false, rt := false)]
    {
      SetRunflags(i, {SrfRunning}, {});
      if subds[i].rt {
        SwitchNonRt();
        SetRunflags(i, {SrfRt}, {});
      }
    }

    /** kfree */
    method Free(p: Pointer)
      modifies this`live, this`badFree
      ensures View() == Kfree(old(View()), p)
    {
      match p {
        case Null =>
        case Allocated(id) =>
          badFree := badFree || id !in live;
          live := live - {id};
      }
    }

    /** comedi_event */
    method Event(i: nat, events: set<Event>)
      requires i < |subds|
      modifies this`subds
      ensures View() == SetSubd(old(View()), i, EventFlags(old(subds)[i], events))
      ensures Inv(old(View())) ==> Inv(View())
      ensures EventAnswer(old(View()), i, events, View())
    {
      hide Inv, EventAnswer;
      EventAnswers(View(), i, events);
      if Inv(View()) { StepKeepsInv(View(), DriverEvent(i, events)); }
      Unchanged(subds, i);
      if !subds[i].running {
        return;
      }
      var mask: set<RunFlag>, bits: set<RunFlag> := {}, {};
      if Eoa in events || AsyncBuffer.Error in events || Overflow in events {
        mask := mask + {SrfRunning};
      }
      if AsyncBuffer.Error in events || Overflow in events {
        mask := mask + {SrfError};
        bits := bits + {SrfError};
      }
      if mask != {} {
        SetRunflags(i, mask, bits);
      }
    }

    // ------------------------------------------------------------ ioctls

    /** do_cmd_ioctl */
    method CmdIoctl(i: nat, file: nat, req: CmdRequest) returns (ret: int)
      modifies this
      ensures (View(), ret) == DoCmd(old(View()), i, file, req)
      ensures Inv(old(View())) ==> Inv(View()) && CmdAnswer(old(View()), i, file, req, View(), ret)
    {
      hide Inv, BecomeNonbusy, Launch, EventFlags, CmdAnswer;
      if Inv(View()) {
        StepKeepsInv(View(), Cmd(i, file, req));
        CmdAnswers(View(), i, file, req);
      }
      if req.badAddress { return -EFAULT; }
      if i >= |subds| { return -ENODEV; }
      var s := subds[i];
      if s.cfg.unused { return -EIO; }
      if !s.cfg.hasCmd || !s.cfg.hasAsync { return -EIO; }
      if s.lock != Nobody && s.lock != File(file) { return -EACCES; }
      if s.busy != Nobody { return -EBUSY; }
      if req.chanlistLen > s.cfg.lenChanlist { return -EINVAL; }
      if req.chanlistLen < 1 { return -EINVAL; }
      if req.allocFails { return -ENOMEM; }
      subds := subds[i := subds[i].(chanlist := Allocated(nextId))];
      live, nextId := live + {nextId}, nextId + 1;
      ret := CheckCommand(s, req);
      if ret == 0 {
        ret := StartCommand(i, file, req);
        if ret == 0 {
          return 0;
        }
      }
      MakeNonbusy(i);
    }

    /** The checks between the allocation and the point of no return. */
    method CheckCommand(s: Subd, req: CmdRequest) returns (ret: int)
      ensures ret == CmdRejection(s, req)
    {
      if req.chanlistFault { return -EFAULT; }
      if req.badChanlist { return -EINVAL; }
      if req.testFails {
        if req.copyBackFault { return -EFAULT; }
        return -EAGAIN;
      }
      if s.bufsz == 0 { return -ENOMEM; }
      return 0;
    }

    /** Reset, run flags, real-time switch, ownership, and the driver's own start. */
    method StartCommand(i: nat, file: nat, req: CmdRequest) returns (ret: int)
      requires i < |subds|
      modifies this`subds, this`rt, this`itRt, this`installs
      ensures var launched := Launch(old(View()), i, file, req.priority);
        View() == SetSubd(launched, i, EventFlags(launched.subds[i], req.driverEvents))
      ensures ret == req.driverRet && |subds| == |old(subds)|
    {
      subds := subds[i := subds[i].(fifo := EMPTY_FIFO)];
      SetRunflags(i, {SrfUser, SrfRt, SrfError, SrfRunning}, {SrfUser, SrfRunning});
      if req.priority {
        var switched := SwitchRt();
        if switched == 0 {
          SetRunflags(i, {SrfRt}, {SrfRt});
        }
      }
      subds := subds[i := subds[i].(busy := File(file))];
      Event(i, req.driverEvents);
      return req.driverRet;
    }

    /** parse_insn for a subdevice instruction. */
    method Instruction(i: nat, file: nat, badChanspec: bool, driverRet: int) returns (ret: int)
      modifies this`subds
      ensures View() == old(View()) && ret == DoInsn(View(), i, file, badChanspec, driverRet)
      ensures InsnAnswer(View(), i, file, badChanspec, driverRet, ret)
    {
      hide InsnAnswer;
      InsnAnswers(View(), i, file, badChanspec, driverRet);
      if i >= |subds| { return -EINVAL; }
      if subds[i].cfg.unused { return -EIO; }
      if subds[i].lock != Nobody && subds[i].lock != File(file) { return -EACCES; }
      if badChanspec { return -EINVAL; }
      if subds[i].busy != Nobody { return -EBUSY; }
      subds := subds[i := subds[i].(busy := Insn)];
      ret := driverRet;
      subds := subds[i := subds[i].(busy := Nobody)];
    }

    /** do_lock_ioctl */
    method LockIoctl(i: nat, file: nat) returns (ret: int)
      modifies this`subds
      ensures (View(), ret) == DoLock(old(View()), i, file)
      ensures Inv(old(View())) ==> Inv(View())
      ensures LockAnswer(old(View()), i, file, View(), ret)
    {
      hide Inv, LockAnswer;
      LockAnswers(View(), i, file);
      if Inv(View()) { StepKeepsInv(View(), Lock(i, file)); }
      if i >= |subds| { return -EINVAL; }
      if subds[i].busy != Nobody || subds[i].lock != Nobody { return -EBUSY; }
      subds := subds[i := subds[i].(lock := File(file))];
      return 0;
    }

    /** do_unlock_ioctl */
    method UnlockIoctl(i: nat, file: nat) returns (ret: int)
      modifies this`subds
      ensures (View(), ret) == DoUnlock(old(View()), i, file)
      ensures Inv(old(View())) ==> Inv(View())
      ensures UnlockAnswer(old(View()), i, file, View(), ret)
    {
      hide Inv, UnlockAnswer;
      UnlockAnswers(View(), i, file);
      if Inv(View()) { StepKeepsInv(View(), Unlock(i, file)); }
      if i >= |subds| { return -EINVAL; }
      if subds[i].busy != Nobody { return -EBUSY; }
      if subds[i].lock != Nobody && subds[i].lock != File(file) { return -EACCES; }
      Unchanged(subds, i);
      if subds[i].lock == File(file) {
        subds := subds[i := subds[i].(lock := Nobody)];
      }
      return 0;
    }

    /** do_cancel: stops the hardware of a running command and goes idle. */
    method CancelCommand(i: nat, driverRet: int) returns (ret: int)
      requires i < |subds|
      modifies this
      ensures View() == BecomeNonbusy(old(View()), i) && |subds| == |old(subds)|
      ensures ret == if old(subds)[i].running && old(subds)[i].cfg.hasCancel then driverRet else 0
    {
      ret := 0;
      if subds[i].running && subds[i].cfg.hasCancel {
        ret := driverRet;
      }
      MakeNonbusy(i);
    }

    /** do_cancel_ioctl */
    method CancelIoctl(i: nat, file: nat, driverRet: int) returns (ret: int)
      modifies this
      ensures (View(), ret) == DoCancelIoctl(old(View()), i, file, driverRet)
      ensures Inv(old(View())) ==> Inv(View()) && CancelAnswer(old(View()), i, file, driverRet, View(), ret)
    {
      hide Inv, BecomeNonbusy, CancelAnswer;
      if Inv(View()) {
        StepKeepsInv(View(), Cancel(i, file, driverRet));
        CancelAnswers(View(), i, file, driverRet);
      }
      if i >= |subds| { return -EINVAL; }
      if !subds[i].cfg.hasAsync { return -EINVAL; }
      if subds[i].lock != Nobody && subds[i].lock != File(file) { return -EACCES; }
      if subds[i].busy == Nobody { return 0; }
      if subds[i].busy != File(file) { return -EBUSY; }
      ret := CancelCommand(i, driverRet);
    }

    /** comedi_close: the loop over the subdevices. */
    method Close(file: nat)
      modifies this
      ensures View() == CloseFrom(old(View()), file, 0)
      ensures Inv(old(View())) ==> Inv(View())
      ensures Inv(old(View())) ==> |subds| == |old(subds)| && Released(old(subds), subds, file)
    {
      hide Inv, BecomeNonbusy, Released;
      if Inv(View()) {
        StepKeepsInv(View(), Action.Close(file));
        CloseIsRelease(View(), file);
      }
      var i := 0;
      while i < |subds|
        invariant i <= |subds|
        invariant CloseFrom(View(), file, i) == CloseFrom(old(View()), file, 0)
      {
        ghost var before := View();
        if subds[i].busy == File(file) {
          var _ := CancelCommand(i, 0);
        }
        Unchanged(subds, i);
        if subds[i].lock == File(file) {
          subds := subds[i := subds[i].(lock := Nobody)];
        }
        assert View() == CloseOne(before, file, i);
        i := i + 1;
      }
    }

    // ------------------------------------------------------------ transfers

    /** comedi_read, one attempt. */
    method Read(i: nat, file: nat, a: Attempt) returns (ret: int)
      requires i < |subds| && Inv(View())
      modifies this
      ensures (View(), ret) == DoRead(old(View()), i, file, a)
      ensures Inv(View())
      ensures old(subds)[i].busy == File(file) ==> EndsDelivered(old(View()), i, (View(), ret))
      ensures SubdOk(old(subds)[i]) && ReadAnswer(old(View()), i, file, a, View(), ret)
    {
      hide Inv, FifoChain, BecomeNonbusy, ReadRest, ReadSample, EndsDelivered, ReadAnswer, SubdOk;
      ReadAnswers(View(), i, file, a);
      ReadKeepsInv(View(), i, file, a);
      if subds[i].busy == File(file) { ReadEndsDelivered(View(), i, file, a); }
      if !subds[i].cfg.hasAsync { return -EIO; }
      if a.nbytes == 0 { return 0; }
      if subds[i].busy == Nobody { return 0; }
      if subds[i].busy != File(file) { return -EACCES; }
      ret := ReadLoop(i, a);
    }

    /** A reader that slept in comedi_read and wakes. */
    method WokenRead(i: nat, file: nat, a: Attempt, signal: bool) returns (ret: int)
      requires i < |subds| && Inv(View()) && subds[i].cfg.hasAsync && a.nbytes > 0
      modifies this
      ensures (View(), ret) == DoWokenRead(old(View()), i, file, a, signal)
      ensures Inv(View())
      ensures old(subds)[i].busy.File? ==> EndsDelivered(old(View()), i, (View(), ret))
      ensures SubdOk(old(subds)[i]) && WokenAnswer(old(View()), i, file, a, signal, View(), ret)
    {
      hide Inv, BecomeNonbusy, ReadRest, ReadSample, EndsDelivered, LeaveIfDrained, WokenAnswer, SubdOk;
      WokenAnswers(View(), i, file, a, signal);
      WokenReadKeepsInv(View(), i, file, a, signal);
      if subds[i].busy.File? { WokenReadEndsDelivered(View(), i, file, a, signal); }
      if signal {
        ret := -ERESTARTSYS;
      } else if subds[i].busy == Nobody {
        ret := 0;
      } else if subds[i].busy != File(file) {
        ret := -EACCES;
      } else {
        ret := ReadLoop(i, a);
        return;
      }
      FinishRead(i);
    }

    /** The loop of comedi_read, up to where it would sleep, and the end. */
    method ReadLoop(i: nat, a: Attempt) returns (ret: int)
      requires i < |subds| && a.nbytes > 0 && subds[i].cfg.hasAsync
      modifies this
      ensures (View(), ret) == ReadRest(old(View()), i, a, ReadSample(old(subds)[i], a))
    {
      hide Contiguous, ReadAlloc, ReadFree, BecomeNonbusy, LeaveIfDrained, Wrap;
      var s := subds[i];
      var count := 0;
      ret := 0;
      var n := a.nbytes;
      var m := Contiguous(s.fifo.read, Wrap(s.fifo.munged - s.fifo.read), s.bufsz);
      if m < n {
        n := m;
      }
      if n == 0 {
        if subds[i].running {
          return if a.nonblock then -EAGAIN else -ERESTARTSYS;
        }
        ret := if subds[i].error then -EPIPE else 0;
        NonbusyTwice(View(), i);
        MakeNonbusy(i);
      } else {
        if a.fault > 0 {
          n := n - Min(a.fault, n);
          ret := -EFAULT;
        }
        subds := subds[i := s.(fifo := ReadFree(ReadAlloc(s.fifo, n), n))];
        count := count + n;
      }
      FinishRead(i);
      return if count > 0 then count else ret;
    }

    /** The end of comedi_read. */
    method FinishRead(i: nat)
      requires i < |subds|
      modifies this
      ensures View() == LeaveIfDrained(old(View()), i)
    {
      hide BecomeNonbusy, Wrap;
      if !subds[i].error && !subds[i].running {
        if Wrap(subds[i].fifo.read - subds[i].fifo.written) == 0 {
          MakeNonbusy(i);
        }
      }
    }

    /** comedi_write, one attempt. */
    method Write(i: nat, file: nat, a: Attempt) returns (ret: int)
      requires i < |subds| && Inv(View())
      modifies this
      ensures (View(), ret) == DoWrite(old(View()), i, file, a)
      ensures Inv(View())
      ensures SubdOk(old(subds)[i]) && WriteAnswer(old(View()), i, file, a, View(), ret)
    {
      hide Inv, Contiguous, WriteFree, WriteAlloc, BecomeNonbusy, Wrap, WriteAnswer, SubdOk;
      WriteAnswers(View(), i, file, a);
      SubdOkAt(View(), i);
      WriteKeepsInv(View(), i, file, a);
      if !subds[i].cfg.hasAsync { return -EIO; }
      if a.nbytes == 0 { return 0; }
      if subds[i].busy == Nobody { return 0; }
      if subds[i].busy != File(file) { return -EACCES; }
      if !subds[i].running {
        ret := if subds[i].error then -EPIPE else 0;
        MakeNonbusy(i);
        return;
      }
      ret := WriteBytes(i, a);
    }

    /** The transfer itself: claim all the room there is, copy, commit. */
    method WriteBytes(i: nat, a: Attempt) returns (ret: int)
      requires i < |subds| && a.nbytes > 0 && subds[i].running && subds[i].cfg.hasAsync && subds[i].busy.File?
      modifies this`subds
      ensures (View(), ret) == DoWrite(old(View()), i, old(subds)[i].busy.id, a)
    {
      hide Contiguous, WriteFree, WriteAlloc, Wrap;
      var s := subds[i];
      var n := Contiguous(s.fifo.written, a.nbytes, s.bufsz);
      var f := WriteAlloc(s.fifo, s.bufsz, s.bufsz);
      if n > Wrap(f.writeAlloc - f.written) {
        n := Wrap(f.writeAlloc - f.written);
      }
      if n == 0 {
        subds := subds[i := s.(fifo := f)];
        return if a.nonblock then -EAGAIN else -ERESTARTSYS;
      }
      ret := 0;
      if a.fault > 0 {
        n := n - Min(a.fault, n);
        ret := -EFAULT;
      }
      subds := subds[i := s.(fifo := WriteFree(s.cfg, f, n))];
      return if n > 0 then n else ret;
    }

    /** do_bufinfo_ioctl */
    method BufinfoIoctl(i: nat, file: nat, bytesRead: u32, bytesWritten: u32) returns (ret: int)
      modifies this
      ensures (View(), ret) == DoBufinfo(old(View()), i, file, bytesRead, bytesWritten)
      ensures Inv(old(View())) && BufinfoInReach(old(View()), i, file, bytesRead, bytesWritten) ==>
        Inv(View()) && BufinfoAnswer(old(View()), i, file, bytesRead, bytesWritten, View(), ret)
    {
      hide Inv, BufinfoRead, BufinfoWrite, BufinfoInReach, BufinfoAnswer;
      if Inv(View()) {
        BufinfoExactly(View(), i, file, bytesRead, bytesWritten);
        if BufinfoInReach(View(), i, file, bytesRead, bytesWritten) {
          BufinfoAnswers(View(), i, file, bytesRead, bytesWritten);
        }
      }
      if i >= |subds| { return -EINVAL; }
      if subds[i].lock != Nobody && subds[i].lock != File(file) { return -EACCES; }
      if !subds[i].cfg.hasAsync { return 0; }
      if subds[i].busy == Nobody { return 0; }
      if subds[i].busy != File(file) { return -EACCES; }
      ret := 0;
      if subds[i].cfg.cmdRead {
        ret := BufinfoReadSide(i, bytesRead);
      }
      if subds[i].cfg.cmdWrite {
        var err := BufinfoWriteSide(i, bytesWritten);
        if err != 0 {
          ret := err;
        }
      }
    }

    method BufinfoReadSide(i: nat, bytesRead: u32) returns (ret: int)
      requires i < |subds|
      modifies this
      ensures BufinfoRead(old(View()), i, bytesRead).0 == View()
      ensures BufinfoRead(old(View()), i, bytesRead).2 == ret
      ensures |subds| == |old(subds)| && subds[i].cfg == old(subds)[i].cfg
    {
      var s := subds[i];
      var granted: u32 := 0;
      hide Grant, BecomeNonbusy, Wrap;
      Unchanged(subds, i);
      IdleIsNobody(BufinfoState(View(), i, bytesRead), i);
      if bytesRead > 0 {
        var f := ReadAlloc(s.fifo, bytesRead);
        granted := f.readAlloc - s.fifo.readAlloc;
        subds := subds[i := s.(fifo := ReadFree(f, granted))];
      }
      ret := 0;
      if Wrap(subds[i].fifo.read - subds[i].fifo.written) == 0 {
        if !subds[i].running && !subds[i].error {
          MakeNonbusy(i);
        }
        if granted == 0 && !subds[i].running && subds[i].error {
          ret := -EPIPE;
        }
      }
    }

    method BufinfoWriteSide(i: nat, bytesWritten: u32) returns (ret: int)
      requires i < |subds|
      modifies this`subds
      ensures (View(), ret) == BufinfoWrite(old(View()), i, bytesWritten)
    {
      var s := subds[i];
      var granted: u32 := 0;
      hide Grant, WriteFree, Wrap;
      Unchanged(subds, i);
      if bytesWritten > 0 {
        var f := WriteAlloc(s.fifo, s.bufsz, bytesWritten);
        granted := f.writeAlloc - s.fifo.writeAlloc;
        subds := subds[i := s.(fifo := WriteFree(s.cfg, f, granted))];
      }
      return if granted == 0 && !s.running && s.error then -EPIPE else 0;
    }

    // ------------------------------------------------------------ everything else that happens

    /** The buffer call of comedi_poll. */
    method Poll(i: nat)
      requires i < |subds|
      modifies this`subds
      ensures View() == DoPoll(old(View()), i)
      ensures Inv(old(View())) ==> Inv(View())
      ensures PollAnswer(old(View()), i, View())
    {
      hide Inv, WriteAlloc, PollAnswer;
      PollAnswers(View(), i);
      if Inv(View()) { PollKeepsInv(View(), i); }
      if subds[i].cfg.hasAsync && subds[i].cfg.cmdWrite {
        subds := subds[i := subds[i].(fifo := WriteAlloc(subds[i].fifo, subds[i].bufsz, subds[i].bufsz))];
      }
    }

    /** resize_async_buffer */
    method Resize(i: nat, bufsz: bufsize) returns (ret: int)
      requires i < |subds|
      modifies this`subds
      ensures (View(), ret) == DoResize(old(View()), i, bufsz)
      ensures Inv(old(View())) ==> Inv(View())
      ensures ResizeAnswer(old(View()), i, bufsz, View(), ret)
    {
      hide Inv, ResizeAnswer;
      ResizeAnswers(View(), i, bufsz);
      if Inv(View()) { StepKeepsInv(View(), Action.Resize(i, bufsz)); }
      if subds[i].busy != Nobody { return -EBUSY; }
      subds := subds[i := subds[i].(bufsz := bufsz)];
      return 0;
    }

    /** A buffer call of the driver. */
    method Move(i: nat, t: Transfer)
      requires i < |subds|
      modifies this`subds
      ensures View() == DriverTransfer(old(View()), i, t)
      ensures Inv(old(View())) ==> (Inv(View()) <==> TransferInReach(old(subds)[i], t))
      ensures MoveAnswer(old(View()), i, t, View())
    {
      hide Inv, WriteAlloc, WriteFree, ReadAlloc, ReadFree, TransferInReach, MoveAnswer;
      MoveAnswers(View(), i, t);
      if Inv(View()) { DriverExactly(View(), i, t); }
      if subds[i].running {
        var s := subds[i];
        var f: Fifo;
        match t {
          case AllocateWrite(n) => f := WriteAlloc(s.fifo, s.bufsz, n);
          case FreeWrite(n) => f := WriteFree(s.cfg, s.fifo, n);
          case AllocateRead(n) => f := ReadAlloc(s.fifo, n);
          case FreeRead(n) => f := ReadFree(s.fifo, n);
        }
        subds := subds[i := s.(fifo := f)];
      }
    }

    /** Any action on the device in place is its step, and keeps the invariant for counts in reach. */
    method Perform(a: Action)
      requires Inv(View()) && InReach(View(), a)
      modifies this
      ensures View() == LifecycleLaws.Step(old(View()), a) && Inv(View())
    {
      hide Inv, DoCmd, DoLock, DoUnlock, DoCancelIoctl, CloseFrom, DoRead, DoWrite, DoBufinfo, DoPoll, DoResize,
        DriverTransfer, EventFlags, EndsDelivered, BufinfoInReach, TransferInReach, Released, CmdAnswer, LockAnswer,
        UnlockAnswer, CancelAnswer, ReadAnswer, WokenAnswer, WriteAnswer, BufinfoAnswer, EventAnswer, ResizeAnswer,
        PollAnswer, MoveAnswer, InsnAnswer, SubdOk;
      StepKeepsInv(View(), a);
      match a {
        case Cmd(i, file, req) => var _ := CmdIoctl(i, file, req);
        case Instruction(i, file, bad, driverRet) => var _ := Instruction(i, file, bad, driverRet);
        case Lock(i, file) => var _ := LockIoctl(i, file);
        case Unlock(i, file) => var _ := UnlockIoctl(i, file);
        case Cancel(i, file, driverRet) => var _ := CancelIoctl(i, file, driverRet);
        case Close(file) => Close(file);
        case Read(i, file, attempt) => if i < |subds| { var _ := Read(i, file, attempt); }
        case WokenRead(i, file, attempt, signal) =>
          if i < |subds| && subds[i].cfg.hasAsync && attempt.nbytes > 0 {
            var _ := WokenRead(i, file, attempt, signal);
          }
        case Write(i, file, attempt) => if i < |subds| { var _ := Write(i, file, attempt); }
        case Bufinfo(i, file, r, w) => var _ := BufinfoIoctl(i, file, r, w);
        case Poll(i) => if i < |subds| { Poll(i); }
        case Resize(i, bufsz) => if i < |subds| { var _ := Resize(i, bufsz); }
        case DriverEvent(i, events) => if i < |subds| { Event(i, events); }
        case DriverMoves(i, transfer) => if i < |subds| { Move(i, transfer); }
      }
    }

    /** Whole runs from attach: the device in place goes through the states of the model, and every
        one of them satisfies the invariant. */
    method Run(actions: seq<Action>)
      requires Attached(View()) && RunInReach(View(), actions)
      modifies this
      ensures View() == LifecycleLaws.Run(old(View()), actions) && Inv(View())
    {
      hide Inv, LifecycleLaws.Step, InReach;
      ghost var start := View();
      RunKeepsInv(start, []);
      for k := 0 to |actions|
        invariant View() == LifecycleLaws.Run(start, actions[..k]) && Inv(View())
      {
        assert actions[..k + 1][..k] == actions[..k];
        PrefixInReach(start, actions, k + 1);
        Perform(actions[k]);
      }
      assert actions[..|actions|] == actions;
    }
  }

  /** After close(f) no subdevice is busy with or locked by f; the others are as they were. */
  ghost predicate Released(before: seq<Subd>, after: seq<Subd>, file: nat)
    requires |after| == |before|
  {
    && (forall j | 0 <= j < |after| :: after[j].busy != File(file) && after[j].lock != File(file))
    && (forall j | 0 <= j < |after| ::
         before[j].busy != File(file) && before[j].lock != File(file) ==> after[j] == before[j])
  }

  lemma CloseIsRelease(d: Dev, file: nat)
    requires Inv(d)
    ensures var e := CloseFrom(d, file, 0); |e.subds| == |d.subds| && Released(d.subds, e.subds, file)
  {
    hide Inv;
    CloseReleases(d, file, 0);
  }

  lemma {:induction false} PrefixInReach(d: Dev, actions: seq<Action>, k: nat)
    requires RunInReach(d, actions) && 0 < k <= |actions|
    ensures InReach(LifecycleLaws.Run(d, actions[..k - 1]), actions[k - 1])
  {
    hide InReach;
    if k < |actions| {
      var shorter := actions[..|actions| - 1];
      PrefixInReach(d, shorter, k);
      assert shorter[..k - 1] == actions[..k - 1];
    }
  }

  /** The state the read side of bufinfo looks at, before it may go idle. */
  function BufinfoState(d: Dev, i: nat, bytesRead: u32): Dev
    requires i < |d.subds|
  {
    SetSubd(d, i, d.subds[i].(fifo := AfterBufinfo(d.subds[i].fifo, bytesRead)))
  }

  /** Storing what is already there, or storing twice. */
  lemma Unchanged(subds: seq<Subd>, i: nat)
    requires i < |subds|
    ensures subds[i := subds[i]] == subds
  {
  }

  lemma IdleOfStopped(s: Subd)
    ensures Idle(s.(running := false, rt := false)) == Idle(s)
  {
  }

  lemma NonRtKeepsSubds(d: Dev)
    ensures SwitchToNonRt(d).subds == d.subds
  {
  }

  /** Going idle twice is going idle once; the end of comedi_read relies on it. */
  lemma NonbusyTwice(d: Dev, i: nat)
    requires i < |d.subds| && d.subds[i].cfg.hasAsync
    ensures LeaveIfDrained(BecomeNonbusy(d, i), i) == BecomeNonbusy(d, i)
  {
    var e := BecomeNonbusy(d, i);
    Unchanged(e.subds, i);
  }
}

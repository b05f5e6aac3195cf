/** The life of subdevices (comedi/comedi_fops.c, comedi/rt.c) as a step function on the whole
    device: who owns what, what runs, what is allocated. Each ioctl, each attempt of a read or
    write, and each driver event is one atomic step. */
module Lifecycle {
  import opened Word32
  import opened RingSpec
  import opened AsyncBuffer

  const EIO: int := 5
  const EAGAIN: int := 11
  const ENOMEM: int := 12
  const EACCES: int := 13
  const EFAULT: int := 14
  const EBUSY: int := 16
  const ENODEV: int := 19
  const EINVAL: int := 22
  const EPIPE: int := 32
  const ERESTARTSYS: int := 512

  /** NULL, an instruction in progress, or an open file. */
  datatype Owner = Nobody | Insn | File(id: nat)

  /** A kernel pointer: NULL or an allocation. */
  datatype Pointer = Null | Allocated(id: nat)

  datatype SubdConfig = SubdConfig(unused: bool, hasAsync: bool, hasCmd: bool, lenChanlist: nat,
                                   cmdRead: bool, cmdWrite: bool, hasCancel: bool, munges: bool, lsampl: bool)

  /** The buffer's stream positions, as RingSpec.Ring without the bytes. */
  datatype Fifo = Fifo(writeAlloc: nat, written: nat, munged: nat, readAlloc: nat, read: nat)

  /** Buffers are below 2^31 bytes. */
  type bufsize = n: int | 0 <= n < 0x8000_0000

  datatype Subd = Subd(cfg: SubdConfig, busy: Owner, lock: Owner,
                       user: bool, rt: bool, error: bool, running: bool,
                       chanlist: Pointer, bufsz: bufsize, fifo: Fifo)

  /** The device, its real-time interrupt and the live chanlist allocations. `installs` counts how
      often the real-time handler is installed; `badFree` records a free of what is not live. */
  datatype Dev = Dev(subds: seq<Subd>, irqEntry: bool, rt: int, itRt: bool, installs: int,
                     live: set<nat>, nextId: nat, badFree: bool)

  const EMPTY_FIFO := Fifo(0, 0, 0, 0, 0)

  predicate FifoChain(f: Fifo, bufsz: nat) {
    f.read <= f.readAlloc <= f.munged <= f.written <= f.writeAlloc <= f.read + bufsz
  }

  // ---------------------------------------------------------------- buffer calls

  /** The word a call that is asked for `n` bytes grants when `room` are there: the comparison is by
      signed difference. */
  function Grant(n: u32, room: int): u32 {
    Wrap(Clamped(n, room))
  }

  function WriteAlloc(f: Fifo, bufsz: bufsize, n: u32): Fifo {
    f.(writeAlloc := f.writeAlloc + Grant(n, f.read + bufsz - f.writeAlloc))
  }

  /** What is munged of `k` bytes: whole samples only, where the driver munges. */
  function Munged(c: SubdConfig, k: u32): u32 {
    if c.munges && PartialBytes(c.lsampl, k) <= k then k - PartialBytes(c.lsampl, k) else k
  }

  function WriteFree(c: SubdConfig, f: Fifo, n: u32): Fifo {
    var written := f.written + Grant(n, f.writeAlloc - f.written);
    f.(written := written, munged := f.munged + Munged(c, Wrap(written - f.munged)))
  }

  function ReadAlloc(f: Fifo, n: u32): Fifo {
    f.(readAlloc := f.readAlloc + Grant(n, f.munged - f.readAlloc))
  }

  function ReadFree(f: Fifo, n: u32): Fifo {
    f.(read := f.read + Grant(n, f.readAlloc - f.read))
  }

  lemma GrantExactly(n: u32, room: int)
    requires 0 <= room < TWO_31
    ensures Grant(n, room) == if n < TWO_31 + room then Min(n, room) else n
  {
    ClampGrants(n, room);
  }

  /** Each buffer call keeps the chain of positions exactly when it is asked for less than 2^31 bytes
      more than there are. */
  lemma BufferCallsKeepChain(c: SubdConfig, f: Fifo, bufsz: bufsize, n: u32)
    requires FifoChain(f, bufsz)
    ensures FifoChain(WriteAlloc(f, bufsz, n), bufsz) <==> n < TWO_31 + (f.read + bufsz - f.writeAlloc)
    ensures FifoChain(WriteFree(c, f, n), bufsz) <==> n < TWO_31 + (f.writeAlloc - f.written)
    ensures FifoChain(ReadAlloc(f, n), bufsz) <==> n < TWO_31 + (f.munged - f.readAlloc)
    ensures FifoChain(ReadFree(f, n), bufsz) <==> n < TWO_31 + (f.readAlloc - f.read)
  {
    hide Grant;
    GrantExactly(n, f.read + bufsz - f.writeAlloc);
    GrantExactly(n, f.writeAlloc - f.written);
    GrantExactly(n, f.munged - f.readAlloc);
    GrantExactly(n, f.readAlloc - f.read);
    if n < TWO_31 + (f.writeAlloc - f.written) {
      SmallWord(f.written + Grant(n, f.writeAlloc - f.written) - f.munged);
    }
  }

  // ---------------------------------------------------------------- real-time switching

  /** comedi_switch_to_rt */
  function SwitchToRt(d: Dev): (Dev, int) {
    if !d.irqEntry then (d, -1)
    else (d.(installs := if d.rt == 0 then d.installs + 1 else d.installs, rt := d.rt + 1, itRt := true), 0)
  }

  /** comedi_switch_to_non_rt */
  function SwitchToNonRt(d: Dev): Dev {
    if !d.irqEntry then d
    else d.(rt := d.rt - 1, installs := if d.rt - 1 == 0 then d.installs - 1 else d.installs, itRt := false)
  }

  // ---------------------------------------------------------------- idle again

  function SetSubd(d: Dev, i: nat, s: Subd): Dev
    requires i < |d.subds|
  {
    d.(subds := d.subds[i := s])
  }

  function Kfree(d: Dev, p: Pointer): Dev {
    match p
    case Null => d
    case Allocated(id) => d.(live := d.live - {id}, badFree := d.badFree || id !in d.live)
  }

  function Idle(s: Subd): Subd {
    s.(running := false, rt := false, chanlist := Null, busy := Nobody,
       fifo := if s.cfg.hasAsync then EMPTY_FIFO else s.fifo)
  }

  /** do_become_nonbusy */
  function BecomeNonbusy(d: Dev, i: nat): Dev
    requires i < |d.subds|
  {
    var s := d.subds[i];
    var d1 := if s.rt then SwitchToNonRt(d) else d;
    SetSubd(Kfree(d1, s.chanlist), i, Idle(s))
  }

  /** comedi_event: the end of an acquisition or an error stops the subdevice. */
  function EventFlags(s: Subd, events: set<Event>): Subd {
    if !s.running then s
    else s.(running := Eoa !in events && Error !in events && Overflow !in events,
            error := s.error || Error in events || Overflow in events)
  }

  // ---------------------------------------------------------------- commands

  /** What the user's command and the driver's answers to it are. */
  datatype CmdRequest = CmdRequest(badAddress: bool, chanlistLen: nat, allocFails: bool, chanlistFault: bool,
                                   badChanlist: bool, testFails: bool, copyBackFault: bool, priority: bool,
                                   driverRet: int, driverEvents: set<Event>)

  /** The checks of do_cmd_ioctl before anything is touched: 0, or the error. */
  function CmdRefusal(d: Dev, i: nat, file: nat, req: CmdRequest): int {
    if req.badAddress then -EFAULT
    else if i >= |d.subds| then -ENODEV
    else
      var s := d.subds[i];
      if s.cfg.unused || !s.cfg.hasCmd || !s.cfg.hasAsync then -EIO
      else if s.lock != Nobody && s.lock != File(file) then -EACCES
      else if s.busy != Nobody then -EBUSY
      else if req.chanlistLen > s.cfg.lenChanlist || req.chanlistLen < 1 then -EINVAL
      else if req.allocFails then -ENOMEM
      else 0
  }

  /** The checks made once the channel list is allocated. */
  function CmdRejection(s: Subd, req: CmdRequest): int {
    if req.chanlistFault then -EFAULT
    else if req.badChanlist then -EINVAL
    else if req.testFails then (if req.copyBackFault then -EFAULT else -EAGAIN)
    else if s.bufsz == 0 then -ENOMEM
    else 0
  }

  function Kmalloc(d: Dev, i: nat): Dev
    requires i < |d.subds|
  {
    SetSubd(d, i, d.subds[i].(chanlist := Allocated(d.nextId))).(live := d.live + {d.nextId}, nextId := d.nextId + 1)
  }

  /** Buffer reset, run flags, real-time switch, ownership: the command is handed to the driver. */
  function Launch(d: Dev, i: nat, file: nat, priority: bool): Dev
    requires i < |d.subds|
  {
    var (d1, ret) := if priority then SwitchToRt(d) else (d, -1);
    var s := d.subds[i];
    SetSubd(d1, i, s.(fifo := EMPTY_FIFO, busy := File(file),
                      user := true, running := true, error := false, rt := ret == 0))
  }

  /** do_cmd_ioctl */
  function DoCmd(d: Dev, i: nat, file: nat, req: CmdRequest): (Dev, int) {
    var refusal := CmdRefusal(d, i, file, req);
    if refusal != 0 then (d, refusal)
    else
      var prepared := Kmalloc(d, i);
      var rejection := CmdRejection(d.subds[i], req);
      if rejection != 0 then (BecomeNonbusy(prepared, i), rejection)
      else
        var launched := Launch(prepared, i, file, req.priority);
        var driven := SetSubd(launched, i, EventFlags(launched.subds[i], req.driverEvents));
        if req.driverRet == 0 then (driven, 0) else (BecomeNonbusy(driven, i), req.driverRet)
  }

  /** parse_insn on a subdevice: busy only while it runs, so a completed step leaves no trace. */
  function DoInsn(d: Dev, i: nat, file: nat, badChanspec: bool, driverRet: int): int {
    if i >= |d.subds| then -EINVAL
    else
      var s := d.subds[i];
      if s.cfg.unused then -EIO
      else if s.lock != Nobody && s.lock != File(file) then -EACCES
      else if badChanspec then -EINVAL
      else if s.busy != Nobody then -EBUSY
      else driverRet
  }

  /** do_lock_ioctl */
  function DoLock(d: Dev, i: nat, file: nat): (Dev, int) {
    if i >= |d.subds| then (d, -EINVAL)
    else
      var s := d.subds[i];
      if s.busy != Nobody || s.lock != Nobody then (d, -EBUSY)
      else (SetSubd(d, i, s.(lock := File(file))), 0)
  }

  /** do_unlock_ioctl */
  function DoUnlock(d: Dev, i: nat, file: nat): (Dev, int) {
    if i >= |d.subds| then (d, -EINVAL)
    else
      var s := d.subds[i];
      if s.busy != Nobody then (d, -EBUSY)
      else if s.lock != Nobody && s.lock != File(file) then (d, -EACCES)
      else (SetSubd(d, i, s.(lock := Nobody)), 0)
  }

  /** do_cancel_ioctl; `driverRet` is what the driver's cancel returns when it is called. */
  function DoCancelIoctl(d: Dev, i: nat, file: nat, driverRet: int): (Dev, int) {
    if i >= |d.subds| || !d.subds[i].cfg.hasAsync then (d, -EINVAL)
    else
      var s := d.subds[i];
      if s.lock != Nobody && s.lock != File(file) then (d, -EACCES)
      else if s.busy == Nobody then (d, 0)
      else if s.busy != File(file) then (d, -EBUSY)
      else (BecomeNonbusy(d, i), if s.running && s.cfg.hasCancel then driverRet else 0)
  }

  /** comedi_close, for one subdevice. */
  function CloseOne(d: Dev, file: nat, i: nat): Dev
    requires i < |d.subds|
  {
    var d1 := if d.subds[i].busy == File(file) then BecomeNonbusy(d, i) else d;
    var s := d1.subds[i];
    SetSubd(d1, i, if s.lock == File(file) then s.(lock := Nobody) else s)
  }

  /** comedi_close, for the subdevices from `i` on. */
  function CloseFrom(d: Dev, file: nat, i: nat): Dev
    requires i <= |d.subds|
    decreases |d.subds| - i
  {
    if i == |d.subds| then d else CloseFrom(CloseOne(d, file, i), file, i + 1)
  }

  // ---------------------------------------------------------------- transfers

  /** The bytes a transfer can move without running over the end of the buffer. */
  function Contiguous(position: nat, m: nat, bufsz: nat): (n: nat)
    ensures n <= m
    ensures m > 0 ==> n > 0
  {
    if bufsz > 0 && position % bufsz + m > bufsz then bufsz - position % bufsz else m
  }

  /** How a read or write attempt that cannot proceed ends, and how many bytes a user copy leaves
      undone. */
  datatype Attempt = Attempt(nbytes: nat, nonblock: bool, fault: nat)

  /** One attempt of comedi_read on a subdevice that exists; the count or error is returned. */
  function DoRead(d: Dev, i: nat, file: nat, a: Attempt): (Dev, int)
    requires i < |d.subds|
  {
    var s := d.subds[i];
    if !s.cfg.hasAsync then (d, -EIO)
    else if a.nbytes == 0 || s.busy == Nobody then (d, 0)
    else if s.busy != File(file) then (d, -EACCES)
    else
      ReadRest(d, i, a, ReadSample(s, a))
  }

  /** The first half of a read attempt samples what can be read; the second half looks at the run
      flags and moves the bytes. */
  function ReadSample(s: Subd, a: Attempt): u32 {
    Min(a.nbytes, Contiguous(s.fifo.read, Wrap(s.fifo.munged - s.fifo.read), s.bufsz))
  }

  function ReadRest(d: Dev, i: nat, a: Attempt, n: u32): (Dev, int)
    requires i < |d.subds|
  {
    var s := d.subds[i];
    if n == 0 then
      if s.running then (d, if a.nonblock then -EAGAIN else -ERESTARTSYS)
      else (BecomeNonbusy(d, i), if s.error then -EPIPE else 0)
    else
      var copied: u32 := n - Min(a.fault, n);
      var d1 := SetSubd(d, i, s.(fifo := ReadFree(ReadAlloc(s.fifo, copied), copied)));
      (LeaveIfDrained(d1, i), if copied > 0 then copied else -EFAULT)
  }

  /** The end of comedi_read: a finished command with everything written also read is over. */
  function LeaveIfDrained(d: Dev, i: nat): Dev
    requires i < |d.subds|
  {
    var s := d.subds[i];
    if !s.error && !s.running && Drained(s.fifo) then BecomeNonbusy(d, i) else d
  }

  /** The counts of bytes read and written are the same word. */
  predicate Drained(f: Fifo) {
    Wrap(f.read - f.written) == 0
  }

  /** A reader that slept in comedi_read and wakes. It may find the subdevice idle or another file's,
      and it reaches the end of comedi_read all the same. */
  function DoWokenRead(d: Dev, i: nat, file: nat, a: Attempt, signal: bool): (Dev, int)
    requires i < |d.subds|
  {
    var s := d.subds[i];
    if !s.cfg.hasAsync || a.nbytes == 0 then (d, 0)  // such a read does not sleep
    else if signal then (LeaveIfDrained(d, i), -ERESTARTSYS)
    else if s.busy == Nobody then (LeaveIfDrained(d, i), 0)
    else if s.busy != File(file) then (LeaveIfDrained(d, i), -EACCES)
    else ReadRest(d, i, a, ReadSample(s, a))
  }

  /** One attempt of comedi_write. */
  function DoWrite(d: Dev, i: nat, file: nat, a: Attempt): (Dev, int)
    requires i < |d.subds|
  {
    var s := d.subds[i];
    if !s.cfg.hasAsync then (d, -EIO)
    else if a.nbytes == 0 || s.busy == Nobody then (d, 0)
    else if s.busy != File(file) then (d, -EACCES)
    else if !s.running then (BecomeNonbusy(d, i), if s.error then -EPIPE else 0)
    else
      var f := WriteAlloc(s.fifo, s.bufsz, s.bufsz);
      var n: u32 := Min(Contiguous(s.fifo.written, a.nbytes, s.bufsz), Wrap(f.writeAlloc - f.written));
      if n == 0 then (SetSubd(d, i, s.(fifo := f)), if a.nonblock then -EAGAIN else -ERESTARTSYS)
      else
        var copied: u32 := n - Min(a.fault, n);
        (SetSubd(d, i, s.(fifo := WriteFree(s.cfg, f, copied))), if copied > 0 then copied else -EFAULT)
  }

  /** The bytes a bufinfo call that asks for `bytesRead` may consume. */
  function Granted(f: Fifo, bytesRead: u32): u32 {
    if bytesRead > 0 then Grant(bytesRead, f.munged - f.readAlloc) else 0
  }

  function AfterBufinfo(f: Fifo, bytesRead: u32): Fifo {
    if bytesRead > 0 then ReadFree(ReadAlloc(f, bytesRead), Granted(f, bytesRead)) else f
  }

  /** The read side of do_bufinfo_ioctl: the state, the bytes consumed and the error. */
  function BufinfoRead(d: Dev, i: nat, bytesRead: u32): (Dev, u32, int)
    requires i < |d.subds|
  {
    var s := d.subds[i];
    var granted := Granted(s.fifo, bytesRead);
    var f := AfterBufinfo(s.fifo, bytesRead);
    var d1 := SetSubd(d, i, s.(fifo := f));
    if Drained(f) then
      (if !s.running && !s.error then BecomeNonbusy(d1, i) else d1,
       granted,
       if granted == 0 && !s.running && s.error then -EPIPE else 0)
    else (d1, granted, 0)
  }

  /** The write side: what it asks for is granted and committed at once. */
  function AfterBufinfoWrite(c: SubdConfig, f: Fifo, bufsz: bufsize, bytesWritten: u32): Fifo {
    if bytesWritten > 0
    then WriteFree(c, WriteAlloc(f, bufsz, bytesWritten), Grant(bytesWritten, f.read + bufsz - f.writeAlloc))
    else f
  }

  /** The state after the write side and the error. */
  function BufinfoWrite(d: Dev, i: nat, bytesWritten: u32): (Dev, int)
    requires i < |d.subds|
  {
    var s := d.subds[i];
    var granted := if bytesWritten > 0 then Grant(bytesWritten, s.fifo.read + s.bufsz - s.fifo.writeAlloc) else 0;
    (SetSubd(d, i, s.(fifo := AfterBufinfoWrite(s.cfg, s.fifo, s.bufsz, bytesWritten))),
     if granted == 0 && !s.running && s.error then -EPIPE else 0)
  }

  /** do_bufinfo_ioctl */
  function DoBufinfo(d: Dev, i: nat, file: nat, bytesRead: u32, bytesWritten: u32): (Dev, int) {
    if i >= |d.subds| then (d, -EINVAL)
    else
      var s := d.subds[i];
      if s.lock != Nobody && s.lock != File(file) then (d, -EACCES)
      else if !s.cfg.hasAsync || s.busy == Nobody then (d, 0)
      else if s.busy != File(file) then (d, -EACCES)
      else
        var (d1, _, err1) := if s.cfg.cmdRead then BufinfoRead(d, i, bytesRead) else (d, 0, 0);
        var (d2, err2) := if s.cfg.cmdWrite then BufinfoWrite(d1, i, bytesWritten) else (d1, 0);
        (d2, if err2 != 0 then err2 else err1)
  }

  /** The buffer call of comedi_poll, made on an idle subdevice as well. */
  function DoPoll(d: Dev, i: nat): Dev
    requires i < |d.subds|
  {
    var s := d.subds[i];
    if s.cfg.hasAsync && s.cfg.cmdWrite then SetSubd(d, i, s.(fifo := WriteAlloc(s.fifo, s.bufsz, s.bufsz))) else d
  }

  /** resize_async_buffer: an idle subdevice only. */
  function DoResize(d: Dev, i: nat, bufsz: bufsize): (Dev, int)
    requires i < |d.subds|
  {
    var s := d.subds[i];
    if s.busy != Nobody then (d, -EBUSY) else (SetSubd(d, i, s.(bufsz := bufsz)), 0)
  }

  /** The buffer calls a driver makes while its command runs. */
  datatype Transfer = AllocateWrite(n: u32) | FreeWrite(n: u32) | AllocateRead(n: u32) | FreeRead(n: u32)

  function DriverTransfer(d: Dev, i: nat, t: Transfer): Dev
    requires i < |d.subds|
  {
    var s := d.subds[i];
    if !s.running then d
    else SetSubd(d, i, s.(fifo :=
      match t
      case AllocateWrite(n) => WriteAlloc(s.fifo, s.bufsz, n)
      case FreeWrite(n) => WriteFree(s.cfg, s.fifo, n)
      case AllocateRead(n) => ReadAlloc(s.fifo, n)
      case FreeRead(n) => ReadFree(s.fifo, n)))
  }
}

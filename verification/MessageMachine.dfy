// The protocol without its rings: messages are in logs, and a thread knows how many are outstanding.
module MessageMachine {
  import opened MessageRings
  import opened IpcState

  // One atomic step, with the choices that the protocol leaves to its users
  datatype Step =
    | PpcPost(message: Message)
    | PpcReceive
    | PpcExchange(code: int, args: seq<int>)
    | PpcStep
    | ArmInterrupt
    | ArmDevice
    | ArmStep
    | ArmReply(reply: Message, request: nat)
    | ArmEnqueue(slow: Words8)
    | ArmPostStep
    | MainStep

  // Where the threads are; the requests and the replies; what was put into the slow queue, and how much
  // of it has been executed; which reply each exchange has returned, and how many replies exchanges have
  // discarded; and which requests the ARM has meant to answer
  datatype Machine = Machine(ppc: Ppc, curTag: int, exCode: int, irq: Irq, main: Main, posting: Posting, bell: bool,
                             panicked: bool, ins: Log, outs: Log, slow: seq<Slow>, slowDone: nat,
                             returned: seq<nat>, discarded: nat, answered: set<nat>)

  // ipc_initialize on both sides
  function Initial(): Machine {
    Machine(Idle, 1, 0, Off, Waiting, NotPosting, false, false, Log([], 0), Log([], 0), [], 0, [], 0, {})
  }

  predicate Full(log: Log) {
    |log.all| == log.taken + QUEUE_SIZE - 1
  }

  predicate SlowFull(s: Machine) {
    |s.slow| == s.slowDone + SLOW_SIZE - 1
  }

  // The reply that was taken last has the code and the tag that the exchange is waiting for.
  predicate ReplyFits(s: Machine) {
    0 < s.outs.taken <= |s.outs.all| && SameHead(s.outs.all[s.outs.taken - 1], [s.exCode, s.curTag])
  }

  function Advanced(log: Log): Log {
    log.(taken := log.taken + 1)
  }

  // The PPC goes on with what it is doing.
  function PpcNext(s: Machine): Machine {
    match s.ppc
    case Idle => s
    case PostWait(m, e) => if Full(s.ins) then s else s.(ppc := PostWord(m, 0, e))
    case PostWord(m, k, e) =>
      if k < |m| then s.(ppc := PostWord(m, k + 1, e)) else s.(ppc := Ring(e), ins := Append(s.ins, m))
    case Ring(e) => s.(ppc := if e then RecvWait(true) else Idle, bell := true)
    case RecvWait(e) => if s.outs.taken == |s.outs.all| then s else s.(ppc := RecvWord(0, e))
    case RecvWord(k, e) =>
      if k < 8 then s.(ppc := RecvWord(k + 1, e)) else s.(ppc := Returned(e), outs := Advanced(s.outs))
    case Returned(e) =>
      if !e then s.(ppc := Idle)
      else if ReplyFits(s)
      then s.(ppc := Idle, curTag := (s.curTag + 1) % 0x1_0000_0000, returned := s.returned + [s.outs.taken - 1])
      else s.(ppc := RecvWait(true), discarded := s.discarded + 1)
  }

  // The interrupt handler goes on.
  function IrqNext(s: Machine): Machine {
    match s.irq
    case Off => s
    case Check => s.(irq := if s.bell then Clear else Off)
    case Clear => s.(irq := Drain, bell := false)
    case Drain => s.(irq := if s.ins.taken < |s.ins.all| then Process else Check)
    case Process =>
      if s.ins.taken < |s.ins.all| && IsFast(s.ins.all[s.ins.taken][0]) then s.(irq := Advance)
      else if SlowFull(s) then s.(panicked := true)
      else s.(irq := Advance, slow := s.slow + [Request(s.ins.taken)])
    case Advance => s.(irq := Drain, ins := Advanced(s.ins))
    case Device => s.(irq := Off)
  }

  // ipc_post on the ARM goes on.
  function PostNext(s: Machine): Machine {
    match s.posting
    case NotPosting => s
    case Wait(m) => if Full(s.outs) then s else s.(posting := Word(m, 0))
    case Word(m, k) =>
      if k < |m| then s.(posting := Word(m, k + 1)) else s.(posting := NotPosting, outs := Append(s.outs, m))
  }

  // The main loop goes on.
  function MainNext(s: Machine): Machine {
    match s.main
    case Waiting => if s.slowDone < |s.slow| then s.(main := Running) else s
    case Running => s.(main := Waiting, slowDone := s.slowDone + 1)
  }

  // Any one step of any thread; one that is not possible in the present state does nothing.
  function Next(s: Machine, step: Step): Machine {
    match step
    case PpcPost(m) => if s.ppc.Idle? then s.(ppc := PostWait(m, false)) else s
    case PpcReceive => if s.ppc.Idle? then s.(ppc := RecvWait(false)) else s
    case PpcExchange(code, args) =>
      if s.ppc.Idle? && |args| <= 6 then s.(exCode := code, ppc := PostWait([code, s.curTag] + args, true)) else s
    case PpcStep => PpcNext(s)
    case _ => if s.panicked then s else ArmNext(s, step)
  }

  // While the ARM posts nothing else happens there; interrupts are off.
  function ArmNext(s: Machine, step: Step): Machine {
    if !s.posting.NotPosting? then if step.ArmPostStep? then PostNext(s) else s
    else match step
      case ArmInterrupt => if s.irq.Off? && s.bell then s.(irq := Check) else s
      case ArmDevice => if s.irq.Off? then s.(irq := Device) else s
      case ArmStep => IrqNext(s)
      case ArmReply(m, i) =>
        if MayPost(s.irq, s.main) then s.(posting := Wait(m), answered := s.answered + {i}) else s
      case ArmEnqueue(m) =>
        if !s.irq.Device? then s else if SlowFull(s) then s.(panicked := true) else s.(slow := s.slow + [Foreign(m)])
      case MainStep => if s.irq.Off? then MainNext(s) else s
      case _ => s
  }

  // Handlers may post, and so may a slow request that is being executed.
  predicate MayPost(irq: Irq, main: Main) {
    irq.Process? || irq.Device? || (irq.Off? && main.Running?)
  }

  function NextAll(s: Machine, steps: seq<Step>): Machine {
    if steps == [] then s else Next(NextAll(s, steps[..|steps| - 1]), steps[|steps| - 1])
  }
}

// The two processors at work.
module Ipc {
  import opened MessageRings
  import opened IpcState
  import opened MessageMachine
  import opened Exchanges

  class Protocol {
    // Shared memory, and the message and control registers
    var inRing: Queue
    var outRing: Queue
    var bell: bool

    // The PPC's own state
    var ppc: Ppc
    var curTag: int
    var exCode: int
    var reqRecv: Words8

    // The ARM's own state
    var irq: Irq
    var main: Main
    var posting: Posting
    var slowRing: Queue
    var panicked: bool

    // What has happened so far
    ghost var inLog: Log
    ghost var outLog: Log
    ghost var received: seq<Words8>
    ghost var slowLog: Log
    ghost var slowFrom: seq<Slow>
    ghost var executed: seq<Words8>

    // What the exchanges have returned, and which of the received messages that was; how many they have
    // discarded; and which requests the ARM has meant to answer
    ghost var results: seq<Words8>
    ghost var returned: seq<nat>
    ghost var discarded: nat
    ghost var answered: set<nat>

    // Requests that process_in is done with
    ghost function Handled(): nat
      reads `inLog, `irq
    {
      inLog.taken + if irq.Advance? then 1 else 0
    }

    ghost predicate RequestsOk()
      reads `inRing, `inLog, `ppc, `irq, `bell
    {
      InOk(inRing, inLog, ppc, irq) && BellOk(bell, inLog, ppc, irq)
    }

    ghost predicate RepliesOk()
      reads `outRing, `outLog, `posting, `ppc, `reqRecv, `received
    {
      OutOk(outRing, outLog, posting, ppc, reqRecv, received)
    }

    ghost predicate MainOk()
      reads `slowRing, `slowLog, `slowFrom, `main, `executed, `inLog, `irq
    {
      SlowOk(slowRing, slowLog, slowFrom, main, executed, inLog.all, Handled())
    }

    // What every step keeps
    ghost predicate Inv()
      reads this
    {
      && RequestsOk() && RepliesOk() && MainOk() && ContextOk(posting, irq, main)
      && ResultsOk(results, returned, received)
    }

    // What there is of it without the rings
    ghost function Seen(): Machine
      reads this
    {
      Machine(ppc, curTag, exCode, irq, main, posting, bell, panicked,
              inLog, outLog, slowFrom, slowLog.taken, returned, discarded, answered)
    }

    // ipc_initialize on both sides
    constructor ()
      ensures Inv() && Seen() == Initial()
    {
      inRing := Queue(seq(QUEUE_SIZE, i => EMPTY), 0, 0);
      outRing := Queue(seq(QUEUE_SIZE, i => EMPTY), 0, 0);
      slowRing := Queue(seq(SLOW_SIZE, i => EMPTY), 0, 0);
      bell, ppc, curTag, exCode, reqRecv := false, Idle, 1, 0, EMPTY;
      irq, main, posting, panicked := Off, Waiting, NotPosting, false;
      inLog, outLog, slowLog := Log([], 0), Log([], 0), Log([], 0);
      received, slowFrom, executed := [], [], [];
      results, returned, discarded, answered := [], [], 0, {};
    }

    /* ---- the PPC ---- */

    // A bare ipc_post
    method PpcBeginPost(m: Message)
      requires Inv() && ppc.Idle?
      modifies `ppc
      ensures Inv() && Seen() == Next(old(Seen()), PpcPost(m))
    {
      ppc := PostWait(m, false);
    }

    // A bare ipc_receive
    method PpcBeginReceive()
      requires Inv() && ppc.Idle?
      modifies `ppc
      ensures Inv() && Seen() == Next(old(Seen()), PpcReceive)
    {
      ppc := RecvWait(false);
    }

    // ipc_exchange
    method PpcBeginExchange(code: int, args: seq<int>)
      requires Inv() && ppc.Idle? && |args| <= 6
      modifies `ppc, `exCode
      ensures Inv() && exCode == code && ppc.PostWait? && ppc.m == [code, curTag] + args && ppc.exchange
    {
      exCode := code;
      var m: seq<int> := [code, curTag] + args;
      assert |m| == 2 + |args| && m[0] == code && m[1] == curTag;
      ppc := PostWait(m, true);
    }

    // ipc_vpost: spin until there is room.
    method PpcPostWait()
      requires Inv() && ppc.PostWait?
      modifies `ppc
      ensures Inv() && Seen() == PpcNext(old(Seen()))
    {
      FullTest(QUEUE_SIZE, inRing, inLog);
      if inRing.head != Succ(QUEUE_SIZE, inRing.tail) {
        ppc := PostWord(ppc.m, 0, ppc.exchange);
      }
    }

    // Write one word of the message. The slot that process_in is using is another one.
    method PpcPostWord()
      requires Inv() && ppc.PostWord? && ppc.k < |ppc.m|
      modifies `ppc, `inRing
      ensures Inv() && Seen() == PpcNext(old(Seen()))
      ensures irq.Process? || irq.Advance? ==>
                inRing.head == old(inRing).head && inRing.slots[inRing.head] == old(inRing).slots[inRing.head]
    {
      var m, k := ppc.m, ppc.k;
      WriteWord(QUEUE_SIZE, inRing, inLog, m, k);
      inRing := Written(inRing, k, m[k]);
      ppc := PostWord(m, k + 1, ppc.exchange);
    }

    // All words are written: publish the message.
    method PpcPublish()
      requires Inv() && ppc.PostWord? && ppc.k == |ppc.m|
      modifies `ppc, `inRing, `inLog
      ensures Inv() && ppc == Ring(old(ppc).exchange) && inLog == Append(old(inLog), old(ppc).m)
    {
      var m := ppc.m;
      Publish(QUEUE_SIZE, inRing, inLog, m);
      SlowPosted(slowRing, slowLog, slowFrom, main, executed, inLog.all, Handled(), m);
      inRing := Published(QUEUE_SIZE, inRing);
      inLog := Append(inLog, m);
      ppc := Ring(ppc.exchange);
    }

    method PpcRing()
      requires Inv() && ppc.Ring?
      modifies `ppc, `bell
      ensures Inv() && Seen() == PpcNext(old(Seen())) && bell
    {
      bell := true;
      ppc := if ppc.exchange then RecvWait(true) else Idle;
    }

    // ipc_receive: spin until there is a message.
    method PpcRecvWait()
      requires Inv() && ppc.RecvWait?
      modifies `ppc
      ensures Inv() && Seen() == PpcNext(old(Seen()))
    {
      EmptyTest(QUEUE_SIZE, outRing, outLog);
      if outRing.tail != outRing.head {
        ppc := RecvWord(0, ppc.exchange);
      }
    }

    // Copy one word of the slot.
    method PpcRecvWord()
      requires Inv() && ppc.RecvWord? && ppc.k < 8
      modifies `ppc, `reqRecv
      ensures Inv() && Seen() == PpcNext(old(Seen()))
    {
      var k := ppc.k;
      reqRecv := reqRecv[k := outRing.slots[outRing.head][k]];
      CopyWord(old(reqRecv), reqRecv, outRing.slots[outRing.head], k);
      ppc := RecvWord(k + 1, ppc.exchange);
    }

    // The slot has been copied: give it back.
    method PpcRecvDone()
      requires Inv() && ppc.RecvWord? && ppc.k == 8
      modifies `ppc, `outRing, `outLog, `received
      ensures Inv() && ppc == Returned(old(ppc).exchange) && outLog == Advanced(old(outLog))
      ensures received == old(received) + [reqRecv]
    {
      Received(outRing, outLog, posting, ppc, reqRecv, received, ppc.exchange);
      MoreReceived(results, returned, received, reqRecv);
      outRing := Taken(QUEUE_SIZE, outRing);
      outLog := Advanced(outLog);
      received := received + [reqRecv];
      ppc := Returned(ppc.exchange);
    }

    lemma CopyWord(r: Words8, r': Words8, slot: Words8, k: nat)
      requires k < 8 && r[..k] == slot[..k] && r' == r[k := slot[k]]
      ensures r'[..k + 1] == slot[..k + 1]
    {
      assert r'[..k + 1] == r[..k] + [slot[k]];
      assert slot[..k + 1] == slot[..k] + [slot[k]];
    }

    lemma LastReply()
      requires Inv() && ppc.Returned?
      ensures ReplyFits(Seen()) <==> reqRecv[0] == exCode && reqRecv[1] == curTag
    {
      assert CarriesAt(received, outLog.all, outLog.taken - 1);
    }

    // A bare ipc_receive returns what it has. ipc_receive_tagged discards a message with another code
    // or tag.
    method PpcCompare()
      requires Inv() && ppc.Returned?
      modifies `ppc, `curTag, `results, `returned, `discarded
      ensures Inv()
      ensures if old(ppc).exchange && ReplyFits(old(Seen()))
              then ppc == Idle && curTag == (old(curTag) + 1) % 0x1_0000_0000 && discarded == old(discarded)
                   && results == old(results) + [reqRecv] && returned == old(returned) + [outLog.taken - 1]
              else (curTag, results, returned) == old((curTag, results, returned))
                   && if old(ppc).exchange then ppc == RecvWait(true) && discarded == old(discarded) + 1
                      else ppc == Idle && discarded == old(discarded)
    {
      LastReply();
      if !ppc.exchange {
        ppc := Idle;
      } else if reqRecv[0] != exCode || reqRecv[1] != curTag {
        discarded := discarded + 1;
        ppc := RecvWait(true);
      } else {
        Return();
      }
    }

    // The message that was received is the result of the exchange.
    method Return()
      requires Inv() && ppc.Returned?
      modifies `ppc, `curTag, `results, `returned
      ensures Inv() && ppc == Idle && curTag == (old(curTag) + 1) % 0x1_0000_0000
      ensures results == old(results) + [reqRecv] && returned == old(returned) + [outLog.taken - 1]
    {
      MoreResults(results, returned, received, outLog.taken - 1);
      curTag := (curTag + 1) % 0x1_0000_0000;
      results, returned := results + [reqRecv], returned + [outLog.taken - 1];
      ppc := Idle;
    }

    /* ---- the ARM in interrupt context ---- */

    // The bell interrupts the main loop, unless it is in ipc_post with interrupts off.
    method ArmInterrupt()
      requires Inv() && irq.Off? && posting.NotPosting? && bell && !panicked
      modifies `irq
      ensures Inv() && Seen() == old(Seen()).(irq := Check)
    {
      irq := Check;
    }

    method ArmDeviceInterrupt()
      requires Inv() && irq.Off? && posting.NotPosting? && !panicked
      modifies `irq
      ensures Inv() && Seen() == old(Seen()).(irq := Device)
    {
      irq := Device;
    }

    // ipc_irq: is the bell set?
    method IrqCheck()
      requires Inv() && irq.Check? && posting.NotPosting?
      modifies `irq
      ensures Inv() && Seen() == IrqNext(old(Seen()))
    {
      irq := if bell then Clear else Off;
    }

    // The bell is cleared before the ring is drained.
    method IrqClear()
      requires Inv() && irq.Clear? && posting.NotPosting?
      modifies `irq, `bell
      ensures Inv() && Seen() == IrqNext(old(Seen())) && !bell
    {
      bell := false;
      irq := Drain;
    }

    method IrqDrain()
      requires Inv() && irq.Drain? && posting.NotPosting?
      modifies `irq
      ensures Inv() && Seen() == IrqNext(old(Seen()))
      ensures irq.Check? ==> inLog.taken == |inLog.all|
    {
      EmptyTest(QUEUE_SIZE, inRing, inLog);
      irq := if inRing.tail != inRing.head then Process else Check;
    }

    // What process_in reads from the slot is the request that was posted.
    lemma RequestRead()
      requires Inv() && irq.Process?
      ensures inRing.head < |inRing.slots| && inLog.taken < |inLog.all|
      ensures Carries(inRing.slots[inRing.head], inLog.all[inLog.taken])
      ensures inRing.slots[inRing.head][0] == inLog.all[inLog.taken][0]
    {
      Take(QUEUE_SIZE, inRing, inLog);
    }

    // process_in: a fast request is handled at once, a slow one is put into the slow queue. It
    // panics only if the slow queue is full.
    method IrqProcess()
      requires Inv() && irq.Process? && posting.NotPosting? && !panicked
      modifies `irq, `slowRing, `slowLog, `slowFrom, `panicked
      ensures Inv() && Seen() == IrqNext(old(Seen()))
    {
      ghost var s := Seen();
      RequestRead();
      var req := inRing.slots[inRing.head];
      if IsFast(req[0]) {
        ProcessFast();
        assert Seen() == s.(irq := Advance);
      } else {
        ProcessSlow(req);
        assert Seen() == if SlowFull(s) then s.(panicked := true)
                         else s.(irq := Advance, slow := s.slow + [Request(s.ins.taken)]);
      }
    }

    method ProcessFast()
      requires Inv() && irq.Process? && posting.NotPosting? && IsFast(inLog.all[inLog.taken][0])
      modifies `irq
      ensures Inv() && irq == Advance
    {
      FastHandled(slowRing, slowLog, slowFrom, main, executed, inLog.all, inLog.taken);
      irq := Advance;
    }

    method ProcessSlow(req: Words8)
      requires Inv() && irq.Process? && posting.NotPosting? && !panicked
      requires !IsFast(inLog.all[inLog.taken][0]) && Carries(req, inLog.all[inLog.taken])
      modifies `irq, `slowRing, `slowLog, `slowFrom, `panicked
      ensures Inv() && (panicked <==> SlowFull(old(Seen()))) && slowLog.taken == old(slowLog).taken
      ensures if panicked then irq == old(irq) && slowFrom == old(slowFrom)
              else irq == Advance && slowFrom == old(slowFrom) + [Request(inLog.taken)]
    {
      var q, full;
      ghost var log, from;
      q, full, log, from :=
        EnqueueSlow(slowRing, req, slowLog, slowFrom, main, executed, inLog.all, inLog.taken,
                    Request(inLog.taken));
      if full {
        panicked := true;
      } else {
        GoOn(q, log, from);
      }
    }

    // process_in is done with the request; q is the slow queue now.
    method GoOn(q: Queue, ghost log: Log, ghost from: seq<Slow>)
      requires Inv() && irq.Process? && posting.NotPosting?
      requires SlowOk(q, log, from, main, executed, inLog.all, inLog.taken + 1)
      modifies `irq, `slowRing, `slowLog, `slowFrom
      ensures Inv() && (slowRing, slowLog, slowFrom, irq) == (q, log, from, Advance)
    {
      slowRing, slowLog, slowFrom, irq := q, log, from, Advance;
    }

    method IrqAdvance()
      requires Inv() && irq.Advance? && posting.NotPosting?
      modifies `irq, `inRing, `inLog
      ensures Inv() && irq == Drain && inLog == old(inLog).(taken := old(inLog).taken + 1)
    {
      Take(QUEUE_SIZE, inRing, inLog);
      inRing := Taken(QUEUE_SIZE, inRing);
      inLog := inLog.(taken := inLog.taken + 1);
      irq := Drain;
    }

    method IrqReturn()
      requires Inv() && irq.Device? && posting.NotPosting?
      modifies `irq
      ensures Inv() && Seen() == IrqNext(old(Seen()))
    {
      irq := Off;
    }

    // ipc_enqueue_slow, from the handler of another device: m enters the queue, if there is room.
    method DeviceEnqueue(m: Words8)
      requires Inv() && irq.Device? && posting.NotPosting? && !panicked
      modifies `slowRing, `slowLog, `slowFrom, `panicked
      ensures Inv() && (panicked <==> |old(slowFrom)| == old(slowLog).taken + SLOW_SIZE - 1)
      ensures slowFrom == if panicked then old(slowFrom) else old(slowFrom) + [Foreign(m)]
      ensures slowLog == if panicked then old(slowLog) else Append(old(slowLog), m)
    {
      var q, full;
      ghost var log, from;
      q, full, log, from :=
        EnqueueSlow(slowRing, m, slowLog, slowFrom, main, executed, inLog.all, Handled(), Foreign(m));
      if full {
        panicked := true;
      } else {
        Enter(q, log, from);
      }
    }

    // q is the slow queue now.
    method Enter(q: Queue, ghost log: Log, ghost from: seq<Slow>)
      requires Inv() && SlowOk(q, log, from, main, executed, inLog.all, Handled())
      modifies `slowRing, `slowLog, `slowFrom
      ensures Inv() && slowLog == log && slowFrom == from
    {
      slowRing, slowLog, slowFrom := q, log, from;
    }

    /* ---- ipc_post on the ARM, from any context ---- */

    // i is the request that m is meant to answer.
    method ArmBeginPost(m: Message, ghost i: nat)
      requires Inv() && posting.NotPosting? && MayPost(irq, main)
      modifies `posting, `answered
      ensures Inv() && Seen() == old(Seen()).(posting := Wait(m), answered := old(answered) + {i})
    {
      posting := Wait(m);
      answered := answered + {i};
    }

    method ArmPostWait()
      requires Inv() && posting.Wait?
      modifies `posting
      ensures Inv() && Seen() == PostNext(old(Seen()))
    {
      FullTest(QUEUE_SIZE, outRing, outLog);
      if outRing.head != Succ(QUEUE_SIZE, outRing.tail) {
        posting := Word(posting.m, 0);
      }
    }

    // Write one word. The slot that ipc_receive is copying is another one.
    method ArmPostWord()
      requires Inv() && posting.Word? && posting.k < |posting.m|
      modifies `posting, `outRing
      ensures Inv() && Seen() == PostNext(old(Seen()))
      ensures ppc.RecvWord? ==>
                outRing.head == old(outRing).head && outRing.slots[outRing.head] == old(outRing).slots[outRing.head]
    {
      var m, k := posting.m, posting.k;
      WriteWord(QUEUE_SIZE, outRing, outLog, m, k);
      outRing := Written(outRing, k, m[k]);
      posting := Word(m, k + 1);
    }

    method ArmPublish()
      requires Inv() && posting.Word? && posting.k == |posting.m|
      modifies `posting, `outRing, `outLog
      ensures Inv() && posting == NotPosting && outLog == Append(old(outLog), old(posting).m)
    {
      var m := posting.m;
      Replied(outRing, outLog, ppc, reqRecv, received, m);
      outRing := Published(QUEUE_SIZE, outRing);
      outLog := Append(outLog, m);
      posting := NotPosting;
    }

    /* ---- the ARM main loop ---- */

    method MainBegin()
      requires Inv() && main.Waiting? && irq.Off? && posting.NotPosting? && !panicked
      modifies `main, `executed
      ensures Inv() && Seen() == MainNext(old(Seen()))
      ensures executed == old(executed) || executed == old(executed) + [slowRing.slots[slowRing.head]]
    {
      EmptyTest(SLOW_SIZE, slowRing, slowLog);
      if slowRing.head != slowRing.tail {
        Begun(slowRing, slowLog, slowFrom, executed, inLog.all, Handled());
        executed := executed + [slowRing.slots[slowRing.head]];
        main := Running;
      }
    }

    method MainFinish()
      requires Inv() && main.Running? && irq.Off? && posting.NotPosting? && !panicked
      modifies `main, `slowRing, `slowLog
      ensures Inv() && main == Waiting && slowLog.taken == old(slowLog).taken + 1
    {
      Finished(slowRing, slowLog, slowFrom, executed, inLog.all, Handled());
      slowRing := Taken(SLOW_SIZE, slowRing);
      slowLog := slowLog.(taken := slowLog.taken + 1);
      main := Waiting;
    }

    /* ---- interleavings ---- */

    method PpcStep()
      requires Inv()
      modifies this
      ensures Inv() && Seen() == PpcNext(old(Seen()))
    {
      match ppc
      case Idle =>
      case PostWait(_, _) => PpcPostWait();
      case PostWord(_, _, _) => PpcPostStep();
      case Ring(_) => PpcRing();
      case RecvWait(_) => PpcRecvWait();
      case RecvWord(_, _) => PpcRecvStep();
      case Returned(_) => PpcReturnStep();
    }

    method PpcPostStep()
      requires Inv() && ppc.PostWord?
      modifies this
      ensures Inv() && Seen() == PpcNext(old(Seen()))
    {
      if ppc.k < |ppc.m| { PpcPostWord(); } else { PpcPublish(); }
    }

    method PpcRecvStep()
      requires Inv() && ppc.RecvWord?
      modifies this
      ensures Inv() && Seen() == PpcNext(old(Seen()))
    {
      if ppc.k < 8 { PpcRecvWord(); } else { PpcRecvDone(); }
    }

    method PpcReturnStep()
      requires Inv() && ppc.Returned?
      modifies this
      ensures Inv() && Seen() == PpcNext(old(Seen()))
    {
      PpcCompare();
    }

    method ArmPostStep()
      requires Inv()
      modifies this
      ensures Inv() && Seen() == PostNext(old(Seen()))
    {
      match posting
      case NotPosting =>
      case Wait(_) => ArmPostWait();
      case Word(m, k) => if k < |m| { ArmPostWord(); } else { ArmPublish(); }
    }

    method IrqStep()
      requires Inv() && posting.NotPosting? && !panicked
      modifies this
      ensures Inv() && Seen() == IrqNext(old(Seen()))
    {
      match irq
      case Off =>
      case Check => IrqCheck();
      case Clear => IrqClear();
      case Drain => IrqDrain();
      case Process => IrqProcess();
      case Advance => IrqAdvance();
      case Device => IrqReturn();
    }

    method MainStep()
      requires Inv() && irq.Off? && posting.NotPosting? && !panicked
      modifies this
      ensures Inv() && Seen() == MainNext(old(Seen()))
    {
      if main.Waiting? { MainBegin(); } else { MainFinish(); }
    }

    // Any one step of any thread; one that is not possible in the present state does nothing.
    method Do(step: Step)
      requires Inv()
      modifies this
      ensures Inv() && Seen() == Next(old(Seen()), step)
    {
      match step
      case PpcPost(m) => if ppc.Idle? { PpcBeginPost(m); }
      case PpcReceive => if ppc.Idle? { PpcBeginReceive(); }
      case PpcExchange(code, args) => if ppc.Idle? && |args| <= 6 { PpcBeginExchange(code, args); }
      case PpcStep => PpcStep();
      case _ => if !panicked { DoArm(step); }
    }

    method DoArm(step: Step)
      requires Inv() && !panicked
      modifies this
      ensures Inv() && Seen() == ArmNext(old(Seen()), step)
    {
      if !posting.NotPosting? {
        if step.ArmPostStep? { ArmPostStep(); }
      } else {
        match step
        case ArmInterrupt => if irq.Off? && bell { ArmInterrupt(); }
        case ArmDevice => if irq.Off? { ArmDeviceInterrupt(); }
        case ArmStep => IrqStep();
        case ArmReply(m, i) => if MayPost(irq, main) { ArmBeginPost(m, i); }
        case ArmEnqueue(m) => EnqueueStep(m);
        case MainStep => if irq.Off? { MainStep(); }
        case _ =>
      }
    }

    method EnqueueStep(m: Words8)
      requires Inv() && posting.NotPosting? && !panicked
      modifies this
      ensures Inv() && Seen() == ArmNext(old(Seen()), ArmEnqueue(m))
    {
      ghost var s := Seen();
      if irq.Device? {
        DeviceEnqueue(m);
        assert Seen() == if SlowFull(s) then s.(panicked := true) else s.(slow := s.slow + [Foreign(m)]);
      }
    }

    // Every interleaving: the rings do what the logs of messages say. Where it keeps the exchange
    // discipline from the initial state on, the k-th exchange returns the k-th reply.
    method Run(schedule: seq<Step>)
      requires Inv()
      modifies this
      ensures Inv() && Seen() == NextAll(old(Seen()), schedule)
      ensures old(Seen()) == Initial() && Disciplined(Initial(), schedule) ==>
                && discarded == 0 && |results| <= |outLog.all| && |results| <= |inLog.all|
                && forall k | 0 <= k < |results| ::
                     Carries(results[k], outLog.all[k]) && SameHead(outLog.all[k], inLog.all[k])
    {
      assert schedule[..0] == [];
      for i := 0 to |schedule|
        invariant Inv() && Seen() == NextAll(old(Seen()), schedule[..i])
      {
        assert schedule[..i + 1][..i] == schedule[..i];
        Do(schedule[i]);
      }
      assert schedule[..|schedule|] == schedule;
      if old(Seen()) == Initial() && Disciplined(Initial(), schedule) { ExchangesPair(schedule); }
    }

    // What every reachable state satisfies: each ring has at most 31 messages outstanding, and what
    // has been received is what was sent, in order.
    lemma Lossless()
      requires Inv()
      ensures inLog.taken <= |inLog.all| <= inLog.taken + 31
      ensures outLog.taken <= |outLog.all| <= outLog.taken + 31
      ensures |received| == outLog.taken && forall i | 0 <= i < |received| :: Carries(received[i], outLog.all[i])
    {
      forall i | 0 <= i < |received|
        ensures Carries(received[i], outLog.all[i])
      {
        assert CarriesAt(received, outLog.all, i);
      }
    }

    // What has been executed of the slow queue is what was put there, in order: the PPC's slow requests in
    // the order of posting, each once, and what other devices want.
    lemma SlowInOrder()
      requires Inv()
      ensures |executed| <= |slowFrom|
      ensures FromPpc(slowFrom[..|executed|]) <= SlowOnes(inLog.all, |inLog.all|)
      ensures forall i | 0 <= i < |executed| :: CameFrom(executed[i], inLog.all, slowFrom[i])
    {
      FromPpcPrefix(slowFrom, |executed|);
      SlowOnesPrefix(inLog.all, Handled(), |inLog.all|);
      forall i | 0 <= i < |executed|
        ensures CameFrom(executed[i], inLog.all, slowFrom[i])
      {
        assert CarriesAt(executed, slowLog.all, i) && ComesFrom(slowLog.all, slowFrom, inLog.all, i);
        assert executed[i] == slowLog.all[i];
      }
    }

    // After every schedule that keeps the exchange discipline from the initial state on, the k-th exchange
    // has returned the k-th reply, and that answers the k-th request; nothing has been discarded.
    lemma ExchangesPair(schedule: seq<Step>)
      requires Inv() && Seen() == NextAll(Initial(), schedule) && Disciplined(Initial(), schedule)
      ensures discarded == 0 && |results| == |returned| <= |outLog.all| && |results| <= |inLog.all|
      ensures forall k | 0 <= k < |results| ::
                Carries(results[k], outLog.all[k]) && SameHead(outLog.all[k], inLog.all[k])
    {
      Exchanges.ExchangesPair(schedule);
      forall k | 0 <= k < |results|
        ensures Carries(results[k], outLog.all[k]) && SameHead(outLog.all[k], inLog.all[k])
      {
        assert ResultAt(results, returned, received, k) && CarriesAt(received, outLog.all, k);
        assert Seen().returned[k] == k;
      }
    }

    // A request that is outstanding while the ARM is not in its handler has rung the bell or is about to.
    lemma NotStranded()
      requires Inv() && inRing.tail != inRing.head && (irq.Off? || irq.Check? || irq.Device?)
      ensures bell || ppc.Ring?
    {
      EmptyTest(QUEUE_SIZE, inRing, inLog);
    }
  }
}

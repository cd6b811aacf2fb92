// The exchange discipline, on the machine with logs: where the PPC only exchanges, and the ARM answers
// each request at most once, replies and exchanges pair.
module Exchanges {
  import opened MessageRings
  import opened IpcState
  import opened MessageMachine

  // The requests that process_in has begun to handle
  function Started(s: Machine): nat {
    s.ins.taken + if s.irq.Process? || s.irq.Advance? then 1 else 0
  }

  // The ARM message is an answer: it has the code and tag of a request that process_in has begun to
  // handle, and that no message was meant to answer before.
  predicate IsAnswer(s: Machine, m: Message, i: nat) {
    i < Started(s) <= |s.ins.all| && i !in s.answered && SameHead(m, s.ins.all[i])
  }

  // In state s, the step begins no bare ipc_post or ipc_receive on the PPC, and on the ARM no message
  // that is not an answer.
  predicate Allowed(s: Machine, step: Step) {
    match step
    case PpcPost(_) => !s.ppc.Idle?
    case PpcReceive => !s.ppc.Idle?
    case ArmReply(m, i) => s.panicked || !s.posting.NotPosting? || !MayPost(s.irq, s.main) || IsAnswer(s, m, i)
    case _ => true
  }

  // Every step of the schedule is allowed in the state that it finds.
  predicate Disciplined(s: Machine, steps: seq<Step>) {
    steps == [] ||
    var n := |steps| - 1;
    Disciplined(s, steps[..n]) && Allowed(NextAll(s, steps[..n]), steps[n])
  }

  // What the threads take out of the logs is there.
  ghost predicate LogsOk(s: Machine) {
    && s.ins.taken <= |s.ins.all| && s.outs.taken <= |s.outs.all|
    && (s.irq.Process? || s.irq.Advance? ==> s.ins.taken < |s.ins.all|)
    && (s.ppc.RecvWord? ==> s.outs.taken < |s.outs.all|)
  }

  // How many answers the ARM has given or is giving
  ghost function Answers(sent: seq<Message>, posting: Posting): nat {
    |sent| + if posting.NotPosting? then 0 else 1
  }

  // Answers come in the order of the requests.
  ghost predicate AnswersOk(posted: seq<Message>, started: nat, sent: seq<Message>, posting: Posting,
                            answered: set<nat>) {
    && AnsweredTo(answered, Answers(sent, posting)) && Answers(sent, posting) <= started <= |posted|
    && HeadsAgree(sent, posted) && (!posting.NotPosting? ==> SameHead(posting.m, posted[|sent|]))
  }

  ghost predicate HeadsAgree(sent: seq<Message>, posted: seq<Message>) {
    forall i: nat {:trigger HeadAt(sent, posted, i)} :: HeadAt(sent, posted, i)
  }

  ghost predicate AnsweredTo(answered: set<nat>, n: nat) {
    forall i: nat {:trigger AnsweredAt(answered, n, i)} :: AnsweredAt(answered, n, i)
  }

  ghost predicate AnsweredAt(answered: set<nat>, n: nat, i: nat) {
    i in answered <==> i < n
  }

  ghost predicate HeadAt(sent: seq<Message>, posted: seq<Message>, i: nat) {
    i < |sent| && i < |posted| ==> SameHead(sent[i], posted[i])
  }

  // Where the PPC is in its n-th exchange
  ghost predicate PhaseOk(posted: seq<Message>, got: nat, ppc: Ppc, exCode: int, curTag: int, n: nat) {
    match ppc
    case Idle => |posted| == got == n
    case PostWait(m, exchange) => exchange && |posted| == got == n && m[0] == exCode && m[1] == curTag
    case PostWord(m, _, exchange) => exchange && |posted| == got == n && m[0] == exCode && m[1] == curTag
    case Ring(exchange) => exchange && |posted| == n + 1 && got == n && SameHead(posted[n], [exCode, curTag])
    case RecvWait(exchange) => exchange && |posted| == n + 1 && got == n && SameHead(posted[n], [exCode, curTag])
    case RecvWord(_, exchange) => exchange && |posted| == n + 1 && got == n && SameHead(posted[n], [exCode, curTag])
    case Returned(exchange) => exchange && |posted| == got == n + 1 && SameHead(posted[n], [exCode, curTag])
  }

  // Exchange k has returned reply k.
  ghost predicate InOrder(returned: seq<nat>) {
    forall k: nat {:trigger NumberAt(returned, k)} :: NumberAt(returned, k)
  }

  ghost predicate NumberAt(returned: seq<nat>, k: nat) {
    k < |returned| ==> returned[k] == k
  }

  lemma NextNumber(returned: seq<nat>)
    requires InOrder(returned)
    ensures InOrder(returned + [|returned|])
  {
    forall k: nat
      ensures NumberAt(returned + [|returned|], k)
    {
      assert NumberAt(returned, k);
    }
  }

  ghost predicate PairingIs(s: Machine) {
    && LogsOk(s) && AnswersOk(s.ins.all, Started(s), s.outs.all, s.posting, s.answered)
    && PhaseOk(s.ins.all, s.outs.taken, s.ppc, s.exCode, s.curTag, |s.returned|)
    && s.discarded == 0 && InOrder(s.returned)
  }

  // What the discipline keeps, as a fact that is looked into only where PairingOpen is called
  ghost predicate Pairing(s: Machine) {
    forall k: nat {:trigger PairingPart(s, k)} | k == 0 :: PairingPart(s, k)
  }

  ghost predicate PairingPart(s: Machine, k: nat) {
    k == 0 ==> PairingIs(s)
  }

  lemma PairingOpen(s: Machine)
    requires Pairing(s)
    ensures PairingIs(s)
  {
    assert PairingPart(s, 0);
  }

  lemma MorePosted(posted: seq<Message>, started: nat, sent: seq<Message>, posting: Posting, answered: set<nat>,
                   m: Message)
    requires AnswersOk(posted, started, sent, posting, answered)
    ensures AnswersOk(posted + [m], started, sent, posting, answered)
  {
    forall i: nat
      ensures HeadAt(sent, posted + [m], i)
    {
      assert HeadAt(sent, posted, i);
    }
  }

  // The PPC moves on within an exchange.
  lemma MoveKeeps(s: Machine, t: Machine)
    requires Pairing(s) && t == s.(ppc := t.ppc, bell := t.bell)
    requires PhaseOk(s.ins.all, s.outs.taken, t.ppc, s.exCode, s.curTag, |s.returned|)
    requires t.ppc.RecvWord? ==> s.outs.taken < |s.outs.all|
    ensures Pairing(t)
  {
    PairingOpen(s);
  }

  lemma PublishKeeps(s: Machine, t: Machine)
    requires Pairing(s) && s.ppc.PostWord? && t == s.(ppc := Ring(true), ins := Append(s.ins, s.ppc.m))
    ensures Pairing(t)
  {
    PairingOpen(s);
    MorePosted(s.ins.all, Started(s), s.outs.all, s.posting, s.answered, s.ppc.m);
  }

  lemma ReceiveKeeps(s: Machine, t: Machine)
    requires Pairing(s) && s.ppc.RecvWord? && t == s.(ppc := Returned(true), outs := Advanced(s.outs))
    ensures Pairing(t)
  {
    PairingOpen(s);
  }

  lemma ReturnKeeps(s: Machine)
    requires Pairing(s) && s.ppc.Returned?
    ensures Pairing(PpcNext(s))
  {
    PairingOpen(s);
    assert HeadAt(s.outs.all, s.ins.all, s.outs.taken - 1);
    assert ReplyFits(s);
    NextNumber(s.returned);
  }

  lemma PpcKeeps(s: Machine)
    requires Pairing(s)
    ensures Pairing(PpcNext(s))
  {
    PairingOpen(s);
    var t := PpcNext(s);
    match s.ppc
    case PostWord(m, k, _) => if k < |m| { MoveKeeps(s, t); } else { PublishKeeps(s, t); }
    case RecvWord(k, _) => if k < 8 { MoveKeeps(s, t); } else { ReceiveKeeps(s, t); }
    case Returned(_) => ReturnKeeps(s);
    case _ => MoveKeeps(s, t);
  }

  // There is one request at most that the ARM can be answering.
  lemma OnlyAnswer(s: Machine, m: Message, i: nat)
    requires Pairing(s) && s.posting.NotPosting? && IsAnswer(s, m, i)
    ensures i == |s.outs.all| && AnswersOk(s.ins.all, Started(s), s.outs.all, Wait(m), s.answered + {i})
  {
    PairingOpen(s);
    assert AnsweredAt(s.answered, |s.outs.all|, i);
    assert |s.ins.all| <= s.outs.taken + 1;
    var answered, n := s.answered + {i}, |s.outs.all| + 1;
    forall j: nat
      ensures AnsweredAt(answered, n, j)
    {
      assert AnsweredAt(s.answered, |s.outs.all|, j);
    }
  }

  lemma AnswerSent(posted: seq<Message>, started: nat, sent: seq<Message>, posting: Posting, answered: set<nat>)
    requires AnswersOk(posted, started, sent, posting, answered) && !posting.NotPosting?
    ensures AnswersOk(posted, started, sent + [posting.m], NotPosting, answered)
  {
    forall i: nat
      ensures HeadAt(sent + [posting.m], posted, i)
    {
      assert HeadAt(sent, posted, i);
    }
  }

  lemma PostKeeps(s: Machine)
    requires Pairing(s) && !s.posting.NotPosting?
    ensures Pairing(PostNext(s))
  {
    PairingOpen(s);
    AnswerSent(s.ins.all, Started(s), s.outs.all, s.posting, s.answered);
  }

  // The ARM's handler goes on; no request is begun that is not there.
  lemma HandlerKeeps(s: Machine, t: Machine)
    requires Pairing(s) && t == s.(irq := t.irq, ins := t.ins, bell := t.bell, slow := t.slow, panicked := t.panicked)
    requires t.ins.all == s.ins.all && t.ins.taken <= |t.ins.all| && Started(s) <= Started(t) <= |t.ins.all|
    ensures Pairing(t)
  {
    PairingOpen(s);
  }

  lemma IrqKeeps(s: Machine)
    requires Pairing(s)
    ensures Pairing(IrqNext(s))
  {
    PairingOpen(s);
    HandlerKeeps(s, IrqNext(s));
  }

  lemma ReplyKeeps(s: Machine, m: Message, i: nat)
    requires Pairing(s) && s.posting.NotPosting? && IsAnswer(s, m, i)
    ensures Pairing(s.(posting := Wait(m), answered := s.answered + {i}))
  {
    PairingOpen(s);
    OnlyAnswer(s, m, i);
  }

  // What the discipline says nothing about
  lemma AsideKeeps(s: Machine, t: Machine)
    requires Pairing(s) && t == s.(irq := t.irq, main := t.main, slow := t.slow, slowDone := t.slowDone,
                                   panicked := t.panicked)
    requires s.irq != t.irq ==> s.irq.Off? && (t.irq.Check? || t.irq.Device?)
    ensures Pairing(t)
  {
    PairingOpen(s);
  }

  lemma ArmKeeps(s: Machine, step: Step)
    requires Pairing(s) && Allowed(s, step) && !s.panicked
    ensures Pairing(ArmNext(s, step))
  {
    if !s.posting.NotPosting? {
      if step.ArmPostStep? { PostKeeps(s); }
    } else {
      match step
      case ArmStep => IrqKeeps(s);
      case ArmReply(m, i) => if MayPost(s.irq, s.main) { ReplyKeeps(s, m, i); }
      case _ => AsideKeeps(s, ArmNext(s, step));
    }
  }

  lemma BeginKeeps(s: Machine, code: int, args: seq<int>)
    requires Pairing(s) && s.ppc.Idle? && |args| <= 6
    ensures Pairing(s.(exCode := code, ppc := PostWait([code, s.curTag] + args, true)))
  {
    PairingOpen(s);
  }

  lemma StepKeeps(s: Machine, step: Step)
    requires Pairing(s) && Allowed(s, step)
    ensures Pairing(Next(s, step))
  {
    match step
    case PpcPost(_) =>
    case PpcReceive =>
    case PpcExchange(code, args) => if s.ppc.Idle? && |args| <= 6 { BeginKeeps(s, code, args); }
    case PpcStep => PpcKeeps(s);
    case _ => if !s.panicked { ArmKeeps(s, step); }
  }

  lemma {:induction false} ScheduleKeeps(s: Machine, steps: seq<Step>)
    requires Pairing(s) && Disciplined(s, steps)
    ensures Pairing(NextAll(s, steps))
    decreases |steps|
  {
    if steps != [] {
      var n := |steps| - 1;
      ScheduleKeeps(s, steps[..n]);
      StepKeeps(NextAll(s, steps[..n]), steps[n]);
    }
  }

  // Under every schedule that keeps the discipline from the initial state on, the k-th exchange returns
  // the k-th reply, which has the code and tag of the k-th request, and no reply is discarded.
  lemma ExchangesPair(steps: seq<Step>)
    requires Disciplined(Initial(), steps)
    ensures var s := NextAll(Initial(), steps);
            && s.discarded == 0 && |s.returned| <= s.outs.taken <= |s.outs.all| && |s.returned| <= |s.ins.all|
            && forall k | 0 <= k < |s.returned| :: s.returned[k] == k && SameHead(s.outs.all[k], s.ins.all[k])
  {
    var s := NextAll(Initial(), steps);
    ScheduleKeeps(Initial(), steps);
    PairingOpen(s);
    forall k | 0 <= k < |s.returned|
      ensures s.returned[k] == k && SameHead(s.outs.all[k], s.ins.all[k])
    {
      assert NumberAt(s.returned, k);
      assert HeadAt(s.outs.all, s.ins.all, k);
    }
  }

  /* ---- an exchange that completes ---- */

  // The state after steps from the initial state, all allowed
  ghost predicate Reached(steps: seq<Step>, s: Machine) {
    Disciplined(Initial(), steps) && s == NextAll(Initial(), steps)
  }

  lemma OneMore(steps: seq<Step>, s: Machine, step: Step) returns (steps': seq<Step>, s': Machine)
    requires Reached(steps, s) && Allowed(s, step)
    ensures s' == Next(s, step) && Reached(steps', s')
  {
    steps', s' := steps + [step], Next(s, step);
    assert steps'[..|steps|] == steps;
  }

  // The PPC posts its message.
  lemma PostCompletes(steps: seq<Step>, s: Machine) returns (steps': seq<Step>, s': Machine)
    requires Reached(steps, s) && s.ppc.PostWait? && !MessageMachine.Full(s.ins) && s.ppc.exchange
    ensures Reached(steps', s') && s' == s.(ppc := RecvWait(true), ins := Append(s.ins, s.ppc.m), bell := true)
  {
    var m := s.ppc.m;
    steps', s' := OneMore(steps, s, PpcStep);
    while s'.ppc.k < |m|
      invariant Reached(steps', s') && s'.ppc.PostWord? && s'.ppc.k <= |m|
      invariant s' == s.(ppc := PostWord(m, s'.ppc.k, true))
      decreases |m| - s'.ppc.k
    {
      steps', s' := OneMore(steps', s', PpcStep);
    }
    steps', s' := OneMore(steps', s', PpcStep);
    steps', s' := OneMore(steps', s', PpcStep);
  }

  // The ARM begins to handle the request.
  lemma RequestBegun(steps: seq<Step>, s: Machine) returns (steps': seq<Step>, s': Machine)
    requires Reached(steps, s) && s.irq.Off? && s.posting.NotPosting? && s.bell && !s.panicked
    requires s.ins.taken < |s.ins.all|
    ensures Reached(steps', s') && s' == s.(irq := Process, bell := false)
  {
    steps', s' := OneMore(steps, s, ArmInterrupt);
    steps', s' := OneMore(steps', s', ArmStep);
    steps', s' := OneMore(steps', s', ArmStep);
    steps', s' := OneMore(steps', s', ArmStep);
  }

  // It answers.
  lemma AnswerCompletes(steps: seq<Step>, s: Machine, m: Message, i: nat) returns (steps': seq<Step>, s': Machine)
    requires Reached(steps, s) && s.irq.Process? && s.posting.NotPosting? && !s.panicked && !MessageMachine.Full(s.outs)
    requires IsAnswer(s, m, i)
    ensures Reached(steps', s') && s' == s.(outs := Append(s.outs, m), answered := s.answered + {i})
  {
    steps', s' := OneMore(steps, s, ArmReply(m, i));
    steps', s' := OneMore(steps', s', ArmPostStep);
    var a := s.answered + {i};
    while s'.posting.k < |m|
      invariant Reached(steps', s') && s'.posting.Word? && s'.posting.k <= |m|
      invariant s' == s.(posting := Word(m, s'.posting.k), answered := a)
      decreases |m| - s'.posting.k
    {
      steps', s' := OneMore(steps', s', ArmPostStep);
    }
    steps', s' := OneMore(steps', s', ArmPostStep);
  }

  // The PPC takes the reply, and its exchange returns.
  lemma ReceiveCompletes(steps: seq<Step>, s: Machine) returns (steps': seq<Step>, s': Machine)
    requires Reached(steps, s) && s.ppc == RecvWait(true) && s.outs.taken < |s.outs.all|
    requires SameHead(s.outs.all[s.outs.taken], [s.exCode, s.curTag])
    ensures Reached(steps', s') && s'.ppc.Idle? && s'.returned == s.returned + [s.outs.taken] && s'.ins == s.ins
  {
    steps', s' := OneMore(steps, s, PpcStep);
    while s'.ppc.k < 8
      invariant Reached(steps', s') && s'.ppc.RecvWord? && s'.ppc.k <= 8
      invariant s' == s.(ppc := RecvWord(s'.ppc.k, true))
      decreases 8 - s'.ppc.k
    {
      steps', s' := OneMore(steps', s', PpcStep);
    }
    steps', s' := OneMore(steps', s', PpcStep);
    steps', s' := OneMore(steps', s', PpcStep);
  }

  // There are schedules that keep the discipline and in which an exchange completes.
  lemma ExchangeCompletes(code: int, args: seq<int>) returns (steps: seq<Step>)
    requires |args| <= 6
    ensures Disciplined(Initial(), steps) && NextAll(Initial(), steps).returned == [0]
    ensures NextAll(Initial(), steps).ppc == Idle && NextAll(Initial(), steps).ins.all == [[code, 1] + args]
  {
    var s := Initial();
    steps, s := OneMore([], s, PpcExchange(code, args));
    steps, s := PostCompletes(steps, s);
    steps, s := RequestBegun(steps, s);
    steps, s := AnswerCompletes(steps, s, [code, 1], 0);
    steps, s := ReceiveCompletes(steps, s);
  }
}

// The message protocol between the PowerPC and the ARM, as atomic steps of three threads: the PPC,
// the ARM interrupt handler and the ARM main loop.
module IpcState {
  import opened MessageRings

  const QUEUE_SIZE: nat := 32
  const SLOW_SIZE: nat := 128
  const EMPTY: Words8 := [0, 0, 0, 0, 0, 0, 0, 0]

  // IPC_FAST in the flags byte of a request's code word
  predicate IsFast(code: int) {
    code / 0x100_0000 % 2 == 1
  }

  // The code word has the flags byte on top, the device below it, and the request in its lower half.
  lemma FlagsOnTop(flags: nat, device: nat, req: nat)
    requires flags < 0x100 && device < 0x100 && req < 0x1_0000
    ensures IsFast(flags * 0x100_0000 + device * 0x1_0000 + req) <==> flags % 2 == 1
  {
    assert (flags * 0x100_0000 + device * 0x1_0000 + req) / 0x100_0000 == flags;
  }

  // ipc_post on the ARM: waiting for room, or with the first k words written
  datatype Posting = NotPosting | Wait(m: Message) | Word(m: Message, k: nat)

  // The PPC: in ipc_vpost up to its bell, in ipc_receive, or with what ipc_receive has returned. An
  // exchange goes on from one to the next.
  datatype Ppc =
    | Idle
    | PostWait(m: Message, exchange: bool)
    | PostWord(m: Message, k: nat, exchange: bool)
    | Ring(exchange: bool)
    | RecvWait(exchange: bool)
    | RecvWord(k: nat, exchange: bool)
    | Returned(exchange: bool)

  // The ARM in interrupt context: in ipc_irq, in process_in, or in another device's handler
  datatype Irq = Off | Check | Clear | Drain | Process | Advance | Device

  // The ARM main loop: looking for a slow request, or executing one
  datatype Main = Waiting | Running

  // Whether the handler is between clearing the bell and finding the ring empty
  predicate Draining(irq: Irq) {
    irq.Drain? || irq.Process? || irq.Advance?
  }

  // The request ring
  ghost predicate InOk(q: Queue, log: Log, ppc: Ppc, irq: Irq) {
    && RingOk(QUEUE_SIZE, q, log)
    && (ppc.PostWord? ==> Writing(QUEUE_SIZE, q, log, ppc.m, ppc.k))
    && (irq.Process? || irq.Advance? ==> log.taken < |log.all|)
  }

  // No message is stranded: while requests are outstanding the bell is set, or the handler is in its
  // drain loop, or the PPC is about to ring.
  ghost predicate BellOk(bell: bool, log: Log, ppc: Ppc, irq: Irq) {
    (irq.Clear? ==> bell) && (log.taken < |log.all| ==> bell || Draining(irq) || ppc.Ring?)
  }

  // Word sequences carry messages one by one. The facts about single elements are named, so that they
  // are looked at only where they are needed.
  ghost predicate CarriesAt(slots: seq<Words8>, all: seq<Message>, i: nat) {
    i < |slots| && i < |all| ==> Carries(slots[i], all[i])
  }

  ghost predicate CarryAll(slots: seq<Words8>, all: seq<Message>) {
    |slots| <= |all| && forall i: nat {:trigger CarriesAt(slots, all, i)} :: CarriesAt(slots, all, i)
  }

  lemma CarryMore(slots: seq<Words8>, all: seq<Message>, all': seq<Message>)
    requires CarryAll(slots, all) && all <= all'
    ensures CarryAll(slots, all')
  {
    forall i: nat
      ensures CarriesAt(slots, all', i)
    {
      assert CarriesAt(slots, all, i);
    }
  }

  lemma CarryNext(slots: seq<Words8>, all: seq<Message>, slot: Words8)
    requires CarryAll(slots, all) && |slots| < |all| && Carries(slot, all[|slots|])
    ensures CarryAll(slots + [slot], all)
  {
    forall i: nat
      ensures CarriesAt(slots + [slot], all, i)
    {
      assert CarriesAt(slots, all, i);
    }
  }

  // The reply ring, and what the PPC has received from it
  ghost predicate OutOk(q: Queue, log: Log, posting: Posting, ppc: Ppc, reqRecv: Words8, received: seq<Words8>) {
    && RingOk(QUEUE_SIZE, q, log)
    && (posting.Word? ==> Writing(QUEUE_SIZE, q, log, posting.m, posting.k))
    && (ppc.RecvWord? ==> log.taken < |log.all| && ppc.k <= 8 && reqRecv[..ppc.k] == q.slots[q.head][..ppc.k])
    && |received| == log.taken && CarryAll(received, log.all)
    && (ppc.Returned? ==> log.taken > 0 && reqRecv == received[log.taken - 1])
  }

  // What is put into the slow queue: a request of the PPC, by its number, or what another device wants
  datatype Slow = Request(index: nat) | Foreign(words: Words8)

  // The numbers of the slow requests among the first n
  ghost function SlowOnes(posted: seq<Message>, n: nat): seq<nat>
    requires n <= |posted|
  {
    if n == 0 then [] else SlowOnes(posted, n - 1) + if IsFast(posted[n - 1][0]) then [] else [n - 1]
  }

  // The requests of the PPC in the slow queue, by their numbers
  ghost function FromPpc(from: seq<Slow>): seq<nat> {
    if from == [] then []
    else FromPpc(from[..|from| - 1])
         + match from[|from| - 1] case Request(i) => [i] case Foreign(_) => []
  }

  lemma FromPpcAppend(from: seq<Slow>, e: Slow)
    ensures FromPpc(from + [e]) == FromPpc(from) + match e case Request(i) => [i] case Foreign(_) => []
  {
    assert (from + [e])[..|from|] == from;
  }

  lemma {:induction false} SlowOnesGrow(posted: seq<Message>, m: Message, n: nat)
    requires n <= |posted|
    ensures SlowOnes(posted + [m], n) == SlowOnes(posted, n)
  {
    if n > 0 { SlowOnesGrow(posted, m, n - 1); }
  }

  lemma {:induction false} SlowOnesPrefix(posted: seq<Message>, n: nat, k: nat)
    requires n <= k <= |posted|
    ensures SlowOnes(posted, n) <= SlowOnes(posted, k)
    decreases k - n
  {
    if n < k { SlowOnesPrefix(posted, n, k - 1); }
  }

  lemma {:induction false} FromPpcPrefix(from: seq<Slow>, n: nat)
    requires n <= |from|
    ensures FromPpc(from[..n]) <= FromPpc(from)
    decreases |from| - n
  {
    if n < |from| {
      var shorter := from[..|from| - 1];
      FromPpcPrefix(shorter, n);
      assert shorter[..n] == from[..n];
    } else {
      assert from[..n] == from;
    }
  }

  // The slow queue: slot contents, where each entry came from, and what the main loop has begun to
  // execute
  ghost predicate SlowOk(q: Queue, log: Log, from: seq<Slow>, main: Main, executed: seq<Words8>,
                         posted: seq<Message>, handled: nat) {
    && RingOk(SLOW_SIZE, q, log)
    && (main.Running? ==> log.taken < |log.all|)
    && |executed| == log.taken + (if main.Running? then 1 else 0)
    && CarryAll(executed, log.all)
    && |from| == |log.all|
    && handled <= |posted| && FromPpc(from) == SlowOnes(posted, handled)
    && forall i: nat {:trigger ComesFrom(log.all, from, posted, i)} :: ComesFrom(log.all, from, posted, i)
  }

  ghost predicate ComesFrom(all: seq<Message>, from: seq<Slow>, posted: seq<Message>, i: nat) {
    i < |from| && i < |all| ==>
      match from[i]
      case Request(j) => j < |posted| && Full(all[i], posted[j])
      case Foreign(w) => all[i] == w
  }

  // Each result is the received message whose number goes with it.
  ghost predicate ResultsOk(results: seq<Words8>, returned: seq<nat>, received: seq<Words8>) {
    |results| == |returned| && forall k: nat {:trigger ResultAt(results, returned, received, k)} ::
      ResultAt(results, returned, received, k)
  }

  ghost predicate ResultAt(results: seq<Words8>, returned: seq<nat>, received: seq<Words8>, k: nat) {
    k < |results| && k < |returned| ==> returned[k] < |received| && results[k] == received[returned[k]]
  }

  lemma MoreReceived(results: seq<Words8>, returned: seq<nat>, received: seq<Words8>, slot: Words8)
    requires ResultsOk(results, returned, received)
    ensures ResultsOk(results, returned, received + [slot])
  {
    forall k: nat
      ensures ResultAt(results, returned, received + [slot], k)
    {
      assert ResultAt(results, returned, received, k);
    }
  }

  lemma MoreResults(results: seq<Words8>, returned: seq<nat>, received: seq<Words8>, i: nat)
    requires ResultsOk(results, returned, received) && i < |received|
    ensures ResultsOk(results + [received[i]], returned + [i], received)
  {
    forall k: nat
      ensures ResultAt(results + [received[i]], returned + [i], received, k)
    {
      assert ResultAt(results, returned, received, k);
    }
  }

  // An executed entry carries the request that it came from, or is what a device wanted.
  ghost predicate CameFrom(slot: Words8, posted: seq<Message>, e: Slow) {
    match e
    case Request(j) => j < |posted| && Carries(slot, posted[j])
    case Foreign(w) => slot == w
  }

  // A whole slot that carries m
  ghost predicate Full(slot: Message, m: Message) {
    |slot| == 8 && m <= slot
  }

  ghost predicate ContextOk(posting: Posting, irq: Irq, main: Main) {
    posting.NotPosting? || irq.Process? || irq.Device? || (irq.Off? && main.Running?)
  }

  predicate SameHead(a: Message, b: Message) {
    a[0] == b[0] && a[1] == b[1]
  }

  // A received message is logged, and its slot given back.
  lemma Received(q: Queue, log: Log, posting: Posting, ppc: Ppc, reqRecv: Words8, received: seq<Words8>, exchange: bool)
    requires OutOk(q, log, posting, ppc, reqRecv, received) && ppc.RecvWord? && ppc.k == 8
    ensures OutOk(Taken(QUEUE_SIZE, q), log.(taken := log.taken + 1), posting, Returned(exchange), reqRecv,
                  received + [reqRecv])
  {
    Take(QUEUE_SIZE, q, log);
    CarryNext(received, log.all, reqRecv);
    assert reqRecv == reqRecv[..8] == q.slots[q.head][..8] == q.slots[q.head];
  }

  lemma SlowPosted(q: Queue, log: Log, from: seq<Slow>, main: Main, executed: seq<Words8>,
                   posted: seq<Message>, handled: nat, m: Message)
    requires SlowOk(q, log, from, main, executed, posted, handled)
    ensures SlowOk(q, log, from, main, executed, posted + [m], handled)
  {
    SlowOnesGrow(posted, m, handled);
    forall i: nat
      ensures ComesFrom(log.all, from, posted + [m], i)
    {
      assert ComesFrom(log.all, from, posted, i);
    }
  }

  // A fast request leaves the slow queue as it is.
  lemma FastHandled(q: Queue, log: Log, from: seq<Slow>, main: Main, executed: seq<Words8>, posted: seq<Message>,
                    n: nat)
    requires SlowOk(q, log, from, main, executed, posted, n) && n < |posted| && IsFast(posted[n][0])
    ensures SlowOk(q, log, from, main, executed, posted, n + 1)
  {
  }

  // What may enter the slow queue as m: the request that is being handled, number n, or a device's own
  ghost predicate MayEnter(posted: seq<Message>, n: nat, m: Words8, e: Slow) {
    match e
    case Request(i) => i == n < |posted| && !IsFast(posted[n][0]) && Carries(m, posted[n])
    case Foreign(w) => m == w
  }

  lemma Enqueued(q: Queue, log: Log, from: seq<Slow>, main: Main, executed: seq<Words8>, posted: seq<Message>, n: nat,
                 m: Words8, e: Slow)
    requires SlowOk(q, log, from, main, executed, posted, n) && |log.all| < log.taken + SLOW_SIZE - 1
    requires MayEnter(posted, n, m, e)
    ensures SlowOk(Filled(SLOW_SIZE, q, m), Append(log, m), from + [e], main, executed, posted,
                   if e.Foreign? then n else n + 1)
  {
    Put(SLOW_SIZE, q, log, m);
    FromPpcAppend(from, e);
    CarryMore(executed, log.all, log.all + [m]);
    forall j: nat
      ensures ComesFrom(log.all + [m], from + [e], posted, j)
    {
      assert ComesFrom(log.all, from, posted, j);
    }
  }

  // The main loop takes up the next slow request.
  lemma Begun(q: Queue, log: Log, from: seq<Slow>, executed: seq<Words8>, posted: seq<Message>, n: nat)
    requires SlowOk(q, log, from, Waiting, executed, posted, n) && q.head != q.tail
    ensures q.head < |q.slots| && SlowOk(q, log, from, Running, executed + [q.slots[q.head]], posted, n)
  {
    EmptyTest(SLOW_SIZE, q, log);
    Take(SLOW_SIZE, q, log);
    CarryNext(executed, log.all, q.slots[q.head]);
  }

  lemma Finished(q: Queue, log: Log, from: seq<Slow>, executed: seq<Words8>, posted: seq<Message>, n: nat)
    requires SlowOk(q, log, from, Running, executed, posted, n)
    ensures SlowOk(Taken(SLOW_SIZE, q), log.(taken := log.taken + 1), from, Waiting, executed, posted, n)
  {
    Take(SLOW_SIZE, q, log);
  }

  // Another message in the log of the reply ring
  lemma Replied(q: Queue, log: Log, ppc: Ppc, reqRecv: Words8, received: seq<Words8>, m: Message)
    requires OutOk(q, log, Word(m, |m|), ppc, reqRecv, received)
    ensures OutOk(Published(QUEUE_SIZE, q), Append(log, m), NotPosting, ppc, reqRecv, received)
  {
    Publish(QUEUE_SIZE, q, log, m);
    CarryMore(received, log.all, log.all + [m]);
  }

  // The full check of the slow queue, and the entry
  method EnqueueSlow(q: Queue, m: Words8, ghost log: Log, ghost from: seq<Slow>, ghost main: Main,
                     ghost executed: seq<Words8>, ghost posted: seq<Message>, ghost n: nat, ghost e: Slow)
    returns (q': Queue, full: bool, ghost log': Log, ghost from': seq<Slow>)
    requires SlowOk(q, log, from, main, executed, posted, n) && MayEnter(posted, n, m, e)
    ensures full <==> |log.all| == log.taken + SLOW_SIZE - 1
    ensures full ==> q' == q && log' == log && from' == from
    ensures !full ==> log' == Append(log, m) && from' == from + [e]
    ensures !full ==> SlowOk(q', log', from', main, executed, posted, if e.Foreign? then n else n + 1)
  {
    FullTest(SLOW_SIZE, q, log);
    full := q.head == Succ(SLOW_SIZE, q.tail);
    q', log', from' := q, log, from;
    if !full {
      Enqueued(q, log, from, main, executed, posted, n, m, e);
      q', log', from' := Filled(SLOW_SIZE, q, m), Append(log, m), from + [e];
    }
  }
}

// Rings of message slots with a published head and tail, as shared by the two processors, and the
// log of messages that a ring carries.
module MessageRings {
  // A slot and a message are made of words: code, tag and up to six arguments. A message may be
  // shorter than its slot; what is behind it in the slot is left over from earlier messages.
  type Words8 = s: seq<int> | |s| == 8 witness [0, 0, 0, 0, 0, 0, 0, 0]
  type Message = s: seq<int> | 2 <= |s| <= 8 witness [0, 0]

  ghost predicate Carries(slot: Words8, m: Message) {
    m <= slot
  }

  // (i + 1) & (n - 1): the rings have sizes that are powers of two
  function Succ(n: nat, i: nat): (r: nat)
    requires 0 < n
    ensures i < n ==> r == if i + 1 < n then i + 1 else 0
  {
    (i + 1) % n
  }

  // The slot of the k-th message
  ghost function At(n: nat, k: nat): (i: nat)
    requires 0 < n
    ensures i < n
  {
    if k == 0 then 0 else Succ(n, At(n, k - 1))
  }

  lemma {:induction false} AtAhead(n: nat, k: nat, d: nat)
    requires 0 < n && d <= n
    ensures At(n, k + d) == if At(n, k) + d < n then At(n, k) + d else At(n, k) + d - n
  {
    if d > 0 {
      AtAhead(n, k, d - 1);
      assert At(n, k + d) == Succ(n, At(n, k + (d - 1)));
    }
  }

  // Messages less than n apart are in different slots.
  lemma AtApart(n: nat, j: nat, k: nat)
    requires 0 < n && j < k < j + n
    ensures At(n, j) != At(n, k)
  {
    AtAhead(n, j, k - j);
  }

  // The shared part of a ring, and the log of all that ever went into it: taken of the messages have
  // been taken out again.
  datatype Queue = Queue(slots: seq<Words8>, head: nat, tail: nat)
  datatype Log = Log(all: seq<Message>, taken: nat)

  // Message k, if it is outstanding, is in its slot.
  ghost predicate InSlot(n: nat, q: Queue, log: Log, k: nat)
    requires 0 < n == |q.slots|
  {
    log.taken <= k < |log.all| ==> Carries(q.slots[At(n, k)], log.all[k])
  }

  // The messages not yet taken are in their slots, at most n - 1 of them.
  ghost predicate RingOk(n: nat, q: Queue, log: Log) {
    && 1 < n && |q.slots| == n
    && log.taken <= |log.all| < log.taken + n
    && q.head == At(n, log.taken) && q.tail == At(n, |log.all|)
    && forall k: nat {:trigger InSlot(n, q, log, k)} :: InSlot(n, q, log, k)
  }

  // The consumer's test for an empty ring
  lemma EmptyTest(n: nat, q: Queue, log: Log)
    requires RingOk(n, q, log)
    ensures q.head == q.tail <==> log.taken == |log.all|
  {
    if log.taken < |log.all| { AtApart(n, log.taken, |log.all|); }
  }

  // The producer's test for a full ring
  lemma FullTest(n: nat, q: Queue, log: Log)
    requires RingOk(n, q, log)
    ensures q.head == Succ(n, q.tail) <==> |log.all| == log.taken + n - 1
  {
    AtAhead(n, log.taken, |log.all| + 1 - log.taken);
    assert At(n, |log.all| + 1) == Succ(n, At(n, |log.all|));
  }

  // The producer has room for a message and has written its first k words into the next slot.
  ghost predicate Writing(n: nat, q: Queue, log: Log, m: Message, k: nat) {
    |log.all| < log.taken + n - 1 && q.tail < |q.slots| && k <= |m| && m[..k] <= q.slots[q.tail]
  }

  function Written(q: Queue, k: nat, w: int): Queue
    requires q.tail < |q.slots| && k < 8
  {
    q.(slots := q.slots[q.tail := q.slots[q.tail][k := w]])
  }

  function Published(n: nat, q: Queue): Queue
    requires 0 < n
  {
    q.(tail := Succ(n, q.tail))
  }

  function Taken(n: nat, q: Queue): Queue
    requires 0 < n
  {
    q.(head := Succ(n, q.head))
  }

  function Append(log: Log, m: Message): Log {
    log.(all := log.all + [m])
  }

  // Writing a word disturbs no outstanding message, and not the slot that is taken next.
  lemma WriteWord(n: nat, q: Queue, log: Log, m: Message, k: nat)
    requires RingOk(n, q, log) && Writing(n, q, log, m, k) && k < |m|
    ensures RingOk(n, Written(q, k, m[k]), log) && Writing(n, Written(q, k, m[k]), log, m, k + 1)
    ensures log.taken < |log.all| ==> q.head != q.tail
  {
    forall j: nat
      ensures InSlot(n, Written(q, k, m[k]), log, j)
    {
      assert InSlot(n, q, log, j);
      if log.taken <= j < |log.all| { AtApart(n, j, |log.all|); }
    }
    if log.taken < |log.all| { AtApart(n, log.taken, |log.all|); }
    assert m[..k + 1] == m[..k] + [m[k]];
  }

  lemma Publish(n: nat, q: Queue, log: Log, m: Message)
    requires RingOk(n, q, log) && Writing(n, q, log, m, |m|)
    ensures RingOk(n, Published(n, q), Append(log, m))
  {
    assert m[..|m|] == m;
    var log' := Append(log, m);
    forall j: nat
      ensures InSlot(n, Published(n, q), log', j)
    {
      assert InSlot(n, q, log, j);
    }
  }

  function Filled(n: nat, q: Queue, m: Words8): Queue
    requires 0 < n && q.tail < |q.slots|
  {
    Queue(q.slots[q.tail := m], q.head, Succ(n, q.tail))
  }

  // A whole slot put in at once
  lemma Put(n: nat, q: Queue, log: Log, m: Words8)
    requires RingOk(n, q, log) && |log.all| < log.taken + n - 1
    ensures RingOk(n, Filled(n, q, m), Append(log, m))
    ensures log.taken < |log.all| ==> q.head != q.tail
  {
    var q' := q.(slots := q.slots[q.tail := m]);
    forall j: nat
      ensures InSlot(n, q', log, j)
    {
      assert InSlot(n, q, log, j);
      if log.taken <= j < |log.all| { AtApart(n, j, |log.all|); }
    }
    assert m[..8] == m;
    Publish(n, q', log, m);
    if log.taken < |log.all| { AtApart(n, log.taken, |log.all|); }
  }

  lemma Take(n: nat, q: Queue, log: Log)
    requires RingOk(n, q, log) && log.taken < |log.all|
    ensures RingOk(n, Taken(n, q), log.(taken := log.taken + 1))
    ensures q.head < |q.slots| && Carries(q.slots[q.head], log.all[log.taken])
  {
    assert InSlot(n, q, log, log.taken);
    var q', log' := Taken(n, q), log.(taken := log.taken + 1);
    forall j: nat
      ensures InSlot(n, q', log', j)
    {
      assert InSlot(n, q, log, j);
    }
  }
}

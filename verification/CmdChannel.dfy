/** Sending messages as packets over a shared command channel, and discarding overflowed input
    (core/cmd_interface/cmd_channel.c). */
module CmdChannel {
  import opened Bytes
  import opened Wrappers

  // One call of cmd_channel_send_packets

  datatype Message = Message(data: seq<byte>, pktSize: nat)

  datatype Status = Sent | Expired | TxTimeout | Failed(code: nat)

  /** What the driver answers to one packet.  A busy bus is retried until the idle timeout has expired. */
  datatype Answer = Accept | Busy(timedOut: bool) | Refuse(code: nat)

  /** Where a call is.  While sending it holds the channel lock; while it sleeps on a busy bus it does not. */
  datatype Phase =
    | Waiting
    | Sending(sent: nat, packet: seq<byte>)
    | Sleeping(sent: nat, packet: seq<byte>)
    | Done(accepted: nat, status: Status)

  /** The packet loaded when `sent` bytes have gone out. */
  function PacketAt(m: Message, sent: nat): (p: seq<byte>)
    requires sent <= |m.data|
    ensures |p| == Min(m.pktSize, |m.data| - sent)
  {
    m.data[sent..sent + Min(m.pktSize, |m.data| - sent)]
  }

  /** Entering the loop, or leaving it when nothing is left. */
  function NextPacket(m: Message, sent: nat): Phase
    requires sent <= |m.data|
  {
    if sent == |m.data| then Done(sent, Sent) else Sending(sent, PacketAt(m, sent))
  }

  /** What a call does with an answer. */
  function AfterAnswer(m: Message, sent: nat, packet: seq<byte>, a: Answer): Phase
    requires sent + |packet| <= |m.data|
  {
    match a
    case Accept => NextPacket(m, sent + |packet|)
    case Busy(timedOut) => if timedOut then Done(sent, TxTimeout) else Sleeping(sent, packet)
    case Refuse(code) => Done(sent, Failed(code))
  }

  datatype Event = Event(caller: nat, packet: seq<byte>, answer: Answer)

  /** How many bytes of the message the driver has accepted. */
  function Progress(p: Phase): nat {
    match p
    case Waiting => 0
    case Sending(sent, _) => sent
    case Sleeping(sent, _) => sent
    case Done(accepted, _) => accepted
  }

  /** The packets among a caller's events that the driver accepted. */
  function Accepted(log: seq<Event>, caller: nat): seq<seq<byte>> {
    if log == [] then []
    else
      var before := Accepted(log[..|log| - 1], caller);
      var e := log[|log| - 1];
      if e.caller == caller && e.answer == Accept then before + [e.packet] else before
  }

  // All calls on one channel

  datatype State = State(holder: Option<nat>, phases: seq<Phase>, log: seq<Event>)

  /** One atomic step of some caller: from one lock operation or send to the next. */
  datatype Step =
    | Acquire(caller: nat, expired: bool)
    | Send(caller: nat, answer: Answer)
    | Wake(caller: nat)

  predicate Valid(ms: seq<Message>) {
    forall i :: 0 <= i < |ms| ==> 0 < ms[i].pktSize
  }

  function Init(ms: seq<Message>): State {
    State(None, seq(|ms|, _ => Waiting), [])
  }

  predicate Enabled(ms: seq<Message>, s: State, step: Step) {
    && |s.phases| == |ms| && step.caller < |ms|
    && var p := s.phases[step.caller];
       match step
       case Acquire(_, _) => s.holder == None && p.Waiting?
       case Send(_, _) => s.holder == Some(step.caller) && p.Sending? && p.sent + |p.packet| <= |ms[step.caller].data|
       case Wake(_) => s.holder == None && p.Sleeping?
  }

  /** The step's effect; a call that is done or asleep does not hold the lock. */
  function Next(ms: seq<Message>, s: State, step: Step): State
    requires Enabled(ms, s, step)
  {
    var i := step.caller;
    var p := s.phases[i];
    var p' :=
      match step
      case Acquire(_, expired) => if expired then Done(0, Expired) else NextPacket(ms[i], 0)
      case Send(_, answer) => AfterAnswer(ms[i], p.sent, p.packet, answer)
      case Wake(_) => Sending(p.sent, p.packet);
    var log := if step.Send? then s.log + [Event(i, p.packet, step.answer)] else s.log;
    State(if p'.Sending? then Some(i) else None, s.phases[i := p'], log)
  }

  /** A run: steps of any callers in any order, each enabled when it happens. */
  predicate IsRun(ms: seq<Message>, s: State, steps: seq<Step>)
    decreases |steps|
  {
    steps == [] || (Enabled(ms, s, steps[0]) && IsRun(ms, Next(ms, s, steps[0]), steps[1..]))
  }

  function After(ms: seq<Message>, s: State, steps: seq<Step>): State
    requires IsRun(ms, s, steps)
    decreases |steps|
  {
    if steps == [] then s else After(ms, Next(ms, s, steps[0]), steps[1..])
  }

  // What every reachable state satisfies

  /** The lock is held exactly by a sending call, and there is at most one. */
  predicate LockOk(s: State) {
    && (s.holder.Some? ==> s.holder.value < |s.phases|)
    && forall i :: 0 <= i < |s.phases| ==> (s.phases[i].Sending? <==> s.holder == Some(i))
  }

  /** A call is at a packet boundary of its own message, with the right packet loaded. */
  predicate PhaseOk(m: Message, p: Phase) {
    && Progress(p) <= |m.data|
    && (p.Sending? || p.Sleeping? ==> p.sent < |m.data| && p.packet == PacketAt(m, p.sent))
    && (p.Done? && p.status == Sent ==> p.accepted == |m.data|)
    && (p.Done? && p.status.Expired? ==> p.accepted == 0)
    && (p.Done? && (p.status.TxTimeout? || p.status.Failed?) ==> p.accepted < |m.data|)
  }

  /** All packets but possibly the last of the message have the full size. */
  predicate FullSizes(m: Message, ps: seq<seq<byte>>, progress: nat) {
    && (forall k :: 0 <= k < |ps| ==> 0 < |ps[k]| <= m.pktSize)
    && (forall k :: 0 <= k < |ps| - 1 ==> |ps[k]| == m.pktSize)
    && (ps != [] && progress < |m.data| ==> |ps[|ps| - 1]| == m.pktSize)
  }

  ghost predicate CallOk(m: Message, s: State, i: nat)
    requires i < |s.phases|
  {
    && PhaseOk(m, s.phases[i])
    && Concat(Accepted(s.log, i)) == m.data[..Progress(s.phases[i])]
    && FullSizes(m, Accepted(s.log, i), Progress(s.phases[i]))
  }

  /** The latest event of a caller. */
  function LastEvent(log: seq<Event>, caller: nat): Option<Event> {
    if log == [] then None
    else if log[|log| - 1].caller == caller then Some(log[|log| - 1])
    else LastEvent(log[..|log| - 1], caller)
  }

  /** Each event after an earlier one of the same caller either sends its busy packet again or follows it directly. */
  predicate GoodLog(log: seq<Event>) {
    log == [] ||
    (var before, e := log[..|log| - 1], log[|log| - 1];
     GoodLog(before) && Follows(before, e))
  }

  predicate Follows(before: seq<Event>, e: Event) {
    match LastEvent(before, e.caller)
    case None => true
    case Some(last) =>
      if last.answer.Busy? then e.packet == last.packet
      else before != [] && before[|before| - 1].caller == e.caller
  }

  /** A call that was told the bus is busy still has that packet loaded; one that was not is done, or holds the lock
      with nothing sent since its last packet. */
  predicate LastOk(s: State, i: nat)
    requires i < |s.phases|
  {
    match LastEvent(s.log, i)
    case None => true
    case Some(last) =>
      && !s.phases[i].Waiting?
      && (s.phases[i].Sleeping? ==> last.answer.Busy?)
      && (s.phases[i].Sending? || s.phases[i].Sleeping? ==>
            if last.answer.Busy? then s.phases[i].packet == last.packet
            else s.log != [] && s.log[|s.log| - 1].caller == i)
  }

  ghost predicate Inv(ms: seq<Message>, s: State) {
    && |s.phases| == |ms|
    && LockOk(s)
    && GoodLog(s.log)
    && (forall i :: 0 <= i < |ms| ==> CallOk(ms[i], s, i))
    && (forall i :: 0 <= i < |ms| ==> LastOk(s, i))
  }

  lemma InitInv(ms: seq<Message>)
    requires Valid(ms)
    ensures Inv(ms, Init(ms))
  {
  }

  lemma AcceptedStep(log: seq<Event>, e: Event, i: nat)
    ensures Accepted(log + [e], i)
            == if e.caller == i && e.answer == Accept then Accepted(log, i) + [e.packet] else Accepted(log, i)
  {
    assert (log + [e])[..|log|] == log;
  }

  /** The caller that steps keeps its own part of the invariant. */
  lemma StepKeepsOwnCall(ms: seq<Message>, s: State, step: Step)
    requires Valid(ms) && Enabled(ms, s, step) && CallOk(ms[step.caller], s, step.caller)
    requires s.phases[step.caller].Waiting? ==> Accepted(s.log, step.caller) == []
    ensures CallOk(ms[step.caller], Next(ms, s, step), step.caller)
  {
    hide Accepted, Concat, FullSizes;
    var i := step.caller;
    var m := ms[i];
    var p := s.phases[i];
    if step.Send? {
      AcceptedStep(s.log, Event(i, p.packet, step.answer), i);
      if step.answer == Accept {
        PacketKeepsSizes(m, Accepted(s.log, i), p.sent);
      }
    }
  }

  lemma PacketKeepsSizes(m: Message, ps: seq<seq<byte>>, sent: nat)
    requires 0 < m.pktSize && sent < |m.data| && Concat(ps) == m.data[..sent] && FullSizes(m, ps, sent)
    ensures var packet := PacketAt(m, sent);
            && Concat(ps + [packet]) == m.data[..sent + |packet|]
            && FullSizes(m, ps + [packet], sent + |packet|)
  {
    hide Concat;
    var packet := PacketAt(m, sent);
    ConcatSnoc(ps, packet);
    assert m.data[..sent] + packet == m.data[..sent + |packet|];
  }

  lemma StepKeepsOtherCall(ms: seq<Message>, s: State, step: Step, i: nat)
    requires Enabled(ms, s, step) && i < |ms| && i != step.caller && CallOk(ms[i], s, i)
    ensures CallOk(ms[i], Next(ms, s, step), i)
  {
    hide Accepted, Concat;
    if step.Send? {
      AcceptedStep(s.log, Event(step.caller, s.phases[step.caller].packet, step.answer), i);
    }
  }

  lemma StepKeepsGoodLog(ms: seq<Message>, s: State, step: Step)
    requires Enabled(ms, s, step) && GoodLog(s.log) && LastOk(s, step.caller)
    ensures GoodLog(Next(ms, s, step).log)
  {
    hide LastEvent;
    if step.Send? {
      var e := Event(step.caller, s.phases[step.caller].packet, step.answer);
      assert (s.log + [e])[..|s.log|] == s.log;
    }
  }

  lemma StepKeepsLast(ms: seq<Message>, s: State, step: Step, i: nat)
    requires Enabled(ms, s, step) && LockOk(s) && i < |ms| && LastOk(s, i)
    ensures LastOk(Next(ms, s, step), i)
  {
    if step.Send? {
      var e := Event(step.caller, s.phases[step.caller].packet, step.answer);
      assert (s.log + [e])[..|s.log|] == s.log;
      assert LastEvent(s.log + [e], i) == if i == e.caller then Some(e) else LastEvent(s.log, i);
    }
  }

  lemma StepKeepsInv(ms: seq<Message>, s: State, step: Step)
    requires Valid(ms) && Inv(ms, s) && Enabled(ms, s, step)
    ensures Inv(ms, Next(ms, s, step))
  {
    hide CallOk, LastOk, GoodLog;
    var s' := Next(ms, s, step);
    StepKeepsGoodLog(ms, s, step);
    forall i | 0 <= i < |ms| ensures CallOk(ms[i], s', i) && LastOk(s', i) {
      StepKeepsLast(ms, s, step, i);
      if i == step.caller {
        WaitingHasSentNothing(s, i);
        StepKeepsOwnCall(ms, s, step);
      } else {
        StepKeepsOtherCall(ms, s, step, i);
      }
    }
  }

  lemma WaitingHasSentNothing(s: State, i: nat)
    requires i < |s.phases| && LastOk(s, i)
    ensures s.phases[i].Waiting? ==> Accepted(s.log, i) == []
  {
    if s.phases[i].Waiting? {
      NoEventsNoPackets(s.log, i);
    }
  }

  lemma {:induction false} NoEventsNoPackets(log: seq<Event>, i: nat)
    requires LastEvent(log, i) == None
    ensures Accepted(log, i) == []
    decreases |log|
  {
    if log != [] {
      NoEventsNoPackets(log[..|log| - 1], i);
    }
  }

  /** No event of the caller of event a lies strictly between a and b. */
  predicate NoneBetween(log: seq<Event>, a: nat, b: nat)
    requires a < |log| && b <= |log|
  {
    forall k :: a < k < b ==> log[k].caller != log[a].caller
  }

  lemma {:induction false} LastEventIs(log: seq<Event>, a: nat)
    requires a < |log| && NoneBetween(log, a, |log|)
    ensures LastEvent(log, log[a].caller) == Some(log[a])
    decreases |log|
  {
    if a < |log| - 1 {
      assert log[|log| - 1].caller != log[a].caller;
      LastEventIs(log[..|log| - 1], a);
    }
  }

  lemma {:induction false} GoodPrefix(log: seq<Event>, n: nat)
    requires GoodLog(log) && n <= |log|
    ensures GoodLog(log[..n])
    decreases |log|
  {
    if n < |log| {
      GoodPrefix(log[..|log| - 1], n);
      assert log[..|log| - 1][..n] == log[..n];
    } else {
      assert log[..n] == log;
    }
  }

  /** Two successive events of one call. */
  lemma Successive(log: seq<Event>, a: nat, b: nat)
    requires GoodLog(log) && a < b < |log| && log[a].caller == log[b].caller && NoneBetween(log, a, b)
    ensures if log[a].answer.Busy? then log[b].packet == log[a].packet else b == a + 1
  {
    GoodPrefix(log, b + 1);
    assert log[..b + 1][..b] == log[..b];
    LastEventIs(log[..b], a);
  }

  /** The next event of a's caller, at or before b. */
  lemma {:induction false} NextOf(log: seq<Event>, a: nat, b: nat) returns (c: nat)
    requires a < b < |log| && log[a].caller == log[b].caller
    ensures a < c <= b && log[c].caller == log[a].caller && NoneBetween(log, a, c)
    decreases b
  {
    if k :| a < k < b && log[k].caller == log[a].caller {
      c := NextOf(log, a, k);
    } else {
      c := b;
    }
  }

  /** A busy packet is the next one its call sends. */
  predicate BusyIsResent(log: seq<Event>) {
    forall a, b ::
      0 <= a < b < |log| && log[a].answer.Busy? && log[a].caller == log[b].caller && NoneBetween(log, a, b)
      ==> log[b].packet == log[a].packet
  }

  /** Between two events of one call, others come only directly after it was told that the bus is busy. */
  predicate InterleavesOnlyWhenBusy(log: seq<Event>) {
    forall a, b ::
      0 <= a < b < |log| && log[a].caller == log[b].caller && log[a + 1].caller != log[a].caller
      ==> log[a].answer.Busy?
  }

  lemma GoodLogMeans(log: seq<Event>)
    requires GoodLog(log)
    ensures BusyIsResent(log) && InterleavesOnlyWhenBusy(log)
  {
    hide GoodLog;
    forall a, b | 0 <= a < b < |log| && log[a].answer.Busy? && log[a].caller == log[b].caller && NoneBetween(log, a, b)
      ensures log[b].packet == log[a].packet
    {
      Successive(log, a, b);
    }
    forall a, b | 0 <= a < b < |log| && log[a].caller == log[b].caller && log[a + 1].caller != log[a].caller
      ensures log[a].answer.Busy?
    {
      var c := NextOf(log, a, b);
      Successive(log, a, c);
    }
  }

  lemma {:induction false} RunKeepsInv(ms: seq<Message>, s: State, steps: seq<Step>)
    requires Valid(ms) && Inv(ms, s) && IsRun(ms, s, steps)
    ensures Inv(ms, After(ms, s, steps))
    decreases |steps|
  {
    hide Inv;
    if steps != [] {
      StepKeepsInv(ms, s, steps[0]);
      RunKeepsInv(ms, Next(ms, s, steps[0]), steps[1..]);
    }
  }

  /** Over all interleavings: what each call has had accepted is a prefix of its own message, cut into packets of
      full size but for the last; success means the whole message was accepted, and an error that it was not, if and
      only if the message is not empty; a busy packet is the one sent again; and two calls' packets interleave only
      where one was told that the bus is busy. */
  lemma EveryRun(ms: seq<Message>, steps: seq<Step>, i: nat)
    requires Valid(ms) && IsRun(ms, Init(ms), steps) && i < |ms|
    ensures var s := After(ms, Init(ms), steps);
            && |s.phases| == |ms|
            && var m, p, ps := ms[i], s.phases[i], Accepted(s.log, i);
               && Concat(ps) <= m.data
               && FullSizes(m, ps, |Concat(ps)|)
               && (p.Done? && p.status == Sent ==> Concat(ps) == m.data)
               && (p.Done? && p.status != Sent ==> (Concat(ps) == m.data <==> m.data == []))
    ensures BusyIsResent(After(ms, Init(ms), steps).log)
    ensures InterleavesOnlyWhenBusy(After(ms, Init(ms), steps).log)
  {
    InitInv(ms);
    RunKeepsInv(ms, Init(ms), steps);
    var s := After(ms, Init(ms), steps);
    GoodLogMeans(s.log);
    assert CallOk(ms[i], s, i);
  }

  /** Every empty message can be reported as expired although nothing of it is missing. */
  lemma EmptyMessageCanExpire(ms: seq<Message>, s: State, i: nat)
    requires Inv(ms, s) && s.holder == None && i < |ms| && s.phases[i].Waiting? && ms[i].data == []
    ensures Enabled(ms, s, Acquire(i, true))
    ensures var s' := Next(ms, s, Acquire(i, true));
            s'.phases[i] == Done(0, Expired) && Concat(Accepted(s'.log, i)) == ms[i].data
  {
    assert CallOk(ms[i], s, i);
  }

  // What a call returns

  /** The last answer a call got, going by where it is. */
  predicate Answered(s: State, i: nat)
    requires i < |s.phases|
  {
    var last := LastEvent(s.log, i);
    match s.phases[i]
    case Waiting => last == None
    case Sending(_, _) => last == None || last.value.answer in {Accept, Busy(false)}
    case Sleeping(_, _) => last.Some? && last.value.answer == Busy(false)
    case Done(_, Sent) => last == None || last.value.answer == Accept
    case Done(_, Expired) => last == None
    case Done(_, TxTimeout) => last.Some? && last.value.answer == Busy(true)
    case Done(_, Failed(code)) => last.Some? && last.value.answer == Refuse(code)
  }

  /** A status against the last event of its call. */
  ghost predicate Means(status: Status, last: Option<Event>) {
    && (status == TxTimeout <==> last.Some? && last.value.answer == Busy(true))
    && (forall code :: status == Failed(code) <==> last.Some? && last.value.answer == Refuse(code))
    && (status == Expired ==> last == None)
    && (last.Some? && last.value.answer == Accept ==> status == Sent)
  }

  lemma StepKeepsAnswered(ms: seq<Message>, s: State, step: Step, i: nat)
    requires Enabled(ms, s, step) && i < |ms| && Answered(s, i)
    ensures Answered(Next(ms, s, step), i)
  {
    hide PacketAt;
    if step.Send? {
      var e := Event(step.caller, s.phases[step.caller].packet, step.answer);
      assert (s.log + [e])[..|s.log|] == s.log;
      assert LastEvent(s.log + [e], i) == if i == e.caller then Some(e) else LastEvent(s.log, i);
    }
  }

  lemma {:induction false} RunKeepsAnswered(ms: seq<Message>, s: State, steps: seq<Step>, i: nat)
    requires IsRun(ms, s, steps) && i < |ms| == |s.phases| && Answered(s, i)
    ensures |After(ms, s, steps).phases| == |ms| && Answered(After(ms, s, steps), i)
    decreases |steps|
  {
    hide Answered;
    if steps != [] {
      StepKeepsAnswered(ms, s, steps[0], i);
      RunKeepsAnswered(ms, Next(ms, s, steps[0]), steps[1..], i);
    }
  }

  /** Over every run, what a call returns says what its last packet was answered: a driver's error is passed on, a bus
      that stayed busy for too long is a timeout, and an expired packet means that nothing was sent. */
  lemma {:induction false} StatusMeans(ms: seq<Message>, steps: seq<Step>, i: nat)
    requires IsRun(ms, Init(ms), steps) && i < |ms|
    ensures var s := After(ms, Init(ms), steps);
            && |s.phases| == |ms|
            && (s.phases[i].Done? ==> Means(s.phases[i].status, LastEvent(s.log, i)))
  {
    RunKeepsAnswered(ms, Init(ms), steps, i);
  }

  // Where messages interleave

  /** The rest of a message as its packets, all accepted. */
  function Packets(m: Message, caller: nat, sent: nat): seq<Event>
    requires 0 < m.pktSize && sent <= |m.data|
    decreases |m.data| - sent
  {
    if sent == |m.data| then []
    else [Event(caller, PacketAt(m, sent), Accept)] + Packets(m, caller, sent + |PacketAt(m, sent)|)
  }

  function Sends(m: Message, caller: nat, sent: nat): seq<Step>
    requires 0 < m.pktSize && sent <= |m.data|
    decreases |m.data| - sent
  {
    if sent == |m.data| then [] else [Send(caller, Accept)] + Sends(m, caller, sent + |PacketAt(m, sent)|)
  }

  lemma OnePacketLess(m: Message, caller: nat, sent: nat)
    requires 0 < m.pktSize && sent <= |m.data|
    ensures sent == |m.data| ==> Packets(m, caller, sent) == [] && Sends(m, caller, sent) == []
    ensures sent < |m.data| ==>
              var n := sent + |PacketAt(m, sent)|;
              && Packets(m, caller, sent) == [Event(caller, PacketAt(m, sent), Accept)] + Packets(m, caller, n)
              && Sends(m, caller, sent) == [Send(caller, Accept)] + Sends(m, caller, n)
  {
  }

  lemma AcceptedPacket(ms: seq<Message>, s: State, j: nat, sent: nat)
    requires Valid(ms) && j < |ms| == |s.phases| && sent < |ms[j].data|
    requires s.phases[j] == NextPacket(ms[j], sent) && s.holder == Some(j)
    ensures Enabled(ms, s, Send(j, Accept))
    ensures var n := sent + |PacketAt(ms[j], sent)|;
            Next(ms, s, Send(j, Accept))
            == State(if n < |ms[j].data| then Some(j) else None, s.phases[j := NextPacket(ms[j], n)],
                     s.log + [Event(j, PacketAt(ms[j], sent), Accept)])
  {
  }

  lemma {:induction false} SendsAll(ms: seq<Message>, s: State, end: State, j: nat, sent: nat, rest: seq<Step>)
    requires Valid(ms) && j < |ms| == |s.phases| && sent <= |ms[j].data|
    requires s.phases[j] == NextPacket(ms[j], sent) && s.holder == if sent < |ms[j].data| then Some(j) else None
    requires end == State(None, s.phases[j := Done(|ms[j].data|, Sent)], s.log + Packets(ms[j], j, sent))
    requires IsRun(ms, end, rest)
    ensures IsRun(ms, s, Sends(ms[j], j, sent) + rest)
    ensures After(ms, s, Sends(ms[j], j, sent) + rest) == After(ms, end, rest)
    decreases |ms[j].data| - sent
  {
    hide IsRun, After, Enabled, Next, Packets, Sends, PacketAt;
    var m := ms[j];
    OnePacketLess(m, j, sent);
    if sent == |m.data| {
      assert s.phases[j := Done(sent, Sent)] == s.phases;
      assert s == end && Sends(m, j, sent) + rest == rest;
    } else {
      var packet := PacketAt(m, sent);
      AcceptedPacket(ms, s, j, sent);
      var s' := Next(ms, s, Send(j, Accept));
      var e := Event(j, packet, Accept);
      assert s.log + [e] + Packets(m, j, sent + |packet|) == s.log + ([e] + Packets(m, j, sent + |packet|));
      assert s'.phases[j := Done(|m.data|, Sent)] == s.phases[j := Done(|m.data|, Sent)];
      SendsAll(ms, s', end, j, sent + |packet|, rest);
      StepThen(ms, s, Send(j, Accept), Sends(m, j, sent + |packet|) + rest, s');
      assert [Send(j, Accept)] + (Sends(m, j, sent + |packet|) + rest) == Sends(m, j, sent) + rest;
    }
  }

  /** A waiting caller takes the lock, sends its whole message and leaves; then the sleeping one sends again. */
  function Interruption(ms: seq<Message>, i: nat, j: nat): seq<Step>
    requires Valid(ms) && j < |ms|
  {
    [Acquire(j, false)] + (Sends(ms[j], j, 0) + ([Wake(i)] + ([Send(i, Accept)] + [])))
  }

  /** Wherever a call sleeps while the lock is free, any other message can come whole between its busy packet and the
      sending of that packet again. */
  lemma {:induction false} SleeperIsInterrupted(ms: seq<Message>, s: State, i: nat, j: nat)
    requires Valid(ms) && Inv(ms, s) && s.holder == None && i < |ms| && j < |ms|
    requires s.phases[i].Sleeping? && s.phases[j].Waiting?
    ensures IsRun(ms, s, Interruption(ms, i, j))
    ensures After(ms, s, Interruption(ms, i, j)).log
            == s.log + Packets(ms[j], j, 0) + [Event(i, s.phases[i].packet, Accept)]
  {
    hide IsRun, After, LockOk, GoodLog, LastOk, FullSizes;
    assert CallOk(ms[i], s, i);
    var p := s.phases[i];
    var s1 := Next(ms, s, Acquire(j, false));
    var s2 := State(None, s1.phases[j := Done(|ms[j].data|, Sent)], s1.log + Packets(ms[j], j, 0));
    var s3 := Next(ms, s2, Wake(i));
    var s4 := Next(ms, s3, Send(i, Accept));
    StopThere(ms, s4);
    StepThen(ms, s3, Send(i, Accept), [], s4);
    StepThen(ms, s2, Wake(i), [Send(i, Accept)] + [], s3);
    SendsAll(ms, s1, s2, j, 0, [Wake(i)] + ([Send(i, Accept)] + []));
    StepThen(ms, s, Acquire(j, false), Sends(ms[j], j, 0) + ([Wake(i)] + ([Send(i, Accept)] + [])), s1);
  }

  /** Along these steps another caller's packet is the next on the bus, and a packet of call i comes after it. */
  ghost predicate Interrupted(ms: seq<Message>, s: State, steps: seq<Step>, i: nat) {
    && IsRun(ms, s, steps)
    && var log := After(ms, s, steps).log;
       && |log| > |s.log| && log[|s.log|].caller != i
       && exists b :: |s.log| < b < |log| && log[b].caller == i
  }

  /** While a call holds the lock, the next packet on the bus is its own. */
  lemma {:induction false} HolderIsNext(ms: seq<Message>, s: State, steps: seq<Step>, i: nat)
    requires Valid(ms) && Inv(ms, s) && i < |ms| && s.phases[i].Sending? && IsRun(ms, s, steps)
    ensures var log := After(ms, s, steps).log;
            |log| > |s.log| ==> log[|s.log|].caller == i
  {
    hide GoodLog, LastOk, CallOk;
    if steps != [] {
      assert s.holder == Some(i) && steps[0].caller == i && steps[0].Send?;
      LogGrows(ms, Next(ms, s, steps[0]), steps[1..]);
    }
  }

  lemma {:induction false} LogGrows(ms: seq<Message>, s: State, steps: seq<Step>)
    requires IsRun(ms, s, steps)
    ensures s.log <= After(ms, s, steps).log
    decreases |steps|
  {
    if steps != [] {
      LogGrows(ms, Next(ms, s, steps[0]), steps[1..]);
    }
  }

  /** With another non-empty message waiting for the free lock, or for this call, a call in the middle of its message
      can be interrupted if and only if it sleeps on a busy bus. */
  lemma {:induction false} InterruptedExactlyAsleep(ms: seq<Message>, s: State, i: nat, j: nat)
    requires Valid(ms) && Inv(ms, s) && i < |ms| && j < |ms| && (s.holder == None || s.holder == Some(i))
    requires s.phases[i].Sending? || s.phases[i].Sleeping?
    requires s.phases[j].Waiting? && ms[j].data != []
    ensures (exists steps :: Interrupted(ms, s, steps, i)) <==> s.phases[i].Sleeping?
  {
    hide GoodLog, LastOk, CallOk, IsRun, After;
    if s.phases[i].Sleeping? {
      SleeperIsInterrupted(ms, s, i, j);
      var packets := Packets(ms[j], j, 0);
      var log := After(ms, s, Interruption(ms, i, j)).log;
      assert log[|s.log|] == packets[0] && log[|s.log| + |packets|].caller == i;
      assert Interrupted(ms, s, Interruption(ms, i, j), i);
    } else {
      forall steps | IsRun(ms, s, steps) ensures !Interrupted(ms, s, steps, i) {
        HolderIsNext(ms, s, steps, i);
      }
    }
  }

  /** So any message can come between two accepted packets of any other: here after the first of several. */
  lemma {:induction false} MessagesCanInterleave(ms: seq<Message>, i: nat, j: nat)
    requires Valid(ms) && i < |ms| && j < |ms| && i != j && |ms[i].data| > ms[i].pktSize
    ensures var m := ms[i];
            var steps := [Acquire(i, false)] + ([Send(i, Accept)] + ([Send(i, Busy(false))] + Interruption(ms, i, j)));
            && IsRun(ms, Init(ms), steps)
            && After(ms, Init(ms), steps).log
               == [Event(i, PacketAt(m, 0), Accept), Event(i, PacketAt(m, m.pktSize), Busy(false))]
                  + Packets(ms[j], j, 0) + [Event(i, PacketAt(m, m.pktSize), Accept)]
  {
    hide IsRun, After, Inv, Interruption;
    var m, rest := ms[i], Interruption(ms, i, j);
    var s0 := Init(ms);
    InitInv(ms);
    var s1 := Next(ms, s0, Acquire(i, false));
    StepKeepsInv(ms, s0, Acquire(i, false));
    var s2 := Next(ms, s1, Send(i, Accept));
    StepKeepsInv(ms, s1, Send(i, Accept));
    var s3 := Next(ms, s2, Send(i, Busy(false)));
    StepKeepsInv(ms, s2, Send(i, Busy(false)));
    SleeperIsInterrupted(ms, s3, i, j);
    StepThen(ms, s2, Send(i, Busy(false)), rest, s3);
    StepThen(ms, s1, Send(i, Accept), [Send(i, Busy(false))] + rest, s2);
    StepThen(ms, s0, Acquire(i, false), [Send(i, Accept)] + ([Send(i, Busy(false))] + rest), s1);
  }

  lemma StopThere(ms: seq<Message>, s: State)
    ensures IsRun(ms, s, []) && After(ms, s, []) == s
  {
  }

  lemma StepThen(ms: seq<Message>, s: State, step: Step, rest: seq<Step>, s': State)
    requires Enabled(ms, s, step) && Next(ms, s, step) == s' && IsRun(ms, s', rest)
    ensures IsRun(ms, s, [step] + rest) && After(ms, s, [step] + rest) == After(ms, s', rest)
  {
    assert ([step] + rest)[1..] == rest;
  }

  // The call itself

  /** Where a call stands after the answers it got, sleeps being over as soon as they begin. */
  function Stands(m: Message, answers: seq<Answer>): (p: Phase)
    requires 0 < m.pktSize
    ensures PhaseOk(m, p) && (p.Sending? || p.Done?)
  {
    if answers == [] then NextPacket(m, 0)
    else
      var p, a := Stands(m, answers[..|answers| - 1]), answers[|answers| - 1];
      if p.Done? then p
      else
        AnswerKeepsPhase(m, p, a);
        Awake(AfterAnswer(m, p.sent, p.packet, a))
  }

  lemma AnswerKeepsPhase(m: Message, p: Phase, a: Answer)
    requires 0 < m.pktSize && p.Sending? && PhaseOk(m, p)
    ensures p.sent + |p.packet| <= |m.data|
    ensures var p' := Awake(AfterAnswer(m, p.sent, p.packet, a));
            PhaseOk(m, p') && (p'.Sending? || p'.Done?)
  {
  }

  function Awake(p: Phase): Phase {
    if p.Sleeping? then Sending(p.sent, p.packet) else p
  }

  /** The events those answers leave on the bus. */
  function OwnEvents(m: Message, caller: nat, answers: seq<Answer>): seq<Event>
    requires 0 < m.pktSize
  {
    if answers == [] then []
    else
      var before := answers[..|answers| - 1];
      var p := Stands(m, before);
      OwnEvents(m, caller, before) + (if p.Done? then [] else [Event(caller, p.packet, answers[|answers| - 1])])
  }

  function Mine(log: seq<Event>, caller: nat): seq<Event> {
    if log == [] then []
    else
      var e := log[|log| - 1];
      Mine(log[..|log| - 1], caller) + (if e.caller == caller then [e] else [])
  }

  lemma MineSnoc(log: seq<Event>, e: Event, caller: nat)
    ensures Mine(log + [e], caller) == Mine(log, caller) + (if e.caller == caller then [e] else [])
  {
    assert (log + [e])[..|log|] == log;
  }

  lemma {:induction false} MineOthers(log: seq<Event>, others: seq<Event>, caller: nat)
    requires forall k :: 0 <= k < |others| ==> others[k].caller != caller
    ensures Mine(log + others, caller) == Mine(log, caller)
    decreases |others|
  {
    hide Mine;
    if others == [] {
      assert log + others == log;
    } else {
      var init := others[..|others| - 1];
      MineOthers(log, init, caller);
      MineSnoc(log + init, others[|others| - 1], caller);
      assert log + init + [others[|others| - 1]] == log + others;
    }
  }

  lemma StandsSnoc(m: Message, caller: nat, answers: seq<Answer>, a: Answer)
    requires 0 < m.pktSize && Stands(m, answers).Sending?
    ensures var p := Stands(m, answers);
            && Stands(m, answers + [a]) == Awake(AfterAnswer(m, p.sent, p.packet, a))
            && OwnEvents(m, caller, answers + [a]) == OwnEvents(m, caller, answers) + [Event(caller, p.packet, a)]
  {
    assert (answers + [a])[..|answers|] == answers;
  }

  /** What a call has done in a run is what SendPackets does with some answers. */
  ghost predicate IsACall(m: Message, s: State, i: nat)
    requires i < |s.phases| && 0 < m.pktSize
  {
    if s.phases[i].Waiting? || s.phases[i] == Done(0, Expired) then Mine(s.log, i) == []
    else exists answers :: Stands(m, answers) == Awake(s.phases[i]) && OwnEvents(m, i, answers) == Mine(s.log, i)
  }

  lemma StepKeepsCall(ms: seq<Message>, s: State, step: Step, i: nat)
    requires Valid(ms) && Enabled(ms, s, step) && i < |ms| && IsACall(ms[i], s, i)
    ensures IsACall(ms[i], Next(ms, s, step), i)
  {
    hide Stands, OwnEvents, Mine;
    var m := ms[i];
    var p := s.phases[step.caller];
    var s' := Next(ms, s, step);
    if step.Send? {
      MineSnoc(s.log, Event(step.caller, p.packet, step.answer), i);
      assert Mine(s.log, i) + [] == Mine(s.log, i);
    }
    if i == step.caller {
      if step.Acquire? {
        StandsAtStart(m, i);
      } else {
        var answers :| Stands(m, answers) == Awake(p) && OwnEvents(m, i, answers) == Mine(s.log, i);
        if step.Send? {
          StandsSnoc(m, i, answers, step.answer);
          assert Stands(m, answers + [step.answer]) == Awake(s'.phases[i]);
        }
      }
    }
  }

  lemma StandsAtStart(m: Message, caller: nat)
    requires 0 < m.pktSize
    ensures Stands(m, []) == NextPacket(m, 0) && OwnEvents(m, caller, []) == []
  {
  }

  lemma {:induction false} RunKeepsCall(ms: seq<Message>, s: State, steps: seq<Step>, i: nat)
    requires Valid(ms) && IsRun(ms, s, steps) && i < |ms| == |s.phases| && IsACall(ms[i], s, i)
    ensures |After(ms, s, steps).phases| == |ms| && IsACall(ms[i], After(ms, s, steps), i)
    decreases |steps|
  {
    hide IsACall;
    if steps != [] {
      StepKeepsCall(ms, s, steps[0], i);
      RunKeepsCall(ms, Next(ms, s, steps[0]), steps[1..], i);
    }
  }

  /** Every caller of every interleaving runs SendPackets: same progress, same packets, same answers. */
  lemma {:induction false} EveryCallerSends(ms: seq<Message>, steps: seq<Step>, i: nat)
    requires Valid(ms) && IsRun(ms, Init(ms), steps) && i < |ms|
    ensures |After(ms, Init(ms), steps).phases| == |ms| && IsACall(ms[i], After(ms, Init(ms), steps), i)
  {
    RunKeepsCall(ms, Init(ms), steps, i);
  }

  class Channel {
    var holder: Option<nat>
    var log: seq<Event>
    var overflow: bool

    constructor ()
      ensures holder == None && log == [] && !overflow
    {
      holder, log, overflow := None, [], false;
    }

    /** Taking the lock: other calls may have used the channel before it was free. */
    method Lock(caller: nat)
      requires holder != Some(caller)
      modifies `holder, `log
      ensures holder == Some(caller) && Mine(log, caller) == Mine(old(log), caller) && old(log) <= log
    {
      var others: seq<Event> :| forall k :: 0 <= k < |others| ==> others[k].caller != caller;
      MineOthers(log, others, caller);
      log := log + others;
      holder := Some(caller);
    }

    method Unlock(caller: nat)
      requires holder == Some(caller)
      modifies `holder
      ensures holder == None
    {
      holder := None;
    }

    /** cmd_channel_send_packets.  While it holds the lock, nothing but its own packets reaches the bus. */
    method SendPackets(caller: nat, m: Message, expired: bool) returns (status: Status, ghost answers: seq<Answer>)
      requires 0 < m.pktSize && holder != Some(caller)
      modifies `holder, `log
      ensures holder == None
      ensures expired ==> status == Expired && answers == []
      ensures !expired ==> Stands(m, answers).Done? && status == Stands(m, answers).status
      ensures Mine(log, caller) == Mine(old(log), caller) + OwnEvents(m, caller, answers)
    {
      hide Stands, OwnEvents, Mine;
      StandsAtStart(m, caller);
      Lock(caller);
      ghost var start := Mine(old(log), caller);
      answers := [];
      assert start + [] == start;
      if expired {
        Unlock(caller);
        return Expired, [];
      }
      var pktPos, msgLen := 0, |m.data|;
      status := Sent;
      while msgLen > 0 && status == Sent
        invariant 0 <= msgLen && 0 <= pktPos && pktPos + msgLen == |m.data| && holder == Some(caller)
        invariant status == Sent ==> Stands(m, answers) == NextPacket(m, pktPos)
        invariant status != Sent ==> Stands(m, answers).Done? && Stands(m, answers).status == status
        invariant Mine(log, caller) == start + OwnEvents(m, caller, answers)
        decreases msgLen, status == Sent
      {
        var pktLen := Min(m.pktSize, msgLen);
        var packet := m.data[pktPos..pktPos + pktLen];
        ghost var more;
        status, more := SendUntilIdle(caller, m, pktPos, packet, answers, start);
        answers := more;
        if status == Sent {
          pktPos, msgLen := pktPos + pktLen, msgLen - pktLen;
        }
      }
      Unlock(caller);
    }

    /** The retry loop: the same packet until the bus takes it, refuses it or stays busy for too long. */
    method SendUntilIdle(caller: nat, m: Message, ghost pktPos: nat, packet: seq<byte>, ghost answers: seq<Answer>,
                         ghost start: seq<Event>)
      returns (status: Status, ghost more: seq<Answer>)
      requires 0 < m.pktSize && holder == Some(caller)
      requires pktPos < |m.data| && packet == PacketAt(m, pktPos) && Stands(m, answers) == Sending(pktPos, packet)
      requires Mine(log, caller) == start + OwnEvents(m, caller, answers)
      modifies `holder, `log
      ensures holder == Some(caller) && status != Expired
      ensures status == Sent ==> Stands(m, more) == NextPacket(m, pktPos + |packet|)
      ensures status != Sent ==> Stands(m, more) == Done(pktPos, status)
      ensures Mine(log, caller) == start + OwnEvents(m, caller, more)
    {
      hide Stands, OwnEvents, Mine;
      more := answers;
      var patience: nat := *;
      while true
        invariant holder == Some(caller)
        invariant Stands(m, more) == Sending(pktPos, packet)
        invariant Mine(log, caller) == start + OwnEvents(m, caller, more)
        decreases patience
      {
        var answer: Answer := *;
        if answer.Busy? {
          answer := Busy(patience == 0);
        }
        StandsSnoc(m, caller, more, answer);
        MineSnoc(log, Event(caller, packet, answer), caller);
        log := log + [Event(caller, packet, answer)];
        more := more + [answer];
        match answer {
          case Accept => return Sent, more;
          case Refuse(code) => return Failed(code), more;
          case Busy(timedOut) =>
            if timedOut {
              return TxTimeout, more;
            }
            Unlock(caller);
            Lock(caller);
            patience := patience - 1;
        }
      }
    }

    // Receiving

    /** cmd_channel_receive_and_process up to the hand-over: what becomes of one received packet. */
    method ReceivePacket(received: Received) returns (passed: bool)
      modifies `overflow
      ensures (overflow, passed) == Receive(old(overflow), received)
    {
      passed := false;
      if received.Failure? {
        return;
      }
      if received.Overflow? {
        overflow := true;
        return;
      } else if overflow {
        overflow := false;
        return;
      }
      passed := true;
    }
  }

  /** What the driver delivers: a packet, one that overflowed, or an error. */
  datatype Received = Packet(data: seq<byte>) | Overflow | Failure(code: nat)

  /** The overflow flag and whether the packet is passed on. */
  function Receive(flag: bool, r: Received): (bool, bool) {
    match r
    case Failure(_) => (flag, false)
    case Overflow => (true, false)
    case Packet(_) => if flag then (false, false) else (false, true)
  }

  function FlagAfter(rs: seq<Received>): bool {
    if rs == [] then false else Receive(FlagAfter(rs[..|rs| - 1]), rs[|rs| - 1]).0
  }

  /** Whether the k-th delivery is passed to MCTP processing. */
  function PassedOn(rs: seq<Received>, k: nat): bool
    requires k < |rs|
  {
    Receive(FlagAfter(rs[..k]), rs[k]).1
  }

  /** Index k is preceded by an overflow packet, not counting failed receives. */
  predicate OverflowJustBefore(rs: seq<Received>, k: nat)
    requires k <= |rs|
  {
    k > 0 && (rs[k - 1].Overflow? || (rs[k - 1].Failure? && OverflowJustBefore(rs, k - 1)))
  }

  lemma {:induction false} FlagMeans(rs: seq<Received>, k: nat)
    requires k <= |rs|
    ensures FlagAfter(rs[..k]) == OverflowJustBefore(rs, k)
    decreases k
  {
    if k > 0 {
      FlagMeans(rs, k - 1);
      assert rs[..k][..k - 1] == rs[..k - 1];
    }
  }

  /** Over every sequence of deliveries, a packet is passed on exactly when it is not an overflow packet and the
      packet received before it was not one either. */
  lemma PassedExactly(rs: seq<Received>, k: nat)
    requires k < |rs|
    ensures PassedOn(rs, k) <==> rs[k].Packet? && !OverflowJustBefore(rs, k)
  {
    FlagMeans(rs, k);
  }
}

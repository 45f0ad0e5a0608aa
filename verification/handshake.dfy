/** The single-slot shared-memory mailbox of `shmem_lab.rs`: a region whose first
    eight bytes hold the turn word and whose remainder holds one payload, and the
    two-turn protocol by which one sender and one receiver take turns on it.

    Threads, atomics and wall-clock deadlines are replaced by what one side can
    observe: the successive values its loads of the turn word return, and how many
    deadline checks still find time left. */
module Handshake {
  import opened Types
  import opened LittleEndian

  /** Turn value: the sender may fill the slot. */
  const STATE_READY_TO_WRITE: u64 := 2
  /** Turn value: the receiver may take the slot. */
  const STATE_READY_TO_READ: u64 := 3

  /** Size of a region created by `open`. */
  const DEFAULT_SIZE: nat := 64 * 1024
  /** Bytes reserved for the turn word at the start of the region. */
  const STATE_WORD_SIZE: nat := 8

  /** A turn word holding anything but the two turn values is uninitialised. */
  predicate IsTurn(s: u64) {
    s == STATE_READY_TO_WRITE || s == STATE_READY_TO_READ
  }

  // ---------------------------------------------------------------------------
  // Region layout and initialisation

  /** An attached region: the turn word and the data window behind it. */
  datatype Ctx = Ctx(state: u64, data: seq<u8>)

  /** The bytes of a region as seen through its two views. */
  function RegionBytes(ctx: Ctx): (region: seq<u8>)
    ensures |region| == STATE_WORD_SIZE + |ctx.data|
  {
    ToLe(ctx.state, STATE_WORD_SIZE) + ctx.data
  }

  /** Splits a region into the turn word (first eight bytes) and the data window
      starting at offset eight. */
  function Attach(region: seq<u8>): (ctx: Ctx)
    requires |region| >= STATE_WORD_SIZE
    ensures |ctx.data| == |region| - STATE_WORD_SIZE
    ensures RegionBytes(ctx) == region
  {
    ToLeFromLe(region[..STATE_WORD_SIZE]);
    assert region == region[..STATE_WORD_SIZE] + region[STATE_WORD_SIZE..];
    Ctx(FromLe(region[..STATE_WORD_SIZE]), region[STATE_WORD_SIZE..])
  }

  /** Attaching to the bytes of a context recovers that context. */
  lemma AttachRegionBytes(ctx: Ctx)
    ensures Attach(RegionBytes(ctx)) == ctx
  {
    var region := RegionBytes(ctx);
    assert region[..STATE_WORD_SIZE] == ToLe(ctx.state, STATE_WORD_SIZE);
    assert region[STATE_WORD_SIZE..] == ctx.data;
    FromLeToLe(ctx.state, STATE_WORD_SIZE);
  }

  /** The turn word an uncontended initialisation leaves behind. */
  function InitState(s: u64): (s': u64)
    ensures IsTurn(s')
    ensures s' == s <==> IsTurn(s)
    ensures !IsTurn(s) ==> s' == STATE_READY_TO_WRITE
  {
    if IsTurn(s) then s else STATE_READY_TO_WRITE
  }

  /** One pass of the initialisation loop: the value the load returned, and the
      value the word held when the compare-exchange ran (a concurrent opener may
      have changed it in between). */
  datatype InitRound = InitRound(loaded: u64, atExchange: u64)

  /** A pass ends the loop when it loads a turn value or its exchange succeeds. */
  predicate EndsInit(r: InitRound) {
    IsTurn(r.loaded) || r.atExchange == r.loaded
  }

  /** The initialisation loop of `open_shmem`, run against the passes the
      environment produces. It returns the turn word it leaves, whether it
      stored READY_TO_WRITE itself, and how many passes failed first. */
  method InitLoop(rounds: seq<InitRound>) returns (word: u64, exchanged: bool, failed: nat)
    requires exists i :: 0 <= i < |rounds| && EndsInit(rounds[i])
    ensures failed < |rounds| && EndsInit(rounds[failed])
    ensures forall j :: 0 <= j < failed ==> !EndsInit(rounds[j])
    ensures IsTurn(word)
    ensures exchanged <==> !IsTurn(rounds[failed].loaded)
    ensures !exchanged ==> word == rounds[failed].loaded
    ensures exchanged ==> word == STATE_READY_TO_WRITE && rounds[failed].atExchange == rounds[failed].loaded
    ensures rounds[0].atExchange == rounds[0].loaded ==> failed == 0 && word == InitState(rounds[0].loaded)
  {
    var i := 0;
    while true
      invariant 0 <= i < |rounds|
      invariant forall j :: 0 <= j < i ==> !EndsInit(rounds[j])
      invariant exists k :: i <= k < |rounds| && EndsInit(rounds[k])
      decreases |rounds| - i
    {
      var before := rounds[i].loaded;
      if before == STATE_READY_TO_READ {
        return before, false, i;
      }
      if before == STATE_READY_TO_WRITE {
        return before, false, i;
      }
      if rounds[i].atExchange == before {
        return STATE_READY_TO_WRITE, true, i;
      }
      i := i + 1;
    }
  }

  /** `open_shmem` when no other process touches the region meanwhile: attach,
      then run the initialisation loop, whose first pass then always ends it. */
  function Open(region: seq<u8>): (ctx: Ctx)
    requires |region| >= STATE_WORD_SIZE
    ensures IsTurn(ctx.state)
    ensures ctx.data == region[STATE_WORD_SIZE..]
    ensures IsTurn(FromLe(region[..STATE_WORD_SIZE])) <==> RegionBytes(ctx) == region
    ensures !IsTurn(FromLe(region[..STATE_WORD_SIZE])) ==> ctx.state == STATE_READY_TO_WRITE
  {
    var attached := Attach(region);
    var ctx := Ctx(InitState(attached.state), attached.data);
    AttachRegionBytes(ctx);
    ctx
  }

  // ---------------------------------------------------------------------------
  // Waiting for a turn

  /** How long a wait may last: forever, or until the deadline check has found
      time left `checks` times and then finds the deadline passed. */
  datatype Budget = Infinite | Val(checks: nat)

  /** `ShmemLabError`. */
  datatype LabError = Timeout

  datatype Result<+T> = Ok(value: T) | Err(error: LabError)

  /** A completed operation with the number of failed polls that preceded it. */
  datatype Success<+T> = Success(value: T, spinCount: nat)

  /** The wait ends within the polls given: the wanted turn shows up, or the
      deadline passes, before they run out. */
  predicate Decides(polls: seq<u64>, want: u64, budget: Budget) {
    want in polls || (budget.Val? && budget.checks < |polls|)
  }

  /** The polling loop of `send` / `receive`, resumed after `spinCount` failed
      polls. `polls[i]` is what the i-th load of the turn word returned. On
      success the result is the spin count. */
  function SpinWait(polls: seq<u64>, want: u64, budget: Budget, spinCount: nat): (r: Result<nat>)
    requires Decides(polls, want, budget)
    requires spinCount <= |polls|
    requires forall j :: 0 <= j < spinCount ==> polls[j] != want
    requires budget.Val? ==> spinCount <= budget.checks
    ensures r.Ok? ==> spinCount <= r.value < |polls| && polls[r.value] == want
    ensures r.Ok? ==> forall j :: 0 <= j < r.value ==> polls[j] != want
    ensures r.Ok? && budget.Val? ==> r.value <= budget.checks
    ensures r.Err? ==> budget.Val? && budget.checks < |polls|
    ensures r.Err? ==> forall j :: 0 <= j <= budget.checks ==> polls[j] != want
    decreases |polls| - spinCount
  {
    assert spinCount < |polls| by {
      if want in polls {
        var k :| 0 <= k < |polls| && polls[k] == want;
        assert spinCount <= k;
      }
    }
    if polls[spinCount] == want then
      Ok(spinCount)
    else if budget.Val? && spinCount == budget.checks then
      Err(Timeout)
    else
      SpinWait(polls, want, budget, spinCount + 1)
  }

  /** The wait, having failed on the polls that returned `earlier`, is decided by
      the poll that returns `current`. */
  predicate WaitEndsAt(earlier: seq<u64>, current: u64, want: u64, budget: Budget) {
    && (forall j :: 0 <= j < |earlier| ==> earlier[j] != want)
    && (budget.Val? ==> |earlier| <= budget.checks)
    && (current != want ==> budget.Val? && |earlier| == budget.checks)
  }

  // ---------------------------------------------------------------------------
  // The channel and its two operations

  /** The turn word and the slot it guards. The slot always holds some value:
      it is raw memory, whatever was last stored in it. */
  datatype Channel<T> = Channel(state: u64, slot: T)

  /** An operation's outcome and the channel it leaves. */
  datatype Step<T, R> = Step(result: Result<Success<R>>, channel: Channel<T>)

  /** `ShmemSender::send`, where `ch` is the channel as the deciding poll finds
      it and `earlier` the values the failed polls before it returned. */
  function Send<T>(ch: Channel<T>, value: T, budget: Budget, earlier: seq<u64>): (s: Step<T, ()>)
    requires WaitEndsAt(earlier, ch.state, STATE_READY_TO_WRITE, budget)
    ensures s.result.Ok? <==> ch.state == STATE_READY_TO_WRITE
    ensures s.result.Ok? ==> s.channel == Channel(STATE_READY_TO_READ, value)
    ensures s.result.Ok? ==> s.result.value.spinCount == |earlier|
    ensures s.result.Err? ==> s.channel == ch && budget.Val?
  {
    assert (earlier + [ch.state])[|earlier|] == ch.state;
    match SpinWait(earlier + [ch.state], STATE_READY_TO_WRITE, budget, 0)
    case Ok(spins) => Step(Ok(Success((), spins)), Channel(STATE_READY_TO_READ, value))
    case Err(e) => Step(Err(e), ch)
  }

  /** `ShmemReceiver::receive`, with `ch` and `earlier` as for `Send`. */
  function Receive<T>(ch: Channel<T>, budget: Budget, earlier: seq<u64>): (s: Step<T, T>)
    requires WaitEndsAt(earlier, ch.state, STATE_READY_TO_READ, budget)
    ensures s.result.Ok? <==> ch.state == STATE_READY_TO_READ
    ensures s.result.Ok? ==> s.result.value.value == ch.slot
    ensures s.result.Ok? ==> s.channel == Channel(STATE_READY_TO_WRITE, ch.slot)
    ensures s.result.Ok? ==> s.result.value.spinCount == |earlier|
    ensures s.result.Err? ==> s.channel == ch && budget.Val?
  {
    assert (earlier + [ch.state])[|earlier|] == ch.state;
    match SpinWait(earlier + [ch.state], STATE_READY_TO_READ, budget, 0)
    case Ok(spins) => Step(Ok(Success(ch.slot, spins)), Channel(STATE_READY_TO_WRITE, ch.slot))
    case Err(e) => Step(Err(e), ch)
  }

  /** Spin counts collected by the ping helpers. */
  datatype Stats = Stats(sendSpins: seq<nat>, receiveSpins: seq<nat>)

  // ---------------------------------------------------------------------------
  // Properties of the protocol

  /** The payloads a receiver obtained and the channel left afterwards. */
  datatype Delivery<T> = Delivery(received: seq<T>, channel: Channel<T>)

  /** Strictly alternating sends and receives without waiting: each send is
      followed by the matching receive. */
  function Exchange<T>(ch: Channel<T>, values: seq<T>): (d: Delivery<T>)
    requires ch.state == STATE_READY_TO_WRITE
    ensures d.received == values
    ensures d.channel.state == STATE_READY_TO_WRITE
    ensures |values| > 0 ==> d.channel.slot == values[|values| - 1]
    decreases |values|
  {
    if |values| == 0 then
      Delivery([], ch)
    else
      var sent := Send(ch, values[0], Infinite, []);
      var got := Receive(sent.channel, Infinite, []);
      var rest := Exchange(got.channel, values[1..]);
      Delivery([got.result.value.value] + rest.received, rest.channel)
  }

  /** One side's attempt at its operation: a single poll, with a deadline that
      has already passed. */
  datatype Op<T> = SendOp(value: T) | ReceiveOp

  /** An operation that completed. */
  datatype Event<T> = Sent(value: T) | Received(value: T)

  /** The completed operations of a run and the channel it leaves. */
  datatype Trace<T> = Trace(events: seq<Event<T>>, channel: Channel<T>)

  /** Whether the event at position i of a run from `ch` is the sender's turn. */
  predicate SenderTurnAt<T>(ch: Channel<T>, i: nat) {
    (i % 2 == 0) == (ch.state == STATE_READY_TO_WRITE)
  }

  /** The completed operations of a run from `ch` take turns, and each receive
      yields the payload stored by the send before it (or, first of all, the
      payload already in the slot). */
  ghost predicate Alternates<T>(ch: Channel<T>, events: seq<Event<T>>) {
    && (forall i :: 0 <= i < |events| ==> (events[i].Sent? <==> SenderTurnAt(ch, i)))
    && (forall i :: 0 < i < |events| && events[i].Received? ==> events[i].value == events[i - 1].value)
    && (|events| > 0 && events[0].Received? ==> events[0].value == ch.slot)
  }

  /** A single-poll attempt of one side's operation. */
  function Attempt<T>(ch: Channel<T>, op: Op<T>): (t: Trace<T>)
    requires IsTurn(ch.state)
    ensures |t.events| <= 1
    ensures |t.events| == 0 <==> (op.SendOp? != (ch.state == STATE_READY_TO_WRITE))
    ensures |t.events| == 0 ==> t.channel == ch
    ensures |t.events| == 1 ==> (t.events[0].Sent? <==> ch.state == STATE_READY_TO_WRITE)
    ensures |t.events| == 1 && t.events[0].Sent? ==> t.events[0] == Sent(op.value)
    ensures |t.events| == 1 && t.events[0].Received? ==> t.events[0].value == ch.slot
    ensures |t.events| == 1 ==> t.channel == Channel(if t.events[0].Sent? then STATE_READY_TO_READ else STATE_READY_TO_WRITE, t.events[0].value)
  {
    match op
    case SendOp(v) =>
      var s := Send(ch, v, Val(0), []);
      Trace(if s.result.Ok? then [Sent(v)] else [], s.channel)
    case ReceiveOp =>
      var s := Receive(ch, Val(0), []);
      Trace(if s.result.Ok? then [Received(s.result.value.value)] else [], s.channel)
  }

  /** A completed operation followed by an alternating run from the channel it
      leaves is an alternating run. */
  lemma AlternatesPrepend<T>(ch: Channel<T>, e: Event<T>, next: Channel<T>, rest: seq<Event<T>>)
    requires e.Sent? <==> ch.state == STATE_READY_TO_WRITE
    requires e.Received? ==> e.value == ch.slot
    requires next == Channel(if e.Sent? then STATE_READY_TO_READ else STATE_READY_TO_WRITE, e.value)
    requires Alternates(next, rest)
    ensures Alternates(ch, [e] + rest)
  {
    var events := [e] + rest;
    forall i | 0 < i < |events|
      ensures events[i].Sent? <==> SenderTurnAt(ch, i)
      ensures events[i].Received? ==> events[i].value == events[i - 1].value
    {
      assert events[i] == rest[i - 1];
      assert SenderTurnAt(ch, i) <==> SenderTurnAt(next, i - 1);
    }
  }

  /** Every completed send stores the value of one of the attempts. */
  ghost predicate SendsFrom<T>(events: seq<Event<T>>, ops: seq<Op<T>>) {
    forall i :: 0 <= i < |events| && events[i].Sent? ==> SendOp(events[i].value) in ops
  }

  /** A completed first attempt followed by sends taken from the remaining
      attempts sends only values taken from the attempts. */
  lemma SendsFromPrepend<T>(e: Event<T>, rest: seq<Event<T>>, ops: seq<Op<T>>)
    requires |ops| > 0
    requires e.Sent? ==> ops[0] == SendOp(e.value)
    requires SendsFrom(rest, ops[1..])
    ensures SendsFrom([e] + rest, ops)
  {
    var events := [e] + rest;
    forall i | 0 < i < |events| && events[i].Sent?
      ensures SendOp(events[i].value) in ops
    {
      assert events[i] == rest[i - 1];
      assert SendOp(rest[i - 1].value) in ops[1..];
    }
  }

  /** Any interleaving of single-poll send and receive attempts on one channel:
      at most one event per attempt, a timed-out attempt changes nothing, and
      the turn word stays a turn value. `RunAlternates` and `RunSendsFrom`
      state what the completed operations are. */
  function Run<T>(ch: Channel<T>, ops: seq<Op<T>>): (t: Trace<T>)
    requires IsTurn(ch.state)
    ensures |t.events| <= |ops|
    ensures IsTurn(t.channel.state)
    ensures |ops| > 0 && (ops[0].SendOp? <==> ch.state == STATE_READY_TO_WRITE) ==>
              |t.events| > 0 && (ops[0].SendOp? ==> t.events[0] == Sent(ops[0].value))
    ensures t.channel.state == STATE_READY_TO_WRITE <==> SenderTurnAt(ch, |t.events|)
    ensures |t.events| == 0 ==> t.channel == ch
    ensures |t.events| > 0 ==> t.channel.slot == t.events[|t.events| - 1].value
    decreases |ops|
  {
    if |ops| == 0 then
      Trace([], ch)
    else
      var first := Attempt(ch, ops[0]);
      var rest := Run(first.channel, ops[1..]);
      if |first.events| == 0 then
        rest
      else
        assert SenderTurnAt(ch, 1 + |rest.events|) <==> SenderTurnAt(first.channel, |rest.events|);
        Trace(first.events + rest.events, rest.channel)
  }

  /** In any run, completed operations strictly alternate starting from the
      current turn, and each receive yields the payload of the send just before
      it (or, first of all, the payload already in the slot). */
  lemma {:induction false} RunAlternates<T>(ch: Channel<T>, ops: seq<Op<T>>)
    requires IsTurn(ch.state)
    ensures Alternates(ch, Run(ch, ops).events)
    decreases |ops|
  {
    if |ops| > 0 {
      var first := Attempt(ch, ops[0]);
      RunAlternates(first.channel, ops[1..]);
      if |first.events| > 0 {
        AlternatesPrepend(ch, first.events[0], first.channel, Run(first.channel, ops[1..]).events);
        assert first.events == [first.events[0]];
      }
    }
  }

  /** In any run, every completed send stores the value of one of the attempts. */
  lemma {:induction false} RunSendsFrom<T>(ch: Channel<T>, ops: seq<Op<T>>)
    requires IsTurn(ch.state)
    ensures SendsFrom(Run(ch, ops).events, ops)
    decreases |ops|
  {
    if |ops| > 0 {
      var first := Attempt(ch, ops[0]);
      var rest := Run(first.channel, ops[1..]).events;
      RunSendsFrom(first.channel, ops[1..]);
      if |first.events| > 0 {
        SendsFromPrepend(first.events[0], rest, ops);
        assert first.events == [first.events[0]];
      } else {
        forall i | 0 <= i < |rest| && rest[i].Sent?
          ensures SendOp(rest[i].value) in ops
        {
          assert SendOp(rest[i].value) in ops[1..];
        }
      }
    }
  }

  /** When every attempt is made on its side's turn, every attempt completes,
      and the sends store exactly the attempts' values, in order. */
  lemma {:induction false} RunOnTurnCompletes<T>(ch: Channel<T>, ops: seq<Op<T>>)
    requires IsTurn(ch.state)
    requires forall i :: 0 <= i < |ops| ==> (ops[i].SendOp? <==> SenderTurnAt(ch, i))
    ensures |Run(ch, ops).events| == |ops|
    ensures forall i :: 0 <= i < |ops| && ops[i].SendOp? ==> Run(ch, ops).events[i] == Sent(ops[i].value)
    decreases |ops|
  {
    if |ops| > 0 {
      var first := Attempt(ch, ops[0]);
      assert ops[0].SendOp? <==> SenderTurnAt(ch, 0);
      forall i | 0 <= i < |ops[1..]|
        ensures ops[1..][i].SendOp? <==> SenderTurnAt(first.channel, i)
      {
        assert ops[1..][i] == ops[i + 1];
        assert SenderTurnAt(ch, i + 1) <==> SenderTurnAt(first.channel, i);
      }
      RunOnTurnCompletes(first.channel, ops[1..]);
      var rest := Run(first.channel, ops[1..]);
      assert Run(ch, ops).events == first.events + rest.events;
      forall i | 0 < i < |ops| && ops[i].SendOp?
        ensures Run(ch, ops).events[i] == Sent(ops[i].value)
      {
        assert ops[1..][i - 1] == ops[i];
      }
    }
  }

  /** A run extended by one attempt is the run followed by that attempt, made
      on the channel the run left behind. */
  lemma {:induction false} RunAppend<T>(ch: Channel<T>, ops: seq<Op<T>>, op: Op<T>)
    requires IsTurn(ch.state)
    ensures var r := Run(ch, ops);
            var a := Attempt(r.channel, op);
            Run(ch, ops + [op]) == Trace(r.events + a.events, a.channel)
    decreases |ops|
  {
    if |ops| == 0 {
      assert ops + [op] == [op];
      assert [op][1..] == [];
      assert Attempt(ch, op).events + [] == Attempt(ch, op).events;
    } else {
      var first := Attempt(ch, ops[0]);
      assert (ops + [op])[0] == ops[0];
      assert (ops + [op])[1..] == ops[1..] + [op];
      RunAppend(first.channel, ops[1..], op);
      var rest := Run(first.channel, ops[1..]);
      var a := Attempt(rest.channel, op);
      assert first.events + (rest.events + a.events) == (first.events + rest.events) + a.events;
    }
  }

  /** An attempt made on the turn a run has reached completes, whatever
      attempts timed out before it: a send stores its value and a receive
      yields the slot. */
  lemma LateAttemptOnTurnCompletes<T>(ch: Channel<T>, ops: seq<Op<T>>, op: Op<T>)
    requires IsTurn(ch.state)
    requires op.SendOp? <==> Run(ch, ops).channel.state == STATE_READY_TO_WRITE
    ensures var r := Run(ch, ops);
            var t := Run(ch, ops + [op]);
            && |t.events| == |r.events| + 1
            && t.events[..|r.events|] == r.events
            && t.events[|r.events|] == (if op.SendOp? then Sent(op.value) else Received(r.channel.slot))
  {
    RunAppend(ch, ops, op);
    var r := Run(ch, ops);
    var a := Attempt(r.channel, op);
    assert (r.events + a.events)[..|r.events|] == r.events;
  }

  /** A second send before the first payload is received times out and leaves
      the first payload in place. */
  lemma SecondSendWaits<T>(ch: Channel<T>, first: T, second: T, k: nat)
    requires ch.state == STATE_READY_TO_WRITE
    ensures var full := Send(ch, first, Infinite, []).channel;
            var blocked := Send(full, second, Val(k), seq(k, _ => STATE_READY_TO_READ));
            blocked.result == Err(Timeout) && blocked.channel == Channel(STATE_READY_TO_READ, first)
  {
  }

  /** A receive that times out on an empty channel leaves it usable: the next
      send is delivered to the next receive. */
  lemma TimeoutThenDelivery<T>(ch: Channel<T>, value: T, k: nat)
    requires ch.state == STATE_READY_TO_WRITE
    ensures var idle := Receive(ch, Val(k), seq(k, _ => STATE_READY_TO_WRITE));
            && idle.result == Err(Timeout)
            && idle.channel == ch
            && Receive(Send(idle.channel, value, Infinite, []).channel, Infinite, []).result == Ok(Success(value, 0))
  {
  }
}

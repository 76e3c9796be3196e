/** The asynchronous log pipeline: producers that never block, a bounded channel, and one consumer
    that flushes batches when they are full, on a tick and when the channel is closed. */
module LogPipeline {
  import opened Wrappers
  import opened Cidr

  const BATCH_SIZE := 5000
  const WARNING_PERIOD := 1000

  datatype LogAction = ActionAllowed | ActionBlocked | ActionCached

  datatype BlockReason = ReasonNone | ReasonBlacklist | ReasonCategory | ReasonPolicy

  datatype Entry = Entry(queriedAt: int, clientIP: Address, userID: Option<int>, groupID: int, domain: string,
                         queryType: nat,
                         action: LogAction, blockReason: BlockReason, responseIP: Option<string>, upstream: string)

  // ---------- the pipeline as a value ----------

  /** flushes holds the batches given to flush so far, warnings the drop counts printed. */
  datatype PipelineState = PipelineState(
    capacity: nat, batchSize: nat,
    ch: seq<Entry>, closed: bool,
    batch: seq<Entry>, running: bool,
    flushes: seq<seq<Entry>>, dropped: nat, warnings: seq<nat>)
  {
    /** A send finds room in the buffer, or the consumer waiting at the empty channel, which then
        takes the entry at once: the only way in when the channel has no buffer. */
    predicate Accepts(waiting: bool) {
      |ch| < capacity || HandsOver(waiting)
    }

    predicate HandsOver(waiting: bool) {
      waiting && running && !closed && ch == []
    }

    function Took(e: Entry): PipelineState {
      if |batch| + 1 >= batchSize then this.(batch := [], flushes := flushes + [batch + [e]])
      else this.(batch := batch + [e])
    }

    function Flushed(): PipelineState {
      if batch == [] then this else this.(batch := [], flushes := flushes + [batch])
    }
  }

  /** What one goroutine does next: a producer sends, the consumer's select takes its channel or its
      ticker case, or the pipeline is closed. */
  datatype Event = Send(entry: Entry, waiting: bool) | Receive | Tick | Close

  function Step(s: PipelineState, e: Event): PipelineState {
    match e
    case Send(entry, waiting) =>
      if s.HandsOver(waiting) then s.Took(entry)
      else if |s.ch| < s.capacity then s.(ch := s.ch + [entry])
      else s.(dropped := s.dropped + 1,
              warnings := if (s.dropped + 1) % WARNING_PERIOD == 1 then s.warnings + [s.dropped + 1] else s.warnings)
    case Receive =>
      if !s.running then s
      else if s.ch != [] then s.(ch := s.ch[1..]).Took(s.ch[0])
      else if s.closed then s.Flushed().(batch := s.batch, running := false)
      else s
    case Tick => if s.running then s.Flushed() else s
    case Close => s.(closed := true)
  }

  function Run(s: PipelineState, events: seq<Event>): PipelineState {
    if events == [] then s else Step(Run(s, events[..|events| - 1]), events[|events| - 1])
  }

  function NewPipeline(capacity: nat, batchSize: nat): PipelineState {
    PipelineState(capacity, batchSize, [], false, [], true, [], 0, [])
  }

  // ---------- the object ----------

  class Pipeline {
    const capacity: nat
    const batchSize: nat
    const batch: array<Entry>
    var n: nat
    var ch: seq<Entry>
    var closed: bool
    var running: bool
    var dropped: nat
    var flushes: seq<seq<Entry>>
    var warnings: seq<nat>

    /** While the consumer runs the batch has room for one more entry. */
    ghost predicate Valid()
      reads this, batch
    {
      && 0 < batchSize == batch.Length && n <= batch.Length
      && (running ==> n < batch.Length) && (!running ==> closed)
    }

    ghost function State(): PipelineState
      reads this, batch
      requires Valid()
    {
      PipelineState(capacity, batchSize, ch, closed, batch[..n], running, flushes, dropped, warnings)
    }

    constructor (bufferSize: nat)
      ensures Valid() && fresh(batch) && State() == NewPipeline(bufferSize, BATCH_SIZE) && batchSize == 5000
    {
      capacity, batchSize := bufferSize, BATCH_SIZE;
      batch := new Entry[BATCH_SIZE](_ => Entry(0, NoAddress, None, 0, "", 0, ActionAllowed, ReasonNone, None, ""));
      n := 0;
      ch, closed, running := [], false, true;
      dropped, flushes, warnings := 0, [], [];
    }

    /** Never waits: what finds no room is dropped, and every thousandth drop is reported. waiting
        says whether the consumer is at its select. Sending on a closed channel panics. */
    method Send(entry: Entry, waiting: bool)
      requires Valid() && !closed
      modifies this`ch, this`n, this`flushes, this`dropped, this`warnings, batch
      ensures Valid() && State() == Step(old(State()), Event.Send(entry, waiting))
    {
      if waiting && running && ch == [] {
        Take(entry);
      } else if |ch| < capacity {
        ch := ch + [entry];
      } else {
        dropped := dropped + 1;
        if dropped % WARNING_PERIOD == 1 {
          warnings := warnings + [dropped];
        }
      }
    }

    method Flush()
      requires 0 < n <= batch.Length
      modifies this`flushes
      ensures flushes == old(flushes) + [batch[..n]]
    {
      flushes := flushes + [batch[..n]];
    }

    /** The consumer appends to its batch, within the capacity it was made with. */
    method Take(entry: Entry)
      requires Valid() && running
      modifies this`n, this`flushes, batch
      ensures Valid() && State() == old(State()).Took(entry)
    {
      batch[n] := entry;
      n := n + 1;
      assert batch[..n] == old(batch[..n]) + [entry];
      if n >= batchSize {
        Flush();
        n := 0;
      }
    }

    /** The channel case of the consumer's select; nothing happens while it would wait. */
    method Receive()
      requires Valid() && running
      modifies this`ch, this`n, this`flushes, this`running, batch
      ensures Valid() && State() == Step(old(State()), Event.Receive)
    {
      if ch != [] {
        var entry := ch[0];
        ch := ch[1..];
        Take(entry);
      } else if closed {
        if n > 0 {
          Flush();
        }
        running := false;
      }
    }

    /** The ticker case. */
    method Tick()
      requires Valid() && running
      modifies this`n, this`flushes
      ensures Valid() && State() == Step(old(State()), Event.Tick)
      ensures n == 0 && flushes == old(flushes) + (if old(n) > 0 then [old(batch[..n])] else [])
    {
      if n > 0 {
        Flush();
        n := 0;
      }
    }

    /** Closes the channel and waits for the consumer, whose ticker may fire at any of its selects:
        it exits after pending + 1 receives, and everything not flushed before is flushed. */
    method Stop(ticks: seq<bool>) returns (receives: nat)
      requires Valid() && running && !closed
      modifies this`closed, this`ch, this`n, this`flushes, this`running, batch
      ensures Valid() && closed && !running && ch == []
      ensures receives == old(|ch|) + 1
      ensures Concat(flushes) == old(Concat(flushes) + batch[..n] + ch)
      ensures BatchesFit(flushes, old(|flushes|), batchSize)
    {
      ghost var rest := Conserved(State());
      closed := true;
      receives := 0;
      var i := 0;
      while running
        invariant Valid() && closed && i <= |ticks|
        invariant receives + |ch| == old(|ch|) + (if running then 0 else 1)
        invariant Conserved(State()) == rest
        invariant !running ==> ch == []
        invariant BatchesFit(flushes, old(|flushes|), batchSize)
        decreases |ticks| - i, |ch|, running
      {
        ghost var e := if i < |ticks| && ticks[i] then Event.Tick else Event.Receive;
        KeptByStep(State(), e);
        FitByStep(State(), old(|flushes|), e);
        if i < |ticks| && ticks[i] {
          Tick();
        } else {
          Receive();
          receives := receives + 1;
        }
        i := if i < |ticks| then i + 1 else i;
      }
    }
  }

  /** Runs the goroutines in the order given: the methods together do what the steps say. */
  method Schedule(p: Pipeline, events: seq<Event>)
    requires p.Valid() && p.running && !p.closed && ClosedLast(events)
    modifies p, p.batch
    ensures p.Valid() && p.State() == Run(old(p.State()), events)
  {
    for i := 0 to |events|
      invariant p.Valid() && p.State() == Run(old(p.State()), events[..i])
      invariant p.closed ==> exists j :: 0 <= j < i && events[j].Close?
    {
      assert events[..i + 1][..i] == events[..i];
      match events[i] {
        case Send(entry, waiting) => p.Send(entry, waiting);
        case Receive => if p.running { p.Receive(); }
        case Tick => if p.running { p.Tick(); }
        case Close => p.closed := true;
      }
    }
    assert events[..|events|] == events;
  }

  /** Nothing is sent and nothing is closed after the close. */
  predicate ClosedLast(events: seq<Event>) {
    forall i, j :: 0 <= i < j < |events| && events[i].Close? ==> !events[j].Send? && !events[j].Close?
  }

  // ---------- conservation and order ----------

  function Concat(batches: seq<seq<Entry>>): seq<Entry> {
    if batches == [] then [] else Concat(batches[..|batches| - 1]) + batches[|batches| - 1]
  }

  lemma ConcatAppend(batches: seq<seq<Entry>>, last: seq<Entry>)
    ensures Concat(batches + [last]) == Concat(batches) + last
  {
    assert (batches + [last])[..|batches|] == batches;
  }

  /** The accepted entries, in the order of their sends. */
  function Accepted(s: PipelineState, events: seq<Event>): seq<Entry> {
    if events == [] then []
    else
      var init, last := events[..|events| - 1], events[|events| - 1];
      Accepted(s, init) + (if last.Send? && Run(s, init).Accepts(last.waiting) then [last.entry] else [])
  }

  function Sends(events: seq<Event>): nat {
    if events == [] then 0 else Sends(events[..|events| - 1]) + (if events[|events| - 1].Send? then 1 else 0)
  }

  /** What the consumer still holds and has not flushed. */
  function Held(s: PipelineState): seq<Entry> {
    if s.running then s.batch else []
  }

  function Conserved(s: PipelineState): seq<Entry> {
    Concat(s.flushes) + Held(s) + s.ch
  }

  /** What was flushed, then the batch. */
  function Front(s: PipelineState): seq<Entry> {
    Concat(s.flushes) + s.batch
  }

  lemma FrontTook(s: PipelineState, e: Entry)
    ensures Front(s.Took(e)) == Front(s) + [e]
  {
    ConcatAppend(s.flushes, s.batch + [e]);
  }

  lemma FrontFlushed(s: PipelineState)
    ensures Front(s.Flushed()) == Front(s)
  {
    ConcatAppend(s.flushes, s.batch);
  }

  lemma KeptByReceive(s: PipelineState)
    requires s.running
    ensures Conserved(Step(s, Receive)) == Conserved(s)
  {
    if s.ch != [] {
      FrontTook(s.(ch := s.ch[1..]), s.ch[0]);
      assert s.ch == [s.ch[0]] + s.ch[1..];
    } else if s.closed {
      ConcatAppend(s.flushes, s.batch);
    }
  }

  /** No step loses, repeats or reorders an entry; only an accepted send adds one, at the end. */
  lemma KeptByStep(s: PipelineState, e: Event)
    requires !s.running ==> s.closed && s.ch == []
    requires e.Send? ==> !s.closed
    ensures Conserved(Step(s, e)) ==
            Conserved(s) + (if e.Send? && s.Accepts(e.waiting) then [e.entry] else [])
    ensures !Step(s, e).running ==> Step(s, e).closed && Step(s, e).ch == []
  {
    match e
    case Send(entry, _) => FrontTook(s, entry);
    case Receive =>
      if s.running {
        KeptByReceive(s);
      }
    case Tick => FrontFlushed(s);
    case Close =>
  }

  /** From one index on, the batches have between one entry and size of them. */
  predicate BatchesFit(batches: seq<seq<Entry>>, from: nat, size: nat) {
    from <= |batches| && forall i :: from <= i < |batches| ==> 1 <= |batches[i]| <= size
  }

  lemma FitByStep(s: PipelineState, from: nat, e: Event)
    requires |s.batch| < s.batchSize || (!s.running && |s.batch| <= s.batchSize)
    requires BatchesFit(s.flushes, from, s.batchSize)
    ensures BatchesFit(Step(s, e).flushes, from, s.batchSize)
  {
  }

  lemma ClosedLastInit(events: seq<Event>)
    requires events != [] && ClosedLast(events)
    ensures ClosedLast(events[..|events| - 1])
  {
  }

  predicate HasClose(events: seq<Event>) {
    exists i :: 0 <= i < |events| && events[i].Close?
  }

  lemma HasCloseStep(events: seq<Event>)
    requires events != []
    ensures HasClose(events) <==> HasClose(events[..|events| - 1]) || events[|events| - 1].Close?
  {
    var init := events[..|events| - 1];
    if i :| 0 <= i < |init| && init[i].Close? {
      assert events[i].Close?;
    }
    if i :| 0 <= i < |events| && events[i].Close? {
      assert i < |init| ==> init[i].Close?;
    }
  }

  lemma {:induction false} ClosedIff(s: PipelineState, events: seq<Event>)
    requires !s.closed
    ensures Run(s, events).closed <==> HasClose(events)
  {
    if events != [] {
      ClosedIff(s, events[..|events| - 1]);
      HasCloseStep(events);
    }
  }

  /** In every reachable state: all that was flushed, then the batch, then the channel, is exactly
      what was accepted, in send order. */
  lemma {:induction false} LogConserved(capacity: nat, batchSize: nat, events: seq<Event>)
    requires ClosedLast(events)
    ensures var s := Run(NewPipeline(capacity, batchSize), events);
            && Conserved(s) == Accepted(NewPipeline(capacity, batchSize), events)
            && (!s.running ==> s.closed && s.ch == [])
  {
    if events != [] {
      var init, e := events[..|events| - 1], events[|events| - 1];
      ClosedLastInit(events);
      LogConserved(capacity, batchSize, init);
      ClosedIff(NewPipeline(capacity, batchSize), init);
      KeptByStep(Run(NewPipeline(capacity, batchSize), init), e);
    }
  }

  /** Every send is accepted or counted as dropped, never both. */
  lemma {:induction false} SendsAccounted(capacity: nat, batchSize: nat, events: seq<Event>)
    ensures var s := NewPipeline(capacity, batchSize);
            |Accepted(s, events)| + Run(s, events).dropped == Sends(events)
  {
    if events != [] {
      SendsAccounted(capacity, batchSize, events[..|events| - 1]);
    }
  }

  // ---------- the drop counter without synchronisation ----------

  /** An increment of the drop counter is a load and a store of one producer. */
  datatype CountEvent = Load(who: nat) | Store(who: nat)

  /** The counter, the increments stored so far, and what each producer has loaded: the value, and
      how many increments had been stored then. */
  datatype Counter = Counter(value: nat, drops: nat, loaded: map<nat, (nat, nat)>)

  function Count(s: Counter, e: CountEvent): Counter {
    match e
    case Load(p) => s.(loaded := s.loaded[p := (s.value, s.drops)])
    case Store(p) => if p in s.loaded then Counter(s.loaded[p].0 + 1, s.drops + 1, s.loaded - {p}) else s
  }

  function CountAll(events: seq<CountEvent>): Counter {
    if events == [] then Counter(0, 0, map[]) else Count(CountAll(events[..|events| - 1]), events[|events| - 1])
  }

  /** Another increment was stored between the load and the store of this one. */
  predicate Races(s: Counter, e: CountEvent) {
    e.Store? && e.who in s.loaded && s.loaded[e.who].1 != s.drops
  }

  predicate Raced(events: seq<CountEvent>) {
    exists i :: 0 <= i < |events| && Races(CountAll(events[..i]), events[i])
  }

  lemma RacedStep(events: seq<CountEvent>)
    requires events != []
    ensures var init, e := events[..|events| - 1], events[|events| - 1];
            Raced(events) <==> Raced(init) || Races(CountAll(init), e)
  {
    var n := |events| - 1;
    var init := events[..n];
    if i :| 0 <= i < |events| && Races(CountAll(events[..i]), events[i]) {
      assert i < n ==> init[..i] == events[..i] && init[i] == events[i];
    }
    if i :| 0 <= i < n && Races(CountAll(init[..i]), init[i]) {
      assert init[..i] == events[..i] && init[i] == events[i];
    }
  }

  /** The counter never exceeds the number of drops, and equals it exactly when no two increments
      ever overlapped: only then is a Send as if atomic. */
  lemma {:induction false} DropsCountedIff(events: seq<CountEvent>)
    ensures var s := CountAll(events);
            && s.value <= s.drops && (s.value == s.drops <==> !Raced(events))
            && forall p :: p in s.loaded ==> s.loaded[p].0 <= s.loaded[p].1 <= s.drops
                                             && (s.loaded[p].1 == s.drops ==> s.loaded[p].0 == s.value)
  {
    if events != [] {
      DropsCountedIff(events[..|events| - 1]);
      RacedStep(events);
    }
  }

  // ---------- warnings and sizes ----------

  lemma ThousandsBegun(d: nat)
    ensures (d + WARNING_PERIOD) / WARNING_PERIOD ==
            (d + WARNING_PERIOD - 1) / WARNING_PERIOD + (if (d + 1) % WARNING_PERIOD == 1 then 1 else 0)
    ensures (d + 1) % WARNING_PERIOD == 1 ==> d == WARNING_PERIOD * ((d + WARNING_PERIOD - 1) / WARNING_PERIOD)
  {
  }

  /** One warning per thousand drops begun, each with the count at that drop. */
  predicate Warned(s: PipelineState) {
    && |s.warnings| == (s.dropped + 999) / 1000
    && forall i :: 0 <= i < |s.warnings| ==> s.warnings[i] == 1000 * i + 1
  }

  lemma WarnedStep(s: PipelineState, e: Event)
    requires Warned(s)
    ensures Warned(Step(s, e))
  {
    ThousandsBegun(s.dropped);
  }

  /** The warnings printed are the drops divided by a thousand, rounded up. */
  lemma {:induction false} WarningsCount(capacity: nat, batchSize: nat, events: seq<Event>)
    ensures Warned(Run(NewPipeline(capacity, batchSize), events))
  {
    if events != [] {
      WarningsCount(capacity, batchSize, events[..|events| - 1]);
      WarnedStep(Run(NewPipeline(capacity, batchSize), events[..|events| - 1]), events[|events| - 1]);
    }
  }

  /** The channel is within its buffer, the batch below its capacity, and every flush has between one
      entry and a full batch. */
  predicate WithinSizes(s: PipelineState) {
    |s.ch| <= s.capacity && |s.batch| < s.batchSize && BatchesFit(s.flushes, 0, s.batchSize)
  }

  lemma SizesByStep(s: PipelineState, e: Event)
    requires WithinSizes(s)
    ensures WithinSizes(Step(s, e)) && Step(s, e).capacity == s.capacity && Step(s, e).batchSize == s.batchSize
  {
    FitByStep(s, 0, e);
  }

  /** The channel stays within its buffer, the batch below its capacity while the consumer runs,
      and every flush has between one entry and a full batch. */
  lemma {:induction false} FlushSizes(capacity: nat, batchSize: nat, events: seq<Event>)
    requires batchSize > 0
    ensures var s := Run(NewPipeline(capacity, batchSize), events);
            s.capacity == capacity && s.batchSize == batchSize && WithinSizes(s)
  {
    if events != [] {
      FlushSizes(capacity, batchSize, events[..|events| - 1]);
      SizesByStep(Run(NewPipeline(capacity, batchSize), events[..|events| - 1]), events[|events| - 1]);
    }
  }

  // ---------- when the consumer flushes ----------

  lemma FlushedHoldsNothing(s: PipelineState)
    requires s.running
    ensures var s' := Step(s, Tick);
            && s'.batch == [] && s'.running && s'.ch == s.ch && s'.closed == s.closed
            && Concat(s'.flushes) == Concat(s.flushes) + s.batch
  {
    FrontFlushed(s);
  }

  /** After a tick the consumer holds nothing: all that it had received is flushed, and of the
      accepted entries only those still in the channel are not. */
  lemma TickFlushesAll(capacity: nat, batchSize: nat, events: seq<Event>)
    requires ClosedLast(events) && Run(NewPipeline(capacity, batchSize), events).running
    ensures var s, s' := Run(NewPipeline(capacity, batchSize), events),
            Run(NewPipeline(capacity, batchSize), events + [Tick]);
            && Held(s') == [] && s'.ch == s.ch
            && Concat(s'.flushes) + s'.ch == Accepted(NewPipeline(capacity, batchSize), events)
  {
    var s := Run(NewPipeline(capacity, batchSize), events);
    RunSnoc(NewPipeline(capacity, batchSize), events, Tick);
    FlushedHoldsNothing(s);
    LogConserved(capacity, batchSize, events);
  }

  /** The event flushes this batch: one that is full, or what there is on a tick or at the close. */
  predicate FlushedBy(s: PipelineState, e: Event, batch: seq<Entry>) {
    || |batch| == s.batchSize
    || (batch != [] && (e.Tick? || (e.Receive? && s.closed && s.ch == [])))
  }

  /** From one state to the other nothing was flushed, or one batch, for one of those reasons. */
  predicate FlushesOnce(s: PipelineState, e: Event, s': PipelineState) {
    || s'.flushes == s.flushes
    || (|s'.flushes| == |s.flushes| + 1 && s'.flushes[..|s.flushes|] == s.flushes
        && s.running && FlushedBy(s, e, s'.flushes[|s.flushes|]))
  }

  lemma FlushReason(s: PipelineState, e: Event)
    requires WithinSizes(s)
    ensures FlushesOnce(s, e, Step(s, e))
  {
  }

  /** And it flushes at no other time: in every run each step flushes at most one batch, which is
      full, or is flushed by a tick or by the end of the closed channel. */
  lemma FlushesOnlyWhen(capacity: nat, batchSize: nat, events: seq<Event>, e: Event)
    requires batchSize > 0
    ensures FlushesOnce(Run(NewPipeline(capacity, batchSize), events), e,
                        Run(NewPipeline(capacity, batchSize), events + [e]))
  {
    FlushSizes(capacity, batchSize, events);
    RunSnoc(NewPipeline(capacity, batchSize), events, e);
    FlushReason(Run(NewPipeline(capacity, batchSize), events), e);
  }

  /** A send is dropped exactly when the buffer is full and no consumer waits at an empty channel;
      otherwise the entry is the last of those flushed, held or queued. */
  lemma SendOutcome(s: PipelineState, entry: Entry, waiting: bool)
    requires s.running && !s.closed && 0 < s.batchSize
    ensures var s' := Step(s, Send(entry, waiting));
            if s.capacity <= |s.ch| && !(waiting && s.ch == []) then
              s'.dropped == s.dropped + 1 && Conserved(s') == Conserved(s)
            else s'.dropped == s.dropped && Conserved(s') == Conserved(s) + [entry]
  {
    KeptByStep(s, Send(entry, waiting));
  }

  // ---------- draining ----------

  function Receives(events: seq<Event>): nat {
    if events == [] then 0 else Receives(events[..|events| - 1]) + (if events[|events| - 1].Receive? then 1 else 0)
  }

  predicate ConsumerOnly(events: seq<Event>) {
    forall i :: 0 <= i < |events| ==> events[i].Receive? || events[i].Tick?
  }

  /** Once closed, the consumer exits at exactly its (pending + 1)-th receive, however ticks fall. */
  lemma {:induction false} ExitsAfterPending(s: PipelineState, events: seq<Event>)
    requires s.closed && s.running && ConsumerOnly(events)
    ensures var s' := Run(s, events);
            && (s'.running <==> Receives(events) <= |s.ch|)
            && (s'.running ==> s'.ch == s.ch[Receives(events)..])
            && (!s'.running ==> s'.ch == [])
            && s'.closed
  {
    if events != [] {
      ExitsAfterPending(s, events[..|events| - 1]);
    }
  }

  /** While the channel is open each receive takes the oldest entry, until there is none left. */
  lemma {:induction false} TakesOldest(s: PipelineState, events: seq<Event>)
    requires !s.closed && s.running && ConsumerOnly(events)
    ensures var s', k := Run(s, events), Receives(events);
            s'.running && !s'.closed && s'.ch == if k <= |s.ch| then s.ch[k..] else []
  {
    if events != [] {
      TakesOldest(s, events[..|events| - 1]);
    }
  }

  /** So when the consumer has received as often as entries were pending, the next tick has flushed
      all that was accepted before: nothing waits for a full batch. */
  lemma PendingFlushedByTick(capacity: nat, batchSize: nat, before: seq<Event>, events: seq<Event>)
    requires ClosedLast(before) && ConsumerOnly(events)
    requires var s := Run(NewPipeline(capacity, batchSize), before);
             !s.closed && s.running && |s.ch| <= Receives(events)
    ensures Concat(Run(NewPipeline(capacity, batchSize), before + events + [Tick]).flushes) ==
            Accepted(NewPipeline(capacity, batchSize), before)
  {
    var s := NewPipeline(capacity, batchSize);
    RunAppend(s, before, events);
    NothingAccepted(s, before, events);
    TakesOldest(Run(s, before), events);
    assert ClosedLast(before + events);
    TickFlushesAll(capacity, batchSize, before + events);
  }

  lemma {:induction false} RunAppend(s: PipelineState, before: seq<Event>, events: seq<Event>)
    ensures Run(s, before + events) == Run(Run(s, before), events)
    decreases |events|
  {
    if events == [] {
      assert before + events == before;
    } else {
      var init, last := events[..|events| - 1], events[|events| - 1];
      RunAppend(s, before, init);
      RunSnoc(s, before + init, last);
      assert before + events == before + init + [last];
    }
  }

  lemma RunSnoc(s: PipelineState, events: seq<Event>, e: Event)
    ensures Run(s, events + [e]) == Step(Run(s, events), e)
  {
    assert (events + [e])[..|events|] == events;
  }

  lemma {:induction false} NothingAccepted(s: PipelineState, before: seq<Event>, events: seq<Event>)
    requires ConsumerOnly(events)
    ensures Accepted(s, before + events) == Accepted(s, before)
    decreases |events|
  {
    if events == [] {
      assert before + events == before;
    } else {
      var all, n := before + events, |events| - 1;
      assert all[..|all| - 1] == before + events[..n] && all[|all| - 1] == events[n];
      NothingAccepted(s, before, events[..n]);
    }
  }

  /** After a close with no later send, once the consumer has received pending + 1 times every
      accepted entry has been flushed, exactly once and in order, and the consumer is gone. */
  lemma AllFlushedAfterClose(capacity: nat, batchSize: nat, before: seq<Event>, events: seq<Event>)
    requires ClosedLast(before) && ConsumerOnly(events)
    requires var s := Run(NewPipeline(capacity, batchSize), before);
             s.closed && s.running && Receives(events) == |s.ch| + 1
    ensures var s' := Run(NewPipeline(capacity, batchSize), before + events);
            && !s'.running
            && Concat(s'.flushes) == Accepted(NewPipeline(capacity, batchSize), before)
  {
    var s := NewPipeline(capacity, batchSize);
    RunAppend(s, before, events);
    NothingAccepted(s, before, events);
    ExitsAfterPending(Run(s, before), events);
    assert ClosedLast(before + events);
    LogConserved(capacity, batchSize, before + events);
  }
}

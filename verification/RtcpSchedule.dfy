/** When RTCP compounds are sent: periodic reports by a task that schedules itself, and
    NACKs and BYEs on demand. A tick reads the clock before it takes the lock, so other
    calls can come between the reading and the locked part. */
module RtcpSchedule {
  import opened RtpPackets

  // ---------- the sender object ----------

  datatype Schedule = Schedule(nextSend: nat, hasSentBye: bool)

  /** The locked part of a tick: does it send, and after how long does the task run
      again, if it does? */
  datatype TickResult = TickResult(after: Schedule, sends: bool, delay: Option<nat>)

  function Ticked(s: Schedule, interval: nat, reading: nat, receivedBye: bool): TickResult {
    if s.hasSentBye || receivedBye then TickResult(s, false, None)
    else if reading < s.nextSend then TickResult(s, false, Some(s.nextSend - reading))
    else TickResult(s.(nextSend := reading + interval), true, Some(interval))
  }

  predicate NackGoes(s: Schedule, count: nat, receivedBye: bool) {
    count > 0 && !s.hasSentBye && !receivedBye
  }

  function Nacked(s: Schedule, interval: nat, count: nat, receivedBye: bool, stamp: nat): Schedule {
    if NackGoes(s, count, receivedBye) then s.(nextSend := stamp + interval) else s
  }

  class RtcpSender {
    const interval: nat
    var nextSend: nat
    var hasSentBye: bool

    function State(): Schedule
      reads this
    {
      Schedule(nextSend, hasSentBye)
    }

    /** Initialize: the first report is due after half an interval. */
    constructor (interval: nat, now: nat)
      ensures State() == Schedule(now + interval / 2, false) && this.interval == interval
    {
      this.interval := interval;
      nextSend, hasSentBye := now + interval / 2, false;
    }

    /** `reading` was taken before the lock. */
    method ScheduleSendRtcp(reading: nat, receivedBye: bool) returns (sends: bool, delay: Option<nat>)
      modifies this
      ensures TickResult(State(), sends, delay) == Ticked(old(State()), interval, reading, receivedBye)
    {
      if hasSentBye || receivedBye { return false, None; }
      if reading < nextSend { return false, Some(nextSend - reading); }
      nextSend := reading + interval;
      return true, Some(interval);
    }

    /** `stamp` is the clock after the NACK was sent. */
    method SendNack(count: nat, receivedBye: bool, stamp: nat) returns (sends: bool)
      modifies this
      ensures sends <==> NackGoes(old(State()), count, receivedBye)
      ensures State() == Nacked(old(State()), interval, count, receivedBye, stamp)
    {
      if count == 0 { return false; }
      if hasSentBye || receivedBye { return false; }
      nextSend := stamp + interval;
      return true;
    }

    method SendBye()
      modifies this
      ensures State() == old(State()).(hasSentBye := true)
    {
      hasSentBye := true;
    }
  }

  // ---------- the sender, its thread and its callers ----------

  /** A task in the thread's queue; `lag` is how long after the tick's reading of the
      clock it was pushed. */
  datatype Task = Task(due: nat, lag: int)

  datatype Kind = Periodic | NackReport | ByeReport

  /** A compound sent at time `at`; its successor is timed from `stamp`. */
  datatype Compound = Compound(kind: Kind, stamp: nat, at: nat)

  /** `ticks` are the readings of ticks that wait for the lock. `stopped` says that a
      tick found that a BYE was sent or received. */
  datatype World = World(clock: nat, schedule: Schedule, receivedBye: bool, pending: seq<Task>, ticks: seq<nat>,
                         sent: seq<Compound>, stopped: bool)

  datatype Event =
    | Advance(ms: nat)
    | Fire(task: nat)
    | Tick(tick: nat, pushAfter: nat)
    | SendNack(count: nat, stampAfter: nat)
    | SendBye
    | ReceiveBye

  function Without<T>(s: seq<T>, k: nat): (r: seq<T>)
    requires k < |s|
    ensures |r| == |s| - 1
  {
    s[..k] + s[k + 1..]
  }

  /** A task fires when it is due; only a tick that was fired takes the lock. */
  predicate Enabled(w: World, e: Event) {
    match e
    case Fire(k) => k < |w.pending| && w.pending[k].due <= w.clock
    case Tick(k, _) => k < |w.ticks|
    case _ => true
  }

  function Step(w: World, interval: nat, e: Event): World
    requires Enabled(w, e)
  {
    match e
    case Advance(ms) => w.(clock := w.clock + ms)
    case Fire(k) => w.(pending := Without(w.pending, k), ticks := w.ticks + [w.clock])
    case Tick(k, pushAfter) =>
      var reading := w.ticks[k];
      var r := Ticked(w.schedule, interval, reading, w.receivedBye);
      var pushed := w.clock + pushAfter;
      w.(clock := pushed, schedule := r.after, ticks := Without(w.ticks, k),
         pending := w.pending + (if r.delay.None? then [] else [Task(pushed + r.delay.value, pushed - reading)]),
         sent := w.sent + (if r.sends then [Compound(Periodic, reading, w.clock)] else []),
         stopped := w.stopped || r.delay.None?)
    case SendNack(count, stampAfter) =>
      var stamp := w.clock + stampAfter;
      if NackGoes(w.schedule, count, w.receivedBye) then
        w.(clock := stamp, schedule := Nacked(w.schedule, interval, count, w.receivedBye, stamp),
           sent := w.sent + [Compound(NackReport, stamp, w.clock)])
      else w
    case SendBye =>
      w.(schedule := w.schedule.(hasSentBye := true), sent := w.sent + [Compound(ByeReport, w.clock, w.clock)])
    case ReceiveBye => w.(receivedBye := true)
  }

  /** After Initialize at time `now`, the task pushed `pushAfter` later. */
  function Start(interval: nat, now: nat, pushAfter: nat): World {
    World(now + pushAfter, Schedule(now + interval / 2, false), false,
          [Task(now + pushAfter + interval / 2, pushAfter)], [], [], false)
  }

  predicate RunOk(w: World, interval: nat, events: seq<Event>)
    decreases |events|
  {
    events == [] || (Enabled(w, events[0]) && RunOk(Step(w, interval, events[0]), interval, events[1..]))
  }

  function Run(w: World, interval: nat, events: seq<Event>): World
    requires RunOk(w, interval, events)
    decreases |events|
  {
    if events == [] then w else Run(Step(w, interval, events[0]), interval, events[1..])
  }

  // ---------- what every step keeps ----------

  predicate Bye(w: World) { w.schedule.hasSentBye || w.receivedBye }

  /** One task is queued or one tick is under way, until a tick has stopped. */
  predicate OneTask(w: World) {
    |w.pending| + |w.ticks| == (if w.stopped then 0 else 1) && (w.stopped ==> Bye(w))
  }

  /** Readings are past, the next report is at most an interval away, and the queued
      task is due no later than the next report plus the time its push took. */
  predicate Timely(w: World, interval: nat) {
    && w.schedule.nextSend <= w.clock + interval
    && (forall k :: 0 <= k < |w.ticks| ==> w.ticks[k] <= w.clock)
    && (forall k :: 0 <= k < |w.pending| ==> w.pending[k].due <= w.schedule.nextSend + w.pending[k].lag)
  }

  predicate Spaced(sent: seq<Compound>, interval: nat) {
    forall i, j :: 0 <= i < j < |sent| && sent[j].kind == Periodic && sent[i].kind != ByeReport ==>
      sent[i].stamp + interval <= sent[j].stamp
  }

  predicate QuietAfterBye(sent: seq<Compound>) {
    forall i, j :: 0 <= i < j < |sent| && sent[i].kind == ByeReport ==> sent[j].kind == ByeReport
  }

  /** What is on record about the compounds sent so far. */
  predicate Recorded(w: World, interval: nat) {
    && (forall i :: 0 <= i < |w.sent| && w.sent[i].kind != ByeReport ==> w.sent[i].stamp + interval <= w.schedule.nextSend)
    && (forall i :: 0 <= i < |w.sent| && w.sent[i].kind == ByeReport ==> w.schedule.hasSentBye)
    && (forall i :: 0 <= i < |w.sent| ==> w.sent[i].at <= w.clock)
    && (forall i :: 0 <= i < |w.sent| && w.sent[i].kind == Periodic ==> w.sent[i].stamp <= w.sent[i].at)
    && (forall i :: 0 <= i < |w.sent| && w.sent[i].kind == NackReport ==> w.sent[i].at <= w.sent[i].stamp)
  }

  /** Whatever tick comes next reads the clock an interval or more after every periodic
      report was sent. */
  predicate Apart(w: World, interval: nat) {
    forall i :: 0 <= i < |w.sent| ==>
      && (forall k :: 0 <= k < |w.pending| ==> ApartFrom(w.sent[i], interval, w.pending[k].due))
      && (forall k :: 0 <= k < |w.ticks| ==> ApartFrom(w.sent[i], interval, w.ticks[k]))
  }

  predicate ApartFrom(c: Compound, interval: nat, time: nat) {
    c.kind == Periodic ==> c.at + interval <= time
  }

  /** An interval passes between a report or NACK and every later periodic report, from
      sending to sending. */
  predicate SentApart(sent: seq<Compound>, interval: nat) {
    forall i, j :: 0 <= i < j < |sent| && sent[j].kind == Periodic && sent[i].kind != ByeReport ==>
      sent[i].at + interval <= sent[j].at
  }

  predicate Inv(w: World, interval: nat) {
    && OneTask(w) && Timely(w, interval) && Recorded(w, interval) && Spaced(w.sent, interval) && QuietAfterBye(w.sent)
    && Apart(w, interval) && SentApart(w.sent, interval)
  }

  lemma OneTaskKept(w: World, interval: nat, e: Event)
    requires Enabled(w, e) && OneTask(w) && Timely(w, interval)
    ensures OneTask(Step(w, interval, e))
  {
  }

  lemma TimelyKept(w: World, interval: nat, e: Event)
    requires Enabled(w, e) && Timely(w, interval)
    ensures Timely(Step(w, interval, e), interval) && w.schedule.nextSend <= Step(w, interval, e).schedule.nextSend
    ensures w.clock <= Step(w, interval, e).clock
  {
  }

  lemma RecordedKept(w: World, interval: nat, e: Event)
    requires Enabled(w, e) && Timely(w, interval) && Recorded(w, interval)
    ensures Recorded(Step(w, interval, e), interval)
  {
    TimelyKept(w, interval, e);
  }

  lemma SpacedKept(w: World, interval: nat, e: Event)
    requires Enabled(w, e) && Recorded(w, interval) && Spaced(w.sent, interval) && QuietAfterBye(w.sent)
    ensures Spaced(Step(w, interval, e).sent, interval) && QuietAfterBye(Step(w, interval, e).sent)
  {
  }

  lemma TickApart(w: World, interval: nat, k: nat, pushAfter: nat)
    requires k < |w.ticks| && OneTask(w) && Timely(w, interval) && Recorded(w, interval) && Apart(w, interval)
    ensures Apart(Step(w, interval, Tick(k, pushAfter)), interval)
  {
    var v := Step(w, interval, Tick(k, pushAfter));
    assert w.pending == [] && |w.ticks| == 1 && v.ticks == [];
    forall i | 0 <= i < |v.sent| && |v.pending| > 0 ensures ApartFrom(v.sent[i], interval, v.pending[0].due) {
      assert i < |w.sent| ==> v.sent[i] == w.sent[i] && ApartFrom(w.sent[i], interval, w.ticks[k]);
    }
  }

  lemma ApartKept(w: World, interval: nat, e: Event)
    requires Enabled(w, e) && OneTask(w) && Timely(w, interval) && Recorded(w, interval) && Apart(w, interval)
    ensures Apart(Step(w, interval, e), interval)
  {
    match e
    case Tick(k, pushAfter) => TickApart(w, interval, k, pushAfter);
    case _ =>
  }

  lemma SentApartKept(w: World, interval: nat, e: Event)
    requires Enabled(w, e) && Timely(w, interval) && Recorded(w, interval) && Apart(w, interval) && SentApart(w.sent, interval)
    ensures SentApart(Step(w, interval, e).sent, interval)
  {
  }

  lemma StepKeeps(w: World, interval: nat, e: Event)
    requires Enabled(w, e) && Inv(w, interval)
    ensures Inv(Step(w, interval, e), interval)
  {
    OneTaskKept(w, interval, e);
    TimelyKept(w, interval, e);
    RecordedKept(w, interval, e);
    SpacedKept(w, interval, e);
    ApartKept(w, interval, e);
    SentApartKept(w, interval, e);
  }

  lemma {:induction false} RunKeeps(w: World, interval: nat, events: seq<Event>)
    requires RunOk(w, interval, events) && Inv(w, interval)
    ensures Inv(Run(w, interval, events), interval)
    decreases |events|
  {
    if events != [] {
      StepKeeps(w, interval, events[0]);
      RunKeeps(Step(w, interval, events[0]), interval, events[1..]);
    }
  }

  // ---------- the promises ----------

  /** In every interleaving of ticks, NACKs and BYEs: there is exactly one task queued
      or under way until a tick meets a BYE and none after that; the queued task is due
      no later than the next report plus the time its push took; a periodic report comes
      at least an interval after every earlier periodic report and NACK, from sending to
      sending and from clock reading to clock reading; and once a BYE is sent only BYEs
      follow. */
  lemma ScheduleHolds(interval: nat, now: nat, pushAfter: nat, events: seq<Event>)
    requires RunOk(Start(interval, now, pushAfter), interval, events)
    ensures var w := Run(Start(interval, now, pushAfter), interval, events);
            && OneTask(w) && Timely(w, interval) && QuietAfterBye(w.sent)
            && SentApart(w.sent, interval) && Spaced(w.sent, interval)
  {
    RunKeeps(Start(interval, now, pushAfter), interval, events);
  }

  /** When the queued task is due: after a tick that goes on, later than the next report
      by exactly the time between the tick's reading of the clock and its push. */
  lemma DueExactly(w: World, interval: nat, k: nat, pushAfter: nat)
    requires k < |w.ticks| && !Bye(w) && Timely(w, interval) && OneTask(w)
    ensures var v := Step(w, interval, Tick(k, pushAfter));
            && |v.pending| == 1
            && v.pending[0].due == v.schedule.nextSend + (v.clock - w.ticks[k])
            && (v.pending[0].due <= v.schedule.nextSend <==> v.clock == w.ticks[k])
  {
  }

  /** Once stopped, nothing is queued ever again. */
  lemma {:induction false} StoppedForGood(w: World, interval: nat, events: seq<Event>)
    requires RunOk(w, interval, events) && Inv(w, interval) && w.stopped
    ensures var v := Run(w, interval, events); v.stopped && v.pending == [] && v.ticks == []
    decreases |events|
  {
    if events != [] {
      StepKeeps(w, interval, events[0]);
      StoppedForGood(Step(w, interval, events[0]), interval, events[1..]);
    }
  }

  // ---------- exactly what is sent ----------

  predicate IsBye(e: Event) { e.SendBye? || e.ReceiveBye? }

  predicate HasBye(events: seq<Event>) {
    exists k :: 0 <= k < |events| && IsBye(events[k])
  }

  /** How many requests to send lost numbers, with at least one of them, come before any
      sent or received BYE. */
  function NacksAsked(events: seq<Event>): nat {
    if events == [] || IsBye(events[0]) then 0
    else NacksAsked(events[1..]) + if events[0].SendNack? && events[0].count > 0 then 1 else 0
  }

  function ByesAsked(events: seq<Event>): nat {
    if events == [] then 0 else ByesAsked(events[1..]) + if events[0].SendBye? then 1 else 0
  }

  function Number(sent: seq<Compound>, kind: Kind): nat {
    if sent == [] then 0 else Number(sent[..|sent| - 1], kind) + if sent[|sent| - 1].kind == kind then 1 else 0
  }

  /** When the next periodic report is due, by what was sent: an interval after the last
      report or NACK, or at first half an interval after the start. */
  function NextDue(sent: seq<Compound>, interval: nat, first: nat): nat {
    if sent == [] then first
    else
      var c := sent[|sent| - 1];
      if c.kind == ByeReport then NextDue(sent[..|sent| - 1], interval, first) else c.stamp + interval
  }

  lemma StepNumbers(w: World, interval: nat, e: Event)
    requires Enabled(w, e)
    ensures var v := Step(w, interval, e);
            && Number(v.sent, NackReport) == Number(w.sent, NackReport)
                                             + (if e.SendNack? && e.count > 0 && !Bye(w) then 1 else 0)
            && Number(v.sent, ByeReport) == Number(w.sent, ByeReport) + (if e.SendBye? then 1 else 0)
            && (Bye(v) <==> Bye(w) || IsBye(e))
  {
    var v := Step(w, interval, e);
    assert |v.sent| > |w.sent| ==> v.sent[..|v.sent| - 1] == w.sent;
    assert |v.sent| == |w.sent| ==> v.sent == w.sent;
  }

  lemma {:induction false} RunNumbers(w: World, interval: nat, events: seq<Event>)
    requires RunOk(w, interval, events)
    ensures var v := Run(w, interval, events);
            && Number(v.sent, NackReport) == Number(w.sent, NackReport) + (if Bye(w) then 0 else NacksAsked(events))
            && Number(v.sent, ByeReport) == Number(w.sent, ByeReport) + ByesAsked(events)
    decreases |events|
  {
    hide Number, Bye, Step;
    if events != [] {
      StepNumbers(w, interval, events[0]);
      RunNumbers(Step(w, interval, events[0]), interval, events[1..]);
    }
  }

  /** Over every run: the NACKs sent are one for each request with a lost number before
      any sent or received BYE, and the BYEs sent are one for each request. */
  lemma NacksSentExactly(interval: nat, now: nat, pushAfter: nat, events: seq<Event>)
    requires RunOk(Start(interval, now, pushAfter), interval, events)
    ensures var w := Run(Start(interval, now, pushAfter), interval, events);
            Number(w.sent, NackReport) == NacksAsked(events) && Number(w.sent, ByeReport) == ByesAsked(events)
  {
    RunNumbers(Start(interval, now, pushAfter), interval, events);
  }

  /** The schedule says when the next report is due, and knows of every BYE. */
  predicate DueKnown(w: World, interval: nat, first: nat) {
    w.schedule.nextSend == NextDue(w.sent, interval, first)
  }

  lemma DueKept(w: World, interval: nat, first: nat, e: Event)
    requires Enabled(w, e) && DueKnown(w, interval, first)
    ensures DueKnown(Step(w, interval, e), interval, first)
  {
    var v := Step(w, interval, e);
    assert |v.sent| > |w.sent| ==> v.sent[..|v.sent| - 1] == w.sent;
    assert |v.sent| == |w.sent| ==> v.sent == w.sent;
  }

  lemma {:induction false} RunDue(w: World, interval: nat, first: nat, events: seq<Event>)
    requires RunOk(w, interval, events) && DueKnown(w, interval, first)
    ensures DueKnown(Run(w, interval, events), interval, first)
    ensures Bye(Run(w, interval, events)) <==> Bye(w) || HasBye(events)
    decreases |events|
  {
    hide DueKnown, Bye, Step, Number, IsBye;
    if events != [] {
      var v := Step(w, interval, events[0]);
      DueKept(w, interval, first, events[0]);
      StepNumbers(w, interval, events[0]);
      RunDue(v, interval, first, events[1..]);
      forall k | 0 <= k < |events| && IsBye(events[k]) ensures IsBye(events[0]) || HasBye(events[1..]) {
        assert k > 0 ==> events[1..][k - 1] == events[k];
      }
      assert forall k :: 0 <= k < |events[1..]| ==> events[1..][k] == events[k + 1];
    }
  }

  /** What one more event adds to what was sent, when the next report is due at `due` and
      `quiet` says that a BYE came before: a tick sends a report if its reading is not
      before that, and a NACK goes out if there is something to request, both only before
      any BYE. A tick before any BYE queues the next one: an interval on, or for when the
      report is due. */
  predicate Adds(w: World, v: World, interval: nat, due: nat, quiet: bool, e: Event)
    requires Enabled(w, e)
  {
    match e
    case Tick(k, after) =>
      && v.sent == w.sent + (if !quiet && due <= w.ticks[k] then [Compound(Periodic, w.ticks[k], w.clock)] else [])
      && (!quiet ==>
            && |v.pending| == 1 && v.clock == w.clock + after
            && v.pending[0].due == v.clock + if due <= w.ticks[k] then interval else due - w.ticks[k])
    case SendNack(count, after) =>
      v.sent == w.sent + if count > 0 && !quiet then [Compound(NackReport, w.clock + after, w.clock)] else []
    case SendBye => v.sent == w.sent + [Compound(ByeReport, w.clock, w.clock)]
    case _ => v.sent == w.sent
  }

  lemma StepAdds(w: World, interval: nat, e: Event)
    requires Enabled(w, e) && OneTask(w)
    ensures Adds(w, Step(w, interval, e), interval, w.schedule.nextSend, Bye(w), e)
  {
  }

  /** After any run, by the events so far and the record alone. */
  lemma SentExactly(interval: nat, now: nat, pushAfter: nat, events: seq<Event>, e: Event)
    requires RunOk(Start(interval, now, pushAfter), interval, events)
    requires Enabled(Run(Start(interval, now, pushAfter), interval, events), e)
    ensures var w := Run(Start(interval, now, pushAfter), interval, events);
            Adds(w, Step(w, interval, e), interval, NextDue(w.sent, interval, now + interval / 2), HasBye(events), e)
  {
    hide Run, RunOk, Step, Adds, HasBye, NextDue;
    var start := Start(interval, now, pushAfter);
    StartKnown(interval, now, pushAfter);
    RunDue(start, interval, now + interval / 2, events);
    RunKeeps(start, interval, events);
    StepAdds(Run(start, interval, events), interval, e);
  }

  lemma StartKnown(interval: nat, now: nat, pushAfter: nat)
    ensures Inv(Start(interval, now, pushAfter), interval) && !Bye(Start(interval, now, pushAfter))
    ensures DueKnown(Start(interval, now, pushAfter), interval, now + interval / 2)
  {
  }

  // ---------- lateness ----------

  /** No queued task is due after the next report. */
  predicate OnTime(w: World) {
    forall k :: 0 <= k < |w.pending| ==> w.pending[k].due <= w.schedule.nextSend
  }

  predicate AlwaysOnTime(w: World, interval: nat, events: seq<Event>)
    requires RunOk(w, interval, events)
    decreases |events|
  {
    OnTime(w) && (events == [] || AlwaysOnTime(Step(w, interval, events[0]), interval, events[1..]))
  }

  /** A tick that goes on pushes its successor at the very time it read. */
  predicate PromptStep(w: World, e: Event)
    requires Enabled(w, e)
  {
    e.Tick? && !Bye(w) ==> w.clock + e.pushAfter == w.ticks[e.tick]
  }

  predicate Prompt(w: World, interval: nat, events: seq<Event>)
    requires RunOk(w, interval, events)
    decreases |events|
  {
    events == [] || (PromptStep(w, events[0]) && Prompt(Step(w, interval, events[0]), interval, events[1..]))
  }

  lemma StepOnTime(w: World, interval: nat, e: Event)
    requires Enabled(w, e) && Inv(w, interval) && OnTime(w)
    ensures OnTime(Step(w, interval, e)) <==> PromptStep(w, e)
  {
    if e.Tick? && !Bye(w) {
      DueExactly(w, interval, e.tick, e.pushAfter);
    }
  }

  lemma {:induction false} RunOnTime(w: World, interval: nat, events: seq<Event>)
    requires RunOk(w, interval, events) && Inv(w, interval)
    ensures AlwaysOnTime(w, interval, events) <==> OnTime(w) && Prompt(w, interval, events)
    decreases |events|
  {
    hide Inv, OnTime, PromptStep;
    if events != [] {
      var v := Step(w, interval, events[0]);
      StepKeeps(w, interval, events[0]);
      RunOnTime(v, interval, events[1..]);
      if OnTime(w) {
        StepOnTime(w, interval, events[0]);
      }
    }
  }

  /** Over every run: no task is ever due after the next report if and only if the first
      task and every tick that goes on are pushed at the very time that was read. */
  lemma OnTimeExactly(interval: nat, now: nat, pushAfter: nat, events: seq<Event>)
    requires RunOk(Start(interval, now, pushAfter), interval, events)
    ensures AlwaysOnTime(Start(interval, now, pushAfter), interval, events) <==>
            pushAfter == 0 && Prompt(Start(interval, now, pushAfter), interval, events)
  {
    RunOnTime(Start(interval, now, pushAfter), interval, events);
    assert Start(interval, now, pushAfter).pending[0].due == now + pushAfter + interval / 2;
  }

  /** A run with a late task: the first tick waits for the lock for `wait` milliseconds,
      and the task it pushes is due that much after the next report. */
  lemma LateRun(interval: nat, now: nat, wait: nat) returns (events: seq<Event>)
    requires wait > 0
    ensures events == [Advance(interval / 2), Fire(0), Advance(wait), Tick(0, 0)]
    ensures RunOk(Start(interval, now, 0), interval, events)
    ensures var w := Run(Start(interval, now, 0), interval, events);
            && |w.sent| == 1 && w.sent[0].at == w.sent[0].stamp + wait
            && |w.pending| == 1 && w.pending[0].due == w.schedule.nextSend + wait
  {
    events := [Advance(interval / 2), Fire(0), Advance(wait), Tick(0, 0)];
    var w0 := Start(interval, now, 0);
    var w1 := Step(w0, interval, events[0]);
    var w2 := Step(w1, interval, events[1]);
    var w3 := Step(w2, interval, events[2]);
    var w4 := Step(w3, interval, events[3]);
    OneStep(w3, interval, events[3..], w4);
    OneStep(w2, interval, events[2..], w4);
    OneStep(w1, interval, events[1..], w4);
    OneStep(w0, interval, events, w4);
  }

  lemma OneStep(w: World, interval: nat, events: seq<Event>, end: World)
    requires events != [] && Enabled(w, events[0]) && RunOk(Step(w, interval, events[0]), interval, events[1..])
    requires Run(Step(w, interval, events[0]), interval, events[1..]) == end
    ensures RunOk(w, interval, events) && Run(w, interval, events) == end
  {
  }
}

/** The round-robin scheduler as a state machine (src/kernel/process.cpp, src/kernel/syscall.cpp). */
module SchedulerSpec {
  import opened Common
  import opened Processes

  /** The ready queue, the running process, the idle process and every process state. */
  datatype Sched<P(==)> = Sched(queue: seq<P>, current: P, idle: P, states: map<P, State>)

  ghost predicate Distinct<P>(s: seq<P>) {
    forall i, j :: 0 <= i < j < |s| ==> s[i] != s[j]
  }

  /** The queue has no duplicates, does not hold the current process, and holds only
      ready processes. */
  ghost predicate Inv<P>(s: Sched<P>) {
    Distinct(s.queue) && s.current !in s.queue && s.current in s.states && s.idle in s.states &&
    forall p :: p in s.queue ==> p in s.states && s.states[p] == Ready
  }

  // ---------------------------------------------------------------------
  // The operations.
  // ---------------------------------------------------------------------

  function Add<P>(s: Sched<P>, p: P): Sched<P> {
    s.(queue := s.queue + [p], states := s.states[p := Ready])
  }

  function Without<P(==)>(q: seq<P>, p: P): seq<P> {
    if q == [] then [] else if q[0] == p then q[1..] else [q[0]] + Without(q[1..], p)
  }

  function Remove<P(==)>(s: Sched<P>, p: P): Sched<P> { s.(queue := Without(s.queue, p)) }

  function Next<P>(s: Sched<P>): (P, Sched<P>) {
    if s.queue == [] then (s.idle, s) else (s.queue[0], s.(queue := s.queue[1..]))
  }

  function Schedule<P(==)>(s: Sched<P>): Sched<P>
    requires s.current in s.states
  {
    var queued := if s.states[s.current] == Running then Add(s, s.current) else s;
    var (next, rest) := Next(queued);
    if next == s.current then rest
    else rest.(current := next, states := rest.states[next := Running])
  }

  /** What sys_exit does to the running process. */
  function Exit<P(==)>(s: Sched<P>): Sched<P>
    requires s.current in s.states
  {
    Schedule(Remove(s.(states := s.states[s.current := Terminated]), s.current))
  }

  // ---------------------------------------------------------------------
  // Runs.
  // ---------------------------------------------------------------------

  /** Admit stands for a call of scheduler_add on a process that is neither queued nor running. */
  datatype Event<P> = Admit(p: P) | Withdraw(p: P) | Tick | ExitCurrent

  function Step<P(==)>(s: Sched<P>, e: Event<P>): Sched<P>
    requires s.current in s.states
  {
    match e
    case Admit(p) => if p in s.queue || p == s.current then s else Add(s, p)
    case Withdraw(p) => Remove(s, p)
    case Tick => Schedule(s)
    case ExitCurrent => Exit(s)
  }

  /** The state after the first n events. */
  ghost function Run<P>(s: Sched<P>, events: seq<Event<P>>, n: nat): (r: Sched<P>)
    requires Inv(s) && n <= |events|
    ensures Inv(r) && r.idle == s.idle
  {
    if n == 0 then s
    else
      var before := Run(s, events, n - 1);
      StepInv(before, events[n - 1]);
      Step(before, events[n - 1])
  }

  lemma {:induction false} WithoutOnce<P>(q: seq<P>, p: P)
    requires Distinct(q)
    ensures Distinct(Without(q, p)) && p !in Without(q, p)
    ensures forall x :: x in Without(q, p) ==> x in q
    ensures forall x :: x in q && x != p ==> x in Without(q, p)
  {
    if q != [] {
      var rest := q[1..];
      assert forall i :: 0 <= i < |rest| ==> rest[i] == q[i + 1];
      WithoutOnce(rest, p);
      assert q[0] !in rest;
      assert forall x :: x in q <==> x == q[0] || x in rest;
    }
  }

  /** Removing a process that is not queued changes nothing. */
  lemma {:induction false} WithoutAbsent<P>(q: seq<P>, p: P)
    requires p !in q
    ensures Without(q, p) == q
  {
    if q != [] { WithoutAbsent(q[1..], p); }
  }

  lemma ExitIs<P>(s: Sched<P>)
    requires Inv(s)
    ensures Inv(s.(states := s.states[s.current := Terminated]))
    ensures Exit(s) == Schedule(s.(states := s.states[s.current := Terminated]))
  {
    WithoutAbsent(s.queue, s.current);
  }

  lemma ScheduleInv<P>(s: Sched<P>)
    requires Inv(s)
    ensures Inv(Schedule(s)) && Schedule(s).idle == s.idle
  {
    var queued := if s.states[s.current] == Running then Add(s, s.current) else s;
    assert Distinct(queued.queue);
    assert forall p :: p in queued.queue ==> queued.states[p] == Ready;
    if queued.queue != [] {
      assert queued.queue == [queued.queue[0]] + queued.queue[1..];
    }
  }

  /** Every step of every run keeps the queue well formed. */
  lemma StepInv<P>(s: Sched<P>, e: Event<P>)
    requires Inv(s)
    ensures Inv(Step(s, e)) && Step(s, e).idle == s.idle
  {
    match e
    case Admit(p) =>
    case Withdraw(p) =>
      WithoutOnce(s.queue, p);
      assert forall x :: x in Without(s.queue, p) ==> x in s.queue;
    case Tick => ScheduleInv(s);
    case ExitCurrent =>
      ExitIs(s);
      ScheduleInv(s.(states := s.states[s.current := Terminated]));
  }

  // ---------------------------------------------------------------------
  // Who runs next.
  // ---------------------------------------------------------------------

  /** The state of every process except current and p is the same in both. */
  ghost predicate OthersKeep<P>(s: Sched<P>, t: Sched<P>, p: P) {
    t.states.Keys == s.states.Keys && t.idle == s.idle &&
    forall q :: q in s.states && q != s.current && q != p ==> t.states[q] == s.states[q]
  }

  /** After a call of the scheduler the head of the queue is current and running, and the old
      process waits behind the others if it was running. With an empty queue a running process
      stays current but only ready, and one that is not running gives way to the idle process. */
  lemma ScheduleOutcome<P>(s: Sched<P>)
    requires Inv(s)
    ensures var t := Schedule(s);
            s.current in t.states && t.current in t.states && OthersKeep(s, t, t.current) &&
            if s.queue != [] then
              t.current == s.queue[0] && t.states[t.current] == Running &&
              (if s.states[s.current] == Running
               then t.queue == s.queue[1..] + [s.current] && t.states[s.current] == Ready
               else t.queue == s.queue[1..] && t.states[s.current] == s.states[s.current])
            else
              t.queue == [] &&
              (if s.states[s.current] == Running then t.current == s.current && t.states[s.current] == Ready
               else t.current == s.idle && (s.current != s.idle ==> t.states[s.idle] == Running) &&
                    (t.states[s.current] == s.states[s.current]))
  {
    if s.states[s.current] == Running && s.queue != [] {
      assert s.queue + [s.current] == [s.queue[0]] + (s.queue[1..] + [s.current]);
    }
  }

  /** Whoever becomes current is running. */
  lemma NewcomerRuns<P>(s: Sched<P>)
    requires Inv(s) && Schedule(s).current != s.current
    ensures var t := Schedule(s); t.current in t.states && t.states[t.current] == Running
  {
    ScheduleOutcome(s);
  }

  /** After an exit the head of the queue runs, or the idle process if nobody waits; the exited
      process is marked and in no place. */
  lemma ExitOutcome<P>(s: Sched<P>)
    requires Inv(s)
    ensures var t := Exit(s);
            t.current in t.states && s.current in t.states && OthersKeep(s, t, t.current) &&
            if s.queue != [] then
              t.current == s.queue[0] && t.queue == s.queue[1..] &&
              t.states[t.current] == Running && t.states[s.current] == Terminated
            else
              t.current == s.idle && t.queue == [] &&
              if s.current == s.idle then t.states[s.idle] == Terminated
              else t.states[s.idle] == Running && t.states[s.current] == Terminated
  {
    ExitIs(s);
    ScheduleOutcome(s.(states := s.states[s.current := Terminated]));
  }

  /** Removing a process takes it out and leaves the others in order. */
  lemma {:induction false} WithoutIs<P>(q: seq<P>, p: P, i: nat)
    requires Distinct(q) && i < |q| && q[i] == p
    ensures Without(q, p) == q[..i] + q[i + 1..]
  {
    if i > 0 {
      assert forall j :: 0 <= j < |q[1..]| ==> q[1..][j] == q[j + 1];
      WithoutIs(q[1..], p, i - 1);
      assert [q[0]] + (q[1..][..i - 1] + q[1..][i..]) == q[..i] + q[i + 1..];
    }
  }

  lemma LeavesDistinct<P>(q: seq<P>, i: nat, rest: seq<P>)
    requires Distinct(q) && i < |q| && rest == q[..i] + q[i + 1..]
    ensures Distinct(rest) && forall j :: 0 <= j < |rest| ==> rest[j] == q[if j < i then j else j + 1]
  {}

  // ---------------------------------------------------------------------
  // Rotation.
  // ---------------------------------------------------------------------

  function Ticks<P(==)>(s: Sched<P>, k: nat): (r: Sched<P>)
    requires s.current in s.states
    ensures r.current in r.states
  {
    if k == 0 then s else Schedule(Ticks(s, k - 1))
  }

  /** The running process followed by the queue. */
  function Ring<P>(s: Sched<P>): seq<P> { [s.current] + s.queue }

  function RotateLeft<P>(ring: seq<P>, k: nat): seq<P>
    requires k <= |ring|
  {
    ring[k..] + ring[..k]
  }

  /** The state whose ring is the original one turned by k places. */
  ghost predicate Turned<P>(s: Sched<P>, t: Sched<P>, k: nat)
    requires k <= |Ring(s)|
  {
    Ring(t) == RotateLeft(Ring(s), k) && t.idle == s.idle && t.states.Keys == s.states.Keys &&
    forall p :: p in s.states ==>
      t.states[p] == if p == t.current then Running else if p in Ring(s) then Ready else s.states[p]
  }

  lemma TurnRing<P>(s: Sched<P>, t: Sched<P>, k: nat)
    requires Inv(s) && Inv(t) && k < |Ring(s)|
    requires Ring(t) == RotateLeft(Ring(s), k) && t.states[t.current] == Running && t.queue != []
    ensures Ring(Schedule(t)) == RotateLeft(Ring(s), k + 1)
    ensures Ring(Schedule(t)) == t.queue + [t.current]
  {
    var ring, u := Ring(s), Schedule(t);
    var added := t.queue + [t.current];
    assert added[0] == t.queue[0];
    assert Ring(u) == [added[0]] + added[1..];
    assert Ring(u) == added;
    assert added == Ring(t)[1..] + [Ring(t)[0]];
    assert RotateLeft(ring, k)[0] == ring[k];
    assert RotateLeft(ring, k)[1..] == ring[k + 1..] + ring[..k];
    assert ring[..k + 1] == ring[..k] + [ring[k]];
  }

  lemma TurnOnce<P>(s: Sched<P>, t: Sched<P>, k: nat)
    requires Inv(s) && Inv(t) && s.queue != [] && k < |Ring(s)|
    requires Turned(s, t, k) && t.states[t.current] == Running
    ensures Turned(s, Schedule(t), k + 1) && Schedule(t).states[Schedule(t).current] == Running
  {
    assert |Ring(t)| == |Ring(s)|;
    TurnRing(s, t, k);
    InRing(s, t, k);
  }

  lemma InRing<P>(s: Sched<P>, t: Sched<P>, k: nat)
    requires k <= |Ring(s)| && Ring(t) == RotateLeft(Ring(s), k)
    ensures forall p :: p in t.queue || p == t.current <==> p in Ring(s)
  {
    forall p ensures p in Ring(t) <==> p in Ring(s) {
      assert Ring(s) == Ring(s)[..k] + Ring(s)[k..];
    }
    assert forall p :: p in Ring(t) <==> p in t.queue || p == t.current;
  }

  lemma {:induction false} TicksTurn<P>(s: Sched<P>, k: nat, t: Sched<P>)
    requires Inv(s) && s.states[s.current] == Running && s.queue != [] && k <= |Ring(s)| && t == Ticks(s, k)
    ensures Inv(t) && Turned(s, t, k) && t.states[t.current] == Running
  {
    if k == 0 {
      NotTurned(s);
    } else {
      var i, before := k - 1, Ticks(s, k - 1);
      TicksTurn(s, i, before);
      TurnNext(s, before, i, t);
    }
  }

  lemma TurnNext<P>(s: Sched<P>, before: Sched<P>, i: nat, t: Sched<P>)
    requires Inv(s) && Inv(before) && s.queue != [] && i < |Ring(s)|
    requires Turned(s, before, i) && before.states[before.current] == Running && t == Schedule(before)
    ensures Inv(t) && Turned(s, t, i + 1) && t.states[t.current] == Running
  {
    TurnOnce(s, before, i);
    ScheduleInv(before);
  }

  lemma NotTurned<P>(s: Sched<P>)
    requires Inv(s) && s.states[s.current] == Running
    ensures Turned(s, s, 0)
  {
    assert RotateLeft(Ring(s), 0) == Ring(s);
  }

  /** With a running process and a non-empty queue, as many ticks as there are processes
      make each of them current exactly once, in order, and restore the whole state. */
  lemma FullRound<P>(s: Sched<P>)
    requires Inv(s) && s.states[s.current] == Running && s.queue != []
    ensures Distinct(Ring(s))
    ensures forall k :: 0 <= k < |Ring(s)| ==> Ticks(s, k).current == Ring(s)[k]
    ensures Ticks(s, |Ring(s)|) == s
  {
    forall k: nat | k < |Ring(s)| ensures Ticks(s, k).current == Ring(s)[k] {
      TicksTurn(s, k, Ticks(s, k));
      TurnedCurrent(s, Ticks(s, k), k);
    }
    TicksTurn(s, |Ring(s)|, Ticks(s, |Ring(s)|));
    TurnedFully(s, Ticks(s, |Ring(s)|), |Ring(s)|);
  }

  lemma TurnedCurrent<P>(s: Sched<P>, t: Sched<P>, k: nat)
    requires k < |Ring(s)| && Turned(s, t, k)
    ensures t.current == Ring(s)[k]
  {
    assert Ring(t)[0] == RotateLeft(Ring(s), k)[0];
  }

  lemma TurnedFully<P>(s: Sched<P>, t: Sched<P>, n: nat)
    requires Inv(s) && s.states[s.current] == Running && n == |Ring(s)| && Turned(s, t, n)
    ensures t == s
  {
    assert Ring(t) == Ring(s);
    assert t.current == Ring(t)[0] && t.queue == Ring(t)[1..];
    assert s.current == Ring(s)[0] && s.queue == Ring(s)[1..];
    assert t.states == s.states;
  }

  // ---------------------------------------------------------------------
  // Which processes are kept.
  // ---------------------------------------------------------------------

  /** The processes the scheduler can still run without being told about them again. */
  function Members<P>(s: Sched<P>): set<P> { {s.current} + set p | p in s.queue }

  /** A tick loses no process exactly when the current one is marked running, or nothing
      else is ready and the current one is the idle process. */
  lemma TickKeepsMembers<P>(s: Sched<P>)
    requires Inv(s)
    ensures Members(Schedule(s)) == Members(s) <==>
            s.states[s.current] == Running || (s.queue == [] && s.current == s.idle)
  {
    var t := Schedule(s);
    if s.states[s.current] == Running {
      var all := s.queue + [s.current];
      assert all == [all[0]] + all[1..];
      assert forall p :: p in all <==> p in Members(s);
      assert forall p :: p in Members(t) <==> p in all;
    } else if s.queue != [] {
      assert s.queue == [s.queue[0]] + s.queue[1..];
      assert s.current in Members(s) && s.current !in Members(t);
    }
  }

  /** The marking is lost when a process runs alone: after one tick it is current but not
      running, and once another process is admitted the next tick drops it for good. */
  lemma LoneProcessDropped<P>(s: Sched<P>, other: P)
    requires Inv(s) && s.queue == [] && s.states[s.current] == Running && other != s.current
    ensures var t := Schedule(s);
            t.current == s.current && t.states[t.current] == Ready && t.queue == [] &&
            var u := Schedule(Step(t, Admit(other)));
            u.current == other && s.current !in Members(u) && u.states[s.current] == Ready
  {
    var t := Schedule(s);
    assert s.queue + [s.current] == [s.current];
    assert t.queue == [];
    assert Step(t, Admit(other)).queue == [other];
  }

  /** A process other than idle that is neither current nor queued never runs again unless
      it is admitted again. */
  lemma {:induction false} NeverAgain<P>(s: Sched<P>, events: seq<Event<P>>, n: nat, p: P)
    requires Inv(s) && n <= |events| && p != s.idle && p !in Members(s)
    requires forall i :: 0 <= i < n ==> events[i] != Admit(p)
    ensures p !in Members(Run(s, events, n))
  {
    if n > 0 {
      NeverAgain(s, events, n - 1, p);
      StepKeepsOut(Run(s, events, n - 1), events[n - 1], p);
    }
  }

  lemma StepKeepsOut<P>(s: Sched<P>, e: Event<P>, p: P)
    requires Inv(s) && p != s.idle && p !in Members(s) && e != Admit(p)
    ensures p !in Members(Step(s, e))
  {
    match e
    case Admit(q) =>
    case Withdraw(q) => WithoutOnce(s.queue, q);
    case Tick => ScheduleKeepsOut(s, p);
    case ExitCurrent =>
      ExitIs(s);
      ScheduleKeepsOut(s.(states := s.states[s.current := Terminated]), p);
  }

  lemma ScheduleKeepsOut<P>(s: Sched<P>, p: P)
    requires s.current in s.states && p != s.idle && p !in s.queue
    requires p == s.current ==> s.states[p] != Running
    requires p == s.current || p !in Members(s)
    ensures p !in Members(Schedule(s))
  {
    var queued := if s.states[s.current] == Running then Add(s, s.current) else s;
    assert p !in queued.queue;
    if queued.queue != [] { assert queued.queue == [queued.queue[0]] + queued.queue[1..]; }
  }

  /** A process other than idle that exits is never current again, whatever happens later. */
  lemma ExitIsFinal<P>(s: Sched<P>, events: seq<Event<P>>, n: nat)
    requires Inv(s) && s.current != s.idle && n <= |events|
    requires forall i :: 0 <= i < n ==> events[i] != Admit(s.current)
    ensures Inv(Exit(s)) && s.current !in Members(Run(Exit(s), events, n))
  {
    StepInv(s, ExitCurrent);
    ExitIs(s);
    ScheduleKeepsOut(s.(states := s.states[s.current := Terminated]), s.current);
    NeverAgain(Exit(s), events, n, s.current);
  }
}

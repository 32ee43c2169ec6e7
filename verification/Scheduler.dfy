/** The scheduler on linked process objects (src/kernel/process.cpp, src/kernel/syscall.cpp). */
module Scheduler {
  import opened Common
  import opened Processes
  import opened SchedulerSpec

  class ReadyQueue {
    var head: Process?
    var tail: Process?
    var current: Process
    const idle: Process            // entry 0 of the process table
    ghost var queue: seq<Process>  // the processes from head to tail
    ghost const procs: set<Process>

    /** Process i of the queue links to process i + 1. */
    ghost predicate Linked(q: seq<Process>, i: nat)
      requires i < |q|
      reads q[i]
    {
      q[i].next == if i + 1 < |q| then q[i + 1] else null
    }

    /** The linked list from head to tail is q. */
    ghost predicate ListIs(q: seq<Process>)
      reads this, q
    {
      head == (if q == [] then null else q[0]) &&
      tail == (if q == [] then null else q[|q| - 1]) &&
      forall i :: 0 <= i < |q| ==> Linked(q, i)
    }

    /** The linked list from head to tail is the queue. */
    ghost predicate Chain()
      reads this, procs
    {
      (forall p :: p in queue ==> p in procs) && ListIs(queue) && Distinct(queue)
    }

    ghost predicate Valid()
      reads this, procs
    {
      idle in procs && current in procs && Chain() && Inv(View())
    }

    /** The abstract scheduler state. */
    ghost function View(): Sched<Process>
      reads this, procs
    {
      Sched(queue, current, idle, map p | p in procs :: p.state)
    }

    /** Starts with the idle process running and nothing queued. */
    constructor (idle: Process, ghost procs: set<Process>)
      requires idle in procs && idle.state == Running
      ensures Valid() && queue == [] && current == idle && this.idle == idle && this.procs == procs
    {
      this.idle, current, head, tail := idle, idle, null, null;
      queue := [];
      this.procs := procs;
    }

    /** scheduler_add. The list grows by p if and only if p is not queued yet: otherwise p, which
        now ends the list, is also a link inside it. A process that runs may be added, but only
        one that does not keeps the scheduler valid. */
    method Add(p: Process)
      requires Valid() && p in procs
      modifies this, procs
      ensures ListIs(old(queue) + [p]) <==> p !in old(queue)
      ensures p !in old(queue) ==> Chain() && View() == SchedulerSpec.Add(old(View()), p)
      ensures p !in old(queue) && p != old(current) ==> Valid()
    {
      Append(p);
    }

    method Append(p: Process)
      requires Chain() && p in procs
      modifies this`head, this`tail, this`queue, p`state, procs`next
      ensures ListIs(old(queue) + [p]) <==> p !in old(queue)
      ensures p !in old(queue) ==> Chain() && queue == old(queue) + [p] && p.state == Ready
      ensures p !in old(queue) ==> View() == SchedulerSpec.Add(old(View()), p)
    {
      ghost var q := queue;
      p.state := Ready;
      p.next := null;
      if head == null {
        head := p;
        tail := p;
      } else {
        tail.next := p;
        tail := p;
      }
      if p in q {
        ghost var i :| 0 <= i < |q| && q[i] == p;
        assert !Linked(q + [p], i) || !Linked(q + [p], |q|);
      } else {
        queue := q + [p];
        forall i | 0 <= i < |queue| ensures Linked(queue, i) {
          if i < |q| { assert old(Linked(queue, i)); }
        }
      }
    }

    /** scheduler_remove: unlinks a process if it is queued. */
    method Remove(p: Process)
      requires Valid()
      modifies this`head, this`tail, this`queue, procs`next
      ensures Valid() && View() == SchedulerSpec.Remove(old(View()), p)
    {
      Unlink(p);
      WithoutOnce(old(queue), p);
    }

    method Unlink(p: Process)
      requires Chain()
      modifies this`head, this`tail, this`queue, procs`next
      ensures Chain() && queue == Without(old(queue), p)
    {
      WithoutOnce(queue, p);
      if head == null { return; }
      assert Linked(queue, 0);
      if head == p {
        head := p.next;
        if tail == p { tail := null; }
        queue := queue[1..];
        forall i | 0 <= i < |queue| ensures Linked(queue, i) { assert old(Linked(queue, i + 1)); }
        return;
      }
      var cur: Process := head;
      ghost var i := 0;
      while cur.next != null
        invariant i < |queue| && cur == queue[i] && Chain() && queue == old(queue)
        invariant forall j :: 0 <= j <= i ==> queue[j] != p
        decreases |queue| - i
      {
        assert Linked(queue, i);
        if cur.next == p {
          Bypass(cur, p, i);
          return;
        }
        cur := cur.next;
        i := i + 1;
      }
      assert Linked(queue, i);
      WithoutAbsent(queue, p);
    }

    /** Takes p, which stands behind cur, out of the list. */
    method Bypass(cur: Process, p: Process, ghost i: nat)
      requires Chain() && i + 1 < |queue| && queue[i] == cur && queue[i + 1] == p
      modifies this`tail, this`queue, cur`next
      ensures Chain() && queue == Without(old(queue), p)
    {
      assert Linked(queue, i) && Linked(queue, i + 1);
      cur.next := p.next;
      if tail == p { tail := cur; }
      ghost var at := i + 1;
      ghost var rest := queue[..at] + queue[at + 1..];
      WithoutIs(queue, p, at);
      LeavesDistinct(queue, at, rest);
      queue := rest;
      forall j | 0 <= j < |queue| ensures Linked(queue, j) {
        assert old(Linked(queue, if j <= i then j else j + 1));
      }
    }

    /** scheduler_next: takes the head of the queue, or the idle process. */
    method Next() returns (next: Process)
      requires Chain() && idle in procs
      modifies this`head, this`tail, this`queue
      ensures Chain() && next in procs
      ensures (next, queue) == if old(queue) == [] then (idle, []) else (old(queue)[0], old(queue)[1..])
    {
      if head == null { return idle; }
      assert Linked(queue, 0) && queue[0] in queue;
      next := head;
      head := next.next;
      if head == null { tail := null; }
      queue := queue[1..];
      forall i | 0 <= i < |queue| ensures Linked(queue, i) { assert old(Linked(queue, i + 1)); }
    }

    /** scheduler_schedule, up to the context switch itself. */
    method Schedule()
      requires Chain() && current in procs && idle in procs && Inv(View())
      modifies this`head, this`tail, this`queue, this`current, procs`state, procs`next
      ensures Valid() && View() == SchedulerSpec.Schedule(old(View()))
    {
      ghost var s := View();
      ScheduleInv(s);
      var previous := current;
      if previous.state == Running {
        previous.state := Ready;
        Append(previous);
      }
      assert View() == if s.states[s.current] == Running then SchedulerSpec.Add(s, s.current) else s;
      Dispatch(previous);
    }

    method Dispatch(previous: Process)
      requires Chain() && idle in procs && current in procs && previous in procs
      modifies this`head, this`tail, this`queue, this`current, procs`state
      ensures Chain() && current in procs
      ensures var (next, rest) := SchedulerSpec.Next(old(View()));
              View() == if next == previous then rest
                        else rest.(current := next, states := rest.states[next := Running])
    {
      var next := Next();
      ghost var rest := View();
      assert rest.states == old(View()).states;
      if next == previous { return; }
      next.state := Running;
      current := next;
      assert View().states == rest.states[next := Running];
    }

    /** The part of sys_exit that concerns a kernel process. */
    method Exit()
      requires Valid()
      modifies this`head, this`tail, this`queue, this`current, procs`state, procs`next
      ensures Valid() && View() == SchedulerSpec.Exit(old(View()))
    {
      ExitIs(View());
      Retire();
      Schedule();
    }

    /** Marks the current process, which is not queued, and unlinks it. */
    method Retire()
      requires Valid()
      modifies this`head, this`tail, this`queue, current`state, procs`next
      ensures Chain() && View() == old(View()).(states := old(View()).states[current := Terminated])
    {
      ghost var s := View();
      WithoutAbsent(queue, current);
      current.state := Terminated;
      assert View() == s.(states := s.states[s.current := Terminated]);
      label marked:
      Unlink(current);
      assert queue == s.queue && View().states == old@marked(View()).states;
    }
  }
}

/** The round-robin scheduler: a ready queue of at most 64 processes and an index
    that moves on by one at every call. */
module Scheduler {
  import opened Options
  import opened Processes
  import opened ProcessTable

  const MAX_PROCESSES: nat := 64

  // ----- the specification

  /** The index stays inside a non-empty queue and is 0 for an empty one. */
  ghost predicate IndexOk(size: nat, index: nat) { index < size || (size == 0 && index == 0) }

  function NextIndex(size: nat, index: nat): (i: nat)
    requires size > 0
    ensures i < size
  {
    (index + 1) % size
  }

  /** One scheduling decision for the queue of pids `slots`: the next slot is switched
      to if it is ready. */
  function Decide(t: Table, slots: seq<nat>, index: nat): (t': Table)
    requires slots != []
  {
    var k := Find(t.list, slots[NextIndex(|slots|, index)]);
    if k.Some? && t.list[k.value].status == Ready then Processes.Switch(t, k.value) else t
  }

  function IndexAfter(size: nat, index: nat, calls: nat): (i: nat)
    requires size > 0 && index < size
    ensures i < size
  {
    if calls == 0 then index else NextIndex(size, IndexAfter(size, index, calls - 1))
  }

  function TableAfter(t: Table, slots: seq<nat>, index: nat, calls: nat): (t': Table)
    requires slots != [] && index < |slots|
  {
    if calls == 0 then t
    else Decide(TableAfter(t, slots, index, calls - 1), slots, IndexAfter(|slots|, index, calls - 1))
  }

  /** The process is listed and ready or running. */
  ghost predicate CanRun(t: Table, pid: nat) {
    Find(t.list, pid).Some? && t.list[Find(t.list, pid).value].status in {Ready, Running}
  }

  lemma NextIs(size: nat, index: nat)
    requires index < size
    ensures NextIndex(size, index) == if index + 1 < size then index + 1 else 0
  {
  }

  lemma {:induction false} IndexAfterIs(size: nat, index: nat, calls: nat)
    requires index < size && calls <= size
    ensures IndexAfter(size, index, calls) == if index + calls < size then index + calls else index + calls - size
  {
    if calls > 0 {
      IndexAfterIs(size, index, calls - 1);
      NextIs(size, IndexAfter(size, index, calls - 1));
    }
  }

  lemma SwitchKeepsPids(t: Table, i: nat)
    requires i < |t.list|
    ensures var list := Processes.Switch(t, i).list;
            |list| == |t.list| && forall k :: 0 <= k < |list| ==> list[k].pid == t.list[k].pid
  {
    hide Find;
  }

  /** A decision keeps the invariant, and every process that can run can still run, whatever
      else is queued. */
  lemma DecideKeepsRunnable(t: Table, slots: seq<nat>, index: nat, pid: nat)
    requires Inv(t) && slots != []
    ensures var t' := Decide(t, slots, index); Inv(t') && (CanRun(t, pid) ==> CanRun(t', pid))
  {
    var t', next := Decide(t, slots, index), Find(t.list, slots[NextIndex(|slots|, index)]);
    if next.Some? && t.list[next.value].status == Ready {
      SwitchKeepsInv(t, next.value);
      SameFind(t.list, t'.list, pid);
    }
  }

  /** The process at the next slot is current after a decision exactly when it can run or was
      current already. */
  lemma DecideMakesCurrent(t: Table, slots: seq<nat>, index: nat)
    requires Inv(t) && slots != []
    ensures var pid := slots[NextIndex(|slots|, index)];
            Decide(t, slots, index).current == Some(pid) <==> CanRun(t, pid) || t.current == Some(pid)
  {
  }

  lemma {:induction false} CallsKeepRunnable(t: Table, slots: seq<nat>, index: nat, calls: nat, pid: nat)
    requires Inv(t) && slots != [] && index < |slots|
    ensures Inv(TableAfter(t, slots, index, calls)) && (CanRun(t, pid) ==> CanRun(TableAfter(t, slots, index, calls), pid))
  {
    if calls > 0 {
      CallsKeepRunnable(t, slots, index, calls - 1, pid);
      DecideKeepsRunnable(TableAfter(t, slots, index, calls - 1), slots, IndexAfter(|slots|, index, calls - 1), pid);
    }
  }

  /** The call of a round that visits a slot. */
  function VisitOf(size: nat, index: nat, slot: nat): (calls: nat)
    requires index < size && slot < size
    ensures 1 <= calls <= size
  {
    if slot > index then slot - index else slot + size - index
  }

  /** A round visits every slot exactly once. */
  lemma RoundVisitsOnce(size: nat, index: nat, slot: nat, calls: nat)
    requires index < size && slot < size && 1 <= calls <= size
    ensures IndexAfter(size, index, calls) == slot <==> calls == VisitOf(size, index, slot)
  {
    IndexAfterIs(size, index, calls);
  }

  /** In as many calls as the queue is long, every queued process that can run becomes the
      current one, at the visit of its slot, whatever the state of the others. */
  lemma RoundIsFair(t: Table, slots: seq<nat>, index: nat, slot: nat)
    requires Inv(t) && index < |slots| && slot < |slots| && CanRun(t, slots[slot])
    ensures TableAfter(t, slots, index, VisitOf(|slots|, index, slot)).current == Some(slots[slot])
  {
    var calls := VisitOf(|slots|, index, slot);
    RoundVisitsOnce(|slots|, index, slot, calls);
    CallsKeepRunnable(t, slots, index, calls - 1, slots[slot]);
    DecideMakesCurrent(TableAfter(t, slots, index, calls - 1), slots, IndexAfter(|slots|, index, calls - 1));
  }

  /** Also with anything happening to the processes between the calls, of which `tables` are
      the tables before each: at its visit a process becomes current exactly when it then can
      run or is current already. */
  lemma RoundIsFairAmid(tables: seq<Table>, slots: seq<nat>, index: nat, slot: nat)
    requires |tables| == |slots| && index < |slots| && slot < |slots| && forall i :: 0 <= i < |tables| ==> Inv(tables[i])
    ensures var c := VisitOf(|slots|, index, slot) - 1;
            Decide(tables[c], slots, IndexAfter(|slots|, index, c)).current == Some(slots[slot]) <==>
            CanRun(tables[c], slots[slot]) || tables[c].current == Some(slots[slot])
  {
    var calls := VisitOf(|slots|, index, slot);
    RoundVisitsOnce(|slots|, index, slot, calls);
    DecideMakesCurrent(tables[calls - 1], slots, IndexAfter(|slots|, index, calls - 1));
  }

  /** The queue without the first occurrence of `p`. */
  ghost function Without<T>(slots: seq<T>, p: T): (r: seq<T>) {
    match IndexOf(slots, p)
    case None => slots
    case Some(i) => slots[..i] + slots[i + 1..]
  }

  /** Removal takes out exactly one occurrence. */
  lemma WithoutDropsOne<T>(slots: seq<T>, p: T)
    ensures p in slots ==> multiset(Without(slots, p)) == multiset(slots) - multiset{p}
    ensures p !in slots ==> Without(slots, p) == slots
  {
    if IndexOf(slots, p).Some? {
      var k := IndexOf(slots, p).value;
      assert slots == slots[..k] + [p] + slots[k + 1..];
    }
  }

  lemma GapClosed<T>(before: seq<T>, i: nat, after: seq<T>)
    requires i < |before| && |after| == |before| - 1
    requires forall k :: 0 <= k < i ==> after[k] == before[k]
    requires forall k :: i <= k < |after| ==> after[k] == before[k + 1]
    ensures after == before[..i] + before[i + 1..]
  {
  }

  // ----- the queue in memory

  class Scheduler {
    const queue: array<Process?>
    var size: nat
    var index: nat

    ghost predicate Valid()
      reads this, queue
    {
      && queue.Length == MAX_PROCESSES && size <= MAX_PROCESSES && IndexOk(size, index)
      && forall i :: 0 <= i < size ==> queue[i] != null
    }

    ghost function Slots(): (slots: seq<Process?>)
      requires Valid()
      reads this, queue
    {
      queue[..size]
    }

    constructor ()
      ensures Valid() && fresh(queue) && Slots() == []
    {
      queue := new Process?[MAX_PROCESSES](_ => null);
      size, index := 0, 0;
    }

    method Init()
      requires Valid()
      modifies this`size, this`index
      ensures Valid() && Slots() == [] && index == 0
    {
      size, index := 0, 0;
    }

    method Add(p: Process?)
      requires Valid()
      modifies this`size, queue
      ensures Valid()
      ensures Slots() == if p == null || old(size) >= MAX_PROCESSES then old(Slots()) else old(Slots()) + [p]
    {
      if p == null || size >= MAX_PROCESSES {
        return;
      }
      queue[size] := p;
      size := size + 1;
    }

    /** Moves the processes behind slot `i` one slot forward. */
    method CloseGap(i: nat)
      requires Valid() && i < size
      modifies queue
      ensures forall k :: 0 <= k < size - 1 ==> queue[k] == if k < i then old(queue[k]) else old(queue[k + 1])
    {
      var j := i;
      while j < size - 1
        invariant i <= j <= size - 1
        invariant forall k :: 0 <= k < size ==> queue[k] == if i <= k < j then old(queue[k + 1]) else old(queue[k])
      {
        queue[j] := queue[j + 1];
        j := j + 1;
      }
    }

    method FindSlot(p: Process?) returns (i: nat)
      requires Valid()
      ensures match IndexOf(Slots(), p)
              case None => i == size
              case Some(k) => i == k
    {
      hide IndexOf;
      i := 0;
      while i < size && queue[i] != p
        invariant i <= size && forall k :: 0 <= k < i ==> queue[k] != p
      {
        i := i + 1;
      }
      if i < size {
        IndexIs(Slots(), p, i);
      } else {
        IndexIsNone(Slots(), p);
      }
    }

    method RemoveAt(i: nat)
      requires Valid() && i < size
      modifies this`size, this`index, queue
      ensures Valid()
      ensures Slots() == old(Slots())[..i] + old(Slots())[i + 1..]
      ensures index == if 0 < size <= old(index) then 0 else old(index)
    {
      ghost var before := Slots();
      CloseGap(i);
      size := size - 1;
      if index >= size && size > 0 {
        index := 0;
      }
      GapClosed(before, i, Slots());
    }

    method Remove(p: Process?)
      requires Valid()
      modifies this`size, this`index, queue
      ensures Valid()
      ensures Slots() == if p == null then old(Slots()) else Without(old(Slots()), p)
      ensures index == if size < old(size) && 0 < size <= old(index) then 0 else old(index)
    {
      if p == null {
        return;
      }
      var i := FindSlot(p);
      if i < size {
        RemoveAt(i);
      }
    }

    /** Queued processes are still listed, each the first with its pid; `pids` names them. */
    ghost predicate Queued(table: ProcessTable, pids: seq<nat>)
      requires Valid() && table.Linked() && |pids| == size
      reads this, queue, table, table.nodes
    {
      forall i :: 0 <= i < size ==> Find(table.List(), pids[i]).Some? &&
                                    table.nodes[Find(table.List(), pids[i]).value] == queue[i]
    }

    /** One scheduling decision. */
    method Schedule(table: ProcessTable, ghost pids: seq<nat>)
      requires Valid() && table.Linked() && table.CurrentFirst() && |pids| == size && Queued(table, pids)
      modifies this`index, table`current, table.nodes`status
      ensures Valid() && table.Linked() && Slots() == old(Slots()) && Queued(table, pids)
      ensures size == 0 ==> index == old(index) && table.View() == old(table.View())
      ensures size > 0 ==> index == NextIndex(size, old(index)) && table.View() == Decide(old(table.View()), pids, old(index))
    {
      hide Find;
      hide Processes.Switch;
      if size == 0 {
        return;
      }
      index := (index + 1) % size;
      var next := queue[index];
      ghost var before := table.List();
      if next != null && next.status == Ready {
        SwitchKeepsPids(table.View(), Find(before, pids[index]).value);
        table.Switch(next, Find(table.List(), pids[index]).value);
        forall i | 0 <= i < size
          ensures Find(table.List(), pids[i]) == Find(before, pids[i])
        {
          SameFind(before, table.List(), pids[i]);
        }
      }
    }

    /** The next call of a round that began with table `t` and index `start`. */
    method ScheduleNth(table: ProcessTable, ghost pids: seq<nat>, ghost t: Table, ghost start: nat, ghost n: nat,
                       ghost trace: seq<Table>) returns (ghost trace': seq<Table>)
      requires Valid() && size > 0 && table.Linked() && Inv(table.View()) && |pids| == size && Queued(table, pids)
      requires start < size && index == IndexAfter(size, start, n) && OnRound(t, pids, start, n, trace, table.View())
      modifies this`index, table`current, table.nodes`status
      ensures Valid() && table.Linked() && Inv(table.View()) && Queued(table, pids)
      ensures index == IndexAfter(size, start, n + 1) && OnRound(t, pids, start, n + 1, trace', table.View())
    {
      hide Inv;
      hide Decide;
      hide Find;
      hide NextIndex;
      hide Queued;
      hide OnRound;
      table.CurrentKnown();
      DecideKeepsRunnable(table.View(), pids, index, 0);
      ghost var before := table.View();
      Schedule(table, pids);
      RoundGoesOn(t, pids, start, n, trace, before, table.View());
      trace' := trace + [table.View()];
    }

    /** A round of as many calls as the queue is long: every queued process that could run at
        its start was current after one of them.  `trace` is the table after each call. */
    method Round(table: ProcessTable, ghost pids: seq<nat>) returns (ghost trace: seq<Table>)
      requires Valid() && table.Linked() && Inv(table.View()) && |pids| == size && Queued(table, pids)
      modifies this`index, table`current, table.nodes`status
      ensures Valid() && table.Linked() && Slots() == old(Slots()) && Queued(table, pids) && Inv(table.View())
      ensures |trace| == size + 1 && trace[0] == old(table.View()) && trace[size] == table.View() && index == old(index)
      ensures forall slot: nat :: slot < size && CanRun(old(table.View()), pids[slot]) ==>
                trace[VisitOf(size, old(index), slot)].current == Some(pids[slot])
    {
      hide Inv;
      hide Decide;
      hide Find;
      hide CanRun;
      hide NextIndex;
      hide Queued;
      hide OnRound;
      ghost var t, start := table.View(), index;
      trace := [t];
      if size == 0 {
        return;
      }
      RoundStarts(t, pids, start);
      for n := 0 to size
        invariant Valid() && table.Linked() && Queued(table, pids) && Inv(table.View())
        invariant index == IndexAfter(size, start, n) && OnRound(t, pids, start, n, trace, table.View())
      {
        trace := ScheduleNth(table, pids, t, start, n, trace);
      }
      IndexAfterIs(size, start, size);
      RoundEnds(t, pids, start, trace, table.View());
    }
  }

  /** The trace of the first `n` calls of a round. */
  ghost predicate OnRound(t: Table, slots: seq<nat>, index: nat, n: nat, trace: seq<Table>, now: Table)
    requires slots != [] && index < |slots|
  {
    |trace| == n + 1 && trace[n] == now && forall k: nat :: k <= n ==> trace[k] == TableAfter(t, slots, index, k)
  }

  lemma RoundStarts(t: Table, slots: seq<nat>, index: nat)
    requires slots != [] && index < |slots|
    ensures OnRound(t, slots, index, 0, [t], t)
  {
  }

  lemma RoundGoesOn(t: Table, slots: seq<nat>, index: nat, n: nat, trace: seq<Table>, now: Table, next: Table)
    requires slots != [] && index < |slots| && OnRound(t, slots, index, n, trace, now)
    requires next == Decide(now, slots, IndexAfter(|slots|, index, n))
    ensures OnRound(t, slots, index, n + 1, trace + [next], next)
  {
    hide Decide;
    hide IndexAfter;
    assert trace[n] == TableAfter(t, slots, index, n);
  }

  lemma RoundEnds(t: Table, slots: seq<nat>, index: nat, trace: seq<Table>, now: Table)
    requires Inv(t) && slots != [] && index < |slots| && OnRound(t, slots, index, |slots|, trace, now)
    ensures |trace| == |slots| + 1 && trace[0] == t && trace[|slots|] == now
    ensures forall slot: nat :: slot < |slots| && CanRun(t, slots[slot]) ==>
              trace[VisitOf(|slots|, index, slot)].current == Some(slots[slot])
  {
    hide Inv;
    hide CanRun;
    forall slot: nat | slot < |slots| && CanRun(t, slots[slot])
      ensures trace[VisitOf(|slots|, index, slot)].current == Some(slots[slot])
    {
      RoundIsFair(t, slots, index, slot);
    }
    assert trace[0] == TableAfter(t, slots, index, 0);
  }
}

/** The process table as a value: creation, fork, exit, kill, wait and switch as
    steps on a list of processes, and what every run of them keeps. */
module Processes {
  import opened Options

  const PID_LIMIT: nat := 0xFFFF_FFFF
  const INIT_PID: nat := 1

  datatype Status = Ready | Running | Blocked | Zombie

  datatype Proc = Proc(pid: nat, parent: nat, status: Status, code: int)

  /** The process list, newest first; the pid of the current process; the next pid. */
  datatype Table = Table(list: seq<Proc>, current: Option<nat>, nextPid: nat)

  /** The first process with this pid. */
  function Find(list: seq<Proc>, pid: nat, i: nat := 0): (r: Option<nat>)
    ensures r.Some? ==> i <= r.value < |list| && list[r.value].pid == pid && forall k :: i <= k < r.value ==> list[k].pid != pid
    ensures r.None? ==> forall k :: i <= k < |list| ==> list[k].pid != pid
    decreases |list| - i
  {
    if i >= |list| then None else if list[i].pid == pid then Some(i) else Find(list, pid, i + 1)
  }

  predicate IsZombieChild(p: Proc, pid: nat) { p.parent == pid && p.status == Zombie }

  /** The first zombie child of `pid`. */
  function FindZombie(list: seq<Proc>, pid: nat, i: nat := 0): (r: Option<nat>)
    ensures r.Some? ==> i <= r.value < |list| && IsZombieChild(list[r.value], pid)
    ensures r.None? ==> forall k :: i <= k < |list| ==> !IsZombieChild(list[k], pid)
    decreases |list| - i
  {
    if i >= |list| then None else if IsZombieChild(list[i], pid) then Some(i) else FindZombie(list, pid, i + 1)
  }

  // ----- the operations

  function Create(t: Table): (t': Table) {
    var parent := if t.current.Some? then t.current.value else 0;
    Table([Proc(t.nextPid, parent, Ready, 0)] + t.list, t.current, t.nextPid + 1)
  }

  /** A fork whose address space cannot be copied uses up a pid and adds no process. */
  function Fork(t: Table, parent: nat, cloned: bool): (t': Table) {
    if cloned then Table([Proc(t.nextPid, parent, Ready, 0)] + t.list, t.current, t.nextPid + 1)
    else t.(nextPid := t.nextPid + 1)
  }

  /** Wakes the process `pid` if it is blocked; pid 0 is never woken. */
  function Wake(list: seq<Proc>, pid: nat): (r: seq<Proc>)
    ensures |r| == |list|
  {
    var k := Find(list, pid);
    if pid > 0 && k.Some? && list[k.value].status == Blocked then list[k.value := list[k.value].(status := Ready)] else list
  }

  /** Hands the children of `pid` to init. */
  function Reparent(list: seq<Proc>, pid: nat): (r: seq<Proc>)
    ensures |r| == |list|
    ensures forall k :: 0 <= k < |list| ==> r[k] == if list[k].parent == pid then list[k].(parent := INIT_PID) else list[k]
  {
    seq(|list|, k requires 0 <= k < |list| => if list[k].parent == pid then list[k].(parent := INIT_PID) else list[k])
  }

  function Exit(t: Table, i: nat, code: int): (t': Table)
    requires i < |t.list|
  {
    var p := t.list[i];
    var dead := t.list[i := p.(status := Zombie, code := code)];
    Table(Reparent(Wake(dead, p.parent), p.pid), if t.current == Some(p.pid) then None else t.current, t.nextPid)
  }

  datatype WaitResult = Reaped(pid: nat, code: int) | NoChildren | MustBlock

  predicate HasChild(list: seq<Proc>, pid: nat) { exists k :: 0 <= k < |list| && list[k].parent == pid }

  function WaitOutcome(t: Table, i: nat): (r: WaitResult)
    requires i < |t.list|
  {
    var pid := t.list[i].pid;
    var z := FindZombie(t.list, pid);
    if z.Some? then Reaped(t.list[z.value].pid, t.list[z.value].code)
    else if HasChild(t.list, pid) then MustBlock
    else NoChildren
  }

  function Wait(t: Table, i: nat): (t': Table)
    requires i < |t.list|
  {
    var pid := t.list[i].pid;
    var z := FindZombie(t.list, pid);
    if z.Some? then t.(list := Unlink(t.list, z.value))
    else if HasChild(t.list, pid) then t.(list := t.list[i := t.list[i].(status := Blocked)])
    else t
  }

  /** The previous process goes back to ready if it was running. */
  function Switch(t: Table, i: nat): (t': Table)
    requires i < |t.list|
  {
    var prev := if t.current.Some? then Find(t.list, t.current.value) else None;
    var rest := if prev.Some? && prev.value != i && t.list[prev.value].status == Running
                then t.list[prev.value := t.list[prev.value].(status := Ready)] else t.list;
    Table(rest[i := rest[i].(status := Running)], Some(t.list[i].pid), t.nextPid)
  }

  /** A successful exec makes the process ready. */
  function Exec(t: Table, i: nat): (t': Table)
    requires i < |t.list|
  {
    t.(list := t.list[i := t.list[i].(status := Ready)])
  }

  // ----- the invariant

  ghost predicate PidsUnique(list: seq<Proc>) {
    forall i, j :: 0 <= i < j < |list| ==> list[i].pid != list[j].pid
  }

  /** Pid 1 is never in the table, and parents are older than their children. */
  ghost predicate PidsOrdered(t: Table) {
    t.nextPid >= 2 &&
    forall i :: 0 <= i < |t.list| ==>
      t.list[i].pid < t.nextPid && t.list[i].pid != INIT_PID && (t.list[i].pid > 0 ==> t.list[i].parent < t.list[i].pid)
  }

  /** Only the current process runs, and it is listed and not a zombie. */
  ghost predicate SingleRunner(t: Table) {
    && (forall i :: 0 <= i < |t.list| && t.list[i].status == Running ==> t.current == Some(t.list[i].pid))
    && (t.current.Some? ==> exists i :: 0 <= i < |t.list| && t.list[i].pid == t.current.value && t.list[i].status != Zombie)
  }

  /** A blocked process other than the kernel's has a child, and no zombie child. */
  ghost predicate NoLostWakeup(list: seq<Proc>) {
    forall i :: 0 <= i < |list| && list[i].status == Blocked && list[i].pid > 0 ==>
      HasChild(list, list[i].pid) && forall k :: 0 <= k < |list| ==> !IsZombieChild(list[k], list[i].pid)
  }

  ghost predicate Inv(t: Table) {
    PidsUnique(t.list) && PidsOrdered(t) && SingleRunner(t) && NoLostWakeup(t.list)
  }

  /** The table right after initialisation: the kernel process, renumbered to 0. */
  const BOOT: Table := Table([Proc(0, 0, Running, 0)], Some(0), 2)

  lemma BootInv()
    ensures Inv(BOOT)
  {
    assert BOOT.list[0].pid == 0;
  }

  // ----- each operation keeps the invariant

  lemma AddKeepsWakeups(list: seq<Proc>, p: Proc)
    requires NoLostWakeup(list) && p.status == Ready
    ensures NoLostWakeup([p] + list)
  {
    var list' := [p] + list;
    forall i | 0 <= i < |list'| && list'[i].status == Blocked && list'[i].pid > 0
      ensures HasChild(list', list'[i].pid) && forall k :: 0 <= k < |list'| ==> !IsZombieChild(list'[k], list'[i].pid)
    {
      assert list'[i] == list[i - 1];
      var c :| 0 <= c < |list| && list[c].parent == list[i - 1].pid;
      assert list'[c + 1] == list[c];
    }
  }

  lemma AddKeepsInv(t: Table, parent: nat)
    requires Inv(t) && parent < t.nextPid
    ensures Inv(Table([Proc(t.nextPid, parent, Ready, 0)] + t.list, t.current, t.nextPid + 1))
  {
    var t' := Table([Proc(t.nextPid, parent, Ready, 0)] + t.list, t.current, t.nextPid + 1);
    AddKeepsWakeups(t.list, Proc(t.nextPid, parent, Ready, 0));
    if t.current.Some? {
      var i :| 0 <= i < |t.list| && t.list[i].pid == t.current.value && t.list[i].status != Zombie;
      assert t'.list[i + 1] == t.list[i];
    }
  }

  lemma CurrentBelow(t: Table)
    requires Inv(t) && t.current.Some?
    ensures t.current.value < t.nextPid
  {
  }

  lemma CreateKeepsInv(t: Table)
    requires Inv(t)
    ensures Inv(Create(t))
  {
    if t.current.Some? {
      CurrentBelow(t);
    }
    AddKeepsInv(t, if t.current.Some? then t.current.value else 0);
  }

  /** What an exit does to each process, one by one. */
  ghost predicate ExitEffect(t: Table, i: nat, code: int, list': seq<Proc>)
    requires i < |t.list|
  {
    && |list'| == |t.list|
    && forall k :: 0 <= k < |list'| ==>
         list'[k].pid == t.list[k].pid &&
         list'[k].code == (if k == i then code else t.list[k].code) &&
         list'[k].parent == (if t.list[k].parent == t.list[i].pid then INIT_PID else t.list[k].parent) &&
         list'[k].status == (if k == i then Zombie
                             else if t.list[k].status == Blocked && t.list[k].pid == t.list[i].parent && t.list[k].pid > 0 then Ready
                             else t.list[k].status)
  }

  lemma ExitListEffect(t: Table, i: nat, code: int)
    requires PidsUnique(t.list) && i < |t.list| && (t.list[i].pid > 0 ==> t.list[i].parent < t.list[i].pid)
    ensures ExitEffect(t, i, code, Exit(t, i, code).list)
  {
    var p := t.list[i];
    var dead := t.list[i := p.(status := Zombie, code := code)];
    var woken := Wake(dead, p.parent);
    forall k | 0 <= k < |t.list|
      ensures woken[k] == if dead[k].status == Blocked && dead[k].pid == p.parent && dead[k].pid > 0
                          then dead[k].(status := Ready) else dead[k]
    {
      var j := Find(dead, p.parent);
      if j.Some? && dead[k].pid == p.parent {
        assert t.list[j.value].pid == dead[j.value].pid && t.list[k].pid == dead[k].pid;
        assert j.value == k;
      }
    }
  }

  lemma ExitKeepsInv(t: Table, i: nat, code: int)
    requires Inv(t) && i < |t.list|
    ensures Inv(Exit(t, i, code))
  {
    var t' := Exit(t, i, code);
    ExitListEffect(t, i, code);
    assert PidsUnique(t'.list) && PidsOrdered(t');
    if t'.current.Some? {
      var k :| 0 <= k < |t.list| && t.list[k].pid == t.current.value && t.list[k].status != Zombie;
      assert k != i;
      assert t'.list[k].pid == t'.current.value && t'.list[k].status != Zombie;
    }
    ExitKeepsWakeups(t, i, code);
  }

  lemma ExitKeepsWakeups(t: Table, i: nat, code: int)
    requires Inv(t) && i < |t.list|
    ensures NoLostWakeup(Exit(t, i, code).list)
  {
    var list, list' := t.list, Exit(t, i, code).list;
    ExitListEffect(t, i, code);
    forall b | 0 <= b < |list'| && list'[b].status == Blocked && list'[b].pid > 0
      ensures HasChild(list', list'[b].pid) && forall k :: 0 <= k < |list'| ==> !IsZombieChild(list'[k], list'[b].pid)
    {
      assert b != i && list[b].status == Blocked && list[b].pid == list'[b].pid;
      var c :| 0 <= c < |list| && list[c].parent == list[b].pid;
      assert list[b].pid != list[i].pid;
      assert list'[c].parent == list'[b].pid;
      forall k | 0 <= k < |list'|
        ensures !IsZombieChild(list'[k], list'[b].pid)
      {
        if k == i {
          assert list[i].parent != list[b].pid;
        } else {
          assert !IsZombieChild(list[k], list[b].pid);
        }
      }
    }
  }

  /** The list without its element `z`. */
  function Unlink(list: seq<Proc>, z: nat): (r: seq<Proc>)
    requires z < |list|
    ensures |r| == |list| - 1
    ensures forall k :: 0 <= k < z ==> r[k] == list[k]
    ensures forall k :: z <= k < |r| ==> r[k] == list[k + 1]
  {
    list[..z] + list[z + 1..]
  }

  lemma StillListed(list: seq<Proc>, z: nat, k: nat)
    requires z < |list| && k < |list| && k != z
    ensures list[k] in Unlink(list, z)
  {
    assert Unlink(list, z)[if k < z then k else k - 1] == list[k];
  }

  lemma WasListed(list: seq<Proc>, z: nat, k: nat) returns (j: nat)
    requires z < |list| && k < |Unlink(list, z)|
    ensures j < |list| && j != z && list[j] == Unlink(list, z)[k] && j == if k < z then k else k + 1
  {
    j := if k < z then k else k + 1;
  }

  lemma UnlinkKeepsWakeups(list: seq<Proc>, z: nat)
    requires NoLostWakeup(list) && z < |list| && list[z].status == Zombie
    ensures NoLostWakeup(Unlink(list, z))
  {
    var list' := Unlink(list, z);
    forall b | 0 <= b < |list'| && list'[b].status == Blocked && list'[b].pid > 0
      ensures HasChild(list', list'[b].pid) && forall k :: 0 <= k < |list'| ==> !IsZombieChild(list'[k], list'[b].pid)
    {
      var b0 := WasListed(list, z, b);
      var c :| 0 <= c < |list| && list[c].parent == list[b0].pid;
      assert !IsZombieChild(list[z], list[b0].pid);
      StillListed(list, z, c);
      forall k | 0 <= k < |list'|
        ensures !IsZombieChild(list'[k], list'[b].pid)
      {
        var k0 := WasListed(list, z, k);
      }
    }
  }

  lemma UnlinkKeepsPids(t: Table, z: nat)
    requires PidsUnique(t.list) && PidsOrdered(t) && z < |t.list|
    ensures PidsUnique(Unlink(t.list, z)) && PidsOrdered(t.(list := Unlink(t.list, z)))
  {
    var list' := Unlink(t.list, z);
    forall i, j | 0 <= i < j < |list'|
      ensures list'[i].pid != list'[j].pid
    {
      var i0 := WasListed(t.list, z, i);
      var j0 := WasListed(t.list, z, j);
    }
  }

  lemma ReapKeepsInv(t: Table, i: nat)
    requires Inv(t) && i < |t.list| && FindZombie(t.list, t.list[i].pid).Some?
    ensures Inv(Wait(t, i))
  {
    var z := FindZombie(t.list, t.list[i].pid).value;
    var t' := Wait(t, i);
    UnlinkKeepsPids(t, z);
    UnlinkKeepsWakeups(t.list, z);
    if t.current.Some? {
      var k :| 0 <= k < |t.list| && t.list[k].pid == t.current.value && t.list[k].status != Zombie;
      StillListed(t.list, z, k);
    }
    forall k | 0 <= k < |t'.list| && t'.list[k].status == Running
      ensures t'.current == Some(t'.list[k].pid)
    {
      var k0 := WasListed(t.list, z, k);
    }
  }

  lemma WaitKeepsInv(t: Table, i: nat)
    requires Inv(t) && i < |t.list|
    ensures Inv(Wait(t, i))
  {
    if FindZombie(t.list, t.list[i].pid).Some? {
      ReapKeepsInv(t, i);
    } else if HasChild(t.list, t.list[i].pid) {
      StatusKeepsInv(t, i, Blocked);
    }
  }

  /** Changing one status to ready, or to blocked with a child and no zombie child. */
  lemma StatusKeepsInv(t: Table, i: nat, status: Status)
    requires Inv(t) && i < |t.list|
    requires status == Ready ||
             (status == Blocked && HasChild(t.list, t.list[i].pid) && FindZombie(t.list, t.list[i].pid).None?)
    ensures Inv(t.(list := t.list[i := t.list[i].(status := status)]))
  {
    hide NoLostWakeup;
    hide FindZombie;
    var t' := t.(list := t.list[i := t.list[i].(status := status)]);
    StatusKeepsWakeups(t.list, i, status);
    if t.current.Some? {
      var k :| 0 <= k < |t.list| && t.list[k].pid == t.current.value && t.list[k].status != Zombie;
      assert t'.list[k].pid == t.current.value && t'.list[k].status != Zombie;
    }
  }

  lemma StatusKeepsWakeups(list: seq<Proc>, i: nat, status: Status)
    requires NoLostWakeup(list) && i < |list|
    requires status == Ready || (status == Blocked && HasChild(list, list[i].pid) && FindZombie(list, list[i].pid).None?)
    ensures NoLostWakeup(list[i := list[i].(status := status)])
  {
    hide FindZombie;
    var list' := list[i := list[i].(status := status)];
    forall b | 0 <= b < |list'| && list'[b].status == Blocked && list'[b].pid > 0
      ensures HasChild(list', list'[b].pid)
    {
      assert HasChild(list, list[b].pid);
      var c :| 0 <= c < |list| && list[c].parent == list[b].pid;
      assert list'[c].parent == list'[b].pid;
    }
  }

  lemma SwitchKeepsInv(t: Table, i: nat)
    requires Inv(t) && i < |t.list| && t.list[i].status == Ready
    ensures Inv(Switch(t, i))
  {
    var t' := Switch(t, i);
    assert forall k :: 0 <= k < |t.list| ==> t'.list[k].pid == t.list[k].pid && t'.list[k].parent == t.list[k].parent;
    assert forall k :: 0 <= k < |t.list| && k != i ==>
      t'.list[k].status == if t.list[k].status == Running then Ready else t.list[k].status;
    assert t'.list[i].pid == t'.current.value && t'.list[i].status == Running;
    SameWakeups(t.list, t'.list);
    hide NoLostWakeup;
  }

  /** Nobody becomes blocked or a zombie, and no family tie changes. */
  lemma SameWakeups(list: seq<Proc>, list': seq<Proc>)
    requires NoLostWakeup(list) && |list'| == |list|
    requires forall k :: 0 <= k < |list| ==> list'[k].pid == list[k].pid && list'[k].parent == list[k].parent
    requires forall k :: 0 <= k < |list| && (list'[k].status == Blocked || list'[k].status == Zombie) ==>
               list'[k].status == list[k].status
    ensures NoLostWakeup(list')
  {
    forall b | 0 <= b < |list'| && list'[b].status == Blocked && list'[b].pid > 0
      ensures HasChild(list', list'[b].pid)
    {
      var c :| 0 <= c < |list| && list[c].parent == list[b].pid;
      assert list'[c].parent == list'[b].pid;
    }
  }

  lemma {:induction false} SameFind(list: seq<Proc>, list': seq<Proc>, pid: nat, i: nat := 0)
    requires |list'| == |list| && forall k :: 0 <= k < |list| ==> list'[k].pid == list[k].pid
    ensures Find(list', pid, i) == Find(list, pid, i)
    decreases |list| - i
  {
    if i < |list| && list[i].pid != pid {
      SameFind(list, list', pid, i + 1);
    }
  }

  /** The code given to an exit replaces the one the process carried. */
  lemma ExitIgnoresCode(t: Table, i: nat, code: int)
    requires i < |t.list|
    ensures Exit(t.(list := t.list[i := t.list[i].(code := code)]), i, code) == Exit(t, i, code)
  {
    var l := t.list[i := t.list[i].(code := code)];
    assert l[i := l[i].(status := Zombie, code := code)] == t.list[i := t.list[i].(status := Zombie, code := code)];
  }

  // ----- runs

  datatype Op =
    | DoCreate
    | DoFork(pid: nat, cloned: bool)
    | DoExit(pid: nat, code: int)
    | DoKill(pid: nat, signal: int)
    | DoWait(pid: nat)
    | DoExec(pid: nat)
    | DoSwitch(pid: nat)

  /** An operation on a pid that is not listed does nothing. */
  function Step(t: Table, op: Op): (t': Table) {
    if op.DoCreate? then Create(t)
    else
      var k := Find(t.list, op.pid);
      if k.None? then t
      else
        match op
        case DoFork(pid, cloned) => Fork(t, pid, cloned)
        case DoExit(_, code) => Exit(t, k.value, code)
        case DoKill(_, signal) => Exit(t, k.value, signal)
        case DoWait(_) => Wait(t, k.value)
        case DoExec(_) => Exec(t, k.value)
        case DoSwitch(_) => Switch(t, k.value)
  }

  /** New processes need an unused pid; only ready processes are switched to. */
  ghost predicate Enabled(t: Table, op: Op) {
    && (op.DoCreate? || op.DoFork? ==> t.nextPid < PID_LIMIT)
    && (op.DoSwitch? ==> forall k :: Find(t.list, op.pid) == Some(k) ==> t.list[k].status == Ready)
  }

  lemma StepKeepsInv(t: Table, op: Op)
    requires Inv(t) && Enabled(t, op)
    ensures Inv(Step(t, op))
  {
    if op.DoCreate? {
      CreateKeepsInv(t);
    } else if Find(t.list, op.pid).Some? {
      var k := Find(t.list, op.pid).value;
      match op
      case DoFork(pid, cloned) => if cloned { AddKeepsInv(t, pid); }
      case DoExit(_, code) => ExitKeepsInv(t, k, code);
      case DoKill(_, signal) => ExitKeepsInv(t, k, signal);
      case DoWait(_) => WaitKeepsInv(t, k);
      case DoExec(_) => StatusKeepsInv(t, k, Ready);
      case DoSwitch(_) => SwitchKeepsInv(t, k);
      case DoCreate =>
    }
  }

  function Run(t: Table, ops: seq<Op>): (t': Table) {
    if ops == [] then t else Step(Run(t, ops[..|ops| - 1]), ops[|ops| - 1])
  }

  ghost predicate EnabledRun(t: Table, ops: seq<Op>) {
    ops == [] || (EnabledRun(t, ops[..|ops| - 1]) && Enabled(Run(t, ops[..|ops| - 1]), ops[|ops| - 1]))
  }

  lemma {:induction false} EnabledTo(t: Table, ops: seq<Op>, n: nat)
    requires EnabledRun(t, ops) && n <= |ops|
    ensures EnabledRun(t, ops[..n])
  {
    if n == |ops| {
      assert ops[..n] == ops;
    } else {
      EnabledTo(t, ops[..|ops| - 1], n);
      assert ops[..|ops| - 1][..n] == ops[..n];
    }
  }

  lemma RunTo(t: Table, ops: seq<Op>, n: nat)
    requires n < |ops|
    ensures Run(t, ops[..n + 1]) == Step(Run(t, ops[..n]), ops[n])
  {
    assert ops[..n + 1][..n] == ops[..n];
  }

  /** In every reachable state pids are unique, pid 1 is absent, only the current
      process runs and no wakeup is lost. */
  lemma {:induction false} RunKeepsInv(ops: seq<Op>)
    requires EnabledRun(BOOT, ops)
    ensures Inv(Run(BOOT, ops))
  {
    if ops == [] {
      BootInv();
    } else {
      RunKeepsInv(ops[..|ops| - 1]);
      StepKeepsInv(Run(BOOT, ops[..|ops| - 1]), ops[|ops| - 1]);
    }
  }

  /** An exit wakes its blocked parent exactly when the parent is not pid 0. */
  lemma ExitWakesParent(t: Table, i: nat, code: int, b: nat)
    requires Inv(t) && i < |t.list| && b < |t.list| && i != b
    requires t.list[b].pid == t.list[i].parent && t.list[b].status == Blocked
    ensures Exit(t, i, code).list[b].status == Ready <==> t.list[b].pid > 0
  {
    ExitListEffect(t, i, code);
  }

  ghost predicate KernelBlocked(t: Table) {
    exists b :: 0 <= b < |t.list| && t.list[b].pid == 0 && t.list[b].status == Blocked
  }

  /** An exec, exit or kill of the kernel process itself. */
  predicate OnKernel(op: Op) { (op.DoExec? || op.DoExit? || op.DoKill?) && op.pid == 0 }

  lemma KernelBlockedAt(t: Table, b: nat)
    requires b < |t.list| && t.list[b].pid == 0
    ensures t.list[b].status == Blocked ==> KernelBlocked(t)
    ensures PidsUnique(t.list) && KernelBlocked(t) ==> t.list[b].status == Blocked
  {
  }

  lemma ExitOnKernel(t: Table, k: nat, code: int)
    requires Inv(t) && KernelBlocked(t) && k < |t.list|
    ensures KernelBlocked(Exit(t, k, code)) <==> t.list[k].pid != 0
  {
    ExitKeepsInv(t, k, code);
    ExitListEffect(t, k, code);
    hide NoLostWakeup;
    hide SingleRunner;
    hide Exit;
    var b :| 0 <= b < |t.list| && t.list[b].pid == 0 && t.list[b].status == Blocked;
    KernelBlockedAt(Exit(t, k, code), b);
  }

  lemma WaitOnKernel(t: Table, k: nat)
    requires KernelBlocked(t) && k < |t.list|
    ensures KernelBlocked(Wait(t, k))
  {
    var t' := Wait(t, k);
    var b :| 0 <= b < |t.list| && t.list[b].pid == 0 && t.list[b].status == Blocked;
    var z := FindZombie(t.list, t.list[k].pid);
    if z.Some? {
      assert t'.list[if b < z.value then b else b - 1] == t.list[b];
    } else {
      KernelBlockedAt(t', b);
    }
  }

  lemma ExecOnKernel(t: Table, k: nat)
    requires PidsUnique(t.list) && KernelBlocked(t) && k < |t.list|
    ensures KernelBlocked(Exec(t, k)) <==> t.list[k].pid != 0
  {
    var t' := Exec(t, k);
    var b :| 0 <= b < |t.list| && t.list[b].pid == 0 && t.list[b].status == Blocked;
    assert forall i :: 0 <= i < |t.list| ==> t'.list[i].pid == t.list[i].pid;
    KernelBlockedAt(t', b);
  }

  lemma SwitchOnKernel(t: Table, k: nat)
    requires KernelBlocked(t) && k < |t.list| && t.list[k].status == Ready
    ensures KernelBlocked(Switch(t, k))
  {
    var b :| 0 <= b < |t.list| && t.list[b].pid == 0 && t.list[b].status == Blocked;
    KernelBlockedAt(Switch(t, k), b);
  }

  lemma AddOnKernel(t: Table, p: Proc)
    requires KernelBlocked(t)
    ensures KernelBlocked(Table([p] + t.list, t.current, t.nextPid + 1))
  {
    var b :| 0 <= b < |t.list| && t.list[b].pid == 0 && t.list[b].status == Blocked;
    assert ([p] + t.list)[b + 1] == t.list[b];
  }

  /** Once blocked, the kernel process is unblocked by such an operation and by no other. */
  lemma StepUnblocksKernel(t: Table, op: Op)
    requires Inv(t) && Enabled(t, op) && KernelBlocked(t)
    ensures KernelBlocked(Step(t, op)) <==> !OnKernel(op)
  {
    hide Exit;
    hide Wait;
    hide Exec;
    hide Switch;
    if op.DoCreate? {
      AddOnKernel(t, Create(t).list[0]);
    } else if Find(t.list, op.pid).Some? {
      var k := Find(t.list, op.pid).value;
      hide NoLostWakeup;
      hide SingleRunner;
      match op
      case DoFork(_, cloned) => if cloned { AddOnKernel(t, Fork(t, op.pid, cloned).list[0]); }
      case DoExit(_, code) => ExitOnKernel(t, k, code);
      case DoKill(_, signal) => ExitOnKernel(t, k, signal);
      case DoWait(_) => WaitOnKernel(t, k);
      case DoExec(_) => ExecOnKernel(t, k);
      case DoSwitch(_) => SwitchOnKernel(t, k);
    } else {
      var b :| 0 <= b < |t.list| && t.list[b].pid == 0 && t.list[b].status == Blocked;
      assert op.pid != 0;
    }
  }

  /** It stays blocked over every run without one. */
  lemma {:induction false} KernelStaysBlocked(t: Table, ops: seq<Op>)
    requires Inv(t) && EnabledRun(t, ops) && KernelBlocked(t) && forall i :: 0 <= i < |ops| ==> !OnKernel(ops[i])
    ensures Inv(Run(t, ops)) && KernelBlocked(Run(t, ops))
  {
    if ops != [] {
      var pre, op := ops[..|ops| - 1], ops[|ops| - 1];
      KernelStaysBlocked(t, pre);
      StepKeepsInv(Run(t, pre), op);
      StepUnblocksKernel(Run(t, pre), op);
    }
  }

  /** The kernel process is its own parent, so its wait blocks even with no other process. */
  lemma KernelIsItsOwnChild()
    ensures WaitOutcome(BOOT, 0) == MustBlock && KernelBlocked(Wait(BOOT, 0))
  {
    assert BOOT.list[0].parent == 0;
    assert Wait(BOOT, 0).list[0] == Proc(0, 0, Blocked, 0);
  }

  /** The kernel process can therefore wait for ever: it blocks, its child exits, and
      it is still blocked, with a zombie child. */
  lemma KernelWaitIsLost()
    ensures var ops := [DoCreate, DoWait(0), DoExit(2, 7)];
            EnabledRun(BOOT, ops) &&
            KernelBlocked(Run(BOOT, ops)) &&
            exists z :: 0 <= z < |Run(BOOT, ops).list| && IsZombieChild(Run(BOOT, ops).list[z], 0)
  {
    var ops := [DoCreate, DoWait(0), DoExit(2, 7)];
    assert ops[..1] == [DoCreate] && ops[..2] == [DoCreate, DoWait(0)] && ops[..0] == [];
    assert ops[..2][..1] == [DoCreate] && ops[..1][..0] == [];
    var one := [DoCreate];
    assert one[..0] == [] && Enabled(BOOT, DoCreate);
    assert EnabledRun(BOOT, []) && Run(BOOT, []) == BOOT;
    assert EnabledRun(BOOT, one);
    var t1 := Table([Proc(2, 0, Ready, 0), Proc(0, 0, Running, 0)], Some(0), 3);
    var t2 := Table([Proc(2, 0, Ready, 0), Proc(0, 0, Blocked, 0)], Some(0), 3);
    var t3 := Table([Proc(2, 0, Zombie, 7), Proc(0, 0, Blocked, 0)], Some(0), 3);
    assert Run(BOOT, ops[..1]) == t1;
    assert Find(t1.list, 0) == Some(1);
    assert FindZombie(t1.list, 0) == None;
    assert HasChild(t1.list, 0) by { assert t1.list[0].parent == 0; }
    assert Run(BOOT, ops[..2]) == t2;
    assert Find(t2.list, 2) == Some(0);
    assert Run(BOOT, ops) == t3 by {
      assert Reparent(t3.list, 2) == t3.list;
    }
    assert t3.list[1] == Proc(0, 0, Blocked, 0) && IsZombieChild(t3.list[0], 0);
  }

  // ----- whose child a new process is

  ghost predicate IsChild(t: Table, child: nat, parent: nat) {
    exists i :: 0 <= i < |t.list| && t.list[i].pid == child && t.list[i].parent == parent
  }

  lemma ChildAt(t: Table, i: nat)
    requires i < |t.list|
    ensures IsChild(t, t.list[i].pid, t.list[i].parent)
  {
  }

  /** A fork gives the forking process a child with the pid that was next. */
  lemma ForkMakesChild(t: Table, p: nat)
    requires Find(t.list, p).Some?
    ensures IsChild(Step(t, DoFork(p, true)), t.nextPid, p)
  {
    ChildAt(Step(t, DoFork(p, true)), 0);
  }

  /** A creation gives one to the current process, or to pid 0 when there is none. */
  lemma CreateMakesChild(t: Table)
    ensures IsChild(Step(t, DoCreate), t.nextPid, if t.current.Some? then t.current.value else 0)
  {
    ChildAt(Step(t, DoCreate), 0);
  }

  /** A process with a child is never told that it has none. */
  lemma ParentMayWait(t: Table, child: nat, parent: nat, i: nat)
    requires IsChild(t, child, parent) && i < |t.list| && t.list[i].pid == parent
    ensures WaitOutcome(t, i) != NoChildren
  {
    var c :| 0 <= c < |t.list| && t.list[c].pid == child && t.list[c].parent == parent;
    assert HasChild(t.list, parent);
  }

  /** No zombie is a child of the process. */
  ghost predicate NoZombieChild(t: Table, parent: nat) {
    forall k :: 0 <= k < |t.list| ==> !(t.list[k].parent == parent && t.list[k].status == Zombie)
  }

  /** When a child exits, and its parent has no other zombie child, the parent's next wait
      returns this child and its code. */
  lemma ExitThenWait(t: Table, child: nat, parent: nat, code: int)
    requires Inv(t) && IsChild(t, child, parent) && child != parent && Find(t.list, parent).Some? && NoZombieChild(t, parent)
    ensures var t' := Step(t, DoExit(child, code)); var i := Find(t'.list, parent);
            i.Some? && WaitOutcome(t', i.value) == Reaped(child, code)
  {
    var c :| 0 <= c < |t.list| && t.list[c].pid == child && t.list[c].parent == parent;
    UniqueFind(t.list, c);
    var t' := Step(t, DoExit(child, code));
    ExitListEffect(t, c, code);
    hide NoLostWakeup;
    hide SingleRunner;
    hide Exit;
    SameFind(t.list, t'.list, parent);
    var i := Find(t'.list, parent).value;
    assert IsZombieChild(t'.list[c], parent);
    OnlyZombieFound(t'.list, parent, c);
  }

  lemma UniqueFind(list: seq<Proc>, c: nat)
    requires PidsUnique(list) && c < |list|
    ensures Find(list, list[c].pid) == Some(c)
  {
    hide Find;
    if Find(list, list[c].pid).None? {
      FoundIfListed(list, c);
    }
  }

  lemma FoundIfListed(list: seq<Proc>, c: nat)
    requires c < |list|
    ensures Find(list, list[c].pid).Some?
  {
    hide Find;
  }

  lemma OnlyZombieFound(list: seq<Proc>, parent: nat, c: nat)
    requires c < |list| && IsZombieChild(list[c], parent)
    requires forall k :: 0 <= k < |list| && k != c ==> !IsZombieChild(list[k], parent)
    ensures FindZombie(list, parent) == Some(c)
  {
    hide FindZombie;
  }

  /** From a fork to the wait: the forking process gets the child's pid and exit code. */
  lemma ForkExitWait(t: Table, p: nat, code: int)
    requires Inv(t) && t.nextPid < PID_LIMIT && Find(t.list, p).Some? && NoZombieChild(t, p)
    ensures var t1 := Step(t, DoFork(p, true)); var t2 := Step(t1, DoExit(t.nextPid, code)); var i := Find(t2.list, p);
            i.Some? && WaitOutcome(t2, i.value) == Reaped(t.nextPid, code)
  {
    var t1 := Step(t, DoFork(p, true));
    StepKeepsInv(t, DoFork(p, true));
    ForkMakesChild(t, p);
    var k := Find(t.list, p).value;
    assert t1.list[k + 1] == t.list[k];
    FoundIfListed(t1.list, k + 1);
    ExitThenWait(t1, t.nextPid, p, code);
  }

  // ----- orphans

  /** The process is listed as a child of init, which does not exist. */
  ghost predicate Orphan(t: Table, pid: nat) {
    exists i :: 0 <= i < |t.list| && t.list[i].pid == pid && t.list[i].parent == INIT_PID
  }

  lemma OrphanAt(t: Table, i: nat)
    requires i < |t.list| && t.list[i].parent == INIT_PID
    ensures Orphan(t, t.list[i].pid)
  {
  }

  /** A process with children leaves orphans when it exits. */
  lemma ExitMakesOrphans(t: Table, i: nat, code: int, c: nat)
    requires Inv(t) && i < |t.list| && c < |t.list| && t.list[c].parent == t.list[i].pid
    ensures Orphan(Exit(t, i, code), t.list[c].pid)
  {
    ExitListEffect(t, i, code);
    OrphanAt(Exit(t, i, code), c);
  }

  lemma WaitKeepsOrphan(t: Table, k: nat, pid: nat)
    requires Inv(t) && Orphan(t, pid) && k < |t.list|
    ensures Orphan(Wait(t, k), pid)
  {
    var i :| 0 <= i < |t.list| && t.list[i].pid == pid && t.list[i].parent == INIT_PID;
    var t', z := Wait(t, k), FindZombie(t.list, t.list[k].pid);
    if z.Some? {
      assert t.list[z.value].parent == t.list[k].pid != INIT_PID;
      StillListed(t.list, z.value, i);
      var j :| 0 <= j < |t'.list| && t'.list[j] == t.list[i];
      OrphanAt(t', j);
    } else {
      OrphanAt(t', i);
    }
  }

  lemma ExitKeepsOrphan(t: Table, k: nat, code: int, pid: nat)
    requires Inv(t) && Orphan(t, pid) && k < |t.list|
    ensures Orphan(Exit(t, k, code), pid)
  {
    var i :| 0 <= i < |t.list| && t.list[i].pid == pid && t.list[i].parent == INIT_PID;
    ExitListEffect(t, k, code);
    OrphanAt(Exit(t, k, code), i);
  }

  lemma StatusKeepsOrphan(t: Table, t': Table, pid: nat)
    requires Orphan(t, pid) && |t'.list| == |t.list|
    requires forall k :: 0 <= k < |t.list| ==> t'.list[k].pid == t.list[k].pid && t'.list[k].parent == t.list[k].parent
    ensures Orphan(t', pid)
  {
    var i :| 0 <= i < |t.list| && t.list[i].pid == pid && t.list[i].parent == INIT_PID;
    OrphanAt(t', i);
  }

  lemma AddKeepsOrphan(t: Table, p: Proc, pid: nat)
    requires Orphan(t, pid)
    ensures Orphan(Table([p] + t.list, t.current, t.nextPid + 1), pid)
  {
    var i :| 0 <= i < |t.list| && t.list[i].pid == pid && t.list[i].parent == INIT_PID;
    OrphanAt(Table([p] + t.list, t.current, t.nextPid + 1), i + 1);
  }

  lemma StepKeepsOrphan(t: Table, op: Op, pid: nat)
    requires Inv(t) && Orphan(t, pid)
    ensures Orphan(Step(t, op), pid)
  {
    hide Inv;
    hide Orphan;
    hide Exit;
    hide Wait;
    if op.DoCreate? {
      AddKeepsOrphan(t, Create(t).list[0], pid);
    } else if Find(t.list, op.pid).Some? {
      var k := Find(t.list, op.pid).value;
      match op
      case DoFork(_, cloned) =>
        if cloned {
          AddKeepsOrphan(t, Fork(t, op.pid, cloned).list[0], pid);
        } else {
          StatusKeepsOrphan(t, Step(t, op), pid);
        }
      case DoExit(_, code) => ExitKeepsOrphan(t, k, code, pid);
      case DoKill(_, signal) => ExitKeepsOrphan(t, k, signal, pid);
      case DoWait(_) => WaitKeepsOrphan(t, k, pid);
      case DoExec(_) => StatusKeepsOrphan(t, Exec(t, k), pid);
      case DoSwitch(_) => StatusKeepsOrphan(t, Switch(t, k), pid);
    }
  }

  /** An orphan stays listed over every run: nobody can wait for it, so it is never reaped. */
  lemma {:induction false} OrphansStay(t: Table, ops: seq<Op>, pid: nat)
    requires Inv(t) && EnabledRun(t, ops) && Orphan(t, pid)
    ensures Inv(Run(t, ops)) && Orphan(Run(t, ops), pid)
  {
    if ops != [] {
      var pre, op := ops[..|ops| - 1], ops[|ops| - 1];
      OrphansStay(t, pre, pid);
      StepKeepsInv(Run(t, pre), op);
      StepKeepsOrphan(Run(t, pre), op, pid);
    }
  }

  // ----- the history of a run

  /** Pids ever listed, pids reaped in order, and the code of each pid's last exit or kill. */
  datatype History = History(born: set<nat>, reaped: seq<nat>, codes: map<nat, int>)

  function Record(h: History, t: Table, op: Op): (h': History) {
    if op.DoCreate? then h.(born := h.born + {t.nextPid})
    else
      var k := Find(t.list, op.pid);
      if k.None? then h
      else
        match op
        case DoFork(_, cloned) => if cloned then h.(born := h.born + {t.nextPid}) else h
        case DoExit(pid, code) => h.(codes := h.codes[pid := code])
        case DoKill(pid, signal) => h.(codes := h.codes[pid := signal])
        case DoWait(_) =>
          var r := WaitOutcome(t, k.value);
          if r.Reaped? then h.(reaped := h.reaped + [r.pid]) else h
        case _ => h
  }

  function Recorded(t: Table, h: History, ops: seq<Op>): (h': History) {
    if ops == [] then h
    else Record(Recorded(t, h, ops[..|ops| - 1]), Run(t, ops[..|ops| - 1]), ops[|ops| - 1])
  }

  ghost predicate Listed(list: seq<Proc>, pid: nat) { exists i :: 0 <= i < |list| && list[i].pid == pid }

  /** Every process is either listed or reaped, once; codes are those last given. */
  ghost predicate HistoryOk(t: Table, h: History) {
    && (forall p :: p in h.born ==> p < t.nextPid)
    && (forall i :: 0 <= i < |t.list| ==> t.list[i].pid in h.born && t.list[i].pid !in h.reaped)
    && (forall p :: p in h.born ==> p in h.reaped || Listed(t.list, p))
    && (forall i, j :: 0 <= i < j < |h.reaped| ==> h.reaped[i] != h.reaped[j])
    && (forall p :: p in h.reaped ==> p in h.born)
    && (forall p :: p in h.codes ==> p in h.born)
    && (forall i :: 0 <= i < |t.list| ==>
          if t.list[i].pid in h.codes then t.list[i].code == h.codes[t.list[i].pid] else t.list[i].status != Zombie && t.list[i].code == 0)
  }

  const BOOT_HISTORY: History := History({0}, [], map[])

  lemma BornStep(t: Table, h: History, parent: nat)
    requires Inv(t) && HistoryOk(t, h)
    ensures HistoryOk(Table([Proc(t.nextPid, parent, Ready, 0)] + t.list, t.current, t.nextPid + 1),
                      h.(born := h.born + {t.nextPid}))
  {
    var list' := [Proc(t.nextPid, parent, Ready, 0)] + t.list;
    assert list'[0].pid == t.nextPid;
    forall p | p in h.born && p !in h.reaped
      ensures Listed(list', p)
    {
      var i :| 0 <= i < |t.list| && t.list[i].pid == p;
      assert list'[i + 1].pid == p;
    }
  }

  lemma ExitStep(t: Table, h: History, i: nat, code: int)
    requires Inv(t) && HistoryOk(t, h) && i < |t.list|
    ensures HistoryOk(Exit(t, i, code), h.(codes := h.codes[t.list[i].pid := code]))
  {
    ExitListEffect(t, i, code);
    SamePidsListed(t.list, Exit(t, i, code).list);
  }

  lemma SamePidsListed(list: seq<Proc>, list': seq<Proc>)
    requires |list| == |list'| && forall k :: 0 <= k < |list| ==> list'[k].pid == list[k].pid
    ensures forall p :: Listed(list, p) ==> Listed(list', p)
  {
    forall p | Listed(list, p)
      ensures Listed(list', p)
    {
      var i :| 0 <= i < |list| && list[i].pid == p;
      assert list'[i].pid == p;
    }
  }

  /** What `wait` returns: a zombie child of the caller, with the code of its last
      exit or kill, and only that process leaves the list. */
  lemma WaitReturnsChild(t: Table, h: History, i: nat)
    requires Inv(t) && HistoryOk(t, h) && i < |t.list| && WaitOutcome(t, i).Reaped?
    ensures var r := WaitOutcome(t, i);
            r.pid in h.codes && r.code == h.codes[r.pid] && r.pid !in h.reaped &&
            exists z :: 0 <= z < |t.list| && t.list[z].pid == r.pid && IsZombieChild(t.list[z], t.list[i].pid) &&
                        Wait(t, i).list == Unlink(t.list, z)
  {
  }

  lemma ReapStep(t: Table, h: History, i: nat)
    requires Inv(t) && HistoryOk(t, h) && i < |t.list| && WaitOutcome(t, i).Reaped?
    ensures HistoryOk(Wait(t, i), h.(reaped := h.reaped + [WaitOutcome(t, i).pid]))
  {
    var z := FindZombie(t.list, t.list[i].pid).value;
    var list', h' := Unlink(t.list, z), h.(reaped := h.reaped + [t.list[z].pid]);
    forall k | 0 <= k < |list'|
      ensures list'[k].pid in h.born && list'[k].pid !in h'.reaped
    {
      var k0 := WasListed(t.list, z, k);
    }
    forall p | p in h.born && p !in h'.reaped
      ensures Listed(list', p)
    {
      var k :| 0 <= k < |t.list| && t.list[k].pid == p;
      StillListed(t.list, z, k);
    }
  }

  lemma StatusStep(t: Table, t': Table, h: History)
    requires HistoryOk(t, h) && t'.nextPid >= t.nextPid && |t'.list| == |t.list|
    requires forall k :: 0 <= k < |t.list| ==>
               t'.list[k].pid == t.list[k].pid && t'.list[k].code == t.list[k].code &&
               (t'.list[k].status == Zombie ==> t.list[k].status == Zombie)
    ensures HistoryOk(t', h)
  {
    SamePidsListed(t.list, t'.list);
  }

  lemma WaitStep(t: Table, h: History, i: nat)
    requires Inv(t) && HistoryOk(t, h) && i < |t.list|
    ensures var r := WaitOutcome(t, i);
            HistoryOk(Wait(t, i), if r.Reaped? then h.(reaped := h.reaped + [r.pid]) else h)
  {
    if WaitOutcome(t, i).Reaped? {
      ReapStep(t, h, i);
    } else {
      StatusStep(t, Wait(t, i), h);
    }
  }

  lemma SwitchStep(t: Table, h: History, i: nat)
    requires HistoryOk(t, h) && i < |t.list|
    ensures HistoryOk(Switch(t, i), h)
  {
    StatusStep(t, Switch(t, i), h);
  }

  lemma RecordKeeps(t: Table, h: History, op: Op)
    requires Inv(t) && HistoryOk(t, h) && Enabled(t, op)
    ensures HistoryOk(Step(t, op), Record(h, t, op))
  {
    if op.DoCreate? {
      BornStep(t, h, if t.current.Some? then t.current.value else 0);
    } else if Find(t.list, op.pid).Some? {
      var k := Find(t.list, op.pid).value;
      match op
      case DoFork(pid, cloned) => if cloned { BornStep(t, h, pid); } else { StatusStep(t, Step(t, op), h); }
      case DoExit(_, code) => ExitStep(t, h, k, code);
      case DoKill(_, signal) => ExitStep(t, h, k, signal);
      case DoWait(_) => WaitStep(t, h, k);
      case DoExec(_) => StatusStep(t, Exec(t, k), h);
      case DoSwitch(_) => SwitchStep(t, h, k);
      case DoCreate =>
    }
  }

  /** Over every run: a process that was ever listed is either still listed or has been
      reaped exactly once, and exit codes are those of the last exit or kill. */
  lemma {:induction false} RunKeepsHistory(ops: seq<Op>)
    requires EnabledRun(BOOT, ops)
    ensures HistoryOk(Run(BOOT, ops), Recorded(BOOT, BOOT_HISTORY, ops))
  {
    if ops == [] {
      assert BOOT.list[0].pid == 0;
    } else {
      var pre := ops[..|ops| - 1];
      RunKeepsHistory(pre);
      RunKeepsInv(pre);
      RecordKeeps(Run(BOOT, pre), Recorded(BOOT, BOOT_HISTORY, pre), ops[|ops| - 1]);
    }
  }
}

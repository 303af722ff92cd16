/** The process table in memory: a singly linked list of process records with a head
    pointer, a current pointer and the pid counter. */
module ProcessTable {
  import opened Options
  import opened Processes

  class Process {
    var pid: nat
    var parent: nat
    var status: Status
    var code: int
    var next: Process?

    constructor (pid: nat, parent: nat, next: Process?)
      ensures this.pid == pid && this.parent == parent && this.next == next && status == Ready && code == 0
    {
      this.pid, this.parent, this.next := pid, parent, next;
      status, code := Ready, 0;
    }

    ghost function View(): (p: Proc)
      reads this
    {
      Proc(pid, parent, status, code)
    }
  }

  class ProcessTable {
    var head: Process?
    var current: Process?
    var nextPid: nat
    /** The records in list order. */
    ghost var nodes: seq<Process>

    ghost function Records(): (r: set<object>)
      reads this
    {
      set p: object | p in nodes
    }

    ghost function NodeAt(i: nat): (p: Process?)
      reads this
    {
      if i < |nodes| then nodes[i] else null
    }

    ghost predicate Linked()
      reads this, nodes
    {
      && head == NodeAt(0)
      && (forall i {:trigger nodes[i].next} :: 0 <= i < |nodes| ==> nodes[i].next == NodeAt(i + 1))
      && (forall i, j :: 0 <= i < j < |nodes| ==> nodes[i] != nodes[j])
      && (current != null ==> current in nodes)
    }

    ghost function List(): (list: seq<Proc>)
      reads this, nodes
      ensures |list| == |nodes| && forall i :: 0 <= i < |nodes| ==> list[i] == nodes[i].View()
    {
      seq(|nodes|, i requires 0 <= i < |nodes| reads this, nodes => nodes[i].View())
    }

    ghost function View(): (t: Table)
      requires Linked()
      reads this, nodes
    {
      Table(List(), if current == null then None else Some(current.pid), nextPid)
    }

    /** The current process is the first with its pid. */
    ghost predicate CurrentFirst()
      requires Linked()
      reads this, nodes
    {
      current != null ==> Find(List(), current.pid).Some? && nodes[Find(List(), current.pid).value] == current
    }

    constructor ()
      ensures Linked() && nodes == [] && current == null && nextPid == 1
    {
      head, current, nextPid, nodes := null, null, 1, [];
    }

    method GetByPid(pid: nat) returns (p: Process?, ghost i: nat)
      requires Linked()
      ensures match Find(List(), pid)
              case None => p == null
              case Some(k) => i == k && p == nodes[k]
    {
      p, i := head, 0;
      while p != null
        invariant i <= |nodes| && p == NodeAt(i)
        invariant Find(List(), pid, i) == Find(List(), pid)
        decreases |nodes| - i
      {
        if p.pid == pid {
          return;
        }
        p := p.next;
        i := i + 1;
      }
    }

    /** Puts a new record in front of the list. */
    method Prepend(pid: nat, parent: nat) returns (p: Process)
      requires Linked()
      modifies this`head, this`nodes
      ensures Linked() && fresh(p)
      ensures nodes == [p] + old(nodes)
      ensures List() == [Proc(pid, parent, Ready, 0)] + old(List())
    {
      p := new Process(pid, parent, head);
      head := p;
      nodes := [p] + nodes;
    }

    /** `hasMemory` says whether memory for the record could be had. */
    method Create(hasMemory: bool) returns (p: Process?)
      requires Linked()
      modifies this`head, this`nodes, this`nextPid
      ensures Linked()
      ensures p != null <==> hasMemory
      ensures if p != null then fresh(p) && nodes == [p] + old(nodes) else nodes == old(nodes)
      ensures View() == if hasMemory then Processes.Create(old(View())) else old(View())
    {
      if !hasMemory {
        return null;
      }
      p := Prepend(nextPid, if current != null then current.pid else 0);
      nextPid := nextPid + 1;
    }

    /** The kernel process takes pid 1 and is renumbered to 0. */
    method Init(hasMemory: bool)
      modifies this
      ensures Linked() && fresh(Records())
      ensures View() == if hasMemory then BOOT else Table([], None, 1)
    {
      head, current, nextPid, nodes := null, null, 1, [];
      if !hasMemory {
        return;
      }
      var kernel := Prepend(nextPid, 0);
      nextPid := nextPid + 1;
      kernel.pid := 0;
      kernel.status := Running;
      current := kernel;
      assert List() == BOOT.list;
    }

    /** `cloned` says whether the parent's address space could be copied. */
    method Fork(parent: Process, hasMemory: bool, cloned: bool) returns (p: Process?)
      requires Linked() && parent in nodes
      modifies this`head, this`nodes, this`nextPid
      ensures Linked()
      ensures p != null <==> hasMemory && cloned
      ensures if p != null then fresh(p) && nodes == [p] + old(nodes) else nodes == old(nodes)
      ensures View() == if hasMemory then Processes.Fork(old(View()), parent.pid, cloned) else old(View())
    {
      if !hasMemory {
        return null;
      }
      if !cloned {
        nextPid := nextPid + 1;
        return null;
      }
      p := Prepend(nextPid, parent.pid);
      nextPid := nextPid + 1;
    }

    method SetStatus(p: Process, ghost i: nat, status: Status)
      requires Linked() && i < |nodes| && nodes[i] == p
      modifies p`status
      ensures Linked() && List() == old(List())[i := old(List())[i].(status := status)]
    {
      p.status := status;
    }

    method WakeParent(pid: nat)
      requires Linked()
      modifies nodes`status
      ensures Linked() && List() == Wake(old(List()), pid)
    {
      if pid > 0 {
        var parent, k := GetByPid(pid);
        if parent != null && parent.status == Blocked {
          SetStatus(parent, k, Ready);
        }
      }
    }

    method ReparentChildren(pid: nat)
      requires Linked()
      modifies nodes`parent
      ensures Linked() && List() == Reparent(old(List()), pid)
    {
      var p, i := head, 0;
      while p != null
        invariant Linked() && i <= |nodes| && p == NodeAt(i)
        invariant forall k :: 0 <= k < |nodes| ==>
                    nodes[k].parent == if k < i && old(nodes[k].parent) == pid then INIT_PID else old(nodes[k].parent)
        decreases |nodes| - i
      {
        if p.parent == pid {
          p.parent := INIT_PID;
        }
        p := p.next;
        i := i + 1;
      }
      assert i == |nodes|;
    }

    /** The list part of an exit. */
    method Bury(p: Process, ghost i: nat)
      requires Linked() && i < |nodes| && nodes[i] == p
      modifies nodes
      ensures Linked() && forall k :: 0 <= k < |nodes| ==> nodes[k].pid == old(nodes[k].pid)
      ensures List() == Processes.Exit(old(View()), i, old(p.code)).list
    {
      ghost var list := List();
      SetStatus(p, i, Zombie);
      assert List() == list[i := list[i].(status := Zombie, code := list[i].code)];
      WakeParent(p.parent);
      ReparentChildren(p.pid);
    }

    /** The process becomes a zombie with the exit code it carries. */
    method Exit(p: Process, ghost i: nat)
      requires Linked() && i < |nodes| && nodes[i] == p && CurrentFirst() && Find(List(), p.pid) == Some(i)
      modifies this`current, nodes
      ensures Linked() && nodes == old(nodes)
      ensures View() == Processes.Exit(old(View()), i, old(p.code))
    {
      Bury(p, i);
      if current == p {
        current := null;
      }
    }

    /** The exit system call: the code is stored first. */
    method ExitWith(p: Process, ghost i: nat, code: int)
      requires Linked() && i < |nodes| && nodes[i] == p && CurrentFirst() && Find(List(), p.pid) == Some(i)
      modifies this`current, nodes
      ensures Linked() && nodes == old(nodes)
      ensures View() == Processes.Exit(old(View()), i, code)
    {
      ghost var list, t := List(), View();
      p.code := code;
      assert List() == list[i := list[i].(code := code)];
      SameFind(list, List(), p.pid);
      if current != null {
        SameFind(list, List(), current.pid);
      }
      Exit(p, i);
      ExitIgnoresCode(t, i, code);
    }

    method Kill(pid: nat, signal: int) returns (found: bool)
      requires Linked() && CurrentFirst()
      modifies this`current, nodes
      ensures Linked() && nodes == old(nodes)
      ensures found == Find(old(List()), pid).Some?
      ensures View() == Step(old(View()), DoKill(pid, signal))
    {
      hide Find;
      hide Processes.Exit;
      var p, i := GetByPid(pid);
      if p == null {
        return false;
      }
      ExitWith(p, i, signal);
      return true;
    }

    /** The first zombie child of `pid`, with the record before it; both null when none. */
    method FindZombieChild(pid: nat) returns (prev: Process?, child: Process?, ghost z: nat)
      requires Linked()
      ensures match FindZombie(List(), pid)
              case None => child == null
              case Some(k) => z == k && child == nodes[k] && if k == 0 then prev == null else prev == nodes[k - 1]
    {
      prev, child, z := null, head, 0;
      while child != null && !(child.parent == pid && child.status == Zombie)
        invariant z <= |nodes| && child == NodeAt(z)
        invariant if z == 0 then prev == null else prev == nodes[z - 1]
        invariant FindZombie(List(), pid, z) == FindZombie(List(), pid)
        decreases |nodes| - z
      {
        prev := child;
        child := child.next;
        z := z + 1;
      }
    }

    method HasChildren(pid: nat) returns (found: bool)
      requires Linked()
      ensures found == HasChild(List(), pid)
    {
      var p, i := head, 0;
      while p != null
        invariant i <= |nodes| && p == NodeAt(i)
        invariant forall k :: 0 <= k < i ==> nodes[k].parent != pid
        decreases |nodes| - i
      {
        if p.parent == pid {
          assert List()[i].parent == pid;
          return true;
        }
        p := p.next;
        i := i + 1;
      }
      return false;
    }

    /** Unlinks record `z` by redirecting the pointer that leads to it. */
    method UnlinkNode(prev: Process?, child: Process, ghost z: nat)
      requires Linked() && z < |nodes| && nodes[z] == child && current != child
      requires if z == 0 then prev == null else prev == nodes[z - 1]
      modifies this`head, this`nodes, nodes`next
      ensures Linked() && nodes == old(nodes)[..z] + old(nodes)[z + 1..]
      ensures List() == Unlink(old(List()), z)
      ensures Records() <= old(Records())
    {
      if prev == null {
        head := child.next;
      } else {
        prev.next := child.next;
      }
      nodes := nodes[..z] + nodes[z + 1..];
      assert current != null ==> current in nodes by {
        if current != null {
          var k :| 0 <= k < |old(nodes)| && old(nodes)[k] == current;
          assert nodes[if k < z then k else k - 1] == current;
        }
      }
    }

    method Wait(p: Process, ghost i: nat) returns (r: WaitResult)
      requires Linked() && i < |nodes| && nodes[i] == p
      requires current != null ==> current.status != Zombie
      modifies this`head, this`nodes, nodes
      ensures Linked()
      ensures r == WaitOutcome(old(View()), i)
      ensures View() == Processes.Wait(old(View()), i)
      ensures Records() <= old(Records())
    {
      hide FindZombie;
      hide Unlink;
      hide HasChild;
      var prev, child, z := FindZombieChild(p.pid);
      if child != null {
        UnlinkNode(prev, child, z);
        return Reaped(child.pid, child.code);
      }
      var found := HasChildren(p.pid);
      if !found {
        return NoChildren;
      }
      SetStatus(p, i, Blocked);
      return MustBlock;
    }

    /** A successful exec; the loading of the image is not part of the table. */
    method ExecDone(p: Process, ghost i: nat)
      requires Linked() && i < |nodes| && nodes[i] == p
      modifies p`status
      ensures Linked() && View() == Exec(old(View()), i)
    {
      SetStatus(p, i, Ready);
    }

    method Switch(next: Process, ghost i: nat)
      requires Linked() && CurrentFirst() && i < |nodes| && nodes[i] == next
      modifies this`current, nodes`status
      ensures Linked() && current == next
      ensures View() == Processes.Switch(old(View()), i)
    {
      var prev := current;
      if prev != null && prev != next && prev.status == Running {
        SetStatus(prev, Find(List(), prev.pid).value, Ready);
      }
      current := next;
      SetStatus(next, i, Running);
    }

    // ----- runs

    lemma CurrentKnown()
      requires Linked() && Inv(View())
      ensures CurrentFirst() && (current != null ==> current.status != Zombie)
    {
      if current != null {
        var k :| 0 <= k < |nodes| && nodes[k] == current;
        assert List()[k].pid == current.pid;
        var j :| 0 <= j < |nodes| && List()[j].pid == current.pid && List()[j].status != Zombie;
        assert j == k;
      }
    }

    lemma CurrentKnownInRun(ops: seq<Op>)
      requires Linked() && EnabledRun(BOOT, ops) && View() == Run(BOOT, ops)
      ensures CurrentFirst() && (current != null ==> current.status != Zombie)
    {
      RunKeepsInv(ops);
      CurrentKnown();
    }

    /** An operation on listed process `i`. */
    method RunOn(op: Op, p: Process, ghost i: nat)
      requires Linked() && CurrentFirst() && (current != null ==> current.status != Zombie)
      requires !op.DoCreate? && Find(List(), op.pid) == Some(i) && nodes[i] == p
      modifies this, nodes
      ensures Linked() && View() == Step(old(View()), op)
      ensures fresh(Records() - old(Records()))
    {
      match op {
        case DoFork(_, cloned) => var child := Fork(p, true, cloned);
        case DoExit(_, code) => ExitWith(p, i, code);
        case DoKill(pid, signal) => var found := Kill(pid, signal);
        case DoWait(_) => var r := Wait(p, i);
        case DoExec(_) => ExecDone(p, i);
        case DoSwitch(_) => Switch(p, i);
      }
    }

    method RunOp(op: Op)
      requires Linked() && CurrentFirst() && (current != null ==> current.status != Zombie)
      modifies this, nodes
      ensures Linked() && View() == Step(old(View()), op)
      ensures fresh(Records() - old(Records()))
    {
      if op.DoCreate? {
        var p := Create(true);
      } else {
        var p, i := GetByPid(op.pid);
        if p != null {
          RunOn(op, p, i);
        }
      }
    }

    method RunNth(ops: seq<Op>, k: nat)
      requires EnabledRun(BOOT, ops) && k < |ops| && Linked() && View() == Run(BOOT, ops[..k])
      modifies this, Records()
      ensures Linked() && View() == Run(BOOT, ops[..k + 1])
      ensures fresh(Records() - old(Records()))
    {
      EnabledTo(BOOT, ops, k);
      CurrentKnownInRun(ops[..k]);
      RunTo(BOOT, ops, k);
      RunOp(ops[k]);
    }

    /** Any enabled run on the linked list is the run of the specification, and ends
        in a state that satisfies the invariant. */
    method BootAndRun(ops: seq<Op>)
      requires EnabledRun(BOOT, ops)
      modifies this
      ensures Linked() && View() == Run(BOOT, ops)
      ensures Inv(View())
    {
      Init(true);
      for k := 0 to |ops|
        invariant Linked() && View() == Run(BOOT, ops[..k])
        invariant fresh(Records())
      {
        RunNth(ops, k);
      }
      assert ops[..|ops|] == ops;
      RunKeepsInv(ops);
    }
  }
}

// The heap list `cmdqueue` of main/eq3_main.c, proved against the sequence
// operations of Eq3Commands.
module Eq3Queue {
  import opened Eq3Commands

  /** struct eq3cmd */
  class CommandNode {
    var bleda: Address
    var cmd: Kind
    var cmdparms: Parms
    var retries: int
    var next: CommandNode?

    constructor (r: Request)
      ensures Value() == Command(r, MAX_CMD_RETRIES) && next == null
    {
      bleda, cmd, cmdparms := r.bleda, r.kind, r.parms;
      retries, next := MAX_CMD_RETRIES, null;
    }

    ghost function Value(): (c: Command)
      reads this
    {
      Command(Request(bleda, cmd, cmdparms), retries)
    }
  }

  /** The last command queued for the device decides whether the request is still pending. */
  lemma LastDecides(q: seq<Command>, r: Request, last: int)
    requires -1 <= last < |q|
    requires last >= 0 ==> q[last].req.bleda == r.bleda
    requires forall j :: last < j < |q| ==> q[j].req.bleda != r.bleda
    ensures StillPending(q, r) <==> last >= 0 && q[last].req == r
  {
  }

  class CommandQueue {
    var cmdqueue: CommandNode?
    ghost var nodes: seq<CommandNode>

    /** `nodes` is the chain hanging off `cmdqueue`: it ends, and no node is on it twice. */
    ghost predicate Valid()
      reads this, nodes
    {
      && cmdqueue == (if nodes == [] then null else nodes[0])
      && (forall i {:trigger nodes[i].next} :: 0 <= i < |nodes| ==>
            nodes[i].next == if i + 1 < |nodes| then nodes[i + 1] else null)
      && (forall i, j :: 0 <= i < j < |nodes| ==> nodes[i] != nodes[j])
    }

    ghost function Contents(): (q: seq<Command>)
      reads this, nodes
      ensures |q| == |nodes| && forall i :: 0 <= i < |q| ==> q[i] == nodes[i].Value()
    {
      seq(|nodes|, i requires 0 <= i < |nodes| reads this, nodes => nodes[i].Value())
    }

    constructor ()
      ensures Valid() && Contents() == [] && nodes == []
    {
      cmdqueue, nodes := null, [];
    }

    /** The walk of enqueue_command: the tail, and the last command queued for the device. */
    method Walk(bleda: Address) returns (tail: CommandNode, lastCommandForDevice: CommandNode?, ghost last: int)
      requires Valid() && cmdqueue != null
      ensures tail == nodes[|nodes| - 1] && -1 <= last < |nodes|
      ensures lastCommandForDevice == if last == -1 then null else nodes[last]
      ensures last >= 0 ==> nodes[last].bleda == bleda
      ensures forall j :: last < j < |nodes| ==> nodes[j].bleda != bleda
    {
      tail := cmdqueue;
      ghost var k := 0;
      lastCommandForDevice, last := null, -1;
      if tail.bleda == bleda {
        lastCommandForDevice, last := tail, 0;
      }
      while tail.next != null
        invariant 0 <= k < |nodes| && tail == nodes[k]
        invariant -1 <= last <= k
        invariant lastCommandForDevice == if last == -1 then null else nodes[last]
        invariant last >= 0 ==> nodes[last].bleda == bleda
        invariant forall j :: last < j <= k ==> nodes[j].bleda != bleda
        decreases |nodes| - k
      {
        tail := tail.next;
        k := k + 1;
        if tail.bleda == bleda {
          lastCommandForDevice, last := tail, k;
        }
      }
    }

    /** Links a new node behind the tail. */
    method Append(newcmd: CommandNode, tail: CommandNode)
      requires Valid() && cmdqueue != null && tail == nodes[|nodes| - 1]
      requires newcmd !in nodes && newcmd.next == null
      modifies this, tail
      ensures Valid() && nodes == old(nodes) + [newcmd]
      ensures Contents() == old(Contents()) + [newcmd.Value()]
    {
      tail.next := newcmd;
      nodes := nodes + [newcmd];
    }

    /** enqueue_command: append at the tail unless the device's last command is the same request. */
    method Enqueue(newcmd: CommandNode)
      requires Valid() && newcmd !in nodes && newcmd.next == null
      modifies this, nodes
      ensures Valid()
      ensures Contents() == Enqueued(old(Contents()), old(newcmd.Value()))
      ensures nodes == if StillPending(old(Contents()), old(newcmd.Value()).req) then old(nodes)
              else old(nodes) + [newcmd]
    {
      ghost var q, r := Contents(), newcmd.Value().req;
      if cmdqueue == null {
        cmdqueue := newcmd;
        nodes := [newcmd];
        assert Contents() == [newcmd.Value()];
        return;
      }
      hide IsStillPending, StillPending, Valid;
      var qwalk, lastCommandForDevice, last := Walk(newcmd.bleda);
      LastDecides(q, r, last);
      if lastCommandForDevice != null && lastCommandForDevice.cmd == newcmd.cmd
         && lastCommandForDevice.cmdparms == newcmd.cmdparms {
        assert q[last].req == r;
        return;
      }
      assert last >= 0 ==> q[last].req == nodes[last].Value().req != r;
      Append(newcmd, qwalk);
    }

    /** command_complete */
    method CommandComplete(success: bool) returns (rc: Outcome)
      requires Valid()
      modifies this, nodes
      ensures Valid()
      ensures rc == if success then Done else FailureOutcome(old(Contents()))
      ensures Contents() == if success then Succeeded(old(Contents())) else AfterFailure(old(Contents()))
      ensures nodes == if rc == Retry then old(nodes)[1..] + [old(nodes)[0]]
                       else if success || rc == Failed then (if old(nodes) == [] then [] else old(nodes)[1..])
                       else old(nodes)
    {
      ghost var q := Contents();
      var deletehead := false;
      rc := Retry;
      if success {
        deletehead := true;
        rc := Done;
      } else if cmdqueue == null {
        rc := Done;
      } else {
        cmdqueue.retries := cmdqueue.retries - 1;
        if cmdqueue.retries <= 0 {
          deletehead := true;
          rc := Failed;
        } else {
          MoveHeadToTail();
          assert Contents() == q[1..] + [Charged(q[0])];
        }
      }
      if deletehead && cmdqueue != null {
        assert forall i :: 1 <= i < |q| ==> nodes[i].Value() == q[i];
        cmdqueue := cmdqueue.next;
        nodes := nodes[1..];
        assert Contents() == q[1..];
      }
    }

    /** The relinking inside command_complete: head becomes tail, nothing else moves. */
    method MoveHeadToTail()
      requires Valid() && cmdqueue != null
      modifies this, nodes
      ensures Valid()
      ensures nodes == old(nodes)[1..] + [old(nodes)[0]]
      ensures forall n :: n in old(nodes) ==> n.Value() == old(n.Value())
    {
      if cmdqueue.next != null {
        var mvcmd := cmdqueue;
        ghost var k := 0;
        while mvcmd.next != null
          invariant 0 <= k < |nodes| && mvcmd == nodes[k]
          decreases |nodes| - k
        {
          mvcmd := mvcmd.next;
          k := k + 1;
        }
        assert k == |nodes| - 1 > 0;
        mvcmd.next := cmdqueue;
        cmdqueue := cmdqueue.next;
        mvcmd.next.next := null;
        nodes := nodes[1..] + [nodes[0]];
      }
    }
  }
}

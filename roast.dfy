/**
 * The sampling task itself: the session object with its sorted map of
 * per-thread nodes, the lazy lookup-or-insert of a node, the setters used at
 * start-up, and one firing of the timer task.
 */
module Roast {
  import opened Wrappers
  import opened Sampling

  /** The aggregate kept per thread. Only the calls made to `log` are
      modelled; what the node does with them is not part of this model. */
  class StackNode {
    const name: string
    ghost var logged: seq<LogCall>

    constructor (name: string)
      ensures this.name == name && logged == []
    {
      this.name := name;
      logged := [];
    }

    /** `log(stack, interval)`: recorded, in call order. */
    method Log(stack: Stack, interval: int)
      modifies this
      ensures logged == old(logged) + [LogCall(stack, interval)]
    {
      logged := logged + [LogCall(stack, interval)];
    }
  }

  /** The profiling session and its timer task. */
  class WarmRoast {
    const interval: int
    var nodes: map<string, StackNode>
    var filterThread: Option<string>
    var endTime: int
    var cancelled: bool

    /** Every node is stored under its own name, so distinct names have distinct nodes. */
    ghost predicate Valid()
      reads this
    {
      forall name :: name in nodes ==> nodes[name].name == name
    }

    /** The nodes of the session. */
    ghost function Repr(): set<StackNode>
      reads this
    {
      set name | name in nodes :: nodes[name]
    }

    /** The calls made so far on each thread's node. */
    ghost function CallLog(): Logs
      reads this, Repr()
    {
      map name | name in nodes :: nodes[name].logged
    }

    constructor (interval: int)
      ensures Valid()
      ensures this.interval == interval
      ensures nodes == map[] && filterThread == None && endTime == NoEndTime && !cancelled
    {
      this.interval := interval;
      nodes := map[];
      filterThread := None;
      endTime := NoEndTime;
      cancelled := false;
    }

    method SetFilterThread(filterThread: Option<string>)
      modifies this`filterThread
      ensures this.filterThread == filterThread
    {
      this.filterThread := filterThread;
    }

    method SetEndTime(l: int)
      modifies this`endTime
      ensures endTime == l
    {
      endTime := l;
    }

    /** The node of `name`: the existing one, or a new one inserted under `name`. */
    method GetNode(name: string) returns (node: StackNode)
      requires Valid()
      modifies this`nodes
      ensures Valid()
      ensures node.name == name && name in nodes && nodes[name] == node
      ensures name in old(nodes) ==> node == old(nodes[name]) && nodes == old(nodes)
      ensures name !in old(nodes) ==> fresh(node) && node.logged == [] && nodes == old(nodes)[name := node]
      ensures CallLog() == old(CallLog())[name := LogsOf(old(CallLog()), name)]
    {
      if name in nodes {
        node := nodes[name];
      } else {
        node := new StackNode(name);
        nodes := nodes[name := node];
      }
    }

    /** `getNode(name).log(stack, interval)`: one more call on the node of `name`. */
    method LogSample(name: string, stack: Stack)
      requires Valid()
      modifies this`nodes, Repr()
      ensures Valid()
      ensures CallLog() == old(CallLog())[name := LogsOf(old(CallLog()), name) + [LogCall(stack, interval)]]
      ensures forall n :: n in old(nodes) ==> n in nodes && nodes[n] == old(nodes[n])
      ensures forall n :: n in nodes && n !in old(nodes) ==> fresh(nodes[n])
    {
      var node := GetNode(name);
      ghost var before := CallLog();
      node.Log(stack, interval);
      ghost var expected := before[name := before[name] + [LogCall(stack, interval)]];
      ghost var after := CallLog();
      forall n | n in nodes
        ensures after[n] == expected[n]
      {
        assert nodes[n].name == n;
      }
      assert after == expected;
    }

    /** One firing of the task at clock `now`. `dump` is what
        `dumpAllThreads` returns, `None` when it throws; it is not consulted
        when the end time has been reached. */
    method Run(now: int, dump: Option<seq<ThreadInfo>>) returns (firing: Firing)
      requires Valid()
      modifies this, Repr()
      ensures Valid()
      ensures filterThread == old(filterThread) && endTime == old(endTime)
      ensures cancelled == (old(cancelled) || !firing.Sampled?)
      ensures TimeUp(endTime, now) ==>
                firing == Stopped && nodes == old(nodes) && CallLog() == old(CallLog())
      ensures !TimeUp(endTime, now) && dump.None? ==>
                firing == Failed(DumpFailureStatus) && nodes == old(nodes) && CallLog() == old(CallLog())
      ensures !TimeUp(endTime, now) && dump.Some? ==>
                firing == Sampled && CallLog() == Record(old(CallLog()), dump.value, filterThread, interval)
      ensures forall name :: name in old(nodes) ==> name in nodes && nodes[name] == old(nodes[name])
      ensures forall name :: name in nodes && name !in old(nodes) ==> fresh(nodes[name])
    {
      if endTime >= 0 {
        if endTime <= now {
          cancelled := true;
          return Stopped;
        }
      }
      if dump.None? {
        cancelled := true;
        return Failed(DumpFailureStatus);
      }
      var threadDumps := dump.value;
      ghost var start := CallLog();
      for i := 0 to |threadDumps|
        invariant Valid()
        invariant filterThread == old(filterThread) && endTime == old(endTime) && cancelled == old(cancelled)
        invariant CallLog() == Record(start, threadDumps[..i], filterThread, interval)
        invariant forall name :: name in old(nodes) ==> name in nodes && nodes[name] == old(nodes[name])
        invariant forall name :: name in nodes && name !in old(nodes) ==> fresh(nodes[name])
      {
        var threadInfo := threadDumps[i];
        assert threadDumps[..i + 1] == threadDumps[..i] + [threadInfo];
        var threadName := threadInfo.threadName;
        var stack := threadInfo.stackTrace;

        if threadName.None? || stack.None? {
          continue;
        }

        if filterThread.Some? && filterThread.value != threadName.value {
          continue;
        }

        LogSample(threadName.value, stack.value);
      }
      assert threadDumps[..|threadDumps|] == threadDumps;
      firing := Sampled;
    }
  }
}

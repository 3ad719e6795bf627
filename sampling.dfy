/**
 * What one firing of the sampling task does to the per-thread nodes, stated
 * on values. A thread dump is a sequence of `ThreadInfo`s; the effect of a
 * dump on the nodes is described by the calls to `StackNode.log` it causes,
 * collected per thread name in a map (`Logs`).
 */
module Sampling {
  import opened Wrappers

  /** One element of `ThreadInfo.getStackTrace()`. */
  datatype Frame = Frame(declaringClass: string, methodName: string, fileName: Option<string>, lineNumber: int)

  type Stack = seq<Frame>

  /** One entry of a thread dump: the thread's name and its stack, either of which may be null. */
  datatype ThreadInfo = ThreadInfo(threadName: Option<string>, stackTrace: Option<Stack>)

  /** One call `node.log(stack, interval)`. */
  datatype LogCall = LogCall(stack: Stack, interval: int)

  /** The calls made so far on the node of each thread name. */
  type Logs = map<string, seq<LogCall>>

  /** How a firing of the task ends. */
  datatype Firing =
    | Sampled          // the dump was walked; sampling goes on
    | Stopped          // the end time was reached; the task is cancelled
    | Failed(status: int)  // the dump could not be taken; the task is cancelled and the process exits

  /** The exit status of the process when the monitored VM cannot be sampled. */
  const DumpFailureStatus := 3

  /** The value of `endTime` while no end time is set. */
  const NoEndTime := -1

  /** The firing at clock `now` finds the end time reached. With no end time
      set, sampling is never stopped by the clock; it is never stopped before
      the end time either. */
  predicate TimeUp(endTime: int, now: int)
    ensures endTime == NoEndTime ==> !TimeUp(endTime, now)
    ensures TimeUp(endTime, now) ==> now >= endTime
  {
    endTime >= 0 && endTime <= now
  }

  /** A dump entry is recorded: it has a name and a stack, and the filter,
      when set, names that thread. */
  predicate Qualifies(info: ThreadInfo, filterThread: Option<string>)
    ensures Qualifies(info, filterThread) ==> info.threadName.Some? && info.stackTrace.Some?
    ensures Qualifies(info, filterThread) && filterThread.Some? ==> info.threadName == filterThread
  {
    && info.threadName.Some?
    && info.stackTrace.Some?
    && (filterThread.None? || filterThread.value == info.threadName.value)
  }

  /** The calls made so far on the node of `name`; none when it has no node. */
  function LogsOf(logs: Logs, name: string): seq<LogCall>
  {
    if name in logs then logs[name] else []
  }

  /** The effect of one dump entry: a qualifying entry appends one call to
      its thread's node, creating the node on first sight. */
  function Step(logs: Logs, info: ThreadInfo, filterThread: Option<string>, interval: int): (r: Logs)
    ensures Qualifies(info, filterThread) ==>
              var name := info.threadName.value;
              r.Keys == logs.Keys + {name} &&
              LogsOf(r, name) == LogsOf(logs, name) + [LogCall(info.stackTrace.value, interval)]
    ensures !Qualifies(info, filterThread) ==> r == logs
    ensures forall name :: !Qualifies(info, filterThread) || name != info.threadName.value ==>
              LogsOf(r, name) == LogsOf(logs, name)
  {
    if Qualifies(info, filterThread) then
      var name := info.threadName.value;
      logs[name := LogsOf(logs, name) + [LogCall(info.stackTrace.value, interval)]]
    else
      logs
  }

  /** The effect of walking a whole dump in order, one `Step` per entry.
      Keys are never removed. */
  function Record(logs: Logs, dump: seq<ThreadInfo>, filterThread: Option<string>, interval: int): (r: Logs)
    ensures logs.Keys <= r.Keys
    decreases |dump|
  {
    if dump == [] then logs
    else Step(Record(logs, dump[..|dump| - 1], filterThread, interval), dump[|dump| - 1], filterThread, interval)
  }

  /** Reference definition: the names of the entries of a dump that are recorded. */
  function RecordedNames(dump: seq<ThreadInfo>, filterThread: Option<string>): set<string>
  {
    set i | 0 <= i < |dump| && Qualifies(dump[i], filterThread) :: dump[i].threadName.value
  }

  /** Reference definition: the calls a dump causes on the node of `name`, in dump order. */
  function CallsFor(dump: seq<ThreadInfo>, filterThread: Option<string>, name: string, interval: int): seq<LogCall>
    decreases |dump|
  {
    if dump == [] then []
    else
      var head := if Qualifies(dump[0], filterThread) && dump[0].threadName.value == name
                  then [LogCall(dump[0].stackTrace.value, interval)] else [];
      head + CallsFor(dump[1..], filterThread, name, interval)
  }

  lemma {:induction false} CallsForAppend(dump: seq<ThreadInfo>, info: ThreadInfo, filterThread: Option<string>, name: string, interval: int)
    ensures CallsFor(dump + [info], filterThread, name, interval)
         == CallsFor(dump, filterThread, name, interval)
            + (if Qualifies(info, filterThread) && info.threadName.value == name
               then [LogCall(info.stackTrace.value, interval)] else [])
    decreases |dump|
  {
    if dump == [] {
      assert [info][1..] == [];
    } else {
      assert (dump + [info])[1..] == dump[1..] + [info];
      CallsForAppend(dump[1..], info, filterThread, name, interval);
    }
  }

  /** After a dump, the key set is the old key set plus the names of the recorded entries. */
  lemma {:induction false} RecordKeys(logs: Logs, dump: seq<ThreadInfo>, filterThread: Option<string>, interval: int)
    ensures Record(logs, dump, filterThread, interval).Keys == logs.Keys + RecordedNames(dump, filterThread)
    decreases |dump|
  {
    if dump != [] {
      var init, last := dump[..|dump| - 1], dump[|dump| - 1];
      RecordKeys(logs, init, filterThread, interval);
      assert dump == init + [last];
      if Qualifies(last, filterThread) {
        assert RecordedNames(dump, filterThread) == RecordedNames(init, filterThread) + {last.threadName.value} by {
          forall n | n in RecordedNames(dump, filterThread)
            ensures n in RecordedNames(init, filterThread) + {last.threadName.value}
          {
            var i :| 0 <= i < |dump| && Qualifies(dump[i], filterThread) && dump[i].threadName.value == n;
            if i < |init| { assert init[i] == dump[i]; }
          }
          forall n | n in RecordedNames(init, filterThread)
            ensures n in RecordedNames(dump, filterThread)
          {
            var i :| 0 <= i < |init| && Qualifies(init[i], filterThread) && init[i].threadName.value == n;
            assert dump[i] == init[i];
          }
        }
      } else {
        assert RecordedNames(dump, filterThread) == RecordedNames(init, filterThread) by {
          forall n | n in RecordedNames(dump, filterThread)
            ensures n in RecordedNames(init, filterThread)
          {
            var i :| 0 <= i < |dump| && Qualifies(dump[i], filterThread) && dump[i].threadName.value == n;
            assert i < |init|;
            assert init[i] == dump[i];
          }
          forall n | n in RecordedNames(init, filterThread)
            ensures n in RecordedNames(dump, filterThread)
          {
            var i :| 0 <= i < |init| && Qualifies(init[i], filterThread) && init[i].threadName.value == n;
            assert dump[i] == init[i];
          }
        }
      }
    }
  }

  /** After a dump, every node's calls are its old calls followed by one call
      per recorded entry of its thread, in dump order. */
  lemma {:induction false} RecordCalls(logs: Logs, dump: seq<ThreadInfo>, filterThread: Option<string>, name: string, interval: int)
    ensures LogsOf(Record(logs, dump, filterThread, interval), name)
         == LogsOf(logs, name) + CallsFor(dump, filterThread, name, interval)
    decreases |dump|
  {
    if dump != [] {
      var init, last := dump[..|dump| - 1], dump[|dump| - 1];
      RecordCalls(logs, init, filterThread, name, interval);
      assert dump == init + [last];
      CallsForAppend(init, last, filterThread, name, interval);
    }
  }

  /** The entries of a dump that have both a thread name and a stack, in order. */
  function NamedWithStack(dump: seq<ThreadInfo>): seq<ThreadInfo>
    decreases |dump|
  {
    if dump == [] then []
    else
      var last := dump[|dump| - 1];
      NamedWithStack(dump[..|dump| - 1])
        + (if last.threadName.Some? && last.stackTrace.Some? then [last] else [])
  }

  /** Recording one more entry is one more `Step`. */
  lemma RecordSnoc(logs: Logs, dump: seq<ThreadInfo>, info: ThreadInfo, filterThread: Option<string>, interval: int)
    ensures Record(logs, dump + [info], filterThread, interval)
         == Step(Record(logs, dump, filterThread, interval), info, filterThread, interval)
  {
    assert (dump + [info])[..|dump + [info]| - 1] == dump;
  }

  /** Entries without a thread name or without a stack change nothing:
      recording a dump is recording only its entries that have both. */
  lemma {:induction false} UnnamedOrStacklessSkipped(logs: Logs, dump: seq<ThreadInfo>, filterThread: Option<string>, interval: int)
    ensures Record(logs, dump, filterThread, interval) == Record(logs, NamedWithStack(dump), filterThread, interval)
    decreases |dump|
  {
    if dump != [] {
      var init, last := dump[..|dump| - 1], dump[|dump| - 1];
      UnnamedOrStacklessSkipped(logs, init, filterThread, interval);
      assert dump == init + [last];
      RecordSnoc(logs, init, last, filterThread, interval);
      if last.threadName.Some? && last.stackTrace.Some? {
        assert NamedWithStack(dump) == NamedWithStack(init) + [last];
        RecordSnoc(logs, NamedWithStack(init), last, filterThread, interval);
      } else {
        assert NamedWithStack(dump) == NamedWithStack(init) + [];
        assert NamedWithStack(init) + [] == NamedWithStack(init);
        assert !Qualifies(last, filterThread);
      }
    }
  }

  /** With a filter set, only the filtered thread gains a node or a call. */
  lemma {:induction false} FilterKeepsOthers(logs: Logs, dump: seq<ThreadInfo>, filterName: string, interval: int)
    ensures Record(logs, dump, Some(filterName), interval).Keys <= logs.Keys + {filterName}
    ensures forall name :: name != filterName ==>
              LogsOf(Record(logs, dump, Some(filterName), interval), name) == LogsOf(logs, name)
  {
    RecordKeys(logs, dump, Some(filterName), interval);
    forall name | name != filterName
      ensures LogsOf(Record(logs, dump, Some(filterName), interval), name) == LogsOf(logs, name)
    {
      RecordCalls(logs, dump, Some(filterName), name, interval);
      CallsForOtherThread(dump, filterName, name, interval);
    }
  }

  lemma {:induction false} CallsForOtherThread(dump: seq<ThreadInfo>, filterName: string, name: string, interval: int)
    requires name != filterName
    ensures CallsFor(dump, Some(filterName), name, interval) == []
    decreases |dump|
  {
    if dump != [] {
      CallsForOtherThread(dump[1..], filterName, name, interval);
    }
  }

  /** Without a filter, every entry with a name and a stack is recorded. */
  lemma {:induction false} NoFilterRecordsAll(logs: Logs, dump: seq<ThreadInfo>, interval: int, i: int)
    requires 0 <= i < |dump| && dump[i].threadName.Some? && dump[i].stackTrace.Some?
    ensures dump[i].threadName.value in Record(logs, dump, None, interval)
    ensures LogCall(dump[i].stackTrace.value, interval) in LogsOf(Record(logs, dump, None, interval), dump[i].threadName.value)
  {
    RecordKeys(logs, dump, None, interval);
    RecordCalls(logs, dump, None, dump[i].threadName.value, interval);
    CallsForHas(dump, None, i, interval);
  }

  lemma {:induction false} CallsForHas(dump: seq<ThreadInfo>, filterThread: Option<string>, i: int, interval: int)
    requires 0 <= i < |dump| && Qualifies(dump[i], filterThread)
    ensures LogCall(dump[i].stackTrace.value, interval) in CallsFor(dump, filterThread, dump[i].threadName.value, interval)
    decreases |dump|
  {
    if i > 0 {
      CallsForHas(dump[1..], filterThread, i - 1, interval);
    }
  }

  /** No node loses a call: every node's old calls are a prefix of its new ones. */
  lemma {:induction false} RecordGrows(logs: Logs, dump: seq<ThreadInfo>, filterThread: Option<string>, interval: int)
    ensures forall name :: name in logs ==>
              logs[name] <= Record(logs, dump, filterThread, interval)[name]
  {
    forall name | name in logs
      ensures logs[name] <= Record(logs, dump, filterThread, interval)[name]
    {
      RecordCalls(logs, dump, filterThread, name, interval);
    }
  }

  /** Recording two dumps one after the other is recording them as one. */
  lemma {:induction false} RecordConcat(logs: Logs, first: seq<ThreadInfo>, second: seq<ThreadInfo>, filterThread: Option<string>, interval: int)
    ensures Record(Record(logs, first, filterThread, interval), second, filterThread, interval)
         == Record(logs, first + second, filterThread, interval)
    decreases |second|
  {
    if second != [] {
      var init := second[..|second| - 1];
      RecordConcat(logs, first, init, filterThread, interval);
      assert (first + second)[..|first + second| - 1] == first + init;
    } else {
      assert first + second == first;
    }
  }
}

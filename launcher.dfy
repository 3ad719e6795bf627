/**
 * The decisions `main` takes before sampling starts: which VMs are offered,
 * in what order, which one is picked, and when sampling is to stop.
 * Attaching, reading the console and printing are not modelled; their
 * results are parameters and the process's fate is a `Launch` value.
 */
module Launcher {
  import opened Wrappers
  import opened JavaString
  import opened Sampling
  import Roast

  /** A `VirtualMachineDescriptor`: the VM's id and its display name. */
  datatype VmDescriptor = VmDescriptor(id: string, displayName: string)

  /** Java's `int`. */
  newtype Int32 = x: int | -0x8000_0000 <= x < 0x8000_0000

  /** What `Integer.parseInt` makes of the line typed at the prompt. */
  datatype ParsedInt = Number(n: Int32) | NotANumber

  /** What reading the prompt's answer gives: a line, or an I/O error. */
  datatype Answer = ReadFailed | Line(parsed: ParsedInt)

  /** How `main` ends its VM selection. */
  datatype Launch =
    | Exit(status: int)          // System.exit(status)
    | Return                     // main returns without attaching
    | AttachPid(pid: int)        // attach by the process id given on the command line
    | AttachVm(vm: VmDescriptor) // attach to this listed VM

  /** The exit status for an empty VM list, an unmatched or malformed choice. */
  const SelectionFailedStatus := 1

  /** Display names containing this belong to the profiler's own VM. */
  const SelfName := "com.sk89q.warmroast.WarmRoast"

  predicate IsSelf(d: VmDescriptor)
  {
    Contains(d.displayName, SelfName)
  }

  /** The listed VMs without the profiler's own, in listing order. */
  function Candidates(vms: seq<VmDescriptor>): (r: seq<VmDescriptor>)
    ensures forall d :: d in r ==> !IsSelf(d)
  {
    if vms == [] then []
    else (if IsSelf(vms[0]) then [] else [vms[0]]) + Candidates(vms[1..])
  }

  /** Every listed VM other than the profiler's own is kept, as often as it was listed. */
  lemma {:induction false} CandidatesCount(vms: seq<VmDescriptor>)
    ensures forall d :: multiset(Candidates(vms))[d] == if IsSelf(d) then 0 else multiset(vms)[d]
  {
    if vms != [] {
      CandidatesCount(vms[1..]);
      assert vms == [vms[0]] + vms[1..];
    }
  }

  /** A kept VM was listed. */
  lemma CandidateListed(vms: seq<VmDescriptor>, d: VmDescriptor)
    requires d in Candidates(vms)
    ensures d in vms
  {
    CandidatesCount(vms);
    assert d in multiset(Candidates(vms));
  }

  /** The filter keeps listing order: filtering a concatenation is
      concatenating the filtered parts. */
  lemma {:induction false} CandidatesAppend(a: seq<VmDescriptor>, b: seq<VmDescriptor>)
    ensures Candidates(a + b) == Candidates(a) + Candidates(b)
  {
    if a == [] {
      assert a + b == b;
    } else {
      var x, t := a[0], a[1..];
      assert a == [x] + t;
      assert a + b == [x] + (t + b);
      CandidatesCons(x, t);
      CandidatesCons(x, t + b);
      CandidatesAppend(t, b);
    }
  }

  lemma CandidatesCons(x: VmDescriptor, s: seq<VmDescriptor>)
    ensures Candidates([x] + s) == (if IsSelf(x) then [] else [x]) + Candidates(s)
  {
    assert ([x] + s)[0] == x && ([x] + s)[1..] == s;
  }

  /** The descriptors are in ascending order of display name under `compareTo`. */
  predicate SortedByName(s: seq<VmDescriptor>)
  {
    forall i, j :: 0 <= i < j < |s| ==> NotAfter(s[i].displayName, s[j].displayName)
  }

  /** Inserts `d` before the first element whose name does not sort before it. */
  function Insert(d: VmDescriptor, s: seq<VmDescriptor>): (r: seq<VmDescriptor>)
    requires SortedByName(s)
    ensures SortedByName(r)
    ensures multiset(r) == multiset(s) + multiset{d}
  {
    if s == [] || NotAfter(d.displayName, s[0].displayName) then
      InsertFront(d, s);
      [d] + s
    else
      var rest := Insert(d, s[1..]);
      InsertBehind(d, s, rest);
      [s[0]] + rest
  }

  /** An element sorting no later than the head of a sorted list may go in front. */
  lemma InsertFront(d: VmDescriptor, s: seq<VmDescriptor>)
    requires SortedByName(s)
    requires s == [] || NotAfter(d.displayName, s[0].displayName)
    ensures SortedByName([d] + s)
  {
    forall j | 0 <= j < |s| ensures NotAfter(d.displayName, s[j].displayName) {
      if j > 0 {
        NotAfterTransitive(d.displayName, s[0].displayName, s[j].displayName);
      }
    }
  }

  /** An element sorting after the head goes into the tail, behind the head. */
  lemma InsertBehind(d: VmDescriptor, s: seq<VmDescriptor>, rest: seq<VmDescriptor>)
    requires SortedByName(s) && s != [] && !NotAfter(d.displayName, s[0].displayName)
    requires SortedByName(rest) && multiset(rest) == multiset(s[1..]) + multiset{d}
    ensures SortedByName([s[0]] + rest)
    ensures multiset([s[0]] + rest) == multiset(s) + multiset{d}
  {
    assert s == [s[0]] + s[1..];
    NotAfterTotal(d.displayName, s[0].displayName);
    forall x | x in rest ensures NotAfter(s[0].displayName, x.displayName) {
      assert x in multiset(rest);
      if x != d {
        assert x in multiset(s[1..]);
        var j :| 0 <= j < |s[1..]| && s[1..][j] == x;
        assert s[j + 1] == x;
      }
    }
  }

  /** `Collections.sort` of the list by display name: a stable insertion sort. */
  function SortByName(s: seq<VmDescriptor>): (r: seq<VmDescriptor>)
    ensures SortedByName(r)
    ensures multiset(r) == multiset(s)
  {
    if s == [] then []
    else
      assert s == [s[0]] + s[1..];
      Insert(s[0], SortByName(s[1..]))
  }

  /** The descriptors of `s` whose display name is `name`, in order. */
  function WithName(s: seq<VmDescriptor>, name: string): seq<VmDescriptor>
  {
    if s == [] then []
    else (if s[0].displayName == name then [s[0]] else []) + WithName(s[1..], name)
  }

  lemma WithNameCons(x: VmDescriptor, s: seq<VmDescriptor>, name: string)
    ensures WithName([x] + s, name) == (if x.displayName == name then [x] else []) + WithName(s, name)
  {
    assert ([x] + s)[1..] == s;
  }

  /** The elements of `name` after putting `d` behind `head`, when `d` and `head` have different names. */
  lemma WithNameBehind(d: VmDescriptor, head: VmDescriptor, tail: seq<VmDescriptor>, rest: seq<VmDescriptor>, name: string)
    requires d.displayName != head.displayName
    requires WithName(rest, name) == (if d.displayName == name then [d] else []) + WithName(tail, name)
    ensures WithName([head] + rest, name) == (if d.displayName == name then [d] else []) + WithName([head] + tail, name)
  {
    WithNameCons(head, rest, name);
    WithNameCons(head, tail, name);
  }

  lemma {:induction false} InsertStable(d: VmDescriptor, s: seq<VmDescriptor>, name: string)
    requires SortedByName(s)
    ensures WithName(Insert(d, s), name) == (if d.displayName == name then [d] else []) + WithName(s, name)
  {
    if s == [] || NotAfter(d.displayName, s[0].displayName) {
      WithNameCons(d, s, name);
    } else {
      var head, tail := s[0], s[1..];
      var rest := Insert(d, tail);
      assert Insert(d, s) == [head] + rest;
      assert s == [head] + tail;
      InsertStable(d, tail, name);
      WithNameBehind(d, head, tail, rest, name);
    }
  }

  /** The sort is stable: descriptors with equal names keep their relative order. */
  lemma {:induction false} SortStable(s: seq<VmDescriptor>, name: string)
    ensures WithName(SortByName(s), name) == WithName(s, name)
  {
    if s != [] {
      SortStable(s[1..], name);
      InsertStable(s[0], SortByName(s[1..]), name);
    }
  }

  /** The VM menu: the candidates sorted by display name. */
  function Menu(vms: seq<VmDescriptor>): (r: seq<VmDescriptor>)
    ensures SortedByName(r)
    ensures forall d :: d in r ==> !IsSelf(d)
    ensures forall d :: multiset(r)[d] == if IsSelf(d) then 0 else multiset(vms)[d]
  {
    var r := SortByName(Candidates(vms));
    CandidatesCount(vms);
    assert forall d :: d in r ==> d in multiset(Candidates(vms));
    r
  }

  /** The position of the first descriptor whose display name contains `vmName`. */
  function FirstMatch(s: seq<VmDescriptor>, vmName: string): (r: Option<nat>)
    ensures r.Some? ==> r.value < |s| && Contains(s[r.value].displayName, vmName)
    ensures r.Some? ==> forall j :: 0 <= j < r.value ==> !Contains(s[j].displayName, vmName)
    ensures r.None? ==> forall j :: 0 <= j < |s| ==> !Contains(s[j].displayName, vmName)
  {
    if s == [] then None
    else if Contains(s[0].displayName, vmName) then Some(0)
    else match FirstMatch(s[1..], vmName)
      case None => None
      case Some(k) => Some(k + 1)
  }

  /** `List.size()`: the length, capped at the largest `int`. */
  function JavaSize(s: seq<VmDescriptor>): (r: Int32)
    ensures 0 <= r as int <= |s|
    ensures r as int == |s| || r == 0x7fff_ffff
  {
    if |s| < 0x7fff_ffff then |s| as Int32 else 0x7fff_ffff
  }

  /** Java's `int` subtraction `n - 1`, which wraps below the smallest `int`. */
  function Decrement(n: Int32): (r: Int32)
    ensures (r as int - (n as int - 1)) % 0x1_0000_0000 == 0
    ensures n as int - 1 >= -0x8000_0000 ==> r as int == n as int - 1
  {
    if n == -0x8000_0000 then 0x7fff_ffff else n - 1
  }

  /** `choice = n - 1`, rejected when `choice < 0 || choice >= size`. */
  function ChoiceIndex(n: Int32, size: Int32): (r: Option<nat>)
    requires size >= 0
    ensures r.Some? <==> 1 <= n <= size
    ensures r.Some? ==> r.value == n as int - 1
  {
    var choice := Decrement(n);
    if choice < 0 || choice >= size then None else Some(choice as nat)
  }

  /** The whole selection of the VM to sample: the empty-list check, then the
      process id, then the first candidate matching the VM name, then the
      numbered menu. */
  function ChooseVm(vms: seq<VmDescriptor>, pid: Option<int>, vmName: Option<string>, answer: Answer): (r: Launch)
    ensures Candidates(vms) == [] ==> r == Exit(SelectionFailedStatus)
    ensures r.Exit? ==> r.status == SelectionFailedStatus
    ensures r.AttachVm? ==> r.vm in vms && !IsSelf(r.vm)
    ensures r.AttachPid? ==> pid == Some(r.pid)
    ensures Candidates(vms) != [] && pid.Some? ==> r == AttachPid(pid.value)
    ensures Candidates(vms) != [] && pid.None? && (vmName.Some? ==> FirstMatch(Candidates(vms), vmName.value).None?) ==>
              (answer == ReadFailed ==> r == Return) && (answer == Line(NotANumber) ==> r == Exit(SelectionFailedStatus))
  {
    var candidates := Candidates(vms);
    if |candidates| == 0 then Exit(SelectionFailedStatus)
    else if pid.Some? then AttachPid(pid.value)
    else
      var found := if vmName.Some? then FirstMatch(candidates, vmName.value) else None;
      if found.Some? then
        CandidateListed(vms, candidates[found.value]);
        AttachVm(candidates[found.value])
      else
        var menu := Menu(vms);
        match answer
        case ReadFailed => Return
        case Line(NotANumber) => Exit(SelectionFailedStatus)
        case Line(Number(n)) =>
          match ChoiceIndex(n, JavaSize(menu))
          case None => Exit(SelectionFailedStatus)
          case Some(k) =>
            assert menu[k] in multiset(menu);
            AttachVm(menu[k])
  }

  /** At the menu, an entered number `n` is accepted exactly when
      `1 <= n <= ` the number of listed VMs, and then selects the `n`-th of the sorted menu. */
  lemma MenuChoice(vms: seq<VmDescriptor>, vmName: Option<string>, n: Int32)
    requires Candidates(vms) != []
    requires vmName.Some? ==> FirstMatch(Candidates(vms), vmName.value).None?
    ensures var r := ChooseVm(vms, None, vmName, Line(Number(n)));
            if 1 <= n as int <= |Menu(vms)| then r == AttachVm(Menu(vms)[n - 1])
            else r == Exit(SelectionFailedStatus)
  {
    var menu := Menu(vms);
    var size := JavaSize(menu);
    assert 1 <= n as int <= |menu| <==> 1 <= n <= size;
    match ChoiceIndex(n, size)
    case None =>
    case Some(k) => assert k == n as int - 1;
  }

  /** A listed VM that is not the profiler itself splits the candidates around it. */
  lemma {:induction false} CandidatesAround(vms: seq<VmDescriptor>, j: nat)
    requires j < |vms| && !IsSelf(vms[j])
    ensures Candidates(vms) == Candidates(vms[..j]) + [vms[j]] + Candidates(vms[j + 1..])
  {
    if j > 0 {
      CandidatesAround(vms[1..], j - 1);
      assert vms[1..][..j - 1] == vms[..j][1..];
      assert vms[1..][j - 1] == vms[j] && vms[1..][j..] == vms[j + 1..];
    }
  }

  /** `FirstMatch` finds the position before which nothing matches. */
  lemma FirstMatchAt(s: seq<VmDescriptor>, vmName: string, p: nat)
    requires p < |s| && Contains(s[p].displayName, vmName)
    requires forall q :: 0 <= q < p ==> !Contains(s[q].displayName, vmName)
    ensures FirstMatch(s, vmName) == Some(p)
  {
  }

  /** A VM name on the command line picks the first listed VM, in listing
      order, that is not the profiler itself and whose display name contains it. */
  lemma NameChoice(vms: seq<VmDescriptor>, vmName: string, answer: Answer, j: nat)
    requires j < |vms| && !IsSelf(vms[j]) && Contains(vms[j].displayName, vmName)
    requires forall i :: 0 <= i < j ==> IsSelf(vms[i]) || !Contains(vms[i].displayName, vmName)
    ensures ChooseVm(vms, None, Some(vmName), answer) == AttachVm(vms[j])
  {
    CandidatesAround(vms, j);
    var earlier := Candidates(vms[..j]);
    var candidates := Candidates(vms);
    var p := |earlier|;
    assert candidates[p] == vms[j];
    forall q | 0 <= q < p
      ensures !Contains(candidates[q].displayName, vmName)
    {
      var x := candidates[q];
      assert x == earlier[q];
      CandidateListed(vms[..j], x);
      var i :| 0 <= i < j && vms[..j][i] == x;
    }
    FirstMatchAt(candidates, vmName, p);
  }

  /** The end time set from the timeout option (in seconds), given the clock at start-up. */
  function EndTimeFor(timeout: Option<int>, now: int): (r: int)
    ensures timeout.Some? && timeout.value > 0 ==> r >= now + 1000
    ensures timeout.None? || timeout.value <= 0 ==> r == NoEndTime
  {
    if timeout.Some? && timeout.value > 0 then now + timeout.value * 1000 else NoEndTime
  }

  /** With a clock that is not negative at start-up, a firing finds the end
      time reached exactly when a positive timeout was given and its
      seconds have elapsed. */
  lemma TimeoutCutOff(timeout: Option<int>, start: int, now: int)
    requires start >= 0
    ensures TimeUp(EndTimeFor(timeout, start), now)
        <==> timeout.Some? && timeout.value > 0 && now >= start + timeout.value * 1000
  {
  }

  /** `setFilterThread` and the conditional `setEndTime` of `main`, on a new session. */
  method Configure(roast: Roast.WarmRoast, threadName: Option<string>, timeout: Option<int>, now: int)
    requires roast.endTime == NoEndTime
    modifies roast
    ensures roast.filterThread == threadName
    ensures roast.endTime == EndTimeFor(timeout, now)
    ensures roast.nodes == old(roast.nodes) && roast.cancelled == old(roast.cancelled)
  {
    roast.SetFilterThread(threadName);
    if timeout.Some? && timeout.value > 0 {
      roast.SetEndTime(now + timeout.value * 1000);
    }
  }
}

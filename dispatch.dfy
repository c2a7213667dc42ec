/*
  The chain command's dispatch loop (PpChainCommand in
  addon/globalPlugins/earconFrenzy.py): a worker thread hands each member
  command to the thread pool in turn and sleeps until the member's deadline,
  the chain's start plus the durations of the members dispatched so far;
  terminate() raises a flag that the loop checks before each member.

  Times are whole milliseconds read from a clock given as a parameter.
  Handing a member to the thread pool, sleeping and stopping a member's
  player are recorded as effects in the plugin's log rather than performed.
*/
module Dispatch {
  import opened Commands

  /** What the chain does to the world outside it. */
  datatype Effect =
    | Dispatched(index: nat)           // threadPool.add_task(subcommand.run)
    | Slept(index: nat, millis: int)   // time.sleep after dispatching member index
    | Stopped(index: nat)              // subcommand.terminate()

  /** Where the chain's worker thread is. */
  datatype Phase =
    | Idle        // threadFunc has not started
    | Running     // inside the for loop
    | Completed   // the loop ran out of members
    | Returned    // the loop saw the terminated flag and returned
    | Raised      // time.sleep was given a negative length and raised ValueError

  /** The deadline of the k-th dispatched member: the chain's start plus the
      durations of members 0 .. k-1. */
  function Deadline(t0: int, subs: seq<Command>, k: nat): (r: int)
    requires AllSchedulable(subs) && k <= |subs|
    ensures k == 0 ==> r == t0
    ensures k == 1 ==> r == t0 + Duration(subs[0])
  {
    assert k == 0 ==> subs[..k] == [];
    assert k == 1 ==> subs[..k] == [subs[0]];
    t0 + SumDurations(subs[..k])
  }

  /** Each deadline is the previous one plus the duration of the member
      dispatched in between. */
  lemma DeadlineStep(t0: int, subs: seq<Command>, k: nat)
    requires AllSchedulable(subs) && k < |subs|
    ensures Deadline(t0, subs, k + 1) == Deadline(t0, subs, k) + Duration(subs[k])
  {
    SumDurationsSnoc(subs, k);
  }

  /** The first deadline is the start itself and the last one is the start
      plus the chain's own getDuration. */
  lemma DeadlineEnds(t0: int, subs: seq<Command>)
    requires AllSchedulable(subs)
    ensures Deadline(t0, subs, 0) == t0
    ensures Deadline(t0, subs, |subs|) == t0 + Duration(Chain(subs))
  {
    assert subs[..0] == [];
    assert subs[..|subs|] == subs;
  }

  /** With durations that are never negative, deadlines never move back. */
  lemma {:induction false} DeadlinesMonotone(t0: int, subs: seq<Command>, j: nat, k: nat)
    requires AllSchedulable(subs) && j <= k <= |subs|
    requires forall i | 0 <= i < |subs| :: Duration(subs[i]) >= 0
    ensures Deadline(t0, subs, j) <= Deadline(t0, subs, k)
    decreases k - j
  {
    if j < k {
      DeadlinesMonotone(t0, subs, j, k - 1);
      DeadlineStep(t0, subs, k - 1);
    }
  }

  /** The effects of the first n loop iterations when each of them slept:
      dispatch member k, then sleep for its deadline minus the clock reading
      clock[k] taken after the dispatch. */
  function Trace(t0: int, subs: seq<Command>, clock: seq<int>, n: nat): (r: seq<Effect>)
    requires AllSchedulable(subs) && n <= |subs| && n <= |clock|
    ensures |r| == 2 * n
  {
    if n == 0 then []
    else Trace(t0, subs, clock, n - 1) + [Dispatched(n - 1), Slept(n - 1, Deadline(t0, subs, n) - clock[n - 1])]
  }

  /** The trace dispatches the members in list order, each followed by its
      sleep, whose length is not clamped at zero. */
  lemma {:induction false} TraceInOrder(t0: int, subs: seq<Command>, clock: seq<int>, n: nat, k: nat)
    requires AllSchedulable(subs) && n <= |subs| && n <= |clock| && k < n
    ensures Trace(t0, subs, clock, n)[2 * k] == Dispatched(k)
    ensures Trace(t0, subs, clock, n)[2 * k + 1] == Slept(k, Deadline(t0, subs, k + 1) - clock[k])
    decreases n
  {
    if k < n - 1 {
      TraceInOrder(t0, subs, clock, n - 1, k);
      assert Trace(t0, subs, clock, n)[2 * k] == Trace(t0, subs, clock, n - 1)[2 * k];
      assert Trace(t0, subs, clock, n)[2 * k + 1] == Trace(t0, subs, clock, n - 1)[2 * k + 1];
    }
  }

  /** Stopping members 0 .. n-1 in list order. */
  function Stops(n: nat): (r: seq<Effect>)
    ensures |r| == n && forall i | 0 <= i < n :: r[i] == Stopped(i)
  {
    if n == 0 then [] else Stops(n - 1) + [Stopped(n - 1)]
  }

  /** The plugin's module-level state: the chain that speech cancellation
      would terminate, and the log of effects. */
  class Plugin {
    var currentChain: ChainCommand?
    var log: seq<Effect>

    constructor()
      ensures currentChain == null && log == []
    {
      currentChain := null;
      log := [];
    }
  }

  class ChainCommand {
    const subcommands: seq<Command>
    var terminated: bool
    var phase: Phase
    /** How many members the loop has dispatched. */
    var next: nat
    /** threadFunc's local timestamp, in milliseconds. */
    var timestamp: int
    /** The clock reading threadFunc started from. */
    ghost var start: int

    ghost predicate Valid()
      reads this
    {
      && AllSchedulable(subcommands)
      && next <= |subcommands|
      && (phase == Idle ==> next == 0)
      && (phase == Completed ==> next == |subcommands|)
      && (phase != Idle ==> timestamp == Deadline(start, subcommands, next))
    }

    constructor(subcommands: seq<Command>)
      requires AllSchedulable(subcommands)
      ensures this.subcommands == subcommands
      ensures !terminated && phase == Idle && next == 0
      ensures Valid()
    {
      this.subcommands := subcommands;
      terminated := false;
      phase := Idle;
      next := 0;
      timestamp := 0;
      start := 0;
    }

    /** run(): make this chain the current one; its loop then runs on the
        thread pool (ThreadFunc). */
    method Run(plugin: Plugin)
      modifies plugin
      ensures plugin.currentChain == this
      ensures plugin.log == old(plugin.log)
    {
      plugin.currentChain := this;
    }

    /** The start of threadFunc: the timestamp is the current time. */
    method Begin(now: int)
      requires Valid() && phase == Idle
      modifies this
      ensures phase == Running && next == 0 && terminated == old(terminated)
      ensures start == now && timestamp == now
      ensures Valid()
    {
      phase := Running;
      timestamp := now;
      start := now;
      DeadlineEnds(now, subcommands);
    }

    /** One pass of threadFunc's loop for the member at index next: return if
        terminated; otherwise dispatch it, move the timestamp on by its
        duration and sleep until then, now being the clock reading taken
        after the dispatch. A negative sleep raises and ends the thread. */
    method Step(plugin: Plugin, now: int)
      requires Valid() && phase == Running && next < |subcommands|
      modifies this, plugin
      ensures Valid()
      ensures terminated == old(terminated) && start == old(start)
      ensures plugin.currentChain == old(plugin.currentChain)
      ensures old(terminated) ==>
        && phase == Returned && next == old(next) && timestamp == old(timestamp)
        && plugin.log == old(plugin.log)
      ensures !old(terminated) ==>
        && next == old(next) + 1
        && timestamp == old(timestamp) + Duration(subcommands[old(next)])
        && phase == (if timestamp < now then Raised else Running)
        && plugin.log == old(plugin.log) + [Dispatched(old(next))]
                         + (if timestamp < now then [] else [Slept(old(next), timestamp - now)])
    {
      if terminated {
        phase := Returned;
        return;
      }
      plugin.log := plugin.log + [Dispatched(next)];
      DeadlineStep(start, subcommands, next);
      timestamp := timestamp + Duration(subcommands[next]);
      next := next + 1;
      var sleepTime := timestamp - now;
      if sleepTime < 0 {
        phase := Raised;
      } else {
        plugin.log := plugin.log + [Slept(next - 1, sleepTime)];
      }
    }

    /** The loop ran out of members. The assignment currentChain = None that
        follows binds a local name, so the plugin's pointer is not touched:
        this method does not even see the plugin. */
    method Finish()
      requires Valid() && phase == Running && next == |subcommands|
      modifies this
      ensures phase == Completed
      ensures next == old(next) && timestamp == old(timestamp) && terminated == old(terminated) && start == old(start)
      ensures Valid()
    {
      phase := Completed;
    }

    /** threadFunc run to its end with nobody terminating the chain meanwhile:
        t0 is the starting clock reading, clock[k] the reading taken after
        member k is dispatched. */
    method ThreadFunc(plugin: Plugin, t0: int, clock: seq<int>)
      requires Valid() && phase == Idle && |clock| == |subcommands|
      modifies this, plugin
      ensures Valid() && start == t0 && terminated == old(terminated)
      ensures plugin.currentChain == old(plugin.currentChain)
      ensures old(terminated) ==> next == 0 && plugin.log == old(plugin.log)
      ensures old(terminated) ==> (phase == Returned <==> subcommands != [])
      ensures phase == Returned ==> old(terminated)
      ensures phase == Completed <==>
        (!old(terminated) || subcommands == []) && forall k | 0 <= k < |subcommands| :: clock[k] <= Deadline(t0, subcommands, k + 1)
      ensures phase == Completed ==> plugin.log == old(plugin.log) + Trace(t0, subcommands, clock, |subcommands|)
      ensures phase == Raised ==>
        && !old(terminated) && 0 < next
        && clock[next - 1] > Deadline(t0, subcommands, next)
        && (forall k | 0 <= k < next - 1 :: clock[k] <= Deadline(t0, subcommands, k + 1))
        && plugin.log == old(plugin.log) + Trace(t0, subcommands, clock, next - 1) + [Dispatched(next - 1)]
      ensures phase in {Completed, Returned, Raised}
    {
      Begin(t0);
      while phase == Running && next < |subcommands|
        invariant Valid() && start == t0 && terminated == old(terminated)
        invariant phase in {Running, Returned, Raised}
        invariant plugin.currentChain == old(plugin.currentChain)
        invariant old(terminated) ==> phase != Raised && next == 0 && plugin.log == old(plugin.log)
        invariant !old(terminated) ==> phase != Returned
        invariant phase == Returned ==> next < |subcommands|
        invariant phase == Running ==>
          && (forall k | 0 <= k < next :: clock[k] <= Deadline(t0, subcommands, k + 1))
          && (!old(terminated) ==> plugin.log == old(plugin.log) + Trace(t0, subcommands, clock, next))
        invariant phase == Raised ==>
          && 0 < next
          && clock[next - 1] > Deadline(t0, subcommands, next)
          && (forall k | 0 <= k < next - 1 :: clock[k] <= Deadline(t0, subcommands, k + 1))
          && plugin.log == old(plugin.log) + Trace(t0, subcommands, clock, next - 1) + [Dispatched(next - 1)]
        decreases |subcommands| - next + (if phase == Running then 1 else 0)
      {
        Step(plugin, clock[next]);
      }
      if phase == Running {
        Finish();
      }
    }

    /** terminate(): raise the flag, stop every member whether or not it was
        dispatched, and clear the plugin's current chain. */
    method Terminate(plugin: Plugin)
      requires Valid()
      modifies this, plugin
      ensures Valid()
      ensures terminated
      ensures plugin.currentChain == null
      ensures plugin.log == old(plugin.log) + Stops(|subcommands|)
      ensures phase == old(phase) && next == old(next) && timestamp == old(timestamp) && start == old(start)
    {
      terminated := true;
      var i := 0;
      while i < |subcommands|
        invariant 0 <= i <= |subcommands|
        invariant plugin.log == old(plugin.log) + Stops(i)
        invariant terminated
        invariant phase == old(phase) && next == old(next) && timestamp == old(timestamp) && start == old(start)
      {
        plugin.log := plugin.log + [Stopped(i)];
        i := i + 1;
      }
      plugin.currentChain := null;
    }
  }

  /** Once terminate has run, a later pass of the loop dispatches nothing and
      the thread returns. */
  method TerminateThenStep(chain: ChainCommand, plugin: Plugin, now: int)
    requires chain.Valid() && chain.phase == Running && chain.next < |chain.subcommands|
    modifies chain, plugin
    ensures chain.phase == Returned && chain.next == old(chain.next)
    ensures plugin.log == old(plugin.log) + Stops(|chain.subcommands|)
    ensures plugin.currentChain == null
  {
    chain.Terminate(plugin);
    chain.Step(plugin, now);
  }
}

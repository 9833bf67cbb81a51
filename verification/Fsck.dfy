/** check_all: the scheduler that runs the checks of all filesystems in parallel, pass by pass. */
module Fsck {
  import opened Bits
  import opened FsckTrace
  import opened FsckState

  /** After an interrupt there is one last wait for what is still running. */
  function Uninterrupted(waits: seq<Wait>, cancelled: bool): seq<Wait> {
    if cancelled && waits != [] then waits[..|waits| - 1] else waits
  }

  class Scheduler {
    const setup: Setup
    var done: seq<bool>          // FLAG_DONE of each entry
    var running: seq<nat>        // instance_list, by the entry each child checks
    var numRunning: int
    var cancelRequested: bool    // set by the signal handler, at any moment, and never cleared
    ghost var trace: seq<Event>
    ghost var waits: seq<Wait>
    ghost var hangs: nat         // how often the scheduler was ready to block

    ghost predicate Valid()
      reads this
    {
      && |done| == |setup.table|
      && numRunning == |running|
      && Agrees(setup, done, running, trace) == true && Reaped(trace, waits) == true
    }

    ghost predicate Unmarked()
      reads this
    {
      trace == [] && waits == [] && running == [] && forall i :: 0 <= i < |done| ==> !done[i]
    }

    constructor (setup: Setup)
      ensures Valid() && Unmarked() && this.setup == setup
    {
      this.setup := setup;
      done := seq(|setup.table|, _ => false);
      running := [];
      numRunning := 0;
      cancelRequested := false;
      trace, waits, hangs := [], [], 0;
      new;
      AgreesStart(setup, done);
    }

    /** A signal may arrive. */
    method Poll()
      modifies this`cancelRequested
      ensures old(cancelRequested) ==> cancelRequested
    {
      if * {
        cancelRequested := true;
      }
    }

    method FindBase(base: Option<string>) returns (taken: bool)
      requires forall k :: 0 <= k < |running| ==> running[k] < |setup.table|
      ensures taken == BaseTaken(setup, running, base)
    {
      var k := 0;
      while k < |running|
        invariant 0 <= k <= |running|
        invariant forall j :: 0 <= j < k ==> setup.table[running[j]].base.Some? && setup.table[running[j]].base != base
      {
        var other := setup.table[running[k]].base;
        if other.None? || other == base {
          return true;
        }
        k := k + 1;
      }
      taken := false;
    }

    /** A check of entry `i` must wait exactly when it would share a disk with a running one. */
    method DeviceAlreadyActive(i: nat) returns (active: bool)
      requires Valid() && i < |setup.table|
      ensures active == (!setup.forceAllParallel && !Apart(setup, running + [i]))
      ensures active ==> running != []
    {
      if setup.forceAllParallel {
        return false;
      }
      AgreesFacts(setup, done, running, trace);
      ApartExtend(setup, running, i);
      if running != [] && (Md(setup.table[running[0]].device) || Md(setup.table[i].device)) {
        return true;
      }
      var base := setup.table[i].base;
      if base.None? {
        return running != [];
      }
      active := FindBase(base);
    }

    /** Starts the check of entry `i`, at the end of the list, unless the program cannot be run. */
    method FsckDevice(i: nat)
      requires Valid() && i < |done|
      requires MayAttempt(setup, trace, i) == true && Within(setup, running + [i]) == true
      modifies this`running, this`numRunning, this`trace, this`done
      ensures Valid() && done == old(done)[i := true]
      ensures if i in setup.failing then trace == old(trace) + [Refused(i)] && running == old(running)
              else trace == old(trace) + [Started(i)] && running == old(running) + [i]
    {
      AgreesAttempt(setup, done, running, trace, i);
      numRunning := numRunning + 1;
      if i !in setup.failing {
        running := running + [i];
        trace := trace + [Started(i)];
      } else {
        trace := trace + [Refused(i)];
        numRunning := numRunning - 1;
      }
      ReapedGrow(old(trace), trace, waits);
      done := done[i := true];
    }

    /** What holds while children are being waited for. */
    ghost predicate Listed()
      reads this
    {
      |done| == |setup.table| && numRunning == |running| && Agrees(setup, done, running, trace) == true
    }

    /** Waits for some child; without `hang`, gives up when none has ended yet. */
    method WaitOne(hang: bool) returns (child: Option<nat>, status: byte)
      requires Listed()
      modifies this`running, this`numRunning, this`trace, this`cancelRequested, this`hangs
      ensures Listed() && (old(cancelRequested) ==> cancelRequested)
      ensures hangs == old(hangs) + if hang then 1 else 0
      ensures child.None? ==> trace == old(trace) && running == old(running) && (hang ==> running == [])
      ensures child.Some? ==> child.value in old(running) && running == Without(old(running), child.value)
                              && |running| == |old(running)| - 1 && trace == old(trace) + [Exited(child.value, status)]
    {
      status := 0;
      if hang {
        hangs := hangs + 1;
      }
      if running == [] {
        return None, 0;
      }
      Poll();
      var noneYet: bool := *;
      if !hang && noneYet {
        return None, 0;
      }
      var k: nat :| k < |running|;
      var i := running[k];
      status := *;
      AgreesExit(setup, done, running, trace, i, status);
      trace := trace + [Exited(i, status)];
      running := Without(running, i);
      numRunning := numRunning - 1;
      child := Some(i);
    }

    /** Waits for all children, or for at least one and any others that have ended too. */
    method WaitMany(all: bool) returns (status: nat)
      requires Valid()
      modifies this`running, this`numRunning, this`trace, this`cancelRequested, this`waits, this`hangs
      ensures Valid() && (old(cancelRequested) ==> cancelRequested)
      ensures waits == old(waits) + [Wait(|old(trace)|, all)] && (!all ==> hangs == old(hangs) + 1)
      ensures Waited(old(trace), old(running), trace, running, status) == true
      ensures |running| <= |old(running)|
      ensures old(running) != [] ==> |running| < |old(running)|
      ensures all ==> running == []
    {
      status := 0;
      var hang := true;
      var waiting := true;
      WaitedStart(trace, running);
      while waiting
        invariant Listed() && (old(cancelRequested) ==> cancelRequested)
        invariant Waited(old(trace), old(running), trace, running, status) == true
        invariant |running| <= |old(running)|
        invariant |running| == |old(running)| ==> hang
        invariant waits == old(waits)
        invariant !all ==> hangs == old(hangs) + if hang && waiting then 0 else 1
        invariant all ==> hang
        invariant !waiting ==> (hang ==> running == [])
        decreases waiting, |running|
      {
        ghost var was, ran := trace, running;
        AgreesFacts(setup, done, running, trace);
        var child, code := WaitOne(hang);
        waiting := child.Some?;
        if child.Some? {
          WaitedStep(setup, old(trace), old(running), was, ran, status, child.value, code);
          status := Or(status, code);
          if !all {
            hang := false;
          }
        }
      }
      WaitedFacts(old(trace), old(running), trace, running, status);
      ReapedWait(old(trace), trace, waits, all);
      waits := waits + [Wait(|old(trace)|, all)];
    }

    /** Marks the entries that are never to be checked. */
    method MarkIgnored()
      requires Valid() && Unmarked()
      modifies this`done
      ensures Valid()
      ensures forall i :: 0 <= i < |done| ==> done[i] == Ignored(setup.table[i])
    {
      var i := 0;
      while i < |done|
        invariant 0 <= i <= |done| && Valid()
        invariant forall j :: 0 <= j < |done| ==> done[j] == (j < i && Ignored(setup.table[j]))
      {
        if Ignored(setup.table[i]) {
          AgreesMark(setup, done, running, trace, i);
          done := done[i := true];
        }
        i := i + 1;
      }
    }

    method FindRoot() returns (r: Option<nat>)
      ensures r.Some? ==> r.value < |setup.table| && Root(setup.table[r.value])
                          && forall j :: 0 <= j < r.value ==> !Root(setup.table[j])
      ensures r.None? ==> forall j :: 0 <= j < |setup.table| ==> !Root(setup.table[j])
    {
      var i := 0;
      while i < |setup.table|
        invariant 0 <= i <= |setup.table|
        invariant forall j :: 0 <= j < i ==> !Root(setup.table[j])
      {
        if Root(setup.table[i]) {
          return Some(i);
        }
        i := i + 1;
      }
      r := None;
    }

    /** Checks the root filesystem, entry `i`, with nothing else running. */
    method CheckRoot(i: nat) returns (status: nat)
      requires Valid() && trace == [] && waits == [] && running == []
      requires i < |done| && RootFirst(setup, i) && Wanted(setup, i) && !done[i]
      modifies this`done, this`running, this`numRunning, this`trace, this`cancelRequested, this`waits, this`hangs
      ensures Valid() && running == [] && done == old(done)[i := true] && (old(cancelRequested) ==> cancelRequested)
      ensures status == Statuses(trace) && RootSettled(setup, trace)
      ensures BadRoot(setup, trace) <==> status > EXIT_NONDESTRUCT
      ensures BadRoot(setup, trace) ==> |trace| == 2
      ensures NeverIdle(setup, trace, waits) == true
    {
      FsckDevice(i);
      ghost var was, ran := trace, running;
      AgreesFacts(setup, done, running, trace);
      status := WaitMany(true);
      RootWait(setup, was, ran, i);
      WaitedFacts(was, ran, trace, running, status);
      NeverIdleGrow(setup, was, trace, waits);
      RootTrace(setup, was, ran, trace, i, status);
    }

    /** Marks the entries for the root that -R leaves out, however often it is listed. */
    method SkipRoots()
      requires Valid() && setup.skipRoot
      modifies this`done
      ensures Valid()
      ensures forall i :: 0 <= i < |done| ==> done[i] == (old(done)[i] || Root(setup.table[i]))
    {
      var i := 0;
      while i < |done|
        invariant 0 <= i <= |done| == |old(done)| && Valid()
        invariant forall j :: 0 <= j < |done| ==> done[j] == (old(done)[j] || (j < i && Root(setup.table[j])))
      {
        if Root(setup.table[i]) {
          AgreesMark(setup, done, running, trace, i);
          done := done[i := true];
        }
        i := i + 1;
      }
    }

    /** The preparation for the first pass. Says to stop when the root came out with errors. */
    method Prepare() returns (status: nat, stop: bool)
      requires Valid() && Unmarked()
      modifies this
      ensures Valid() && running == []
      ensures status == Statuses(trace) && NeverIdle(setup, trace, waits) == true
      ensures stop ==> BadRoot(setup, trace) && |trace| == 2
      ensures !stop ==> MarksExact(setup, done) == true && RootSettled(setup, trace) && !BadRoot(setup, trace)
    {
      status, stop := 0, false;
      MarkIgnored();
      ghost var marks := done;
      if !setup.parallelRoot {
        var r := FindRoot();
        if r.Some? {
          var i := r.value;
          if !setup.skipRoot && !Ignored(setup.table[i]) {
            status := CheckRoot(i);
            if status > EXIT_NONDESTRUCT {
              return status, true;
            }
          } else {
            AgreesMark(setup, done, running, trace, i);
            done := done[i := true];
          }
        }
      }
      if setup.skipRoot {
        SkipRoots();
      }
    }

    /** One walk over the table: starts what pass `passno` may start now. */
    method Walk(passno: nat) returns (later: bool, passDone: bool)
      requires Valid() && MarksExact(setup, done) == true && Fits(setup, numRunning + 1)
      requires LowerOver(setup, trace, passno) == true && RunningUpTo(setup, running, passno) == true
      modifies this`done, this`running, this`numRunning, this`trace, this`cancelRequested
      ensures Valid() && (old(cancelRequested) ==> cancelRequested)
      ensures Fits(setup, numRunning) == true
      ensures Statuses(trace) == Statuses(old(trace)) && old(trace) <= trace
      ensures !cancelRequested ==>
        Walked(setup, old(done), old(running), old(trace), done, running, trace, |done|, passno, later, passDone) ==
            true
    {
      later, passDone := false, true;
      var i := 0;
      WalkStart(setup, done, running, trace, passno);
      while i < |done|
        invariant 0 <= i <= |done| && Valid() && Fits(setup, numRunning + 1)
        invariant old(cancelRequested) ==> cancelRequested
        invariant Walked(setup, old(done), old(running), old(trace), done, running, trace, i, passno, later,
                         passDone) == true
      {
        Poll();
        if cancelRequested {
          break;
        }
        var full: bool;
        later, passDone, full := Consider(i, passno, later, passDone, old(done), old(running), old(trace));
        i := i + 1;
        if full {
          WalkBreak(setup, old(done), old(running), old(trace), done, running, trace, i, passno, later);
          break;
        }
      }
      WalkKeeps(setup, old(done), old(running), old(trace), done, running, trace, i, passno, later, passDone);
    }

    /** The turn of entry `i` in a walk. `full` says to break the walk off. */
    method Consider(i: nat, passno: nat, later0: bool, passDone0: bool, ghost done0: seq<bool>,
                    ghost running0: seq<nat>, ghost trace0: seq<Event>)
      returns (later: bool, passDone: bool, full: bool)
      requires Valid() && Fits(setup, numRunning + 1) && i < |done|
      requires Walked(setup, done0, running0, trace0, done, running, trace, i, passno, later0, passDone0) == true
      modifies this`done, this`running, this`numRunning, this`trace
      ensures Valid() && |done| == |old(done)|
      ensures Walked(setup, done0, running0, trace0, done, running, trace, i + 1, passno, later, passDone) == true
      ensures full ==> !passDone && (setup.serialize || (setup.maxRunning != 0 && |running| >= setup.maxRunning))
      ensures !full ==> Fits(setup, numRunning + 1)
      ensures Fits(setup, numRunning) == true
    {
      later, passDone, full := later0, passDone0, false;
      WalkPast(setup, done0, running0, trace0, done, running, trace, i, passno, later, passDone);
      if done[i] {
        return;
      }
      if setup.table[i].pass > passno {
        later := true;
        return;
      }
      var active := DeviceAlreadyActive(i);
      if active {
        passDone := false;
        return;
      }
      ghost var was, ran, marks := trace, running, done;
      AgreesFacts(setup, done, running, trace);
      WalkMay(setup, done0, running0, trace0, done, running, trace, i, passno, later, passDone);
      FsckDevice(i);
      WalkAttempt(setup, done0, running0, trace0, marks, ran, was, i, passno, later, passDone, trace[|was|], running);
      if setup.serialize || (setup.maxRunning != 0 && numRunning >= setup.maxRunning) {
        passDone := false;
        full := true;
      }
    }

    /** One walk and the wait after it. `more` says that another round is needed, with the pass number `next`. */
    method Round(passno: nat) returns (more: bool, next: nat, status: nat)
      requires Valid() && MarksExact(setup, done) == true && Fits(setup, numRunning + 1) == true
      requires LowerOver(setup, trace, passno) == true && RunningUpTo(setup, running, passno) == true
      requires NeverIdle(setup, trace, waits) == true
      modifies this
      ensures NeverIdle(setup, trace, waits) == true
      ensures Valid() && (old(cancelRequested) ==> cancelRequested)
      ensures Statuses(trace) == Or(Statuses(old(trace)), status) && old(trace) <= trace
      ensures more || !cancelRequested ==>
        && MarksExact(setup, done) == true && Fits(setup, numRunning + 1) == true
        && LowerOver(setup, trace, next) == true && RunningUpTo(setup, running, next) == true
      ensures more ==> Closer(setup, old(done), |old(running)|, passno, done, |running|, next) == true
      ensures !more && !cancelRequested ==> Undone(done) == {} && running == []
    {
      ghost var done0, running0, trace0 := done, running, trace;
      var later, passDone := Walk(passno);
      NeverIdleGrow(setup, trace0, trace, waits);
      Poll();
      if cancelRequested {
        StatusJoin(Statuses(trace), 0, 0);
        return false, passno, 0;
      }
      more, next, status := Settle(passno, later, passDone, done0, running0, trace0);
    }

    /** The wait that ends a round. */
    method Settle(passno: nat, later: bool, passDone: bool, ghost done0: seq<bool>, ghost running0: seq<nat>,
                  ghost trace0: seq<Event>)
      returns (more: bool, next: nat, status: nat)
      requires Valid() && Fits(setup, numRunning) == true
      requires Walked(setup, done0, running0, trace0, done, running, trace, |done|, passno, later, passDone) == true
      requires NeverIdle(setup, trace, waits) == true
      modifies this`running, this`numRunning, this`trace, this`cancelRequested, this`waits, this`hangs
      ensures NeverIdle(setup, trace, waits) == true
      ensures Valid() && (old(cancelRequested) ==> cancelRequested)
      ensures Statuses(trace) == Or(Statuses(trace0), status) && trace0 <= trace
      ensures MarksExact(setup, done) == true && Fits(setup, numRunning + 1) == true
      ensures LowerOver(setup, trace, next) == true && RunningUpTo(setup, running, next) == true
      ensures more ==> Closer(setup, done0, |running0|, passno, done, |running|, next) == true
      ensures !more ==> Undone(done) == {} && running == []
    {
      ghost var running1, trace1 := running, trace;
      WalkWaits(setup, done0, running0, trace0, done, running, trace, passno, later, passDone);
      NeverIdleWait(setup, trace, waits, passDone);
      status := WaitMany(passDone);
      WaitedFacts(trace1, running1, trace, running, status);
      NeverIdleGrow(setup, trace1, trace, waits);
      FitsAfter(setup, |running1|, |running|);
      next := if passDone then passno + 1 else passno;
      more := later || !passDone;
      NextRound(setup, done0, running0, trace0, done, running1, trace1, passno, later, passDone, running, trace,
                status, next);
    }

    /** All passes, and the last wait. */
    method RunPasses(status0: nat) returns (status: nat)
      requires Valid() && running == [] && MarksExact(setup, done) == true
      requires status0 == Statuses(trace) && NeverIdle(setup, trace, waits) == true
      modifies this
      ensures waits != [] && NeverIdle(setup, trace, waits[..|waits| - 1]) == true
      ensures !cancelRequested ==> NeverIdle(setup, trace, waits) == true
      ensures Valid() && old(trace) <= trace && status == Statuses(trace)
      ensures !cancelRequested ==> Undone(done) == {} && running == []
    {
      status := status0;
      var passno, more := 1, true;
      FirstRound(setup, trace);
      while more
        invariant Valid() && status == Statuses(trace) && old(trace) <= trace
        invariant more ==>
          && MarksExact(setup, done) == true && LowerOver(setup, trace, passno) == true
          && RunningUpTo(setup, running, passno) == true && Fits(setup, numRunning + 1) == true
        invariant NeverIdle(setup, trace, waits) == true
        invariant !more && !cancelRequested ==> Undone(done) == {} && running == []
        decreases more, Undone(done), |running|, MaxPass(setup.table) - passno
      {
        var st;
        more, passno, st := Round(passno);
        status := Or(status, st);
      }
      ghost var running1, trace1, waits1 := running, trace, waits;
      AgreesFacts(setup, done, running, trace);
      var st := WaitMany(false);
      WaitedFacts(trace1, running1, trace, running, st);
      NeverIdleGrow(setup, trace1, trace, waits1);
      LastWait(setup, trace1, trace, running1, waits1);
      assert waits[..|waits| - 1] == waits1;
      status := Or(status, st);
    }

    /**
     * Checks every filesystem of the table. Whatever the children return, in whatever order they end, and whenever
     * the user interrupts: no two checks share a disk, each wanted entry is tried at most once and in pass order, and
     * the result is the OR of the statuses. Without an interrupt, every wanted entry is tried and every child is
     * waited for, unless the root filesystem came out with errors. The scheduler never waits while a check that is due
     * could be started beside the running ones, except for the check of the root and after an interrupt.
     */
    method CheckAll() returns (status: nat)
      requires Valid() && Unmarked()
      modifies this
      ensures NeverTogether(setup, trace) && OnlyOnce(setup, trace) && PassOrder(setup, trace)
      ensures running == Running(trace) && numRunning == |running|
      ensures status == Statuses(trace)
      ensures BadRoot(setup, trace) ==> |trace| == 2
      ensures !cancelRequested ==> Complete(setup, trace) || BadRoot(setup, trace)
      ensures Reaped(trace, waits) && NeverIdle(setup, trace, Uninterrupted(waits, cancelRequested))
    {
      var stop;
      status, stop := Prepare();
      if !stop {
        ghost var first := trace;
        status := RunPasses(status);
        assert NeverIdle(setup, trace, Uninterrupted(waits, cancelRequested));
        AgreesFacts(setup, done, running, trace);
        StaysSettled(setup, first, trace);
        if !cancelRequested {
          AgreesAll(setup, done, running, trace);
          DrainedComplete(setup, trace);
        }
      }
      AgreesFacts(setup, done, running, trace);
      SoundNeverTogether(setup, trace);
      SoundOnlyOnce(setup, trace);
      SoundPassOrder(setup, trace);
    }
  }
}

/** What the flags and lists of the fsck scheduler say about the run so far, and how each of its steps keeps that
true. */
module FsckState {
  import opened Bits
  import opened FsckTrace

  /** The flags, the instance list and the run agree. */
  ghost predicate Agrees(s: Setup, done: seq<bool>, running: seq<nat>, t: seq<Event>) {
    forall k: int {:trigger Opened(LoopSeal, k)} :: Sealed(k) ==>
      && |done| == |s.table|
      && running == Running(t)
      && Sound(s, t)
      && (forall i: nat :: Attempted(t, i) ==> i < |done| && done[i])
      && (forall i: nat :: i < |done| && done[i] && Wanted(s, i) ==> Attempted(t, i))
  }

  lemma AgreesStart(s: Setup, done: seq<bool>)
    requires |done| == |s.table| && forall i :: 0 <= i < |done| ==> !done[i]
    ensures Agrees(s, done, [], [])
  {
    var t: seq<Event> := [];
    assert Running(t) == [] && Sound(s, t) && forall i: nat :: !Attempted(t, i);
  }

  lemma AgreesFacts(s: Setup, done: seq<bool>, running: seq<nat>, t: seq<Event>)
    requires Agrees(s, done, running, t)
    ensures |done| == |s.table| && running == Running(t) && Sound(s, t) && Within(s, running)
    ensures forall i :: 0 <= i < |running| ==> running[i] < |s.table|
  {
    assert Opened(LoopSeal, 0);
    SoundWithin(s, t);
    RunningKnown(s, t);
    assert forall i :: 0 <= i < |running| ==> running[i] in running;
  }

  lemma {:induction false} RunningKnown(s: Setup, t: seq<Event>)
    requires Sound(s, t)
    ensures forall i: nat :: i in Running(t) ==> i < |s.table| && Wanted(s, i)
    decreases |t|
  {
    if t != [] {
      RunningKnown(s, t[..|t| - 1]);
      if t[|t| - 1].Exited? {
        Left(Running(t[..|t| - 1]), t[|t| - 1].fs);
      }
    }
  }

  /** An entry that is never to be checked may be marked. */
  lemma AgreesMark(s: Setup, done: seq<bool>, running: seq<nat>, t: seq<Event>, i: nat)
    requires Agrees(s, done, running, t) && i < |done| && (!Wanted(s, i) || Attempted(t, i))
    ensures Agrees(s, done[i := true], running, t)
  {
    assert Opened(LoopSeal, 0);
  }

  lemma AgreesAttempt(s: Setup, done: seq<bool>, running: seq<nat>, t: seq<Event>, i: nat)
    requires Agrees(s, done, running, t) && i < |done|
    requires MayAttempt(s, t, i) && Within(s, running + [i])
    ensures i !in s.failing ==> Agrees(s, done[i := true], running + [i], t + [Started(i)])
    ensures i in s.failing ==> Agrees(s, done[i := true], running, t + [Refused(i)])
  {
    assert running == Running(t) && Sound(s, t) by {
      assert Opened(LoopSeal, 0);
    }
    var e := if i in s.failing then Refused(i) else Started(i);
    assert StepOk(s, t, e);
    AgreesEvent(s, done, running, t, i, e);
  }

  lemma AgreesEvent(s: Setup, done: seq<bool>, running: seq<nat>, t: seq<Event>, i: nat, e: Event)
    requires Agrees(s, done, running, t) && i < |done| && (e == Started(i) || e == Refused(i))
    requires Sound(s, t) && running == Running(t) && StepOk(s, t, e) == true
    ensures Agrees(s, done[i := true], if e.Started? then running + [i] else running, t + [e])
  {
    Extend(s, t, e);
    assert Opened(LoopSeal, 0);
  }

  /** After a wait that removed a child, if there was one, one more child fits. */
  lemma FitsAfter(s: Setup, before: nat, after: nat)
    requires Fits(s, before) == true && after <= before && (before > 0 ==> after < before)
    ensures Fits(s, after + 1) == true
  {
  }

  lemma AgreesExit(s: Setup, done: seq<bool>, running: seq<nat>, t: seq<Event>, i: nat, code: byte)
    requires Agrees(s, done, running, t) && i in running
    ensures Agrees(s, done, Without(running, i), t + [Exited(i, code)])
    ensures |Without(running, i)| == |running| - 1
  {
    assert Opened(LoopSeal, 0);
    Extend(s, t, Exited(i, code));
    Left(running, i);
  }

  lemma AgreesFree(s: Setup, done: seq<bool>, running: seq<nat>, t: seq<Event>, i: nat)
    requires Agrees(s, done, running, t) && i < |done| && !done[i]
    ensures !Attempted(t, i)
  {
    assert Opened(LoopSeal, 0);
  }

  lemma AgreesAll(s: Setup, done: seq<bool>, running: seq<nat>, t: seq<Event>)
    requires Agrees(s, done, running, t) && Undone(done) == {}
    ensures forall i: nat :: Wanted(s, i) ==> Attempted(t, i)
  {
    assert Opened(LoopSeal, 0);
    assert forall i :: 0 <= i < |done| && !done[i] ==> i in Undone(done);
  }

  lemma Left(running: seq<nat>, i: nat)
    requires i in running
    ensures |Without(running, i)| == |running| - 1 && forall x :: x in Without(running, i) ==> x in running
  {
    forall x: nat
      ensures x in Without(running, i) ==> x in running
    {
      WithoutIn(running, i, x);
    }
    WithoutIn(running, i, i);
  }

  // Disks.

  /** Some running check is on the disk `base`, or on an unknown one. */
  ghost predicate BaseTaken(s: Setup, running: seq<nat>, base: Option<string>) {
    exists k :: 0 <= k < |running| && running[k] < |s.table|
                && (s.table[running[k]].base.None? || s.table[running[k]].base == base)
  }

  lemma ApartExtend(s: Setup, running: seq<nat>, i: nat)
    requires Apart(s, running) && i < |s.table|
    ensures Apart(s, running + [i]) == (running == [] ||
            (!Md(s.table[running[0]].device) && !Md(s.table[i].device) && s.table[i].base.Some?
             && !BaseTaken(s, running, s.table[i].base)))
  {
    var all := running + [i];
    assert all[|running|] == i;
    assert forall k :: 0 <= k < |running| ==> all[k] == running[k];
    if Apart(s, all) && running != [] {
      assert all[0] == running[0];
      forall k | 0 <= k < |running|
        ensures s.table[running[k]].base.Some? && s.table[running[k]].base != s.table[i].base
      {
        assert s.table[all[k]].base != s.table[all[|running|]].base;
      }
    }
  }

  // Waiting.

  /** What waiting did: children ended, and `status` is the OR of what they returned. */
  ghost predicate Waited(t0: seq<Event>, running0: seq<nat>, t: seq<Event>, running: seq<nat>, status: nat) {
    forall k: int {:trigger Opened(TrackSeal, k)} :: Sealed(k) ==>
      && Statuses(t) == Or(Statuses(t0), status)
      && (forall i: nat :: Attempted(t, i) <==> Attempted(t0, i))
      && (forall i :: i in running ==> i in running0)
      && t0 <= t && (forall m :: |t0| <= m < |t| ==> t[m].Exited?)
      && (|running0| == |running| ==> t == t0 && status == 0)
      && (|running0| == 1 && running == [] ==> status < 256 && t == t0 + [Exited(running0[0], status)])
  }

  lemma {:induction false} OrHalves(a: nat, b: nat)
    ensures Or(a, b) % 2 == (if a % 2 == 1 || b % 2 == 1 then 1 else 0)
    ensures Or(a, b) / 2 == Or(a / 2, b / 2)
  {
    var h := Or(a / 2, b / 2);
    assert Or(a, b) == (if a % 2 == 1 || b % 2 == 1 then 1 else 0) + 2 * h;
  }

  lemma {:induction false} OrSame(x: nat, y: nat)
    requires x % 2 == y % 2 && x / 2 == y / 2
    ensures x == y
  {
  }

  lemma {:induction false} StatusJoin(a: nat, b: nat, c: nat)
    ensures Or(Or(a, b), c) == Or(a, Or(b, c)) && Or(a, 0) == a
  {
    if a != 0 && b != 0 && c != 0 {
      var ab, bc := Or(a, b), Or(b, c);
      OrHalves(a, b);
      OrHalves(b, c);
      OrHalves(ab, c);
      OrHalves(a, bc);
      StatusJoin(a / 2, b / 2, c / 2);
      OrSame(Or(ab, c), Or(a, bc));
    }
  }

  lemma WaitedStart(t: seq<Event>, running: seq<nat>)
    ensures Waited(t, running, t, running, 0)
  {
    StatusJoin(Statuses(t), 0, 0);
  }

  lemma WaitedStep(s: Setup, t0: seq<Event>, running0: seq<nat>, t: seq<Event>, running: seq<nat>, status: nat, i: nat,
                   code: byte)
    requires Waited(t0, running0, t, running, status) && Sound(s, t) && running == Running(t)
    requires |running| <= |running0| && i in running
    ensures Waited(t0, running0, t + [Exited(i, code)], Without(running, i), Or(status, code))
  {
    var t1 := t + [Exited(i, code)];
    assert Statuses(t1) == Or(Statuses(t), code) && forall j: nat :: Attempted(t1, j) <==> Attempted(t, j) by {
      Extend(s, t, Exited(i, code));
    }
    Left(running, i);
    WaitedJoin(t0, running0, t, running, status, i, code, t1, Without(running, i), Or(status, code));
  }

  lemma WaitedJoin(t0: seq<Event>, running0: seq<nat>, t: seq<Event>, running: seq<nat>, status: nat, i: nat,
                   code: byte, t1: seq<Event>, rest: seq<nat>, status1: nat)
    requires Waited(t0, running0, t, running, status) && |running| <= |running0| && i in running
    requires t1 == t + [Exited(i, code)] && Statuses(t1) == Or(Statuses(t), code) && status1 == Or(status, code)
    requires forall j: nat :: Attempted(t1, j) <==> Attempted(t, j)
    requires |rest| == |running| - 1 && forall x :: x in rest ==> x in running
    ensures Waited(t0, running0, t1, rest, status1)
  {
    assert Opened(TrackSeal, 0);
    StatusJoin(Statuses(t0), status, code);
    if |running0| == 1 && rest == [] {
      StatusJoin(code, 0, 0);
      assert running == [i] && running[0] in running0;
    }
  }

  // The root filesystem.

  /** The root filesystem was checked first and came out with errors. */
  ghost predicate BadRoot(s: Setup, t: seq<Event>) {
    && |t| >= 2 && t[0].Started? && RootFirst(s, t[0].fs)
    && t[1].Exited? && t[1].status > 1
  }

  /** The whole run of the root check, once its child, if it could be started, has ended. */
  lemma RootTrace(s: Setup, t0: seq<Event>, running0: seq<nat>, t: seq<Event>, i: nat, status: nat)
    requires RootFirst(s, i) && Waited(t0, running0, t, [], status)
    requires (t0 == [Started(i)] && running0 == [i]) || (t0 == [Refused(i)] && running0 == [])
    ensures status == Statuses(t)
    ensures BadRoot(s, t) <==> status > EXIT_NONDESTRUCT
    ensures BadRoot(s, t) ==> |t| == 2
    ensures RootSettled(s, t) && Attempted(t, i)
  {
    assert Opened(TrackSeal, 0);
    assert t0[..0] == [];
    assert Statuses(t0) == 0;
    StatusJoin(status, 0, 0);
    assert Attempt(t0[0], i);
  }

  /** The wait for the root alone. */
  lemma RootWait(s: Setup, t: seq<Event>, running: seq<nat>, i: nat)
    requires RootFirst(s, i) && (t == [Started(i)] || t == [Refused(i)])
    ensures NeverIdle(s, t, [Wait(|t|, true)])
  {
    assert t[..1] == t && RootAlone(s, t);
  }

  /** The last wait, when nothing runs any more. */
  lemma LastWait(s: Setup, t: seq<Event>, t': seq<Event>, running: seq<nat>, waits: seq<Wait>)
    requires running == Running(t) && NeverIdle(s, t', waits) && t <= t'
    ensures running == [] ==> NeverIdle(s, t', waits + [Wait(|t|, false)])
  {
    assert t'[..|t|] == t;
  }

  /** Whether the root turned out bad has been decided: its check is over, or there will be none. */
  ghost predicate RootSettled(s: Setup, t: seq<Event>) {
    && (t != [] && t[0].Started? ==> |t| >= 2)
    && (t == [] ==> forall i: nat :: RootFirst(s, i) ==> !Wanted(s, i))
  }

  lemma StaysSettled(s: Setup, t0: seq<Event>, t: seq<Event>)
    requires RootSettled(s, t0) && t0 <= t && Sound(s, t)
    ensures BadRoot(s, t) <==> BadRoot(s, t0)
  {
    if t0 == [] {
      SoundOnlyOnce(s, t);
    } else {
      assert t[0] == t0[0] && (|t0| > 1 ==> t[1] == t0[1]);
    }
  }

  // Walking over the table.

  ghost predicate SomeLater(s: Setup, done: seq<bool>, n: int, pass: nat) {
    exists j :: 0 <= j < n && j < |done| == |s.table| && !done[j] && s.table[j].pass > pass
  }

  ghost predicate AllUpTo(s: Setup, done: seq<bool>, n: int, pass: nat) {
    |done| == |s.table| && n <= |done| && forall j :: 0 <= j < n ==> done[j] || s.table[j].pass > pass
  }

  ghost function Undone(done: seq<bool>): set<int> {
    set i | 0 <= i < |done| && !done[i]
  }

  /** Every unmarked entry is a wanted one. */
  ghost predicate MarksExact(s: Setup, done: seq<bool>) {
    |done| == |s.table| && forall i :: 0 <= i < |done| ==> done[i] || Wanted(s, i)
  }

  /** An entry was marked; or nothing changed and, unless the pass is over, a child can be waited for. */
  ghost predicate Moved(done0: seq<bool>, running0: seq<nat>, done: seq<bool>, running: seq<nat>, passDone: bool) {
    || Undone(done) < Undone(done0)
    || (done == done0 && running == running0 && (!passDone ==> running != []))
  }

  /** Whatever runs belongs to this pass or a lower one. */
  ghost predicate RunningUpTo(s: Setup, running: seq<nat>, pass: nat) {
    forall i: nat :: i in running ==> i < |s.table| && s.table[i].pass <= pass
  }

  /** Of the first `n` entries, those of this pass that have not been tried cannot run beside the others. */
  ghost predicate Deferred(s: Setup, done: seq<bool>, running: seq<nat>, n: int, pass: nat) {
    && n <= |done| == |s.table|
    && forall j :: 0 <= j < n && !done[j] && s.table[j].pass <= pass ==> !Within(s, running + [j])
  }

  /** A reason to wait stays while more checks are started. */
  lemma StillDeferred(s: Setup, running: seq<nat>, i: nat, j: nat)
    requires !Within(s, running + [j])
    ensures !Within(s, running + [i] + [j])
  {
    var less, more := running + [j], running + [i] + [j];
    assert |more| == |less| + 1;
    if Within(s, more) {
      forall k | 0 <= k < |less| ensures less[k] == more[if k < |running| then k else k + 1] {
      }
    }
  }

  /** The first `n` entries have been walked over in pass `pass`. */
  ghost predicate Walked(s: Setup, done0: seq<bool>, running0: seq<nat>, t0: seq<Event>, done: seq<bool>,
                         running: seq<nat>, t: seq<Event>, n: int, pass: nat, later: bool, passDone: bool) {
    forall k: int {:trigger Opened(TrackSeal, k)} :: Sealed(k) ==>
      && MarksExact(s, done)
      && LowerOver(s, t, pass)
      && Statuses(t) == Statuses(t0)
      && t0 <= t && (forall m :: |t0| <= m < |t| ==> !t[m].Exited?)
      && RunningUpTo(s, running, pass)
      && (Deferred(s, done, running, n, pass) || (!passDone && running == [] && n == |done|))
      && (later ==> SomeLater(s, done, n, pass))
      && (passDone ==> AllUpTo(s, done, n, pass))
      && (passDone && SomeLater(s, done, n, pass) ==> later)
      && Moved(done0, running0, done, running, passDone)
  }

  lemma WalkStart(s: Setup, done: seq<bool>, running: seq<nat>, t: seq<Event>, pass: nat)
    requires MarksExact(s, done) && LowerOver(s, t, pass) && RunningUpTo(s, running, pass)
    ensures Walked(s, done, running, t, done, running, t, 0, pass, false, true)
  {
    assert Deferred(s, done, running, 0, pass);
    assert !SomeLater(s, done, 0, pass) && AllUpTo(s, done, 0, pass) && Moved(done, running, done, running, true);
  }

  lemma WalkPast(s: Setup, done0: seq<bool>, running0: seq<nat>, t0: seq<Event>, done: seq<bool>, running: seq<nat>,
                 t: seq<Event>, n: int, pass: nat, later: bool, passDone: bool)
    requires Walked(s, done0, running0, t0, done, running, t, n, pass, later, passDone)
    requires 0 <= n < |done| == |s.table|
    ensures done[n] ==> Walked(s, done0, running0, t0, done, running, t, n + 1, pass, later, passDone)
    ensures !done[n] && s.table[n].pass > pass ==>
              Walked(s, done0, running0, t0, done, running, t, n + 1, pass, true, passDone)
    ensures running != [] && !Within(s, running + [n]) ==>
              Walked(s, done0, running0, t0, done, running, t, n + 1, pass, later, false)
  {
    assert Opened(TrackSeal, 0);
    assert done[n] || s.table[n].pass > pass || !Within(s, running + [n]) ==> Deferred(s, done, running, n + 1, pass);
    if SomeLater(s, done, n, pass) {
      assert SomeLater(s, done, n + 1, pass);
    }
    if !done[n] && s.table[n].pass > pass {
      assert SomeLater(s, done, n + 1, pass);
    }
  }

  lemma MarkKeeps(s: Setup, done: seq<bool>, i: nat, pass: nat)
    requires i < |done| == |s.table| && !done[i] && s.table[i].pass <= pass
    ensures Undone(done[i := true]) < Undone(done)
    ensures SomeLater(s, done[i := true], i + 1, pass) <==> SomeLater(s, done, i, pass)
    ensures AllUpTo(s, done, i, pass) ==> AllUpTo(s, done[i := true], i + 1, pass)
  {
    var after := done[i := true];
    assert i in Undone(done) && i !in Undone(after);
    if SomeLater(s, done, i, pass) {
      var j :| 0 <= j < i && !done[j] && s.table[j].pass > pass;
      assert !after[j];
    }
    if SomeLater(s, after, i + 1, pass) {
      var j :| 0 <= j < i + 1 && !after[j] && s.table[j].pass > pass;
      assert !done[j];
    }
  }

  lemma AttemptKeeps(s: Setup, t: seq<Event>, e: Event, i: nat, pass: nat)
    requires LowerOver(s, t, pass) && Sound(s, t) && !Attempted(t, i) && !e.Exited? && e.fs == i && StepOk(s, t, e)
    ensures LowerOver(s, t + [e], pass) && Statuses(t + [e]) == Statuses(t)
  {
    Extend(s, t, e);
  }

  lemma AttemptDefers(s: Setup, done: seq<bool>, running: seq<nat>, n: nat, pass: nat, running1: seq<nat>, e: Event)
    requires Deferred(s, done, running, n, pass) && n < |done| && RunningUpTo(s, running, pass)
    requires s.table[n].pass <= pass && running1 == if e.Started? then running + [n] else running
    ensures Deferred(s, done[n := true], running1, n + 1, pass) && RunningUpTo(s, running1, pass)
  {
    forall j | 0 <= j < n && !done[j] && s.table[j].pass <= pass ensures !Within(s, running1 + [j]) {
      StillDeferred(s, running, n, j);
    }
  }

  lemma WalkAttempt(s: Setup, done0: seq<bool>, running0: seq<nat>, t0: seq<Event>, done: seq<bool>, running: seq<nat>,
                    t: seq<Event>, n: nat, pass: nat, later: bool, passDone: bool, e: Event, running1: seq<nat>)
    requires Walked(s, done0, running0, t0, done, running, t, n, pass, later, passDone)
    requires n < |done| == |s.table| && !done[n] && s.table[n].pass <= pass
    requires Sound(s, t) && !e.Exited? && e.fs == n && StepOk(s, t, e)
    requires running1 == if e.Started? then running + [n] else running
    ensures Walked(s, done0, running0, t0, done[n := true], running1, t + [e], n + 1, pass, later, passDone)
    ensures Walked(s, done0, running0, t0, done[n := true], running1, t + [e], n + 1, pass, later, false)
  {
    assert Opened(TrackSeal, 0);
    AttemptDefers(s, done, running, n, pass, running1, e);
    MarkKeeps(s, done, n, pass);
    AttemptKeeps(s, t, e, n, pass);
  }

  /** The next entry may be attempted when it is unmarked and its pass has come. */
  lemma WalkMay(s: Setup, done0: seq<bool>, running0: seq<nat>, t0: seq<Event>, done: seq<bool>, running: seq<nat>,
                t: seq<Event>, n: nat, pass: nat, later: bool, passDone: bool)
    requires Walked(s, done0, running0, t0, done, running, t, n, pass, later, passDone)
    requires Agrees(s, done, running, t)
    requires n < |done| == |s.table| && !done[n] && s.table[n].pass <= pass
    ensures MayAttempt(s, t, n)
  {
    assert Opened(TrackSeal, 0);
    AgreesFree(s, done, running, t, n);
  }

  /** No more children fit, when a walk is broken off with some running. */
  lemma FullUp(s: Setup, running: seq<nat>, j: nat)
    requires s.serialize || (s.maxRunning != 0 && |running| >= s.maxRunning)
    ensures running == [] || !Within(s, running + [j])
  {
  }

  /** A walk that was broken off decides as much as a whole one, except that the pass is over. */
  lemma WalkBreak(s: Setup, done0: seq<bool>, running0: seq<nat>, t0: seq<Event>, done: seq<bool>, running: seq<nat>,
                  t: seq<Event>, n: nat, pass: nat, later: bool)
    requires Walked(s, done0, running0, t0, done, running, t, n, pass, later, false) && n <= |done|
    requires s.serialize || (s.maxRunning != 0 && |running| >= s.maxRunning)
    ensures Walked(s, done0, running0, t0, done, running, t, |done|, pass, later, false)
  {
    assert Opened(TrackSeal, 0);
    forall j | 0 <= j < |done| ensures running == [] || !Within(s, running + [j]) {
      FullUp(s, running, j);
    }
    assert running == [] || Deferred(s, done, running, |done|, pass);
    if SomeLater(s, done, n, pass) {
      assert SomeLater(s, done, |done|, pass);
    }
  }

  lemma WalkKeeps(s: Setup, done0: seq<bool>, running0: seq<nat>, t0: seq<Event>, done: seq<bool>, running: seq<nat>,
                  t: seq<Event>, n: nat, pass: nat, later: bool, passDone: bool)
    requires Walked(s, done0, running0, t0, done, running, t, n, pass, later, passDone)
    ensures Statuses(t) == Statuses(t0) && t0 <= t && forall m :: |t0| <= m < |t| ==> !t[m].Exited?
  {
    assert Opened(TrackSeal, 0);
  }

  /** After a whole walk it is in order to wait: for all children when the pass is over, otherwise for one. */
  lemma WalkWaits(s: Setup, done0: seq<bool>, running0: seq<nat>, t0: seq<Event>, done: seq<bool>, running: seq<nat>,
                  t: seq<Event>, pass: nat, later: bool, passDone: bool)
    requires Walked(s, done0, running0, t0, done, running, t, |done|, pass, later, passDone)
    requires Agrees(s, done, running, t)
    ensures WaitOk(s, t, passDone)
  {
    assert Opened(TrackSeal, 0);
    AgreesFacts(s, done, running, t);
    RunningKnown(s, t);
    if running != [] {
      forall i: nat | Due(s, t, i) ensures !passDone && !Within(s, running + [i]) {
        DuePass(s, t, running, pass, i);
        assert !done[i] by { assert Opened(LoopSeal, 0); }
      }
    }
  }

  /** While children of this pass run, no later entry is due. */
  lemma DuePass(s: Setup, t: seq<Event>, running: seq<nat>, pass: nat, i: nat)
    requires Due(s, t, i) && running == Running(t) != [] && RunningUpTo(s, running, pass)
    requires forall j: nat :: j in running ==> j < |s.table| && Wanted(s, j)
    ensures i < |s.table| && s.table[i].pass <= pass
  {
    assert running[0] in running;
  }

  lemma WaitedFacts(t0: seq<Event>, running0: seq<nat>, t: seq<Event>, running: seq<nat>, status: nat)
    requires Waited(t0, running0, t, running, status)
    ensures Statuses(t) == Or(Statuses(t0), status) && t0 <= t && forall m :: |t0| <= m < |t| ==> t[m].Exited?
    ensures forall i: nat :: i in running ==> i in running0
  {
    assert Opened(TrackSeal, 0);
  }

  /** Nothing has to be over before the first pass, since pass 0 means not to check. */
  lemma FirstRound(s: Setup, t: seq<Event>)
    ensures LowerOver(s, t, 1)
  {
  }

  function MaxPass(table: seq<Filesystem>): (m: nat)
    ensures forall i :: 0 <= i < |table| ==> table[i].pass <= m
  {
    if table == [] then 0 else
      var m := MaxPass(table[1..]);
      assert forall i :: 1 <= i < |table| ==> table[i] == table[1..][i - 1];
      if table[0].pass > m then table[0].pass else m
  }

  /** A round brings the end closer: an entry was marked, or a child ended, or the pass number rose towards its limit.
  */
  ghost predicate Closer(s: Setup, done0: seq<bool>, n0: nat, pass0: nat, done: seq<bool>, n: nat, pass: nat) {
    || Undone(done) < Undone(done0)
    || (Undone(done) == Undone(done0) && n < n0)
    || (Undone(done) == Undone(done0) && n == n0 && pass0 < pass && pass0 < MaxPass(s.table))
  }

  /** A whole walk and the wait after it lead to the next round, which is closer to the end. */
  lemma NextRound(s: Setup, done0: seq<bool>, running0: seq<nat>, t0: seq<Event>, done: seq<bool>, running1: seq<nat>,
                  t1: seq<Event>, pass: nat, later: bool, passDone: bool, running: seq<nat>, t: seq<Event>, status: nat,
                  next: nat)
    requires next == (if passDone then pass + 1 else pass)
    requires Walked(s, done0, running0, t0, done, running1, t1, |done|, pass, later, passDone)
    requires Waited(t1, running1, t, running, status) && Agrees(s, done, running1, t1) && Agrees(s, done, running, t)
    requires |running| <= |running1| && (running1 != [] ==> |running| < |running1|) && (passDone ==> running == [])
    ensures MarksExact(s, done) == true && LowerOver(s, t, next) == true && RunningUpTo(s, running, next) == true
    ensures Statuses(t) == Or(Statuses(t0), status) && t0 <= t
    ensures passDone && !later ==> Undone(done) == {}
    ensures later || !passDone ==> Closer(s, done0, |running0|, pass, done, |running|, next) == true
  {
    assert Opened(TrackSeal, 0);
    AgreesFacts(s, done, running, t);
    AgreesFacts(s, done, running1, t1);
    if passDone {
      RoundOver(s, done, running, t, pass);
    }
  }

  lemma RoundOver(s: Setup, done: seq<bool>, running: seq<nat>, t: seq<Event>, pass: nat)
    requires Agrees(s, done, running, t) && running == [] && AllUpTo(s, done, |done|, pass)
    ensures LowerOver(s, t, pass + 1)
  {
    assert Opened(LoopSeal, 0);
  }
}

/** The runs of check_all: which checks were started, refused by execute, and ended, in order, and what a good run is.
*/
module FsckTrace {
  import opened Bits

  /**
   * An fstab entry as check_all sees it. `base` is base_device(device); `unwanted` says that the entry is filtered out
   * by its type (the -t list, the ignored types, or no fsck program for it). The entries in `failing` are those whose
   * program cannot be run.
   */
  datatype Filesystem = Filesystem(device: string, base: Option<string>, mount: string, pass: nat, unwanted: bool)

  datatype Setup = Setup(table: seq<Filesystem>, parallelRoot: bool, skipRoot: bool, serialize: bool,
                         forceAllParallel: bool, maxRunning: int, failing: set<nat>)

  /** A call of wait_many: how many events there were before it, and whether it waits for all children. */
  datatype Wait = Wait(at: nat, all: bool)

  datatype Event = Started(fs: nat) | Refused(fs: nat) | Exited(fs: nat, status: byte)

  const BASE_MD := "/dev/md"
  const EXIT_NONDESTRUCT := 1

  predicate Md(device: string) {
    BASE_MD <= device
  }

  predicate Root(f: Filesystem) {
    f.mount == "/"
  }

  predicate Ignored(f: Filesystem) {
    f.pass == 0 || f.unwanted
  }

  /** Which entries are to be checked, and which one of them alone and before everything else. */
  predicate Wanted(s: Setup, i: nat) {
    i < |s.table| && s.table[i].pass > 0 && !s.table[i].unwanted && !(s.skipRoot && s.table[i].mount == "/")
  }

  predicate RootFirst(s: Setup, i: nat) {
    !s.parallelRoot && i < |s.table| && s.table[i].mount == "/" && forall j :: 0 <= j < i ==> s.table[j].mount != "/"
  }

  predicate Attempt(e: Event, i: nat) {
    e == Started(i) || e == Refused(i)
  }

  ghost predicate Attempted(t: seq<Event>, i: nat) {
    exists k :: 0 <= k < |t| && Attempt(t[k], i)
  }

  function Without(s: seq<nat>, i: nat): seq<nat> {
    if s == [] then [] else if s[0] == i then s[1..] else [s[0]] + Without(s[1..], i)
  }

  /** The children alive after the events of `t`. */
  ghost function Running(t: seq<Event>): seq<nat> {
    if t == [] then [] else
      var before := Running(t[..|t| - 1]);
      match t[|t| - 1]
      case Started(i) => before + [i]
      case Refused(_) => before
      case Exited(i, _) => Without(before, i)
  }

  /** The OR of the exit statuses of all children that have ended. */
  ghost function Statuses(t: seq<Event>): nat {
    if t == [] then 0 else
      var before := Statuses(t[..|t| - 1]);
      if t[|t| - 1].Exited? then Or(before, t[|t| - 1].status) else before
  }

  /** Checks that share no disk: a lone check, or checks on known and different disks none of which is a soft raid. */
  ghost predicate Apart(s: Setup, ids: seq<nat>) {
    && (forall k :: 0 <= k < |ids| ==> ids[k] < |s.table|)
    && (|ids| > 1 ==>
          && (forall k :: 0 <= k < |ids| ==> !("/dev/md" <= s.table[ids[k]].device) && s.table[ids[k]].base.Some?)
          && (forall j, k :: 0 <= j < k < |ids| ==> s.table[ids[j]].base != s.table[ids[k]].base))
  }

  /** `n` children may run at once. A negative limit admits one, as -s does. */
  predicate Fits(s: Setup, n: int) {
    && (s.maxRunning > 0 ==> n <= s.maxRunning)
    && (s.serialize || s.maxRunning < 0 ==> n <= 1)
  }

  ghost predicate Within(s: Setup, ids: seq<nat>) {
    (!s.forceAllParallel ==> Apart(s, ids)) && Fits(s, |ids|)
  }

  /** Every wanted entry of a pass below `p` has been attempted and is not running any more. */
  ghost predicate LowerOver(s: Setup, t: seq<Event>, p: nat) {
    forall j :: 0 <= j < |s.table| && Wanted(s, j) && s.table[j].pass < p ==> Attempted(t, j) && j !in Running(t)
  }

  ghost predicate MayAttempt(s: Setup, t: seq<Event>, i: nat) {
    && Wanted(s, i)
    && !Attempted(t, i)
    && ((t == [] && RootFirst(s, i)) || LowerOver(s, t, s.table[i].pass))
  }

  ghost predicate StepOk(s: Setup, t: seq<Event>, e: Event) {
    match e
    case Started(i) => MayAttempt(s, t, i) && Within(s, Running(t) + [i]) && i !in s.failing
    case Refused(i) => MayAttempt(s, t, i) && i in s.failing
    case Exited(i, _) => i in Running(t)
  }

  /** Every event of `t` was allowed when it happened. */
  ghost predicate Sound(s: Setup, t: seq<Event>) {
    t == [] || (Sound(s, t[..|t| - 1]) && StepOk(s, t[..|t| - 1], t[|t| - 1]))
  }

  // What a sound run guarantees, said of the whole run at once.

  ghost predicate NeverTogether(s: Setup, t: seq<Event>) {
    forall k :: 0 <= k <= |t| ==> Within(s, Running(t[..k]))
  }

  ghost predicate OnlyOnce(s: Setup, t: seq<Event>) {
    && (forall k :: 0 <= k < |t| && !t[k].Exited? ==> Wanted(s, t[k].fs))
    && (forall j, k :: 0 <= j < k < |t| && !t[j].Exited? && !t[k].Exited? ==> t[j].fs != t[k].fs)
  }

  /** The check that `t[j]` attempts is over before moment `k`. */
  ghost predicate OverBy(t: seq<Event>, j: nat, k: nat) {
    && j < k <= |t|
    && (t[j].Started? ==> exists m :: j < m < k && t[m].Exited? && t[m].fs == t[j].fs)
  }

  ghost predicate PassOrder(s: Setup, t: seq<Event>) {
    forall k, p: nat :: 0 <= k < |t| && !t[k].Exited? && Wanted(s, t[k].fs) && !(k == 0 && RootFirst(s, t[k].fs))
              && Wanted(s, p) && s.table[p].pass < s.table[t[k].fs].pass
      ==> exists j :: 0 <= j < k && Attempt(t[j], p) && OverBy(t, j, k)
  }

  /** Every wanted entry was attempted, and whatever was started has ended. */
  ghost predicate Complete(s: Setup, t: seq<Event>) {
    && (forall i: nat :: Wanted(s, i) ==> Attempted(t, i))
    && (forall j :: 0 <= j < |t| ==> OverBy(t, j, |t|))
  }

  // What is done as soon as it can be done.

  /** Entry `i` is due: everything of lower passes is over. */
  ghost predicate Due(s: Setup, t: seq<Event>, i: nat) {
    Wanted(s, i) && !Attempted(t, i) && LowerOver(s, t, s.table[i].pass)
  }

  /** Only the root, which is checked alone, is running. */
  ghost predicate RootAlone(s: Setup, t: seq<Event>) {
    |t| == 1 && RootFirst(s, t[0].fs)
  }

  /** A wait for children that are running is in order when no entry that is due could be started beside them; and a
  wait for all of them, when none is due at all. */
  ghost predicate WaitOk(s: Setup, t: seq<Event>, all: bool) {
    Running(t) != [] && !RootAlone(s, t) ==>
      forall i: nat :: Due(s, t, i) ==> !all && !Within(s, Running(t) + [i])
  }

  /** Whenever something could be started it was, before the scheduler waited. */
  ghost predicate NeverIdle(s: Setup, t: seq<Event>, waits: seq<Wait>) {
    forall j :: 0 <= j < |waits| ==> waits[j].at <= |t| && WaitOk(s, t[..waits[j].at], waits[j].all)
  }

  /** The exit at `k` belongs to the wait `w`: there are only exits since then. */
  ghost predicate During(t: seq<Event>, w: Wait, k: int) {
    w.at <= k < |t| && forall m :: w.at <= m <= k ==> t[m].Exited?
  }

  /** Children are taken notice of only by waiting. */
  ghost predicate Reaped(t: seq<Event>, waits: seq<Wait>) {
    forall k :: 0 <= k < |t| && t[k].Exited? ==> exists j :: 0 <= j < |waits| && During(t, waits[j], k)
  }

  lemma NeverIdleGrow(s: Setup, t: seq<Event>, t': seq<Event>, waits: seq<Wait>)
    requires NeverIdle(s, t, waits) && t <= t'
    ensures NeverIdle(s, t', waits)
  {
    forall j | 0 <= j < |waits| ensures waits[j].at <= |t'| && WaitOk(s, t'[..waits[j].at], waits[j].all) {
      assert t'[..waits[j].at] == t[..waits[j].at];
    }
  }

  lemma NeverIdleWait(s: Setup, t: seq<Event>, waits: seq<Wait>, all: bool)
    requires NeverIdle(s, t, waits) && WaitOk(s, t, all)
    ensures NeverIdle(s, t, waits + [Wait(|t|, all)])
  {
    assert t[..|t|] == t;
  }

  lemma ReapedGrow(t: seq<Event>, t': seq<Event>, waits: seq<Wait>)
    requires Reaped(t, waits) && t <= t' && forall k :: |t| <= k < |t'| ==> !t'[k].Exited?
    ensures Reaped(t', waits)
  {
    forall k | 0 <= k < |t'| && t'[k].Exited? ensures exists j :: 0 <= j < |waits| && During(t', waits[j], k) {
      var j :| 0 <= j < |waits| && During(t, waits[j], k);
      assert During(t', waits[j], k);
    }
  }

  lemma ReapedWait(t: seq<Event>, t': seq<Event>, waits: seq<Wait>, all: bool)
    requires Reaped(t, waits) && t <= t' && forall k :: |t| <= k < |t'| ==> t'[k].Exited?
    ensures Reaped(t', waits + [Wait(|t|, all)])
  {
    var waits' := waits + [Wait(|t|, all)];
    forall k | 0 <= k < |t'| && t'[k].Exited? ensures exists j :: 0 <= j < |waits'| && During(t', waits'[j], k) {
      if k < |t| {
        var j :| 0 <= j < |waits| && During(t, waits[j], k);
        assert waits'[j] == waits[j] && During(t', waits'[j], k);
      } else {
        assert waits'[|waits|] == Wait(|t|, all) && During(t', waits'[|waits|], k);
      }
    }
  }

  lemma {:induction false} SoundPrefix(s: Setup, t: seq<Event>, k: nat)
    requires Sound(s, t) && k <= |t|
    ensures Sound(s, t[..k])
    ensures k < |t| ==> StepOk(s, t[..k], t[k])
    decreases |t|
  {
    if k == |t| {
      assert t[..k] == t;
    } else if k < |t| - 1 {
      SoundPrefix(s, t[..|t| - 1], k);
      assert t[..|t| - 1][..k] == t[..k];
    }
  }

  lemma {:induction false} WithoutIn(s: seq<nat>, i: nat, x: nat)
    ensures x in Without(s, i) ==> x in s
    ensures x in s && x != i ==> x in Without(s, i)
    ensures |Without(s, i)| <= |s|
    ensures i in s ==> |Without(s, i)| == |s| - 1
  {
    if s != [] && s[0] != i {
      WithoutIn(s[1..], i, x);
    }
  }

  /** Unlinking keeps the order of the others: position `k` of what is left stood at `k` or one later. */
  lemma {:induction false} WithoutAt(s: seq<nat>, i: nat) returns (c: nat)
    requires i in s
    ensures c < |s| && s[c] == i && Without(s, i) == s[..c] + s[c + 1..]
    ensures forall k :: 0 <= k < c ==> s[k] != i
  {
    if s[0] == i {
      c := 0;
    } else {
      var d := WithoutAt(s[1..], i);
      c := d + 1;
      assert s[..c] == [s[0]] + s[1..][..d];
      assert s[c + 1..] == s[1..][d + 1..];
    }
  }

  lemma WithinWithout(s: Setup, ids: seq<nat>, i: nat)
    requires Within(s, ids) && i in ids
    ensures Within(s, Without(ids, i))
  {
    var c := WithoutAt(ids, i);
    if !s.forceAllParallel {
      ApartWithout(s, ids, Without(ids, i), c);
    }
  }

  lemma ApartWithout(s: Setup, ids: seq<nat>, rest: seq<nat>, c: nat)
    requires Apart(s, ids) && c < |ids| && rest == ids[..c] + ids[c + 1..]
    ensures Apart(s, rest)
  {
    forall k | 0 <= k < |rest|
      ensures rest[k] == if k < c then ids[k] else ids[k + 1]
    {
    }
    forall j, k | 0 <= j < k < |rest|
      ensures s.table[rest[j]].base != s.table[rest[k]].base
    {
      var a, b := if j < c then j else j + 1, if k < c then k else k + 1;
      assert rest[j] == ids[a] && rest[k] == ids[b] && a < b;
    }
  }

  lemma {:induction false} SoundWithin(s: Setup, t: seq<Event>)
    requires Sound(s, t)
    ensures Within(s, Running(t))
    decreases |t|
  {
    if t != [] {
      SoundWithin(s, t[..|t| - 1]);
      if t[|t| - 1].Exited? {
        WithinWithout(s, Running(t[..|t| - 1]), t[|t| - 1].fs);
      }
    }
  }

  lemma SoundNeverTogether(s: Setup, t: seq<Event>)
    requires Sound(s, t)
    ensures NeverTogether(s, t)
  {
    forall k | 0 <= k <= |t|
      ensures Within(s, Running(t[..k]))
    {
      SoundPrefix(s, t, k);
      SoundWithin(s, t[..k]);
    }
  }

  lemma SoundOnlyOnce(s: Setup, t: seq<Event>)
    requires Sound(s, t)
    ensures OnlyOnce(s, t)
  {
    forall k | 0 <= k < |t| && !t[k].Exited?
      ensures Wanted(s, t[k].fs) && !Attempted(t[..k], t[k].fs)
    {
      SoundPrefix(s, t, k);
    }
    forall j, k | 0 <= j < k < |t| && !t[j].Exited? && !t[k].Exited?
      ensures t[j].fs != t[k].fs
    {
      assert t[..k][j] == t[j];
    }
  }

  /** A started check that is not running any more has ended since. */
  lemma {:induction false} EndedSince(t: seq<Event>, j: nat)
    requires j < |t| && t[j].Started? && t[j].fs !in Running(t)
    ensures OverBy(t, j, |t|)
    decreases |t|
  {
    var n := |t| - 1;
    var before := t[..n];
    if j < n {
      if t[n].Exited? && t[n].fs == t[j].fs {
      } else {
        StillRunning(t, t[j].fs);
        assert before[j] == t[j];
        EndedSince(before, j);
        var m :| j < m < n && before[m].Exited? && before[m].fs == t[j].fs;
        assert t[m] == before[m];
      }
    }
  }

  lemma StillRunning(t: seq<Event>, i: nat)
    requires t != [] && !(t[|t| - 1].Exited? && t[|t| - 1].fs == i)
    ensures i in Running(t[..|t| - 1]) ==> i in Running(t)
  {
    if t[|t| - 1].Exited? {
      WithoutIn(Running(t[..|t| - 1]), t[|t| - 1].fs, i);
    }
  }

  lemma AttemptOver(t: seq<Event>, k: nat, p: nat)
    requires k <= |t| && Attempted(t[..k], p) && p !in Running(t[..k])
    ensures exists j :: 0 <= j < k && Attempt(t[j], p) && OverBy(t, j, k)
  {
    var before := t[..k];
    var j :| 0 <= j < k && Attempt(before[j], p);
    assert t[j] == before[j];
    if t[j].Started? {
      EndedSince(before, j);
      var m :| j < m < k && before[m].Exited? && before[m].fs == p;
      assert t[m] == before[m];
    }
    assert OverBy(t, j, k);
  }

  lemma SoundPassOrder(s: Setup, t: seq<Event>)
    requires Sound(s, t)
    ensures PassOrder(s, t)
  {
    forall k, p: nat | 0 <= k < |t| && !t[k].Exited? && Wanted(s, t[k].fs) && !(k == 0 && RootFirst(s, t[k].fs))
              && Wanted(s, p) && s.table[p].pass < s.table[t[k].fs].pass
      ensures exists j :: 0 <= j < k && Attempt(t[j], p) && OverBy(t, j, k)
    {
      SoundPrefix(s, t, k);
      assert t[..k] == [] ==> k == 0;
      AttemptOver(t, k, p);
    }
  }

  lemma DrainedComplete(s: Setup, t: seq<Event>)
    requires Running(t) == [] && forall i: nat :: Wanted(s, i) ==> Attempted(t, i)
    ensures Complete(s, t)
  {
    forall j | 0 <= j < |t|
      ensures OverBy(t, j, |t|)
    {
      if t[j].Started? {
        EndedSince(t, j);
      }
    }
  }

  /** One more event, as the steps of the scheduler append it. */
  lemma Extend(s: Setup, t: seq<Event>, e: Event)
    requires Sound(s, t) && StepOk(s, t, e)
    ensures Sound(s, t + [e])
    ensures Running(t + [e]) == match e {
              case Started(i) => Running(t) + [i]
              case Refused(_) => Running(t)
              case Exited(i, _) => Without(Running(t), i)
            }
    ensures Statuses(t + [e]) == if e.Exited? then Or(Statuses(t), e.status) else Statuses(t)
    ensures forall i: nat :: Attempted(t + [e], i) <==> Attempted(t, i) || Attempt(e, i)
  {
    var u := t + [e];
    assert u[..|u| - 1] == t && u[|u| - 1] == e;
    forall i: nat
      ensures Attempted(u, i) <==> Attempted(t, i) || Attempt(e, i)
    {
      if Attempted(t, i) {
        var k :| 0 <= k < |t| && Attempt(t[k], i);
        assert u[k] == t[k];
      }
      if Attempt(e, i) {
        assert Attempt(u[|t|], i);
      }
      if Attempted(u, i) {
        var k :| 0 <= k < |u| && Attempt(u[k], i);
        assert k < |t| ==> t[k] == u[k];
      }
    }
  }
}

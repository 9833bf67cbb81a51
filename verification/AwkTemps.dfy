/** The allocator of awk's temporary variables: a list of blocks, used as a stack. */
module AwkTemps {
  import opened Bits

  datatype Flag = Number | Array | Cached | User | Special | Walk | FixedString | Child | Dirty

  /** VF_DONTTOUCH: what survives a clearing. */
  const DONT_TOUCH := {Array, Special, Walk, Child, Dirty}
  const MIN_BLOCK: nat := 64

  datatype Var = Var(flags: set<Flag>, text: Option<string>, number: real)

  datatype Block = Block(pos: nat, nv: seq<Var>)

  /** A pointer to a variable of a block, and a stretch of `n` variables that was handed out. */
  datatype Ptr = Ptr(block: nat, at: nat)
  datatype Live = Live(block: nat, at: nat, n: nat)

  function Cleared(v: Var): Var {
    v.(flags := v.flags * DONT_TOUCH + {Dirty}, text := None)
  }

  predicate Blank(v: Var) {
    v.flags == {} && v.text == None
  }

  // Where the live stretches are.

  /** The end of what is live in block `b`. */
  function EndIn(live: seq<Live>, b: nat): nat {
    if live == [] then 0 else
      var l := live[|live| - 1];
      if l.block == b then l.at + l.n else EndIn(live[..|live| - 1], b)
  }

  /** The block of the newest live stretch, or the first block. */
  function Newest(live: seq<Live>): nat {
    if live == [] then 0 else live[|live| - 1].block
  }

  /** Each stretch begins where the older ones of its block end, and no stretch is in an earlier block than an older
  one. */
  predicate Stacked(live: seq<Live>) {
    live == [] ||
    (var n, l := |live| - 1, live[|live| - 1];
     Stacked(live[..n]) && l.n >= 1 && Newest(live[..n]) <= l.block && l.at == EndIn(live[..n], l.block))
  }

  lemma {:induction false} EmptyBeyond(live: seq<Live>, b: nat)
    requires Stacked(live) && Newest(live) < b
    ensures EndIn(live, b) == 0
    decreases |live|
  {
    if live != [] {
      EmptyBeyond(live[..|live| - 1], b);
    }
  }

  lemma {:induction false} InsideEnd(live: seq<Live>, i: nat)
    requires Stacked(live) && i < |live|
    ensures live[i].at + live[i].n <= EndIn(live, live[i].block) && live[i].block <= Newest(live)
    decreases |live|
  {
    var n := |live| - 1;
    if i < n {
      assert live[..n][i] == live[i];
      InsideEnd(live[..n], i);
    }
  }

  /** Live stretches do not overlap. */
  lemma {:induction false} Disjoint(live: seq<Live>, i: nat, j: nat)
    requires Stacked(live) && i < j < |live|
    ensures live[i].block != live[j].block || live[i].at + live[i].n <= live[j].at
    decreases |live|
  {
    var n := |live| - 1;
    if j < n {
      assert live[..n][i] == live[i] && live[..n][j] == live[j];
      Disjoint(live[..n], i, j);
    } else {
      assert live[..n][i] == live[i];
      InsideEnd(live[..n], i);
    }
  }

  lemma Pushed(live: seq<Live>, l: Live)
    requires Stacked(live) && l.n >= 1 && Newest(live) <= l.block && l.at == EndIn(live, l.block)
    ensures Stacked(live + [l]) && Newest(live + [l]) == l.block
    ensures forall b: nat :: EndIn(live + [l], b) == if b == l.block then l.at + l.n else EndIn(live, b)
  {
    assert (live + [l])[..|live|] == live;
  }

  /** The blocks hold what is live and nothing else. */
  ghost predicate Holds(blocks: seq<Block>, live: seq<Live>) {
    && (forall b :: 0 <= b < |blocks| ==> blocks[b].pos <= |blocks[b].nv| && blocks[b].pos == EndIn(live, b))
    && (live != [] ==> Newest(live) < |blocks|)
  }

  /** The variables of a live stretch. */
  function Vars(blocks: seq<Block>, l: Live): seq<Var>
    requires l.block < |blocks| && l.at + l.n <= |blocks[l.block].nv|
  {
    blocks[l.block].nv[l.at..l.at + l.n]
  }

  lemma Places(blocks: seq<Block>, live: seq<Live>)
    requires Holds(blocks, live) && Stacked(live)
    ensures forall i :: 0 <= i < |live| ==>
              && live[i].block < |blocks| && live[i].at + live[i].n <= |blocks[live[i].block].nv|
              && live[i].at + live[i].n <= EndIn(live, live[i].block)
  {
    forall i | 0 <= i < |live|
      ensures live[i].block < |blocks|
      ensures live[i].at + live[i].n <= blocks[live[i].block].pos == EndIn(live, live[i].block)
    {
      InsideEnd(live, i);
    }
  }

  /** Variables outside the stretch `l` have kept their values, and no block has shrunk. */
  ghost predicate OnlyIn(before: seq<Block>, after: seq<Block>, l: Live) {
    && |before| <= |after|
    && forall b :: 0 <= b < |before| ==>
         && |after[b].nv| == |before[b].nv|
         && forall k :: 0 <= k < |before[b].nv| && !(b == l.block && l.at <= k < l.at + l.n) ==>
             after[b].nv[k] == before[b].nv[k]
  }

  /** None of the blocks from `from` up to `to` has room for `n` more variables. */
  predicate NoRoom(blocks: seq<Block>, from: int, to: int, n: nat) {
    forall b :: 0 <= b < |blocks| && from <= b < to ==> blocks[b].pos + n > |blocks[b].nv|
  }

  ghost predicate AllBlank(blocks: seq<Block>, l: Live) {
    && l.block < |blocks| && l.at + l.n <= |blocks[l.block].nv|
    && forall k :: l.at <= k < l.at + l.n ==> Blank(blocks[l.block].nv[k])
  }

  /** Every stretch of `live` is where it was, and so are its values. */
  ghost predicate Untouched(before: seq<Block>, after: seq<Block>, live: seq<Live>) {
    forall i :: 0 <= i < |live| ==>
      && live[i].block < |before| && live[i].at + live[i].n <= |before[live[i].block].nv|
      && live[i].block < |after| && live[i].at + live[i].n <= |after[live[i].block].nv|
      && Vars(after, live[i]) == Vars(before, live[i])
  }

  lemma KeptAll(before: seq<Block>, after: seq<Block>, live: seq<Live>, l: Live)
    requires Stacked(live) && OnlyIn(before, after, l)
    requires forall i :: 0 <= i < |live| ==>
               live[i].block < |before| && live[i].at + live[i].n <= |before[live[i].block].nv|
    requires forall i :: 0 <= i < |live| ==> live[i].block != l.block || live[i].at + live[i].n <= l.at
    ensures Untouched(before, after, live)
  {
    forall i | 0 <= i < |live|
      ensures Vars(after, live[i]) == Vars(before, live[i])
    {
    }
  }

  /** The newest stretch keeps its block from being empty. */
  lemma EndPositive(live: seq<Live>)
    requires Stacked(live)
    ensures live != [] ==> EndIn(live, Newest(live)) > 0
  {
  }

  /** The block that was found has its free part right behind what is live in it. */
  lemma RoomEnd(blocks: seq<Block>, live: seq<Live>, b: int)
    requires Stacked(live) && Holds(blocks, live) && 0 <= b <= |blocks| && (blocks == [] ==> live == [])
    requires Newest(live) <= b
    ensures EndIn(live, b) == if b < |blocks| then blocks[b].pos else 0
  {
    if Newest(live) < b {
      EmptyBeyond(live, b);
    }
  }

  lemma Placed(before: seq<Block>, made: seq<Block>, after: seq<Block>, live: seq<Live>, l: Live, nv: seq<Var>)
    requires Stacked(live) && Holds(before, live) && l.n >= 1 && Newest(live) <= l.block && l.at == EndIn(live, l.block)
    requires l.block < |made|
    requires (made == before || (|made| == |before| + 1 && made[..|before|] == before && l.block == |before|))
    requires after == made[l.block := Block(l.at + l.n, nv)]
    requires |nv| == |made[l.block].nv| && l.at + l.n <= |nv|
    requires forall k :: 0 <= k < |nv| ==> if l.at <= k < l.at + l.n then Blank(nv[k]) else nv[k] == made[l.block].nv[k]
    ensures Stacked(live + [l]) && Newest(live + [l]) == l.block && Holds(after, live + [l])
    ensures OnlyIn(before, after, l) && AllBlank(after, l) && Untouched(before, after, live)
  {
    Pushed(live, l);
    Places(before, live);
    assert forall b :: 0 <= b < |before| ==> made[b] == made[..|before|][b] == before[b];
    KeptAll(before, after, live, l);
  }

  lemma TopThere(blocks: seq<Block>, live: seq<Live>, l: Live)
    requires Stacked(live) && Holds(blocks, live) && live != [] && l == live[|live| - 1]
    ensures l.block < |blocks| && l.at < blocks[l.block].pos == l.at + l.n <= |blocks[l.block].nv|
  {
  }

  lemma Removed(before: seq<Block>, after: seq<Block>, live: seq<Live>, l: Live, nv: seq<Var>)
    requires Stacked(live) && Holds(before, live) && live != [] && l == live[|live| - 1]
    requires after == before[l.block := Block(l.at, nv)]
    requires |nv| == |before[l.block].nv|
    requires forall k :: 0 <= k < |nv| && !(l.at <= k < l.at + l.n) ==> nv[k] == before[l.block].nv[k]
    ensures var rest := live[..|live| - 1];
            && Stacked(rest) && Holds(after, rest) && Newest(rest) <= l.block
            && OnlyIn(before, after, l) && Untouched(before, after, rest)
  {
    var rest := live[..|live| - 1];
    Places(before, live);
    forall i | 0 <= i < |rest|
      ensures rest[i].block != l.block || rest[i].at + rest[i].n <= l.at
      ensures rest[i].block < |before| && rest[i].at + rest[i].n <= |before[rest[i].block].nv|
    {
      assert rest[i] == live[i];
      Disjoint(live, i, |rest|);
    }
    KeptAll(before, after, rest, l);
  }

  method FreshMemory(size: nat) returns (nv: seq<Var>)
    ensures |nv| == size
  {
    var junk: Var := *;
    nv := seq(size, _ => junk);
  }

  method Blanked(nv0: seq<Var>, at: nat, n: nat) returns (nv: seq<Var>)
    requires at + n <= |nv0|
    ensures |nv| == |nv0|
    ensures forall k :: 0 <= k < |nv| ==> if at <= k < at + n then Blank(nv[k]) else nv[k] == nv0[k]
  {
    nv := nv0;
    var v := at;
    while v < at + n
      invariant at <= v <= at + n && |nv| == |nv0|
      invariant forall k :: 0 <= k < |nv| ==> if at <= k < v then Blank(nv[k]) else nv[k] == nv0[k]
    {
      nv := nv[v := nv[v].(flags := {}, text := None)];
      v := v + 1;
    }
  }

  method ClearedFrom(nv0: seq<Var>, at: nat, end: nat) returns (nv: seq<Var>)
    requires at <= end <= |nv0|
    ensures |nv| == |nv0|
    ensures forall k :: 0 <= k < |nv| ==> nv[k] == if at <= k < end then Cleared(nv0[k]) else nv0[k]
  {
    nv := nv0;
    var p := at;
    while p < end
      invariant at <= p <= end && |nv| == |nv0|
      invariant forall k :: 0 <= k < |nv| ==> nv[k] == if at <= k < p then Cleared(nv0[k]) else nv0[k]
    {
      nv := nv[p := Cleared(nv[p])];
      p := p + 1;
    }
  }

  /** Nothing is in use beyond block `cb`. */
  ghost predicate EmptyAfter(blocks: seq<Block>, cb: int) {
    forall b :: 0 <= b < |blocks| && cb < b ==> blocks[b].pos == 0
  }

  lemma AllBeyond(blocks: seq<Block>, live: seq<Live>)
    requires Stacked(live) && Holds(blocks, live)
    ensures EmptyAfter(blocks, Newest(live))
  {
    forall b | 0 <= b < |blocks| && Newest(live) < b
      ensures blocks[b].pos == 0
    {
      EmptyBeyond(live, b);
    }
  }

  class Temps {
    var blocks: seq<Block>
    var cb: int              // the current block; -1 before the first one is made
    ghost var live: seq<Live>

    ghost predicate Valid()
      reads this
    {
      && Stacked(live) && Holds(blocks, live)
      && (if blocks == [] then cb == -1 && live == [] else cb == Newest(live))
    }

    constructor ()
      ensures Valid() && live == []
    {
      blocks := [];
      cb := -1;
      live := [];
    }

    /** Finds the first block, from the current one on, with room for `n` more; or none. */
    method FindRoom(n: nat) returns (b: int)
      requires Valid() && n >= 1
      ensures 0 <= b <= |blocks| && Newest(live) <= b
      ensures b < |blocks| ==> blocks[b].pos + n <= |blocks[b].nv|
      ensures NoRoom(blocks, cb, b, n)
    {
      b := cb;
      if b == -1 {
        return |blocks|;
      }
      while b < |blocks|
        invariant 0 <= cb <= b <= |blocks|
        invariant NoRoom(blocks, cb, b, n)
      {
        if blocks[b].pos + n <= |blocks[b].nv| {
          break;
        }
        b := b + 1;
      }
    }

    /** Hands out `n` blank variables that nothing else uses. What is live stays where it is, with its values. */
    method Nvalloc(n: nat) returns (r: Ptr)
      requires Valid() && n >= 1
      modifies this
      ensures Valid() && live == old(live) + [Live(r.block, r.at, n)] && r.block == cb && EmptyAfter(blocks, cb)
      ensures OnlyIn(old(blocks), blocks, Live(r.block, r.at, n))
      ensures AllBlank(blocks, Live(r.block, r.at, n))
      ensures Untouched(old(blocks), blocks, old(live))
      ensures NoRoom(old(blocks), old(cb), r.block, n) && |blocks| == if r.block < |old(blocks)| then |old(blocks)|
                else r.block + 1
    {
      ghost var before := blocks;
      var b := FindRoom(n);
      RoomEnd(blocks, live, b);
      if b == |blocks| {
        Grow(n);
      }
      r := Carve(b, n, before);
      AllBeyond(blocks, live);
    }

    /** Makes a block with room for `n`, at the end of the list. */
    method Grow(n: nat)
      modifies this`blocks
      ensures |blocks| == |old(blocks)| + 1 && blocks[..|old(blocks)|] == old(blocks)
      ensures blocks[|old(blocks)|].pos == 0 && n <= |blocks[|old(blocks)|].nv|
    {
      var nv := FreshMemory(if n <= MIN_BLOCK then MIN_BLOCK else n);
      blocks := blocks + [Block(0, nv)];
    }

    method Carve(b: nat, n: nat, ghost before: seq<Block>) returns (r: Ptr)
      requires Stacked(live) && Holds(before, live) == true && n >= 1 && Newest(live) <= b < |blocks|
      requires blocks[b].pos == EndIn(live, b) && blocks[b].pos + n <= |blocks[b].nv|
      requires blocks == before || (|blocks| == |before| + 1 && blocks[..|before|] == before && b == |before|)
      modifies this
      ensures Valid() && live == old(live) + [Live(r.block, r.at, n)] && r.block == b && |blocks| == |old(blocks)|
      ensures OnlyIn(before, blocks, Live(r.block, r.at, n)) == true
      ensures AllBlank(blocks, Live(r.block, r.at, n)) == true
      ensures Untouched(before, blocks, old(live)) == true
    {
      ghost var made := blocks;
      cb := b;
      r := Ptr(b, blocks[b].pos);
      var nv := Blanked(blocks[b].nv, r.at, n);
      blocks := blocks[b := Block(r.at + n, nv)];
      ghost var l := Live(b, r.at, n);
      Placed(before, made, blocks, live, l, nv);
      live := live + [l];
    }

    /** Takes back the newest stretch. The internal error of the source cannot happen. */
    method Nvfree(v: Ptr) returns (internalError: bool)
      requires Valid() && live != []
      requires v == Ptr(live[|live| - 1].block, live[|live| - 1].at)
      modifies this
      ensures !internalError
      ensures Valid() && live == old(live)[..|old(live)| - 1] && cb == Newest(live) && EmptyAfter(blocks, cb)
      ensures OnlyIn(old(blocks), blocks, old(live)[|old(live)| - 1])
      ensures Untouched(old(blocks), blocks, live)
    {
      ghost var before, l := blocks, live[|live| - 1];
      TopThere(blocks, live, l);
      if v.block != cb || v.at >= blocks[cb].pos {
        return true;
      }
      internalError := false;
      var nv := ClearedFrom(blocks[cb].nv, v.at, blocks[cb].pos);
      blocks := blocks[cb := Block(v.at, nv)];
      Removed(before, blocks, live, l, nv);
      live := live[..|live| - 1];
      StepBack();
      AllBeyond(blocks, live);
    }

    /** Leaves the blocks that have become empty, down to the one that holds the newest live stretch. */
    method StepBack()
      requires Stacked(live) && Holds(blocks, live) && Newest(live) <= cb < |blocks|
      modifies this`cb
      ensures Valid() && cb == Newest(live)
    {
      EndPositive(live);
      while cb > 0 && blocks[cb].pos == 0
        invariant Newest(live) <= cb < |blocks|
      {
        cb := cb - 1;
      }
      if cb > Newest(live) {
        EmptyBeyond(live, cb);
      }
    }
  }
}

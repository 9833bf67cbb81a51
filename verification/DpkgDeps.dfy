/** `check_deps` scans the edges of every package with a skipping cursor. */
module DpkgDeps {
  import opened Bits
  import opened OpenHash
  import opened DpkgNames
  import opened DpkgTables
  import opened DpkgEdges

  // ----- the scan -----

  /** What a group asks for. */
  ghost predicate GroupMet(tb: Tables, g: Group)
  {
    match g
    case One(e) => IsDependency(e.typ) ==> tb.Met(e)
    case AnyOf(root, alts) => exists i :: 0 <= i < |alts| && tb.Met(alts[i])
  }

  /** The first n groups are met. */
  ghost predicate MetUpTo(tb: Tables, groups: seq<Group>, n: nat)
  {
    n <= |groups| && forall i :: 0 <= i < n ==> GroupMet(tb, groups[i])
  }

  datatype Verdict = Accepted | Unsatisfied | Corrupt

  /** The cursor: the first g groups are met; with k > 0, k-1 alternatives of the next group have been tried in vain.
  What is left is whole groups, or the rest of the alternatives and then whole groups. */
  ghost predicate Cursor(tb: Tables, groups: seq<Group>, g: nat, k: nat, rest: seq<Edge>, number: nat,
                         root: Option<Edge>)
  {
    && MetUpTo(tb, groups, g)
    && if k == 0 then rest == Flatten(groups[g..]) && number <= 1 && (number == 1 ==> root == None)
       else && g < |groups| && groups[g].AnyOf? && k <= |groups[g].alts|
            && root == Some(groups[g].root) && number == |groups[g].alts| + 1 - k
            && rest == groups[g].alts[k - 1..] + Flatten(groups[g + 1..]) && Tried(tb, groups[g].alts, k - 1)
  }

  ghost predicate Tried(tb: Tables, alts: seq<Edge>, n: nat)
  {
    n <= |alts| && forall i :: 0 <= i < n ==> !tb.Met(alts[i])
  }

  lemma CursorStart(tb: Tables, groups: seq<Group>)
    ensures Cursor(tb, groups, 0, 0, Flatten(groups), 0, None)
  {
    assert groups[0..] == groups;
  }

  /** What is at the cursor when it stands between groups. */
  lemma AtGroup(groups: seq<Group>, g: nat, rest: seq<Edge>)
    requires g <= |groups| && rest == Flatten(groups[g..]) && rest != [] && AllWellFormed(groups)
    ensures g < |groups| && rest == Flat(groups[g]) + Flatten(groups[g + 1..]) && WellFormed(groups[g])
    ensures rest[0] == Flat(groups[g])[0]
  {
    assert g < |groups|;
    assert groups[g..][0] == groups[g] && groups[g..][1..] == groups[g + 1..];
    assert |Flat(groups[g])| >= 1;
  }

  lemma AfterFirst(e: Edge, alts: seq<Edge>, tail: seq<Edge>)
    ensures ([e] + alts + tail)[1..] == alts + tail
  {
  }

  /** An edge that is a root starts a list of alternatives. */
  lemma RootStep(tb: Tables, groups: seq<Group>, g: nat, k: nat, rest: seq<Edge>, number: nat, root: Option<Edge>)
    requires AllWellFormed(groups) && Cursor(tb, groups, g, k, rest, number, root) && rest != [] && IsRoot(rest[0].typ)
    ensures Cursor(tb, groups, g, 1, rest[1..], rest[0].version, Some(rest[0]))
  {
    if k > 0 { AltStep(tb, groups, g, k, rest, number, root); }
    AtGroup(groups, g, rest);
    AfterFirst(groups[g].root, groups[g].alts, Flatten(groups[g + 1..]));
    assert groups[g].alts[0..] == groups[g].alts;
  }

  /** A single edge that is met, or asks for nothing. */
  lemma OneStep(tb: Tables, groups: seq<Group>, g: nat, rest: seq<Edge>, number: nat, root: Option<Edge>, number': nat,
                root': Option<Edge>)
    requires AllWellFormed(groups) && Cursor(tb, groups, g, 0, rest, number, root) && rest != [] && !IsRoot(rest[0].typ)
    requires IsDependency(rest[0].typ) ==> tb.Met(rest[0])
    requires number' <= 1 && (number' == 1 ==> root' == None)
    ensures Cursor(tb, groups, g + 1, 0, rest[1..], number', root')
  {
    AtGroup(groups, g, rest);
    AfterFirst(rest[0], [], Flatten(groups[g + 1..]));
    assert [] + Flatten(groups[g + 1..]) == Flatten(groups[g + 1..]);
  }

  /** A single dependency that is not met. */
  lemma OneFails(tb: Tables, groups: seq<Group>, g: nat, rest: seq<Edge>, number: nat, root: Option<Edge>)
    requires AllWellFormed(groups) && Cursor(tb, groups, g, 0, rest, number, root)
    requires rest != [] && IsDependency(rest[0].typ) && !tb.Met(rest[0])
    ensures !MetUpTo(tb, groups, |groups|)
  {
    AtGroup(groups, g, rest);
    assert !GroupMet(tb, groups[g]);
  }

  /** Inside a list of alternatives: every edge has the right type; one that is met lets the cursor skip the rest. */
  lemma AltStep(tb: Tables, groups: seq<Group>, g: nat, k: nat, rest: seq<Edge>, number: nat, root: Option<Edge>)
    requires AllWellFormed(groups) && Cursor(tb, groups, g, k, rest, number, root) && k > 0
    ensures 1 <= number <= |rest| && root.Some? && rest[0].typ == root.value.typ - 1 && IsDependency(rest[0].typ)
    ensures tb.Met(rest[0]) ==> Cursor(tb, groups, g + 1, 0, rest[number..], 0, root)
    ensures !tb.Met(rest[0]) && number == 1 ==> !MetUpTo(tb, groups, |groups|)
    ensures !tb.Met(rest[0]) && number > 1 ==> Cursor(tb, groups, g, k + 1, rest[1..], number - 1, root)
  {
    var alts := groups[g].alts;
    assert WellFormed(groups[g]) && rest[0] == alts[k - 1];
    if tb.Met(rest[0]) {
      assert GroupMet(tb, groups[g]);
      assert rest[number..] == Flatten(groups[g + 1..]);
    } else if number == 1 {
      assert !GroupMet(tb, groups[g]);
    } else {
      assert rest[1..] == alts[k..] + Flatten(groups[g + 1..]);
    }
  }

  /** The body of the loop over edges: the cursor moves on, or the scan ends. */
  method ScanEdge(tb: Tables, edges: seq<Edge>, j: nat, number: nat, root: Option<Edge>, ghost groups: seq<Group>,
                  ghost g: nat, ghost k: nat)
    returns (stop: Option<Verdict>, j': nat, number': nat, root': Option<Edge>, ghost g': nat, ghost k': nat)
    requires tb.Valid() && tb.Kept() && AllWellFormed(groups) && j < |edges|
    requires Cursor(tb, groups, g, k, edges[j..], number, root) == true
    ensures stop.None? ==> j < j' <= |edges| && Cursor(tb, groups, g', k', edges[j'..], number', root') == true
    ensures stop.Some? ==> stop.value == Unsatisfied && !MetUpTo(tb, groups, |groups|)
  {
    ghost var rest := edges[j..];
    var e := edges[j];
    stop, j', number', root', g', k' := None, j + 1, number, root, g, k;
    Ahead(edges, j, number);
    if IsRoot(e.typ) {
      RootStep(tb, groups, g, k, rest, number, root);
      number', root', k' := e.version, Some(e), 1;
      return;
    }
    if k > 0 { AltStep(tb, groups, g, k, rest, number, root); }
    if number' == 0 {
      number', root' := 1, None;
    }
    if !IsDependency(e.typ) {
      OneStep(tb, groups, g, rest, number, root, number', root');
      g' := g + 1;
      return;
    }
    if root' != None && e.typ != root'.value.typ - 1 {
      return Some(Corrupt), j', number', root', g', k';
    }
    var ok := CheckEdge(tb, e);
    number' := number' - 1;
    if !ok && number' == 0 {
      if k == 0 { OneFails(tb, groups, g, rest, number, root); }
      stop := Some(Unsatisfied);
    } else if ok {
      if k == 0 { OneStep(tb, groups, g, rest, number, root, 0, root'); }
      j' := j + 1 + number';
      number', g', k' := 0, g + 1, 0;
    } else {
      k' := k + 1;
    }
  }

  /** The loop of check_deps over the edges of one package. The scan accepts exactly when every group is met, and the
  check for corrupt alternatives never fires. */
  method CheckEdges(tb: Tables, edges: seq<Edge>, ghost groups: seq<Group>) returns (v: Verdict)
    requires tb.Valid() && tb.Kept() && edges == Flatten(groups) && AllWellFormed(groups)
    ensures v != Corrupt && (v == Accepted <==> MetUpTo(tb, groups, |groups|))
  {
    var number: nat, root: Option<Edge>, j: nat := 0, None, 0;
    ghost var g: nat, k: nat := 0, 0;
    CursorStart(tb, groups);
    assert edges[0..] == edges;
    while j < |edges|
      invariant j <= |edges| && Cursor(tb, groups, g, k, edges[j..], number, root) == true
      decreases |edges| - j
    {
      var stop;
      stop, j, number, root, g, k := ScanEdge(tb, edges, j, number, root, groups, g, k);
      if stop != None {
        return stop.value;
      }
    }
    AllDone(tb, groups, g, k, edges[j..], number, root);
    v := Accepted;
  }

  lemma NothingLeft(groups: seq<Group>)
    ensures Flatten(groups) == [] ==> groups == []
  {
    if groups != [] { assert |Flat(groups[0])| >= 1; }
  }

  lemma AllDone(tb: Tables, groups: seq<Group>, g: nat, k: nat, rest: seq<Edge>, number: nat, root: Option<Edge>)
    requires Cursor(tb, groups, g, k, rest, number, root) && rest == []
    ensures MetUpTo(tb, groups, |groups|)
  {
    NothingLeft(groups[g..]);
  }

  lemma Ahead(edges: seq<Edge>, j: nat, n: nat)
    requires j < |edges|
    ensures edges[j..][0] == edges[j] && edges[j..][1..] == edges[j + 1..]
    ensures j + n <= |edges| ==> edges[j..][n..] == edges[j + n..]
  {
  }

  // ----- all packages -----

  /** The packages whose dependencies count: those known, with a status that says install. */
  ghost predicate Wanted(tb: Tables, i: nat) {
    tb.Stored(i) && tb.HasStatus(tb.NameOf(tb.packages[i].value.name), EDGE_DEPENDS)
  }

  ghost predicate PackageMet(tb: Tables, groups: seq<Group>, i: nat) {
    Wanted(tb, i) ==> MetUpTo(tb, groups, |groups|)
  }

  /** The body of the loop of check_deps. */
  method CheckPackage(tb: Tables, i: nat, ghost groups: seq<Group>) returns (v: Verdict)
    requires tb.Valid() && tb.Kept() && i < |tb.packages|
    requires (tb.packages[i].Some? ==> AllWellFormed(groups) && tb.packages[i].value.edges == Flatten(groups))
    ensures v != Corrupt && (v == Accepted <==> PackageMet(tb, groups, i))
  {
    v := Accepted;
    if tb.packages[i] != None {
      var node := tb.packages[i].value;
      var n := SearchStatus(tb, tb.NameOf(node.name));
      StatusFound(tb, tb.NameOf(node.name));
      if tb.statuses[n] != None && tb.statuses[n].value.want == tb.install {
        v := CheckEdges(tb, node.edges, groups);
      }
    }
  }

  /** The groups of the first n packages are met, where they count. */
  ghost predicate AllMet(tb: Tables, layout: seq<seq<Group>>, n: nat) {
    forall k: int {:trigger Opened(LoopSeal, k)} :: Sealed(k) ==>
      n <= |layout| && forall i :: 0 <= i < n ==> PackageMet(tb, layout[i], i)
  }

  lemma MetStart(tb: Tables, layout: seq<seq<Group>>)
    ensures AllMet(tb, layout, 0)
  {
  }

  lemma MetNext(tb: Tables, layout: seq<seq<Group>>, n: nat)
    requires AllMet(tb, layout, n) && n < |layout|
    ensures PackageMet(tb, layout[n], n) ==> AllMet(tb, layout, n + 1)
    ensures !PackageMet(tb, layout[n], n) ==> exists i :: 0 <= i < |layout| && !PackageMet(tb, layout[i], i)
  {
    assert Opened(LoopSeal, 0);
  }

  lemma MetAll(tb: Tables, layout: seq<seq<Group>>)
    requires AllMet(tb, layout, |layout|)
    ensures forall i :: 0 <= i < |layout| ==> PackageMet(tb, layout[i], i)
  {
    assert Opened(LoopSeal, 0);
  }

  /** The dependency half of check_deps: it accepts exactly when all groups of all wanted packages are met. */
  method CheckDeps(tb: Tables, ghost layout: seq<seq<Group>>) returns (v: Verdict)
    requires tb.Valid() && tb.Kept() && LaidOut(tb, layout)
    ensures v != Corrupt
    ensures v == Accepted <==> forall i :: 0 <= i < |layout| ==> PackageMet(tb, layout[i], i)
  {
    v := Accepted;
    var i := 0;
    MetStart(tb, layout);
    while i < PACKAGE_HASH_PRIME
      invariant 0 <= i <= PACKAGE_HASH_PRIME && v == Accepted && AllMet(tb, layout, i) == true
    {
      v := CheckPackage(tb, i, layout[i]);
      MetNext(tb, layout, i);
      if v != Accepted {
        return;
      }
      i := i + 1;
    }
    MetAll(tb, layout);
  }
}

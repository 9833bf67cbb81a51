/** The package and status tables of dpkg and the searches in them. */
module DpkgTables {
  import opened Bits
  import opened OpenHash
  import opened DpkgNames

  const EDGE_PRE_DEPENDS := 1
  const EDGE_OR_PRE_DEPENDS := 2
  const EDGE_DEPENDS := 3
  const EDGE_OR_DEPENDS := 4
  const EDGE_PROVIDES := 7

  const VER_EQUAL := 1
  const VER_LESS := 2
  const VER_LESS_EQUAL := 3
  const VER_MORE := 4
  const VER_MORE_EQUAL := 5
  const VER_ANY := 6

  /** Names and versions are numbers of the name table. */
  datatype Edge = Edge(op: nat, typ: nat, name: nat, version: nat)
  datatype Node = Node(name: nat, version: nat, edges: seq<Edge>)

  /** The three words of a status, and the package that has it. */
  datatype Status = Status(package: nat, want: nat, flag: nat, state: nat)

  /** test_version, given the result of version_compare. */
  function TestVersion(cmp: int, op: nat): bool {
    if op == VER_ANY then true
    else if op == VER_EQUAL then cmp == 0
    else if op == VER_LESS then cmp < 0
    else if op == VER_LESS_EQUAL then cmp <= 0
    else if op == VER_MORE then cmp > 0
    else op == VER_MORE_EQUAL && cmp >= 0
  }

  // ----- probing for something wanted -----

  /** The first slot on the path of the key, from the i-th on, that is free or holds something wanted. */
  function Find<T>(t: seq<Option<T>>, key: string, wanted: T -> bool, i: nat): (s: nat)
    requires |t| >= 2
    ensures s < |t|
    decreases |t| - i
  {
    var s := Path(key, |t|, i);
    if i >= |t| || t[s] == None || wanted(t[s].value) then s else Find(t, key, wanted, i + 1)
  }

  /** The probe loop that the three searches share. */
  method Probe<T>(t: seq<Option<T>>, key: string, wanted: T -> bool) returns (address: nat)
    requires Prime(|t|) && None in t
    ensures address == Find(t, key, wanted, 0)
  {
    ghost var free :| 0 <= free < |t| && t[free] == None;
    ghost var n := EverySlot(Start(key, |t|), Decrement(key, |t|), |t|, free);
    ghost var i: nat := 0;
    var decrement;
    address, decrement := MakeHash(key, |t|);
    while t[address] != None && !wanted(t[address].value)
      invariant i <= n && address == Path(key, |t|, i) && Find(t, key, wanted, i) == Find(t, key, wanted, 0)
      decreases n - i
    {
      address := Step(address, decrement, |t|);
      i := i + 1;
    }
  }

  /** Slot s lies on the path of the key, behind slots that are taken. */
  ghost predicate Reached<T(!new)>(t: seq<Option<T>>, key: string, s: nat) {
    |t| >= 2 && exists i: nat :: i < |t| && Path(key, |t|, i) == s && Taken(t, key, i)
  }

  ghost predicate Taken<T(!new)>(t: seq<Option<T>>, key: string, i: nat)
    requires |t| >= 2
  {
    forall j :: 0 <= j < i ==> t[Path(key, |t|, j)].Some?
  }

  lemma {:induction false} FindStops<T(!new)>(t: seq<Option<T>>, key: string, wanted: T -> bool, i: nat, n: nat)
    requires |t| >= 2 && i <= n < |t| && Taken(t, key, n) && t[Path(key, |t|, n)].Some?
    requires wanted(t[Path(key, |t|, n)].value)
    ensures t[Find(t, key, wanted, i)].Some? && wanted(t[Find(t, key, wanted, i)].value)
    decreases n - i
  {
    if i < n {
      assert t[Path(key, |t|, i)].Some?;
      if !wanted(t[Path(key, |t|, i)].value) { FindStops(t, key, wanted, i + 1, n); }
    }
  }

  /** What is stored on the path of a key, and wanted, keeps a search for that key from coming back empty. */
  lemma StoredFound<T(!new)>(t: seq<Option<T>>, key: string, wanted: T -> bool, s: nat)
    requires s < |t| && Reached(t, key, s) && t[s].Some? && wanted(t[s].value)
    ensures t[Find(t, key, wanted, 0)].Some?
  {
    var i: nat :| i < |t| && Path(key, |t|, i) == s && Taken(t, key, i);
    FindStops(t, key, wanted, 0, i);
  }

  lemma {:induction false} FindFrom<T(!new)>(t: seq<Option<T>>, key: string, wanted: T -> bool, i: nat, n: nat)
    requires |t| >= 2 && i <= n < |t| && t[Path(key, |t|, n)] == None && Taken(t, key, i)
    ensures var s := Find(t, key, wanted, i); Reached(t, key, s) && (t[s].Some? ==> wanted(t[s].value))
    decreases n - i
  {
    if t[Path(key, |t|, i)].Some? && !wanted(t[Path(key, |t|, i)].value) {
      FindFrom(t, key, wanted, i + 1, n);
    }
  }

  /** Where a search ends is on the path of the key; what it finds there is wanted. */
  lemma FindReached<T(!new)>(t: seq<Option<T>>, key: string, wanted: T -> bool)
    requires Prime(|t|) && None in t
    ensures var s := Find(t, key, wanted, 0); Reached(t, key, s) && (t[s].Some? ==> wanted(t[s].value))
  {
    var free :| 0 <= free < |t| && t[free] == None;
    var n := EverySlot(Start(key, |t|), Decrement(key, |t|), |t|, free);
    FindFrom(t, key, wanted, 0, n);
  }

  /** Filling a slot, or replacing what is in it, takes nothing else off its path. */
  lemma ReachedKept<T(!new)>(t: seq<Option<T>>, key: string, s: nat, r: nat, v: T)
    requires Reached(t, key, s) && r < |t|
    ensures Reached(t[r := Some(v)], key, s)
  {
    var i: nat :| i < |t| && Path(key, |t|, i) == s && Taken(t, key, i);
    assert Taken(t[r := Some(v)], key, i);
  }

  // ----- the tables -----

  /** All tables, the comparison of versions, and the numbers of the two words that matter. */
  datatype Tables = Tables(names: seq<Option<string>>, packages: seq<Option<Node>>, statuses: seq<Option<Status>>,
                           compare: (nat, nat) -> int, install: nat, installed: nat) {
    function NameOf(n: nat): string {
      if n < |names| && names[n].Some? then names[n].value else ""
    }

    predicate Stored(p: nat) {
      p < |packages| && packages[p].Some?
    }

    /** The name of the package that a status belongs to. */
    function StatusName(s: Status): string {
      if Stored(s.package) then NameOf(packages[s.package].value.name) else ""
    }

    ghost predicate Valid() {
      && |packages| == PACKAGE_HASH_PRIME && |statuses| == STATUS_HASH_PRIME
      && (None in packages) && (None in statuses)
    }

    /** What every insertion keeps: all that is stored lies on the path of its name; the names are known; every status
    has its package; and no package name has two statuses. */
    ghost predicate Kept() {
      && (forall p :: 0 <= p < |packages| && packages[p].Some? ==>
            var n := packages[p].value.name; n < |names| && names[n].Some? && Reached(packages, NameOf(n), p))
      && (forall s :: 0 <= s < |statuses| && statuses[s].Some? ==>
            Stored(statuses[s].value.package) && Reached(statuses, StatusName(statuses[s].value), s))
      && (forall s, r :: 0 <= s < r < |statuses| && statuses[s].Some? && statuses[r].Some? ==>
            StatusName(statuses[s].value) != StatusName(statuses[r].value))
    }

    function FindStatus(key: string): (s: nat)
      requires |statuses| >= 2
      ensures s < |statuses|
    {
      Find(statuses, key, (s: Status) => StatusName(s) == key, 0)
    }

    /** What search_package_hashtable looks for. */
    predicate Fits(node: Node, name: nat, version: nat, op: nat) {
      node.name == name && (op == VER_ANY || TestVersion(compare(node.version, version), op))
    }

    function FindPackage(name: nat, version: nat, op: nat): (s: nat)
      requires |packages| >= 2
      ensures s < |packages|
    {
      Find(packages, NameOf(name), (node: Node) => Fits(node, name, version, op), 0)
    }

    /** The status that a dependency of the given type asks for. */
    predicate Right(s: Status, typ: nat) {
      if typ == EDGE_PRE_DEPENDS then s.state == installed else typ == EDGE_DEPENDS && s.want == install
    }

    /** A status is stored for the package name, and it is the right one. */
    ghost predicate HasStatus(name: string, typ: nat) {
      exists s :: 0 <= s < |statuses| && statuses[s].Some? && StatusName(statuses[s].value) == name
          && Right(statuses[s].value, typ)
    }

    ghost predicate Provides(package: nat, name: nat) {
      && Stored(package)
      && exists j :: 0 <= j < |packages[package].value.edges|
                     && packages[package].value.edges[j].typ == EDGE_PROVIDES
                         && packages[package].value.edges[j].name == name
    }

    predicate Suits(p: nat, name: nat, version: nat, op: nat) {
      Stored(p) && Fits(packages[p].value, name, version, op)
    }

    ghost predicate Provided(e: Edge) {
      exists p: nat :: Provides(p, e.name) && HasStatus(NameOf(packages[p].value.name), e.typ)
    }

    /** A dependency is met by a package it names, in a version that fits, or by one that provides the name; either must
    have the right status. */
    ghost predicate Met(e: Edge) {
      (HasStatus(NameOf(e.name), e.typ) && exists p: nat :: Suits(p, e.name, e.version, e.op)) || Provided(e)
    }
  }

  method SearchStatus(tb: Tables, key: string) returns (address: nat)
    requires tb.Valid()
    ensures address == tb.FindStatus(key)
  {
    StatusSize();
    address := Probe(tb.statuses, key, (s: Status) => tb.StatusName(s) == key);
  }

  method SearchPackage(tb: Tables, name: nat, version: nat, op: nat) returns (address: nat)
    requires tb.Valid()
    ensures address == tb.FindPackage(name, version, op)
  {
    PackageSize();
    address := Probe(tb.packages, tb.NameOf(name), (node: Node) => tb.Fits(node, name, version, op));
  }

  /** A search finds a package that fits exactly when one is stored. */
  lemma PackageFound(tb: Tables, name: nat, version: nat, op: nat, s: nat)
    requires tb.Valid() && tb.Kept() && s == tb.FindPackage(name, version, op)
    ensures Reached(tb.packages, tb.NameOf(name), s)
    ensures if tb.packages[s].Some? then tb.Suits(s, name, version, op) && tb.packages[s].value.name == name
            else forall p: nat :: !tb.Suits(p, name, version, op)
  {
    var wanted := (node: Node) => tb.Fits(node, name, version, op);
    PackageSize();
    FindReached(tb.packages, tb.NameOf(name), wanted);
    forall p: nat | tb.Suits(p, name, version, op)
      ensures tb.packages[s].Some?
    {
      StoredFound(tb.packages, tb.NameOf(name), wanted, p);
    }
  }

  /** A search finds the one status of a name, or there is none. */
  lemma StatusFound(tb: Tables, key: string)
    requires tb.Valid() && tb.Kept()
    ensures var s := tb.FindStatus(key);
            && Reached(tb.statuses, key, s)
            && (tb.statuses[s].Some? ==> tb.StatusName(tb.statuses[s].value) == key)
            && (forall r :: 0 <= r < |tb.statuses| && tb.statuses[r].Some? && r != s ==>
                  tb.StatusName(tb.statuses[r].value) != key)
  {
    var wanted := (s: Status) => tb.StatusName(s) == key;
    StatusSize();
    FindReached(tb.statuses, key, wanted);
    forall r: nat | r < |tb.statuses| && tb.statuses[r].Some? && tb.StatusName(tb.statuses[r].value) == key
      ensures tb.statuses[tb.FindStatus(key)].Some?
    {
      StoredFound(tb.statuses, key, wanted, r);
    }
  }

  // ----- deciding about a dependency -----

  /** search_for_provides: the next package after startAt that provides the name, or -1. */
  method SearchForProvides(tb: Tables, needle: nat, startAt: int) returns (i: int)
    requires tb.Valid() && -1 <= startAt < PACKAGE_HASH_PRIME
    ensures i == -1 || (startAt < i < PACKAGE_HASH_PRIME && tb.Provides(i, needle))
    ensures forall p: nat :: startAt < p && (i == -1 || p < i) ==> !tb.Provides(p, needle)
  {
    i := startAt + 1;
    while i < PACKAGE_HASH_PRIME
      invariant startAt < i <= PACKAGE_HASH_PRIME && forall p: nat :: startAt < p < i ==> !tb.Provides(p, needle)
    {
      if tb.packages[i].Some? {
        var edges, j := tb.packages[i].value.edges, 0;
        while j < |edges|
          invariant 0 <= j <= |edges| && forall k :: 0 <= k < j ==>
                      !(edges[k].typ == EDGE_PROVIDES && edges[k].name == needle)
        {
          if edges[j].typ == EDGE_PROVIDES && edges[j].name == needle {
            return;
          }
          j := j + 1;
        }
      }
      i := i + 1;
    }
    i := -1;
  }

  method PackageSatisfies(tb: Tables, package: nat, typ: nat) returns (ok: bool)
    requires tb.Valid() && tb.Kept() && tb.Stored(package)
    ensures ok == tb.HasStatus(tb.NameOf(tb.packages[package].value.name), typ)
  {
    var key := tb.NameOf(tb.packages[package].value.name);
    var n := SearchStatus(tb, key);
    StatusFound(tb, key);
    if tb.statuses[n] == None {
      return false;
    }
    ok := if typ == EDGE_PRE_DEPENDS then tb.statuses[n].value.state == tb.installed
          else typ == EDGE_DEPENDS && tb.statuses[n].value.want == tb.install;
  }

  /** The part of check_deps that decides about one dependency. */
  method CheckEdge(tb: Tables, e: Edge) returns (ok: bool)
    requires tb.Valid() && tb.Kept()
    ensures ok == tb.Met(e)
  {
    var n := SearchPackage(tb, e.name, e.version, e.op);
    PackageFound(tb, e.name, e.version, e.op, n);
    ok := false;
    if tb.packages[n] != None {
      ok := PackageSatisfies(tb, n, e.typ);
    }
    if !ok {
      ok := CheckProviders(tb, e);
    }
  }

  method CheckProviders(tb: Tables, e: Edge) returns (ok: bool)
    requires tb.Valid() && tb.Kept()
    ensures ok == tb.Provided(e)
  {
    ok := false;
    var provider := -1;
    while true
      invariant -1 <= provider < PACKAGE_HASH_PRIME && !ok
      invariant forall p: nat :: p <= provider && tb.Provides(p, e.name) ==>
                  !tb.HasStatus(tb.NameOf(tb.packages[p].value.name), e.typ)
      decreases PACKAGE_HASH_PRIME - provider
    {
      var next := SearchForProvides(tb, e.name, provider);
      if next == -1 {
        break;
      }
      provider := next;
      ok := PackageSatisfies(tb, provider, e.typ);
      if ok {
        break;
      }
    }
  }
}

/** The tables as the status file and the packages to install fill them. */
module DpkgStore {
  import opened Bits
  import opened OpenHash
  import opened DpkgTables
  import opened DpkgEdges
  import opened DpkgDeps

  ghost predicate NamesGrow(names: seq<Option<string>>, names': seq<Option<string>>) {
    |names| <= |names'| && forall n :: 0 <= n < |names| && names[n].Some? ==> names'[n] == names[n]
  }

  lemma NamesAdded(tb: Tables, names: seq<Option<string>>)
    requires tb.Kept() && NamesGrow(tb.names, names)
    ensures tb.(names := names).Kept()
    ensures forall p: nat :: tb.Stored(p) ==>
              tb.(names := names).NameOf(tb.packages[p].value.name) == tb.NameOf(tb.packages[p].value.name)
  {
    var tb' := tb.(names := names);
    forall s | 0 <= s < |tb.statuses| && tb.statuses[s].Some?
      ensures tb'.StatusName(tb.statuses[s].value) == tb.StatusName(tb.statuses[s].value)
    {
      assert tb.Stored(tb.statuses[s].value.package);
    }
  }

  lemma PackageAdded(tb: Tables, num: nat, node: Node)
    requires tb.Kept() && num < |tb.packages| && tb.packages[num] == None
    requires Reached(tb.packages, tb.NameOf(node.name), num)
    requires node.name < |tb.names| && tb.names[node.name].Some?
    ensures tb.(packages := tb.packages[num := Some(node)]).Kept()
  {
    var tb' := tb.(packages := tb.packages[num := Some(node)]);
    forall p | 0 <= p < |tb'.packages| && tb'.packages[p].Some?
      ensures Reached(tb'.packages, tb'.NameOf(tb'.packages[p].value.name), p)
    {
      ReachedKept(tb.packages, tb'.NameOf(tb'.packages[p].value.name), p, num, node);
    }
    forall s | 0 <= s < |tb.statuses| && tb.statuses[s].Some?
      ensures tb'.StatusName(tb.statuses[s].value) == tb.StatusName(tb.statuses[s].value)
    {
      assert tb.Stored(tb.statuses[s].value.package);
    }
  }

  /** The slot that a search for the status's own name gives. */
  ghost predicate SlotFor(tb: Tables, num: nat, key: string) {
    && num < |tb.statuses| && Reached(tb.statuses, key, num)
    && (tb.statuses[num].Some? ==> tb.StatusName(tb.statuses[num].value) == key)
    && (forall r :: 0 <= r < |tb.statuses| && tb.statuses[r].Some? && tb.StatusName(tb.statuses[r].value) == key ==>
        r == num)
  }

  lemma StatusAdded(tb: Tables, num: nat, status: Status)
    requires tb.Kept() && tb.Stored(status.package) && SlotFor(tb, num, tb.StatusName(status))
    ensures tb.(statuses := tb.statuses[num := Some(status)]).Kept()
  {
    var tb' := tb.(statuses := tb.statuses[num := Some(status)]);
    forall s | 0 <= s < |tb'.statuses| && tb'.statuses[s].Some?
      ensures tb'.Stored(tb'.statuses[s].value.package)
      ensures Reached(tb'.statuses, tb'.StatusName(tb'.statuses[s].value), s)
    {
      ReachedKept(tb.statuses, tb.StatusName(tb'.statuses[s].value), s, num, status);
    }
  }

  lemma StatusChanged(tb: Tables, tb': Tables, num: nat, status: Status)
    requires SlotFor(tb, num, tb.StatusName(status)) && tb' == tb.(statuses := tb.statuses[num := Some(status)])
    ensures forall typ :: tb'.HasStatus(tb'.StatusName(status), typ) == tb'.Right(status, typ)
    ensures forall name, typ :: name != tb'.StatusName(status) ==> tb'.HasStatus(name, typ) == tb.HasStatus(name, typ)
  {
    forall s: Status
      ensures tb'.StatusName(s) == tb.StatusName(s)
    {
    }
    forall typ: nat
      ensures tb'.HasStatus(tb'.StatusName(status), typ) == tb'.Right(status, typ)
    {
      assert tb'.statuses[num] == Some(status);
    }
    forall name, typ | name != tb'.StatusName(status)
      ensures tb'.HasStatus(name, typ) == tb.HasStatus(name, typ)
    {
      if tb.HasStatus(name, typ) {
        var s :| 0 <= s < |tb.statuses| && tb.statuses[s].Some? && tb.StatusName(tb.statuses[s].value) == name
            && tb.Right(tb.statuses[s].value, typ);
        assert tb'.statuses[s] == tb.statuses[s];
      }
      if tb'.HasStatus(name, typ) {
        var s :| 0 <= s < |tb'.statuses| && tb'.statuses[s].Some? && tb'.StatusName(tb'.statuses[s].value) == name
            && tb'.Right(tb'.statuses[s].value, typ);
        assert tb.statuses[s] == tb'.statuses[s];
      }
    }
  }

  lemma LayoutKept(tb: Tables, layout: seq<seq<Group>>, num: nat, node: Node, groups: seq<Group>)
    requires LaidOut(tb, layout) && num < |tb.packages| && AllWellFormed(groups) && node.edges == Flatten(groups)
    ensures LaidOut(tb.(packages := tb.packages[num := Some(node)]), layout[num := groups])
  {
  }

  /** A control file, its names and its fields turned into numbers; without a version the package is not known. */
  datatype Control = Control(name: nat, version: Option<nat>, lines: seq<Line>) {
    ghost function AsNode(): Node
      requires version.Some? && forall i :: 0 <= i < |lines| ==> LineOk(lines[i])
    {
      Node(name, version.value, Flatten(GroupsOfLines(lines)))
    }
  }

  class Store {
    var tb: Tables
    /** The groups of the edges of every package. */
    ghost var layout: seq<seq<Group>>

    /** What every operation keeps: all that is stored can be found, and has edges that are whole groups. */
    ghost predicate Kept()
      reads this
    {
      tb.Kept() && LaidOut(tb, layout)
    }

    ghost predicate Known(name: nat)
      reads this
    {
      name < |tb.names| && tb.names[name].Some?
    }

    /** Nothing is stored at the start. */
    constructor (names: seq<Option<string>>, compare: (nat, nat) -> int, install: nat, installed: nat)
      ensures Kept() && tb.Valid() && tb.names == names && tb.compare == compare && tb.install == install
      ensures tb.installed == installed
      ensures (forall p: nat :: !tb.Stored(p)) && forall name, typ :: !tb.HasStatus(name, typ)
    {
      var packages: seq<Option<Node>> := seq(PACKAGE_HASH_PRIME, _ => None);
      var statuses: seq<Option<Status>> := seq(STATUS_HASH_PRIME, _ => None);
      tb := Tables(names, packages, statuses, compare, install, installed);
      layout := seq(PACKAGE_HASH_PRIME, _ => []);
      assert packages[0] == None && statuses[0] == None;
    }

    /** A package is stored unless one that fits is already there. */
    method AddPackage(node: Node, op: nat, ghost groups: seq<Group>) returns (num: nat)
      requires Kept() && tb.Valid() && Known(node.name) && AllWellFormed(groups) && node.edges == Flatten(groups)
      modifies this
      ensures Kept() && num < |old(tb.packages)| && tb == old(tb).(packages := tb.packages)
      ensures if exists p: nat :: old(tb).Suits(p, node.name, node.version, op)
              then tb == old(tb) && layout == old(layout) && tb.Suits(num, node.name, node.version, op)
              else && old(tb).packages[num] == None && tb.packages == old(tb).packages[num := Some(node)]
                   && layout == old(layout)[num := groups]
    {
      num := SearchPackage(tb, node.name, node.version, op);
      PackageFound(tb, node.name, node.version, op, num);
      if tb.packages[num] == None {
        PackageAdded(tb, num, node);
        LayoutKept(tb, layout, num, node, groups);
        tb := tb.(packages := tb.packages[num := Some(node)]);
        layout := layout[num := groups];
      }
    }

    /** fill_package_struct: the package of a control file, unless it has no version, is stored with the groups of its
    fields; one of the same name and version stays. */
    method FillPackage(c: Control) returns (num: Option<nat>)
      requires Kept() && tb.Valid() && Known(c.name) && forall i :: 0 <= i < |c.lines| ==> LineOk(c.lines[i])
      modifies this
      ensures Kept() && tb == old(tb).(packages := tb.packages) && (num.None? <==> c.version.None?)
      ensures num.None? ==> tb == old(tb) && layout == old(layout)
      ensures num.Some? ==>
                if exists p: nat :: old(tb).Suits(p, c.name, c.version.value, VER_EQUAL)
                then tb == old(tb) && layout == old(layout) && tb.Suits(num.value, c.name, c.version.value, VER_EQUAL)
                else && num.value < |old(tb).packages| && old(tb).packages[num.value] == None
                     && tb.packages == old(tb).packages[num.value := Some(c.AsNode())]
                     && num.value < |old(layout)| && layout == old(layout)[num.value := GroupsOfLines(c.lines)]
    {
      var edges := EdgesOf(c.lines);
      if c.version.None? {
        return None;
      }
      var n := AddPackage(Node(c.name, c.version.value, edges), VER_EQUAL, GroupsOfLines(c.lines));
      num := Some(n);
    }

    /** The part of check_deps that creates packages which are only provided: no edges, no dependencies. */
    method AddProvided(e: Edge) returns (num: nat)
      requires Kept() && tb.Valid() && Known(e.name)
      modifies this
      ensures Kept() && tb == old(tb).(packages := tb.packages) && |tb.packages| == |old(tb).packages| && tb.Stored(num)
      ensures if exists p: nat :: old(tb).Suits(p, e.name, e.version, e.op)
              then tb == old(tb) && tb.Suits(num, e.name, e.version, e.op)
              else old(tb).packages[num] == None
                   && tb.packages == old(tb).packages[num := Some(Node(e.name, e.version, []))]
      ensures forall p :: 0 <= p < |tb.packages| && old(tb).packages[p].Some? ==> tb.packages[p] == old(tb).packages[p]
    {
      num := AddPackage(Node(e.name, e.version, []), e.op, []);
    }

    /** The end of index_status_file, and the new entry in dpkg_main: the status of the package's name is this one. */
    method AddStatus(status: Status) returns (num: nat)
      requires Kept() && tb.Valid() && tb.Stored(status.package)
      modifies this`tb
      ensures Kept() && num < |old(tb.statuses)|
      ensures tb == old(tb).(statuses := old(tb).statuses[num := Some(status)])
      ensures forall typ :: tb.HasStatus(tb.StatusName(status), typ) == tb.Right(status, typ)
      ensures forall name, typ :: name != tb.StatusName(status) ==>
                tb.HasStatus(name, typ) == old(tb).HasStatus(name, typ)
    {
      ghost var before, key := tb, tb.StatusName(status);
      num := SearchStatus(tb, tb.NameOf(tb.packages[status.package].value.name));
      StatusFound(tb, key);
      StatusAdded(tb, num, status);
      tb := tb.(statuses := tb.statuses[num := Some(status)]);
      StatusChanged(before, tb, num, status);
    }

    /** New names leave everything where it is. */
    method UseNames(names: seq<Option<string>>)
      requires Kept() && NamesGrow(tb.names, names)
      modifies this`tb
      ensures Kept() && tb == old(tb).(names := names)
      ensures forall p: nat :: tb.Stored(p) ==>
                tb.NameOf(tb.packages[p].value.name) == old(tb).NameOf(tb.packages[p].value.name)
    {
      NamesAdded(tb, names);
      tb := tb.(names := names);
    }

    /** The dependency half of check_deps, on whatever has been stored: it never reports corrupt alternatives, and
    accepts exactly when all groups of all packages to be installed are met. */
    method Check() returns (v: Verdict)
      requires Kept() && tb.Valid()
      ensures v != Corrupt
      ensures v == Accepted <==> forall i :: 0 <= i < |layout| ==> PackageMet(tb, layout[i], i)
    {
      v := CheckDeps(tb, layout);
    }
  }
}

/** The edges of a package: an AND of ORs, laid out in one flat list by `add_split_dependencies`. */
module DpkgEdges {
  import opened DpkgTables

  /** A single edge, or alternatives behind a root that counts them. */
  datatype Group = One(e: Edge) | AnyOf(root: Edge, alts: seq<Edge>)

  predicate IsDependency(typ: nat) {
    typ == EDGE_PRE_DEPENDS || typ == EDGE_DEPENDS
  }

  predicate IsRoot(typ: nat) {
    typ == EDGE_OR_PRE_DEPENDS || typ == EDGE_OR_DEPENDS
  }

  ghost predicate WellFormed(g: Group) {
    match g
    case One(e) => !IsRoot(e.typ)
    case AnyOf(root, alts) =>
      && IsRoot(root.typ) && root.version == |alts| >= 1
      && forall i :: 0 <= i < |alts| ==> alts[i].typ == root.typ - 1
  }

  ghost predicate AllWellFormed(groups: seq<Group>) {
    forall i :: 0 <= i < |groups| ==> WellFormed(groups[i])
  }

  function Flat(g: Group): seq<Edge> {
    match g
    case One(e) => [e]
    case AnyOf(root, alts) => [root] + alts
  }

  function Flatten(groups: seq<Group>): seq<Edge> {
    if groups == [] then [] else Flat(groups[0]) + Flatten(groups[1..])
  }

  lemma {:induction false} FlattenAppend(a: seq<Group>, b: seq<Group>)
    ensures Flatten(a + b) == Flatten(a) + Flatten(b)
  {
    if a == [] {
      assert a + b == b && Flatten(a) + Flatten(b) == Flatten(b);
    } else {
      var x, rest := a[0], a[1..];
      FlattenAppend(rest, b);
      Shift(a, b, x, rest);
      FlattenCons(x, rest);
      FlattenCons(x, rest + b);
      Grouping(Flat(x), Flatten(rest), Flatten(b));
    }
  }

  lemma {:induction false} FlattenCons(x: Group, rest: seq<Group>)
    ensures Flatten([x] + rest) == Flat(x) + Flatten(rest)
  {
    assert ([x] + rest)[0] == x && ([x] + rest)[1..] == rest;
  }

  lemma Shift(a: seq<Group>, b: seq<Group>, x: Group, rest: seq<Group>)
    requires a != [] && x == a[0] && rest == a[1..]
    ensures a == [x] + rest && a + b == [x] + (rest + b)
  {
  }

  lemma Grouping(a: seq<Edge>, b: seq<Edge>, c: seq<Edge>)
    ensures a + (b + c) == a + b + c
  {
  }

  // ----- add_split_dependencies -----

  /** One field between commas, already split at the bars: the number of its whole text, its alternatives, and whether
  it has a bar. */
  datatype Field = Field(text: nat, alts: seq<Edge>, bar: bool)

  /** A field with a bar has an OR edge, if it is a kind of dependency; other kinds of edges just follow each other. */
  function GroupsOf(f: Field, typ: nat): seq<Group> {
    if IsDependency(typ) && f.bar then [AnyOf(Edge(0, typ + 1, f.text, |f.alts|), f.alts)]
    else Singles(f.alts)
  }

  function Singles(alts: seq<Edge>): seq<Group> {
    if alts == [] then [] else [One(alts[0])] + Singles(alts[1..])
  }

  function GroupsOfAll(fields: seq<Field>, typ: nat): seq<Group> {
    if fields == [] then [] else GroupsOfAll(fields[..|fields| - 1], typ) + GroupsOf(fields[|fields| - 1], typ)
  }

  ghost predicate FieldOk(f: Field, typ: nat) {
    |f.alts| >= 1 && (!f.bar ==> |f.alts| == 1) && forall i :: 0 <= i < |f.alts| ==> f.alts[i].typ == typ
  }

  lemma {:induction false} GroupsWellFormed(fields: seq<Field>, typ: nat)
    requires !IsRoot(typ) && forall i :: 0 <= i < |fields| ==> FieldOk(fields[i], typ)
    ensures AllWellFormed(GroupsOfAll(fields, typ))
  {
    if fields != [] {
      GroupsWellFormed(fields[..|fields| - 1], typ);
      FlattenSingles(fields[|fields| - 1].alts);
    }
  }

  lemma {:induction false} FlattenSingles(alts: seq<Edge>)
    ensures (forall i :: 0 <= i < |alts| ==> !IsRoot(alts[i].typ)) ==> AllWellFormed(Singles(alts))
    ensures Flatten(Singles(alts)) == alts
  {
    if alts != [] {
      FlattenSingles(alts[1..]);
      var g := Singles(alts);
      assert g[0] == One(alts[0]) && g[1..] == Singles(alts[1..]);
      assert Flat(g[0]) + alts[1..] == alts;
    }
  }

  lemma FlattenField(f: Field, typ: nat)
    ensures Flatten(GroupsOf(f, typ)) == (if IsDependency(typ) && f.bar then [Edge(0, typ + 1, f.text, |f.alts|)]
                                          else []) + f.alts
  {
    if IsDependency(typ) && f.bar {
      assert GroupsOf(f, typ)[1..] == [];
      assert Flatten(GroupsOf(f, typ)) == [Edge(0, typ + 1, f.text, |f.alts|)] + f.alts + [];
    } else {
      FlattenSingles(f.alts);
      var none: seq<Edge> := [];
      assert none + f.alts == f.alts;
    }
  }

  /** The edges after n alternatives: `root`, if there is one, counts them. */
  ghost function SoFar(edges: seq<Edge>, root: seq<Edge>, alts: seq<Edge>): (r: seq<Edge>)
    requires |root| <= 1
    ensures root != [] ==> |r| > |edges| && r[|edges|] == root[0].(version := |alts|)
  {
    edges + (if root == [] then [] else [root[0].(version := |alts|)]) + alts
  }

  lemma SoFarStep(edges: seq<Edge>, root: seq<Edge>, alts: seq<Edge>, n: nat)
    requires |root| <= 1 && n < |alts|
    ensures var was := SoFar(edges, root, alts[..n]);
            (if root == [] then was else was[|edges| := root[0].(version := n + 1)]) + [alts[n]]
            == SoFar(edges, root, alts[..n + 1])
  {
    assert alts[..n + 1] == alts[..n] + [alts[n]];
  }

  lemma SoFarField(edges: seq<Edge>, root: seq<Edge>, f: Field, typ: nat)
    requires FieldOk(f, typ) && root == if IsDependency(typ) && f.bar then [Edge(0, typ + 1, f.text, 0)] else []
    ensures SoFar(edges, root, f.alts) == edges + Flatten(GroupsOf(f, typ))
  {
    FlattenField(f, typ);
  }

  /** Appends the alternatives of a field, and counts them in the OR edge if there is one. */
  method AddAlternatives(edges: seq<Edge>, or: bool, alts: seq<Edge>, ghost before: seq<Edge>, ghost root: seq<Edge>)
    returns (edges': seq<Edge>)
    requires |root| <= 1 && or == (root != []) && edges == SoFar(before, root, [])
    ensures edges' == SoFar(before, root, alts)
  {
    edges' := edges;
    var first := if or then |edges| - 1 else |edges|;
    var i := 0;
    while i < |alts|
      invariant 0 <= i <= |alts| && first == |before|
      invariant edges' == SoFar(before, root, alts[..i])
    {
      SoFarStep(before, root, alts, i);
      if or {
        edges' := edges'[first := edges'[first].(version := edges'[first].version + 1)];
      }
      edges' := edges' + [alts[i]];
      i := i + 1;
    }
    assert alts[..i] == alts;
  }

  /** Appends one field: an OR edge is added first and counts the edges that follow. */
  method AddField(edges: seq<Edge>, f: Field, typ: nat) returns (edges': seq<Edge>)
    requires FieldOk(f, typ)
    ensures edges' == edges + Flatten(GroupsOf(f, typ))
  {
    var or := IsDependency(typ) && f.bar;
    var root := if or then [Edge(0, typ + 1, f.text, 0)] else [];
    edges' := AddAlternatives(edges + root, or, f.alts, edges, root);
    SoFarField(edges, root, f, typ);
  }

  /** add_split_dependencies: the edges of a node grow by the groups of the fields. */
  method AddSplit(edges: seq<Edge>, fields: seq<Field>, typ: nat) returns (edges': seq<Edge>)
    requires forall i :: 0 <= i < |fields| ==> FieldOk(fields[i], typ)
    ensures edges' == edges + Flatten(GroupsOfAll(fields, typ))
  {
    edges' := edges;
    var i := 0;
    while i < |fields|
      invariant 0 <= i <= |fields| && edges' == edges + Flatten(GroupsOfAll(fields[..i], typ))
    {
      edges' := AddField(edges', fields[i], typ);
      AllFieldsStep(fields, typ, i, edges);
      i := i + 1;
    }
    assert fields[..i] == fields;
  }

  lemma AllFieldsStep(fields: seq<Field>, typ: nat, i: nat, edges: seq<Edge>)
    requires i < |fields|
    ensures edges + Flatten(GroupsOfAll(fields[..i + 1], typ)) == edges + Flatten(GroupsOfAll(fields[..i], typ))
              + Flatten(GroupsOf(fields[i], typ))
  {
    assert fields[..i + 1][..i] == fields[..i];
    FlattenAppend(GroupsOfAll(fields[..i], typ), GroupsOf(fields[i], typ));
    Grouping(edges, Flatten(GroupsOfAll(fields[..i], typ)), Flatten(GroupsOf(fields[i], typ)));
  }

  // ----- the fields of a control file -----

  /** A line of a control file that names other packages. */
  datatype Line = Line(typ: nat, fields: seq<Field>)

  const EDGE_TYPES := {1, 3, 5, 7, 9, 11, 13, 15}

  ghost predicate LineOk(l: Line) {
    l.typ in EDGE_TYPES && forall i :: 0 <= i < |l.fields| ==> FieldOk(l.fields[i], l.typ)
  }

  ghost function GroupsOfLines(lines: seq<Line>): seq<Group> {
    if lines == [] then []
    else GroupsOfLines(lines[..|lines| - 1]) + GroupsOfAll(lines[|lines| - 1].fields, lines[|lines| - 1].typ)
  }

  lemma LinesStep(lines: seq<Line>, i: nat)
    requires i < |lines| && LineOk(lines[i]) && AllWellFormed(GroupsOfLines(lines[..i]))
    ensures AllWellFormed(GroupsOfLines(lines[..i + 1]))
    ensures Flatten(GroupsOfLines(lines[..i + 1]))
            == Flatten(GroupsOfLines(lines[..i])) + Flatten(GroupsOfAll(lines[i].fields, lines[i].typ))
  {
    assert lines[..i + 1][..i] == lines[..i];
    GroupsWellFormed(lines[i].fields, lines[i].typ);
    FlattenAppend(GroupsOfLines(lines[..i]), GroupsOfAll(lines[i].fields, lines[i].typ));
  }

  /** The edges that the loop of fill_package_struct collects are whole groups, those of the lines one after another. */
  method EdgesOf(lines: seq<Line>) returns (edges: seq<Edge>)
    requires forall i :: 0 <= i < |lines| ==> LineOk(lines[i])
    ensures edges == Flatten(GroupsOfLines(lines)) && AllWellFormed(GroupsOfLines(lines))
  {
    edges := [];
    var i := 0;
    while i < |lines|
      invariant 0 <= i <= |lines| && edges == Flatten(GroupsOfLines(lines[..i]))
      invariant AllWellFormed(GroupsOfLines(lines[..i])) == true
    {
      LinesStep(lines, i);
      edges := AddSplit(edges, lines[i].fields, lines[i].typ);
      i := i + 1;
    }
    assert lines[..i] == lines;
  }

  /** The edges of every package are groups, one list of them for each. */
  ghost predicate LaidOut(tb: Tables, layout: seq<seq<Group>>) {
    && |layout| == |tb.packages|
    && forall i :: 0 <= i < |layout| && tb.packages[i].Some? ==>
         AllWellFormed(layout[i]) && tb.packages[i].value.edges == Flatten(layout[i])
  }
}

/** What the version relations and the kinds of dependencies of dpkg mean. */
module DpkgLaws {
  import opened Bits
  import opened DpkgTables

  // ----- versions -----

  /** version_compare orders the versions: negative for older, zero for equal, positive for newer. */
  ghost predicate Orders(compare: (nat, nat) -> int) {
    && (forall a, b :: compare(a, b) < 0 <==> compare(b, a) > 0)
    && (forall a, b, c :: compare(a, b) <= 0 && compare(b, c) <= 0 ==> compare(a, c) <= 0)
  }

  /** Version `a` satisfies the relation `op` to version `v`. */
  predicate Satisfies(compare: (nat, nat) -> int, a: nat, op: nat, v: nat) {
    TestVersion(compare(a, v), op)
  }

  lemma OlderFirst(compare: (nat, nat) -> int, a: nat, b: nat, v: nat)
    requires Orders(compare) && compare(a, b) <= 0 && compare(b, v) < 0
    ensures compare(a, v) < 0
  {
    assert compare(a, v) < 0 <==> compare(v, a) > 0;
    assert compare(b, v) < 0 <==> compare(v, b) > 0;
    assert compare(v, a) <= 0 && compare(a, b) <= 0 ==> compare(v, b) <= 0;
  }

  /** `<<` holds of the older versions: of all those older than one of which it holds, and not of the version itself. */
  lemma EarlierIs(compare: (nat, nat) -> int, a: nat, b: nat, v: nat)
    requires Orders(compare)
    ensures compare(a, b) <= 0 && Satisfies(compare, b, VER_LESS, v) ==> Satisfies(compare, a, VER_LESS, v)
    ensures !Satisfies(compare, v, VER_LESS, v)
    ensures compare(a, v) < 0 ==> Satisfies(compare, a, VER_LESS, v)
  {
    assert compare(v, v) < 0 <==> compare(v, v) > 0;
    if compare(a, b) <= 0 && compare(b, v) < 0 { OlderFirst(compare, a, b, v); }
  }

  /** `=` holds exactly of versions that are neither older nor newer; of the version itself in any case. */
  lemma EqualIs(compare: (nat, nat) -> int, a: nat, v: nat)
    requires Orders(compare)
    ensures Satisfies(compare, a, VER_EQUAL, v)
            <==> !Satisfies(compare, a, VER_LESS, v) && !Satisfies(compare, a, VER_MORE, v)
    ensures Satisfies(compare, v, VER_EQUAL, v)
    ensures Satisfies(compare, a, VER_EQUAL, v) <==> Satisfies(compare, v, VER_EQUAL, a)
  {
    assert compare(v, v) < 0 <==> compare(v, v) > 0;
    assert compare(a, v) < 0 <==> compare(v, a) > 0;
    assert compare(v, a) < 0 <==> compare(a, v) > 0;
  }

  /** The other relations in terms of these: `<=` is `<<` or `=`, `>>` is the opposite of `<=`, `>=` that of `<<`; and a
  version is later than another exactly when that one is earlier. */
  lemma RelationsAgree(compare: (nat, nat) -> int, a: nat, v: nat)
    requires Orders(compare)
    ensures Satisfies(compare, a, VER_LESS_EQUAL, v)
            <==> Satisfies(compare, a, VER_LESS, v) || Satisfies(compare, a, VER_EQUAL, v)
    ensures Satisfies(compare, a, VER_MORE, v) <==> !Satisfies(compare, a, VER_LESS_EQUAL, v)
    ensures Satisfies(compare, a, VER_MORE_EQUAL, v) <==> !Satisfies(compare, a, VER_LESS, v)
    ensures Satisfies(compare, a, VER_MORE, v) <==> Satisfies(compare, v, VER_LESS, a)
    ensures Satisfies(compare, a, VER_ANY, v)
  {
    assert compare(v, a) < 0 <==> compare(a, v) > 0;
  }

  /** A package fits a dependency when it has the name and its version satisfies the relation. */
  lemma SuitsMeans(tb: Tables, p: nat, name: nat, version: nat, op: nat)
    ensures tb.Suits(p, name, version, op)
            <==> tb.Stored(p) && tb.packages[p].value.name == name
                 && Satisfies(tb.compare, tb.packages[p].value.version, op, version)
  {
  }

  // ----- kinds of dependencies -----

  /** The one status of a name decides: a pre-dependency needs the package installed, a dependency only that it is to be
  installed. Neither implies the other. */
  lemma StatusNeeded(tb: Tables, s: nat)
    requires tb.Kept() && s < |tb.statuses| && tb.statuses[s].Some?
    ensures var st := tb.statuses[s].value;
            && (tb.HasStatus(tb.StatusName(st), EDGE_PRE_DEPENDS) <==> st.state == tb.installed)
            && (tb.HasStatus(tb.StatusName(st), EDGE_DEPENDS) <==> st.want == tb.install)
  {
    var st := tb.statuses[s].value;
    forall typ, r | 0 <= r < |tb.statuses| && tb.statuses[r].Some?
        && tb.StatusName(tb.statuses[r].value) == tb.StatusName(st) && tb.Right(tb.statuses[r].value, typ)
      ensures r == s
    {
    }
  }

  /** A package that is only marked to be installed meets a dependency on it, and no pre-dependency. */
  lemma MarkedOnly(tb: Tables, s: nat, e: Edge)
    requires tb.Kept() && s < |tb.statuses| && tb.statuses[s].Some? && !tb.Provided(e)
    requires tb.statuses[s].value.want == tb.install && tb.statuses[s].value.state != tb.installed
    requires tb.NameOf(e.name) == tb.StatusName(tb.statuses[s].value)
    requires exists p: nat :: tb.Suits(p, e.name, e.version, e.op)
    ensures e.typ == EDGE_DEPENDS ==> tb.Met(e)
    ensures e.typ == EDGE_PRE_DEPENDS ==> !tb.Met(e)
  {
    StatusNeeded(tb, s);
  }

  /** Without a status of its name, or a provider, a package meets nothing. */
  lemma NoStatus(tb: Tables, e: Edge)
    requires !tb.Provided(e)
    requires forall s :: 0 <= s < |tb.statuses| && tb.statuses[s].Some? ==>
               tb.StatusName(tb.statuses[s].value) != tb.NameOf(e.name)
    ensures !tb.Met(e)
  {
  }
}

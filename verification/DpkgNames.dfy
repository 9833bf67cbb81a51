/** dpkg's name table: `make_hash` and `search_name_hashtable`, which gives
every string a number and never the same number to two strings. */
module DpkgNames {
  import opened Bits
  import opened OpenHash

  /** unsigned long, which the source takes to have 32 bits, and unsigned int. */
  const LONG_RANGE := 0x1_0000_0000
  const INT_RANGE := 0x1_0000_0000

  /** The sum that make_hash computes over the first n characters. */
  function HashNum(key: string, n: nat): (h: nat)
    requires n <= |key|
  {
    if n == 0 then 0
    else if n == 1 then key[0] as int % LONG_RANGE
    else
      var i := n - 1;
      (HashNum(key, i) + Shl(key[i] as int + key[i - 1] as int, (key[i] as int * i) % 24)) % LONG_RANGE
  }

  function Start(key: string, p: nat): (r: nat)
    requires p >= 2
    ensures r < p
  {
    HashNum(key, |key|) % INT_RANGE % p
  }

  function Decrement(key: string, p: nat): (r: nat)
    requires p >= 2
    ensures 1 <= r < p
  {
    1 + HashNum(key, |key|) % (p - 1)
  }

  /** make_hash: the first slot and the decrement for a key. The empty key hashes its terminator. */
  method MakeHash(key: string, p: nat) returns (start: nat, decrement: nat)
    requires p >= 2
    ensures start == Start(key, p) && decrement == Decrement(key, p)
  {
    var hashNum := if |key| == 0 then 0 else key[0] as int % LONG_RANGE;
    var i := 1;
    while i < |key|
      invariant 1 <= i && (|key| == 0 || i <= |key|)
      invariant hashNum == HashNum(key, if |key| == 0 then 0 else i)
    {
      hashNum := (hashNum + Shl(key[i] as int + key[i - 1] as int, (key[i] as int * i) % 24)) % LONG_RANGE;
      i := i + 1;
    }
    start, decrement := hashNum % INT_RANGE % p, 1 + hashNum % (p - 1);
  }

  /** The i-th slot probed for a key. */
  function Path(key: string, p: nat, i: nat): (r: nat)
    requires p >= 2
    ensures r < p
  {
    Slot(Start(key, p), Decrement(key, p), p, i)
  }

  /** The key is at the i-th slot of its path, and the slots before it hold other keys. */
  ghost predicate At(t: seq<Option<string>>, key: string, i: nat)
    requires |t| >= 2
  {
    t[Path(key, |t|, i)] == Some(key) && Passed(t, key, i)
  }

  ghost predicate Passed(t: seq<Option<string>>, key: string, i: nat)
    requires |t| >= 2
  {
    forall j :: 0 <= j < i ==> t[Path(key, |t|, j)].Some? && t[Path(key, |t|, j)] != Some(key)
  }

  /** Every key stored can be found on its path. */
  ghost predicate Placed(t: seq<Option<string>>)
    requires |t| >= 2
  {
    forall s :: 0 <= s < |t| && t[s].Some? ==> exists i: nat :: At(t, t[s].value, i) && Path(t[s].value, |t|, i) == s
  }

  /** So no key is stored twice. */
  lemma StoredOnce(t: seq<Option<string>>, s: nat, r: nat)
    requires |t| >= 2 && Placed(t) && s < |t| && r < |t| && t[s].Some? && t[s] == t[r]
    ensures s == r
  {
    var key := t[s].value;
    var i: nat :| At(t, key, i) && Path(key, |t|, i) == s;
    var j: nat :| At(t, key, j) && Path(key, |t|, j) == r;
    assert !(i < j) && !(j < i);
  }

  /** A new key at the first free slot of its path keeps all keys in their places. */
  lemma PlaceNew(t: seq<Option<string>>, key: string, i: nat, s: nat)
    requires |t| >= 2 && Placed(t) && Passed(t, key, i) && s == Path(key, |t|, i) && t[s] == None
    ensures Placed(t[s := Some(key)])
  {
    var t' := t[s := Some(key)];
    assert At(t', key, i);
    forall r | 0 <= r < |t'| && t'[r].Some?
      ensures exists k: nat :: At(t', t'[r].value, k) && Path(t'[r].value, |t'|, k) == r
    {
      if r != s {
        var other := t[r].value;
        var k: nat :| At(t, other, k) && Path(other, |t|, k) == r;
        assert At(t', other, k);
      }
    }
  }

  ghost predicate HasFree(t: seq<Option<string>>) {
    exists s :: 0 <= s < |t| && t[s] == None
  }

  /** The probe sequence of a key reaches the key itself, or a free slot. */
  lemma ProbeEnds(t: seq<Option<string>>, key: string) returns (n: nat)
    requires Prime(|t|) && (Some(key) in t || HasFree(t))
    ensures n < |t| && (t[Path(key, |t|, n)] == None || t[Path(key, |t|, n)] == Some(key))
  {
    var s :| 0 <= s < |t| && (t[s] == None || t[s] == Some(key));
    n := EverySlot(Start(key, |t|), Decrement(key, |t|), |t|, s);
  }

  class NameTable {
    const slots: array<Option<string>>

    ghost predicate Valid()
      reads slots
    {
      slots.Length == NAME_HASH_PRIME && Placed(slots[..])
    }

    constructor ()
      ensures Valid() && fresh(slots) && forall s :: 0 <= s < slots.Length ==> slots[s] == None
    {
      slots := new Option<string>[NAME_HASH_PRIME](_ => None);
    }

    /** search_name_hashtable: the slot of the key, which is added if it is new. Other slots never change. */
    method Search(key: string) returns (address: nat)
      requires Valid() && (Some(key) in slots[..] || HasFree(slots[..]))
      modifies slots
      ensures Valid() && address < slots.Length && slots[address] == Some(key)
      ensures old(slots[address]) == None || old(slots[address]) == Some(key)
      ensures slots[..] == old(slots[..])[address := Some(key)]
    {
      ghost var t := slots[..];
      NameSize();
      ghost var n := ProbeEnds(t, key);
      var decrement;
      address, decrement := MakeHash(key, NAME_HASH_PRIME);
      ghost var i: nat := 0;
      while slots[address] != None
        invariant slots[..] == t && address == Path(key, NAME_HASH_PRIME, i) && Passed(t, key, i) && i <= n
        decreases n - i
      {
        if slots[address] == Some(key) {
          assert t[address := Some(key)] == t;
          return;
        }
        address := Step(address, decrement, NAME_HASH_PRIME);
        i := i + 1;
      }
      PlaceNew(t, key, i, address);
      slots[address] := Some(key);
      assert slots[..] == t[address := Some(key)];
    }
  }

  function FreeSlots(t: seq<Option<string>>): nat {
    if t == [] then 0 else FreeSlots(t[..|t| - 1]) + if t[|t| - 1] == None then 1 else 0
  }

  lemma {:induction false} SomeFree(t: seq<Option<string>>)
    requires FreeSlots(t) > 0
    ensures HasFree(t)
  {
    var k := |t| - 1;
    if t[k] != None {
      SomeFree(t[..k]);
      var s :| 0 <= s < k && t[..k][s] == None;
      assert t[s] == None;
    }
  }

  lemma {:induction false} OneTaken(t: seq<Option<string>>, s: nat, key: string)
    requires s < |t|
    ensures FreeSlots(t[s := Some(key)]) + 1 >= FreeSlots(t)
  {
    var k := |t| - 1;
    var t' := t[s := Some(key)];
    if s < k {
      OneTaken(t[..k], s, key);
      assert t'[..k] == t[..k][s := Some(key)];
    } else {
      assert t'[..k] == t[..k];
    }
  }

  /** Any run of searches: two of them give the same number exactly when their keys are equal, and a number once given
  stays. */
  method SearchAll(table: NameTable, keys: seq<string>) returns (numbers: seq<nat>)
    requires table.Valid() && |keys| <= FreeSlots(table.slots[..])
    modifies table.slots
    ensures table.Valid() && |numbers| == |keys|
    ensures forall i :: 0 <= i < |keys| ==> numbers[i] < table.slots.Length && table.slots[numbers[i]] == Some(keys[i])
    ensures forall i, j :: 0 <= i < |keys| && 0 <= j < |keys| ==> (numbers[i] == numbers[j] <==> keys[i] == keys[j])
    ensures forall s :: 0 <= s < table.slots.Length && old(table.slots[s]) != None ==>
              table.slots[s] == old(table.slots[s])
  {
    numbers := [];
    var n := 0;
    while n < |keys|
      invariant 0 <= n <= |keys| && table.Valid() && |numbers| == n && FreeSlots(table.slots[..]) >= |keys| - n
      invariant forall i :: 0 <= i < n ==> numbers[i] < table.slots.Length && table.slots[numbers[i]] == Some(keys[i])
      invariant forall s :: 0 <= s < table.slots.Length && old(table.slots[s]) != None ==>
                  table.slots[s] == old(table.slots[s])
    {
      ghost var t := table.slots[..];
      SomeFree(t);
      var address := table.Search(keys[n]);
      OneTaken(t, address, keys[n]);
      assert forall s :: 0 <= s < |t| && t[s] != None ==> table.slots[..][s] == t[s];
      numbers := numbers + [address];
      n := n + 1;
    }
    forall i, j | 0 <= i < |keys| && 0 <= j < |keys| && keys[i] == keys[j] ensures numbers[i] == numbers[j] {
      StoredOnce(table.slots[..], numbers[i], numbers[j]);
    }
  }
}

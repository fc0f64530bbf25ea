/**
 * The symbol table of lib/testmc/symtab.py.
 *
 * A `SymTab` is built once from a sequence of symbol records into a
 * Python dict keyed by name; a dict keeps its keys in first-insertion order
 * and a later record with the same name replaces the value in place.  The
 * table is modelled as that dict's items in order, and the reference
 * definitions `LastWith` and `FirstIndex` say, from the records alone,
 * which record each name ends up with and where it stands.
 */
module SymTab {
  import opened Wrappers

  /** `SymTab.Symbol`: a name, a value and an optional section. */
  datatype Symbol = Symbol(name: string, value: int, section: Option<string>)

  /** The exceptions a lookup raises. */
  datatype LookupError = KeyError(key: string) | AttributeError(name: string)

  /** A table: the items of its dict, in insertion order, one per name. */
  datatype SymTab = SymTab(entries: seq<Symbol>)

  /** No name occurs twice. */
  ghost predicate DistinctNames(es: seq<Symbol>)
  {
    forall i, j :: 0 <= i < j < |es| ==> es[i].name != es[j].name
  }

  /** Some record has the name. */
  ghost predicate Named(rs: seq<Symbol>, name: string)
  {
    exists i :: 0 <= i < |rs| && rs[i].name == name
  }

  /** The set of names among the records. */
  function NameSet(rs: seq<Symbol>): set<string>
  {
    set i | 0 <= i < |rs| :: rs[i].name
  }

  /** The position of the item with the name, if any: a dict key lookup. */
  function Find(es: seq<Symbol>, name: string): (r: Option<nat>)
    ensures r.Some? ==> r.value < |es| && es[r.value].name == name
    ensures r.None? <==> !Named(es, name)
  {
    if es == [] then None
    else if es[0].name == name then Some(0)
    else match Find(es[1..], name) {
      case None =>
        assert !Named(es, name) by {
          forall i | 0 <= i < |es| ensures es[i].name != name {
            if i > 0 {
              assert es[1..][i - 1] == es[i];
            }
          }
        }
        None
      case Some(k) => Some(k + 1)
    }
  }

  /** `d[s.name] = s`: replace the item with that name where it stands, or append. */
  function Insert(es: seq<Symbol>, s: Symbol): (r: seq<Symbol>)
    ensures |r| == if Named(es, s.name) then |es| else |es| + 1
    ensures s in r && forall i :: 0 <= i < |r| ==> r[i] == s || r[i] in es
    ensures NameSet(r) == NameSet(es) + {s.name}
    ensures forall i :: 0 <= i < |es| && es[i].name != s.name ==> r[i] == es[i]
    ensures DistinctNames(es) ==> DistinctNames(r)
  {
    match Find(es, s.name)
    case Some(k) =>
      var r := es[k := s];
      assert r[k] == s;
      NameSetReplace(es, k, s);
      assert DistinctNames(es) ==> DistinctNames(r) by {
        if DistinctNames(es) { ExistingDistinct(es, s, k); }
      }
      r
    case None =>
      var r := es + [s];
      assert r[|es|] == s;
      NameSetAppend(es, s);
      assert DistinctNames(es) ==> DistinctNames(r) by {
        if DistinctNames(es) { NewDistinct(es, s); }
      }
      r
  }

  /** Appending a record adds its name to the name set. */
  lemma NameSetAppend(es: seq<Symbol>, s: Symbol)
    ensures NameSet(es + [s]) == NameSet(es) + {s.name}
  {
    var r := es + [s];
    assert r[|es|] == s;
    forall name | name in NameSet(es) ensures name in NameSet(r) {
      var i :| 0 <= i < |es| && es[i].name == name;
      assert r[i].name == name;
    }
  }

  /** Replacing an item by a record of the same name leaves the name set as it was. */
  lemma NameSetReplace(es: seq<Symbol>, k: nat, s: Symbol)
    requires k < |es| && es[k].name == s.name
    ensures NameSet(es[k := s]) == NameSet(es)
  {
    var r := es[k := s];
    forall name | name in NameSet(es) ensures name in NameSet(r) {
      var i :| 0 <= i < |es| && es[i].name == name;
      assert r[i].name == name;
    }
  }

  /** The dict comprehension `{ s.name: s for s in symbols }`, one record at a time. */
  function FromRecords(rs: seq<Symbol>): (es: seq<Symbol>)
    ensures |es| <= |rs| && forall i :: 0 <= i < |es| ==> es[i] in rs
    ensures DistinctNames(es) && NameSet(es) == NameSet(rs)
  {
    if rs == [] then []
    else
      var init, s := rs[..|rs| - 1], rs[|rs| - 1];
      assert rs == init + [s];
      NameSetAppend(init, s);
      Insert(FromRecords(init), s)
  }

  /** `SymTab(symbols=None)`: no argument or `None` gives an empty table. */
  function New(symbols: Option<seq<Symbol>>): (t: SymTab)
    ensures symbols.None? ==> t.entries == []
  {
    match symbols
    case None => SymTab(FromRecords([]))
    case Some(rs) => SymTab(FromRecords(rs))
  }

  // ---------------------------------------------------------------------
  // Lookups

  /** `sym(name)`: the Symbol with that name, or KeyError. */
  function Sym(t: SymTab, name: string): (r: Result<Symbol, LookupError>)
    ensures r.Success? ==> r.value.name == name && r.value in t.entries
    ensures r.Failure? <==> !Named(t.entries, name)
    ensures r.Failure? ==> r.error == KeyError(name)
  {
    match Find(t.entries, name)
    case Some(k) => Success(t.entries[k])
    case None => Failure(KeyError(name))
  }

  /** `len(t)`: the number of items. */
  function Len(t: SymTab): (n: nat)
    ensures DistinctNames(t.entries) ==> n == |NameSet(t.entries)|
  {
    assert DistinctNames(t.entries) ==> |t.entries| == |NameSet(t.entries)| by {
      if DistinctNames(t.entries) { DistinctCard(t.entries); }
    }
    |t.entries|
  }

  /** `t[key]`: the value of the Symbol `sym` finds, or its KeyError. */
  function GetItem(t: SymTab, key: string): (r: Result<int, LookupError>)
    ensures r.Success? <==> Sym(t, key).Success?
    ensures r.Success? ==> r.value == Sym(t, key).value.value
    ensures r.Failure? ==> r.error == KeyError(key)
  {
    var s :- Sym(t, key);
    Success(s.value)
  }

  /** `t.name`: the same value as `t[name]`, but AttributeError for a missing name. */
  function GetAttr(t: SymTab, name: string): (r: Result<int, LookupError>)
    ensures r.Success? <==> GetItem(t, name).Success?
    ensures r.Success? ==> r.value == GetItem(t, name).value
    ensures r.Failure? ==> r.error == AttributeError(name)
  {
    if Find(t.entries, name).Some? then GetItem(t, name) else Failure(AttributeError(name))
  }

  /**
   * `iter(t)`: the (name, value) pair of every item, in order. Iteration
   * agrees with lookup: it yields exactly the names the table has, and with
   * distinct names each pair's value is what `t[name]` gives.
   */
  function Iter(t: SymTab): (pairs: seq<(string, int)>)
    ensures |pairs| == Len(t)
    ensures forall i :: 0 <= i < |pairs| ==> pairs[i] == (t.entries[i].name, t.entries[i].value)
    ensures forall name :: Named(t.entries, name) <==> exists i :: 0 <= i < |pairs| && pairs[i].0 == name
    ensures DistinctNames(t.entries) ==> forall i :: 0 <= i < |pairs| ==> GetItem(t, pairs[i].0) == Success(pairs[i].1)
  {
    var pairs := seq(|t.entries|, i requires 0 <= i < |t.entries| => (t.entries[i].name, t.entries[i].value));
    assert forall name :: Named(t.entries, name) <==> exists i :: 0 <= i < |pairs| && pairs[i].0 == name by {
      forall name ensures Named(t.entries, name) ==> exists i :: 0 <= i < |pairs| && pairs[i].0 == name {
        if Named(t.entries, name) {
          var k :| 0 <= k < |t.entries| && t.entries[k].name == name;
          assert pairs[k].0 == name;
        }
      }
    }
    assert DistinctNames(t.entries) ==> forall i :: 0 <= i < |pairs| ==> GetItem(t, pairs[i].0) == Success(pairs[i].1) by {
      if DistinctNames(t.entries) {
        forall i | 0 <= i < |pairs| ensures GetItem(t, pairs[i].0) == Success(pairs[i].1) {
          var name := pairs[i].0;
          assert Named(t.entries, name) by { assert t.entries[i].name == name; }
          var found := Sym(t, name);
          assert found.Success? && found.value.name == name;
          var k :| 0 <= k < |t.entries| && t.entries[k] == found.value;
          assert t.entries[k].name == t.entries[i].name;
          assert k == i;
        }
      }
    }
    pairs
  }

  // ---------------------------------------------------------------------
  // What the records determine

  /** The last record with the name, if any. */
  function LastWith(rs: seq<Symbol>, name: string): (r: Option<Symbol>)
    ensures r.None? <==> !Named(rs, name)
    ensures r.Some? ==> (r.value.name == name &&
      exists i :: 0 <= i < |rs| && rs[i] == r.value && forall j :: i < j < |rs| ==> rs[j].name != name)
  {
    if rs == [] then None
    else if rs[|rs| - 1].name == name then Some(rs[|rs| - 1])
    else
      var r := LastWith(rs[..|rs| - 1], name);
      assert forall i :: 0 <= i < |rs| - 1 ==> rs[..|rs| - 1][i] == rs[i];
      r
  }

  /** The position of the first record with the name; |rs| when there is none. */
  function FirstIndex(rs: seq<Symbol>, name: string): (k: nat)
    ensures k <= |rs| && (k < |rs| <==> Named(rs, name))
    ensures k < |rs| ==> rs[k].name == name
    ensures forall j :: 0 <= j < k ==> rs[j].name != name
  {
    if rs == [] then 0
    else if rs[0].name == name then 0
    else
      var k := FirstIndex(rs[1..], name);
      assert forall j :: 1 <= j < |rs| ==> rs[1..][j - 1] == rs[j];
      1 + k
  }

  /** A record appended after the others names what it names, and the others what they did. */
  lemma NamedAppend(init: seq<Symbol>, s: Symbol, name: string)
    ensures Named(init + [s], name) <==> Named(init, name) || s.name == name
  {
    var rs := init + [s];
    if Named(rs, name) && s.name != name {
      var i :| 0 <= i < |rs| && rs[i].name == name;
      assert init[i].name == name;
    }
    if Named(init, name) {
      var i :| 0 <= i < |init| && init[i].name == name;
      assert rs[i].name == name;
    }
    assert rs[|init|] == s;
  }

  /** The first record with a name does not move when a record is appended. */
  lemma FirstIndexAppend(init: seq<Symbol>, s: Symbol, name: string)
    requires Named(init, name)
    ensures FirstIndex(init + [s], name) == FirstIndex(init, name)
  {
    var rs := init + [s];
    var k0, k1 := FirstIndex(init, name), FirstIndex(rs, name);
    assert rs[k0] == init[k0];
    NamedAppend(init, s, name);
  }

  /** The last record with a name is the appended one if it has the name. */
  lemma LastWithAppend(init: seq<Symbol>, s: Symbol, name: string)
    ensures LastWith(init + [s], name) == if s.name == name then Some(s) else LastWith(init, name)
  {
    assert (init + [s])[..|init|] == init;
  }

  /** The four facts `FromRecordsItems` states about items es built from records rs. */
  ghost predicate Built(rs: seq<Symbol>, es: seq<Symbol>)
  {
    DistinctNames(es) && LastItems(rs, es) && SameNamed(rs, es) && FirstOrdered(rs, es)
  }

  /** Each item is the last record with its name. */
  ghost predicate LastItems(rs: seq<Symbol>, es: seq<Symbol>)
  {
    forall i :: 0 <= i < |es| ==> LastWith(rs, es[i].name) == Some(es[i])
  }

  /** The items name exactly what the records name. */
  ghost predicate SameNamed(rs: seq<Symbol>, es: seq<Symbol>)
  {
    forall name :: Named(es, name) <==> Named(rs, name)
  }

  /** The items stand in the order of the first records with their names. */
  ghost predicate FirstOrdered(rs: seq<Symbol>, es: seq<Symbol>)
  {
    forall i, j :: 0 <= i < j < |es| ==> FirstIndex(rs, es[i].name) < FirstIndex(rs, es[j].name)
  }

  /**
   * The items built from the records: names distinct, each item the last
   * record with its name, exactly the records' names present, and items
   * ordered by the first record with their names.
   */
  lemma {:induction false} FromRecordsItems(rs: seq<Symbol>)
    ensures Built(rs, FromRecords(rs))
  {
    if rs != [] {
      var init, s := rs[..|rs| - 1], rs[|rs| - 1];
      FromRecordsItems(init);
      InsertBuilt(rs, init, FromRecords(init), s);
    }
  }

  /** One more record keeps the four facts: `Insert` replaces or appends as they need. */
  lemma InsertBuilt(rs: seq<Symbol>, init: seq<Symbol>, es: seq<Symbol>, s: Symbol)
    requires rs == init + [s] && Built(init, es)
    ensures Built(rs, Insert(es, s))
  {
    match Find(es, s.name) {
      case Some(k) => InsertExisting(init, es, s, k);
      case None => InsertNew(init, es, s);
    }
  }

  /** Inserting a record whose name is already an item replaces that item in place. */
  lemma InsertExisting(init: seq<Symbol>, es: seq<Symbol>, s: Symbol, k: nat)
    requires Built(init, es) && k < |es| && es[k].name == s.name
    ensures Built(init + [s], es[k := s])
  {
    ExistingDistinct(es, s, k);
    ExistingLast(init, es, s, k);
    ExistingNamed(init, es, s, k);
    ExistingFirst(init, es, s, k);
  }

  lemma ExistingDistinct(es: seq<Symbol>, s: Symbol, k: nat)
    requires DistinctNames(es) && k < |es| && es[k].name == s.name
    ensures DistinctNames(es[k := s])
  {
    assert forall i :: 0 <= i < |es| ==> es[k := s][i].name == es[i].name;
  }

  lemma ExistingLast(init: seq<Symbol>, es: seq<Symbol>, s: Symbol, k: nat)
    requires DistinctNames(es) && LastItems(init, es) && k < |es| && es[k].name == s.name
    ensures LastItems(init + [s], es[k := s])
  {
    var es' := es[k := s];
    forall i | 0 <= i < |es'| ensures LastWith(init + [s], es'[i].name) == Some(es'[i]) {
      LastWithAppend(init, s, es'[i].name);
    }
  }

  lemma ExistingNamed(init: seq<Symbol>, es: seq<Symbol>, s: Symbol, k: nat)
    requires SameNamed(init, es) && k < |es| && es[k].name == s.name
    ensures SameNamed(init + [s], es[k := s])
  {
    var es' := es[k := s];
    assert forall i :: 0 <= i < |es| ==> es'[i].name == es[i].name;
    forall name ensures Named(es', name) <==> Named(init + [s], name) {
      NamedAppend(init, s, name);
      SameNames(es, es', name);
    }
  }

  lemma ExistingFirst(init: seq<Symbol>, es: seq<Symbol>, s: Symbol, k: nat)
    requires SameNamed(init, es) && FirstOrdered(init, es) && k < |es| && es[k].name == s.name
    ensures FirstOrdered(init + [s], es[k := s])
  {
    var es' := es[k := s];
    forall i | 0 <= i < |es'| ensures FirstIndex(init + [s], es'[i].name) == FirstIndex(init, es[i].name) {
      assert es'[i].name == es[i].name;
      assert Named(es, es[i].name);
      FirstIndexAppend(init, s, es[i].name);
    }
  }

  /** Two item sequences with the same names pointwise name the same things. */
  lemma SameNames(es: seq<Symbol>, es': seq<Symbol>, name: string)
    requires |es| == |es'| && forall i :: 0 <= i < |es| ==> es'[i].name == es[i].name
    ensures Named(es, name) <==> Named(es', name)
  {
    if Named(es, name) {
      var i :| 0 <= i < |es| && es[i].name == name;
      assert es'[i].name == name;
    }
    if Named(es', name) {
      var i :| 0 <= i < |es'| && es'[i].name == name;
      assert es[i].name == name;
    }
  }

  /** Inserting a record with a new name appends an item. */
  lemma InsertNew(init: seq<Symbol>, es: seq<Symbol>, s: Symbol)
    requires Built(init, es) && !Named(es, s.name)
    ensures Built(init + [s], es + [s])
  {
    NewDistinct(es, s);
    NewLast(init, es, s);
    NewNamed(init, es, s);
    NewFirst(init, es, s);
  }

  lemma NewDistinct(es: seq<Symbol>, s: Symbol)
    requires DistinctNames(es) && !Named(es, s.name)
    ensures DistinctNames(es + [s])
  {
    var es' := es + [s];
    forall i, j | 0 <= i < j < |es'| ensures es'[i].name != es'[j].name {
      if j == |es| {
        assert es'[i] == es[i];
      } else {
        assert es'[i] == es[i] && es'[j] == es[j];
      }
    }
  }

  lemma NewLast(init: seq<Symbol>, es: seq<Symbol>, s: Symbol)
    requires LastItems(init, es) && !Named(es, s.name)
    ensures LastItems(init + [s], es + [s])
  {
    var es' := es + [s];
    forall i | 0 <= i < |es'| ensures LastWith(init + [s], es'[i].name) == Some(es'[i]) {
      LastWithAppend(init, s, es'[i].name);
      if i < |es| {
        assert es'[i] == es[i];
      }
    }
  }

  lemma NewNamed(init: seq<Symbol>, es: seq<Symbol>, s: Symbol)
    requires SameNamed(init, es)
    ensures SameNamed(init + [s], es + [s])
  {
    forall name ensures Named(es + [s], name) <==> Named(init + [s], name) {
      NamedAppend(init, s, name);
      NamedAppend(es, s, name);
    }
  }

  lemma NewFirst(init: seq<Symbol>, es: seq<Symbol>, s: Symbol)
    requires SameNamed(init, es) && FirstOrdered(init, es) && !Named(es, s.name)
    ensures FirstOrdered(init + [s], es + [s])
  {
    var rs, es' := init + [s], es + [s];
    forall i | 0 <= i < |es| ensures FirstIndex(rs, es[i].name) == FirstIndex(init, es[i].name) < |init| {
      assert Named(es, es[i].name);
      FirstIndexAppend(init, s, es[i].name);
    }
    assert FirstIndex(rs, s.name) == |init| by {
      assert rs[|init|] == s;
      assert !Named(init, s.name);
    }
    forall i, j | 0 <= i < j < |es'| ensures FirstIndex(rs, es'[i].name) < FirstIndex(rs, es'[j].name) {
      assert es'[i] == es[i];
      if j < |es| {
        assert es'[j] == es[j];
      }
    }
  }

  // ---------------------------------------------------------------------
  // The properties of a table built from records

  /** A name maps to the last record with that name; a name no record has raises KeyError. */
  lemma LastRecordWins(rs: seq<Symbol>, name: string)
    ensures Sym(New(Some(rs)), name) ==
      match LastWith(rs, name)
      case Some(s) => Success(s)
      case None => Failure(KeyError(name))
  {
    FromRecordsItems(rs);
  }

  /** The table has one item per distinct name among the records. */
  lemma LenCountsDistinctNames(rs: seq<Symbol>)
    ensures Len(New(Some(rs))) == |NameSet(rs)|
  {
    var es := FromRecords(rs);
    FromRecordsItems(rs);
    DistinctCard(es);
    assert NameSet(es) == NameSet(rs) by {
      forall name ensures name in NameSet(es) <==> name in NameSet(rs) {
        assert name in NameSet(es) <==> Named(es, name);
        assert name in NameSet(rs) <==> Named(rs, name);
      }
    }
  }

  /** A sequence with distinct names has as many names as items. */
  lemma {:induction false} DistinctCard(es: seq<Symbol>)
    requires DistinctNames(es)
    ensures |NameSet(es)| == |es|
  {
    if es != [] {
      var init := es[..|es| - 1];
      assert forall i :: 0 <= i < |init| ==> init[i] == es[i];
      DistinctCard(init);
      assert NameSet(es) == NameSet(init) + {es[|es| - 1].name};
      assert es[|es| - 1].name !in NameSet(init);
    }
  }

  /**
   * Iteration yields each record name exactly once, with the value of the
   * last record of that name, in the order the names first appear.
   */
  lemma IterOrder(rs: seq<Symbol>)
    ensures var pairs := Iter(New(Some(rs)));
      && (forall i, j :: 0 <= i < j < |pairs| ==> pairs[i].0 != pairs[j].0)
      && (forall name :: (exists i :: 0 <= i < |pairs| && pairs[i].0 == name) <==> Named(rs, name))
      && (forall i :: 0 <= i < |pairs| ==> LastWith(rs, pairs[i].0).Some? && LastWith(rs, pairs[i].0).value.value == pairs[i].1)
      && (forall i, j :: 0 <= i < j < |pairs| ==> FirstIndex(rs, pairs[i].0) < FirstIndex(rs, pairs[j].0))
  {
    FromRecordsItems(rs);
    IterBuilt(rs, New(Some(rs)));
  }

  /** The pairs of items built from records, stated from the records alone. */
  lemma IterBuilt(rs: seq<Symbol>, t: SymTab)
    requires Built(rs, t.entries)
    ensures var pairs := Iter(t);
      && (forall i, j :: 0 <= i < j < |pairs| ==> pairs[i].0 != pairs[j].0)
      && (forall name :: (exists i :: 0 <= i < |pairs| && pairs[i].0 == name) <==> Named(rs, name))
      && (forall i :: 0 <= i < |pairs| ==> LastWith(rs, pairs[i].0).Some? && LastWith(rs, pairs[i].0).value.value == pairs[i].1)
      && (forall i, j :: 0 <= i < j < |pairs| ==> FirstIndex(rs, pairs[i].0) < FirstIndex(rs, pairs[j].0))
  {
    var es, pairs := t.entries, Iter(t);
    assert forall i :: 0 <= i < |pairs| ==> pairs[i].0 == es[i].name && pairs[i].1 == es[i].value;
  }

  /** Without records the table is empty and every lookup fails. */
  lemma EmptyTable(name: string)
    ensures Len(New(None)) == 0 && Iter(New(None)) == []
    ensures Sym(New(None), name) == Failure(KeyError(name))
    ensures GetAttr(New(None), name) == Failure(AttributeError(name))
  {
  }
}

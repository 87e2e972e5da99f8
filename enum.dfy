/**
 * The enum registry of goenum (enum.go): identity records, the three
 * process-wide maps, the factory NewEnum and the lookups built on them.
 *
 * Go derives an enum's type tag from its static type by reflection; here the
 * tag is an explicit string, and Go's type assertion `e.(T)` on a registered
 * instance becomes the test `e.tag == tag`.
 */
module Enums {
  import opened Wrappers

  /**
   * One enum instance: the embedded `Enum{name, _type, index}` record together
   * with the payload fields of the caller's enum type. `name`, `tag` and
   * `ordinal` are Go's Name(), Type() and Ordinal().
   */
  datatype Entry<P> = Entry(name: string, tag: string, ordinal: nat, payload: P)
  {
    /** Two instances are equal when both their names and their type tags agree. */
    predicate Equals(other: Entry<P>)
    {
      if name != other.name then false else tag == other.tag
    }

    /** The difference of the two ordinals. */
    function Compare(other: Entry<P>): int
    {
      ordinal - other.ordinal
    }
  }

  /**
   * A snapshot of the three registry maps: name to the instances of every
   * type with that name, type tag to its instances in declaration order, and
   * type tag to the next ordinal to hand out.
   */
  datatype Tables<P> = Tables(
    name2enums: map<string, seq<Entry<P>>>,
    type2enums: map<string, seq<Entry<P>>>,
    typeIndex: map<string, nat>)

  /** `type2enumsMap[tag]`, with Go's nil slice for an absent key. */
  function Declared<P>(t: Tables<P>, tag: string): seq<Entry<P>>
  {
    if tag in t.type2enums then t.type2enums[tag] else []
  }

  /** `name2enumsMap[name]`, with Go's nil slice for an absent key. */
  function Named<P>(t: Tables<P>, name: string): seq<Entry<P>>
  {
    if name in t.name2enums then t.name2enums[name] else []
  }

  /** `typeIndexMap[tag]`, with Go's zero for an absent key. */
  function NextOrdinal<P>(t: Tables<P>, tag: string): nat
  {
    if tag in t.typeIndex then t.typeIndex[tag] else 0
  }

  /** `e` is the instance stored for its type at the position of its ordinal. */
  ghost predicate Registered<P>(t: Tables<P>, e: Entry<P>)
  {
    e.ordinal < |Declared(t, e.tag)| && Declared(t, e.tag)[e.ordinal] == e
  }

  /** Some instance of type `tag` is called `name`. */
  ghost predicate HasName<P>(t: Tables<P>, tag: string, name: string)
  {
    exists i :: 0 <= i < |Declared(t, tag)| && Declared(t, tag)[i].name == name
  }

  /** Each type's counter equals its population. */
  ghost predicate CountersMatch<P>(t: Tables<P>)
  {
    forall tag :: NextOrdinal(t, tag) == |Declared(t, tag)|
  }

  /** A type's instances carry its tag and the ordinals 0..k-1, in list order. */
  ghost predicate OrdinalsContiguous<P>(t: Tables<P>)
  {
    forall tag, i :: 0 <= i < |Declared(t, tag)| ==>
      Declared(t, tag)[i].tag == tag && Declared(t, tag)[i].ordinal == i
  }

  /** No two instances of one type share a name. */
  ghost predicate NamesUnique<P>(t: Tables<P>)
  {
    forall tag, i, j :: 0 <= i < j < |Declared(t, tag)| ==>
      Declared(t, tag)[i].name != Declared(t, tag)[j].name
  }

  /** Every instance of every type is in the name index under its name. */
  ghost predicate NameIndexComplete<P>(t: Tables<P>)
  {
    forall tag, i :: 0 <= i < |Declared(t, tag)| ==>
      Declared(t, tag)[i] in Named(t, Declared(t, tag)[i].name)
  }

  /** The name index holds only registered instances, each under its own name. */
  ghost predicate NameIndexSound<P>(t: Tables<P>)
  {
    forall name, k :: 0 <= k < |Named(t, name)| ==>
      Named(t, name)[k].name == name && Registered(t, Named(t, name)[k])
  }

  /** The registry invariant. */
  ghost predicate WellFormed<P>(t: Tables<P>)
  {
    && CountersMatch(t)
    && OrdinalsContiguous(t)
    && NamesUnique(t)
    && NameIndexComplete(t)
    && NameIndexSound(t)
  }

  /** The registry before any NewEnum call. */
  function EmptyTables<P>(): (t: Tables<P>)
    ensures WellFormed(t)
    ensures forall tag :: Declared(t, tag) == [] && NextOrdinal(t, tag) == 0
  {
    Tables(map[], map[], map[])
  }

  /** The instance NewEnum stamps: the type's current counter is its ordinal. */
  function Mint<P>(t: Tables<P>, tag: string, name: string, payload: P): Entry<P>
  {
    Entry(name, tag, NextOrdinal(t, tag), payload)
  }

  /** NewEnum's updates: bump the counter, append to both lists. */
  function Insert<P>(t: Tables<P>, e: Entry<P>): Tables<P>
  {
    Tables(
      t.name2enums[e.name := Named(t, e.name) + [e]],
      t.type2enums[e.tag := Declared(t, e.tag) + [e]],
      t.typeIndex[e.tag := NextOrdinal(t, e.tag) + 1])
  }

  /** The position of the first instance in `s` called `name`. */
  function IndexOfName<P>(s: seq<Entry<P>>, name: string): (r: Option<nat>)
    ensures r.Some? ==> r.value < |s| && s[r.value].name == name
    ensures r.Some? ==> forall j :: 0 <= j < r.value ==> s[j].name != name
    ensures r.None? ==> forall j :: 0 <= j < |s| ==> s[j].name != name
  {
    if s == [] then None
    else if s[0].name == name then Some(0)
    else match IndexOfName(s[1..], name)
      case None => None
      case Some(i) => Some(i + 1)
  }

  /** What ValueOf answers: the instance of type `tag` called `name`, if any. */
  function Lookup<P>(t: Tables<P>, tag: string, name: string): (r: Option<Entry<P>>)
    ensures r.Some? <==> HasName(t, tag, name)
    ensures r.Some? ==> r.value.name == name
  {
    var d := Declared(t, tag);
    match IndexOfName(d, name)
    case None => None
    case Some(i) => Some(d[i])
  }

  /** GetEnums's loop over a lookup `f`: every key resolved in turn, or nothing as soon as one fails. */
  function ResolveAll<K, V>(f: K -> Option<V>, keys: seq<K>): Option<seq<V>>
    decreases |keys|
  {
    if keys == [] then Some([])
    else match ResolveAll(f, keys[..|keys| - 1])
      case None => None
      case Some(init) =>
        match f(keys[|keys| - 1])
        case None => None
        case Some(v) => Some(init + [v])
  }

  /** What GetEnums answers: every name resolved by Lookup, or nothing as soon as one fails. */
  function LookupAll<P>(t: Tables<P>, tag: string, names: seq<string>): Option<seq<Entry<P>>>
  {
    ResolveAll(name => Lookup(t, tag, name), names)
  }

  /**
   * The case folding strings.EqualFold applies, restricted to ASCII letters:
   * 'A'..'Z' fold to 'a'..'z', every other character folds to itself.
   */
  function FoldAscii(c: char): char
  {
    if 'A' <= c <= 'Z' then (c as int - 'A' as int + 'a' as int) as char else c
  }

  /** The two strings are equal under ASCII case folding. */
  predicate EqualFold(a: string, b: string)
  {
    |a| == |b| && forall i :: 0 <= i < |a| ==> FoldAscii(a[i]) == FoldAscii(b[i])
  }

  /** The position of the first instance in `s` whose name folds to `name`. */
  function IndexOfFold<P>(s: seq<Entry<P>>, name: string): (r: Option<nat>)
    ensures r.Some? ==> r.value < |s| && EqualFold(s[r.value].name, name)
    ensures r.Some? ==> forall j :: 0 <= j < r.value ==> !EqualFold(s[j].name, name)
    ensures r.None? ==> forall j :: 0 <= j < |s| ==> !EqualFold(s[j].name, name)
  {
    if s == [] then None
    else if EqualFold(s[0].name, name) then Some(0)
    else match IndexOfFold(s[1..], name)
      case None => None
      case Some(i) => Some(i + 1)
  }

  /** What ValueOfIgnoreCase answers: the first instance, in ordinal order, whose name folds to `name`. */
  function LookupFold<P>(t: Tables<P>, tag: string, name: string): (r: Option<Entry<P>>)
    ensures r.Some? ==> EqualFold(r.value.name, name)
    ensures r.None? <==> forall i :: 0 <= i < |Declared(t, tag)| ==> !EqualFold(Declared(t, tag)[i].name, name)
  {
    var d := Declared(t, tag);
    match IndexOfFold(d, name)
    case None => None
    case Some(i) => Some(d[i])
  }

  /** No two names of type `tag` are equal under case folding. */
  ghost predicate FoldDistinct<P>(t: Tables<P>, tag: string)
  {
    forall i, j :: 0 <= i < j < |Declared(t, tag)| ==>
      !EqualFold(Declared(t, tag)[i].name, Declared(t, tag)[j].name)
  }

  // ---------------------------------------------------------------------
  // Properties of the registry
  // ---------------------------------------------------------------------

  /** Insert only appends: what was registered stays registered. */
  lemma InsertKeepsRegistered<P>(t: Tables<P>, e: Entry<P>, x: Entry<P>)
    requires Registered(t, x)
    ensures Registered(Insert(t, e), x)
  {
    if x.tag == e.tag {
      assert Declared(Insert(t, e), x.tag)[x.ordinal] == Declared(t, x.tag)[x.ordinal];
    }
  }

  lemma InsertKeepsCounters<P>(t: Tables<P>, e: Entry<P>)
    requires CountersMatch(t)
    ensures CountersMatch(Insert(t, e))
  {
    var u := Insert(t, e);
    forall tg ensures NextOrdinal(u, tg) == |Declared(u, tg)| {
      if tg != e.tag {
        assert NextOrdinal(u, tg) == NextOrdinal(t, tg);
        assert Declared(u, tg) == Declared(t, tg);
      }
    }
  }

  lemma InsertKeepsNameIndexComplete<P>(t: Tables<P>, e: Entry<P>)
    requires NameIndexComplete(t)
    ensures NameIndexComplete(Insert(t, e))
  {
    var u := Insert(t, e);
    forall tg, i | 0 <= i < |Declared(u, tg)|
      ensures Declared(u, tg)[i] in Named(u, Declared(u, tg)[i].name)
    {
      var x := Declared(u, tg)[i];
      if tg == e.tag && i == |Declared(t, e.tag)| {
        assert x == e;
        assert Named(u, e.name)[|Named(t, e.name)|] == e;
      } else {
        assert x == Declared(t, tg)[i];
        assert x in Named(t, x.name);
        assert Named(t, x.name) <= Named(u, x.name);
      }
    }
  }

  lemma InsertKeepsNameIndexSound<P>(t: Tables<P>, e: Entry<P>)
    requires NameIndexSound(t) && e.ordinal == |Declared(t, e.tag)|
    ensures NameIndexSound(Insert(t, e))
  {
    var u := Insert(t, e);
    forall nm, k | 0 <= k < |Named(u, nm)|
      ensures Named(u, nm)[k].name == nm && Registered(u, Named(u, nm)[k])
    {
      if nm == e.name && k == |Named(t, e.name)| {
        assert Named(u, nm)[k] == e;
      } else {
        assert Named(u, nm)[k] == Named(t, nm)[k];
        InsertKeepsRegistered(t, e, Named(t, nm)[k]);
      }
    }
  }

  lemma InsertKeepsNamesUnique<P>(t: Tables<P>, e: Entry<P>)
    requires NamesUnique(t) && !HasName(t, e.tag, e.name)
    ensures NamesUnique(Insert(t, e))
  {
    var u := Insert(t, e);
    forall tg, i, j | 0 <= i < j < |Declared(u, tg)|
      ensures Declared(u, tg)[i].name != Declared(u, tg)[j].name
    {
      if tg == e.tag {
        assert Declared(u, tg)[i] == Declared(t, tg)[i];
        if j < |Declared(t, tg)| {
          assert Declared(u, tg)[j] == Declared(t, tg)[j];
        }
      } else {
        assert Declared(u, tg) == Declared(t, tg);
      }
    }
  }

  lemma InsertKeepsOrdinals<P>(t: Tables<P>, e: Entry<P>)
    requires OrdinalsContiguous(t) && e.ordinal == |Declared(t, e.tag)|
    ensures OrdinalsContiguous(Insert(t, e))
  {
    var u := Insert(t, e);
    forall tg, i | 0 <= i < |Declared(u, tg)|
      ensures Declared(u, tg)[i].tag == tg && Declared(u, tg)[i].ordinal == i
    {
      if tg == e.tag && i < |Declared(t, tg)| {
        assert Declared(u, tg)[i] == Declared(t, tg)[i];
      } else if tg != e.tag {
        assert Declared(u, tg) == Declared(t, tg);
      }
    }
  }

  /**
   * Registering a name not yet used by the type keeps the invariant: the new
   * instance gets the type's counter as ordinal, is appended to the type's
   * list, the counter grows by exactly one and no other type changes.
   */
  lemma InsertKeepsWellFormed<P>(t: Tables<P>, tag: string, name: string, payload: P)
    requires WellFormed(t) && !HasName(t, tag, name)
    ensures WellFormed(Insert(t, Mint(t, tag, name, payload)))
    ensures Mint(t, tag, name, payload).ordinal == |Declared(t, tag)|
    ensures Declared(Insert(t, Mint(t, tag, name, payload)), tag) == Declared(t, tag) + [Mint(t, tag, name, payload)]
    ensures NextOrdinal(Insert(t, Mint(t, tag, name, payload)), tag) == NextOrdinal(t, tag) + 1
    ensures forall other :: other != tag ==>
      Declared(Insert(t, Mint(t, tag, name, payload)), other) == Declared(t, other) &&
      NextOrdinal(Insert(t, Mint(t, tag, name, payload)), other) == NextOrdinal(t, other)
  {
    var e := Mint(t, tag, name, payload);
    var u := Insert(t, e);
    InsertKeepsCounters(t, e);
    InsertKeepsNameIndexComplete(t, e);
    InsertKeepsNameIndexSound(t, e);
    InsertKeepsNamesUnique(t, e);
    InsertKeepsOrdinals(t, e);
  }

  /** ValueOf round trip: every declared instance is found under its type and name. */
  lemma LookupFindsDeclared<P>(t: Tables<P>, tag: string, i: nat)
    requires WellFormed(t) && i < |Declared(t, tag)|
    ensures Lookup(t, tag, Declared(t, tag)[i].name) == Some(Declared(t, tag)[i])
  {
    var d := Declared(t, tag);
    var name := d[i].name;
    var r := IndexOfName(d, name);
    assert r.Some?;
    var j := r.value;
    assert d[j].name == name;
    assert j <= i;
    assert j == i;
  }

  /** An instance found by Lookup is registered under the queried type. */
  lemma LookupIsRegistered<P>(t: Tables<P>, tag: string, name: string)
    requires WellFormed(t) && Lookup(t, tag, name).Some?
    ensures Lookup(t, tag, name).value.tag == tag
    ensures Registered(t, Lookup(t, tag, name).value)
  {
    var d := Declared(t, tag);
    var i := IndexOfName(d, name).value;
    assert Lookup(t, tag, name).value == d[i];
  }

  /**
   * After NewEnum declares `name` for `tag`, ValueOf finds the new instance
   * there, and every other (type, name) query answers as before.
   */
  lemma LookupAfterInsert<P>(t: Tables<P>, tag: string, name: string, payload: P, qtag: string, qname: string)
    requires WellFormed(t) && !HasName(t, tag, name)
    ensures var e := Mint(t, tag, name, payload);
      Lookup(Insert(t, e), qtag, qname) ==
        if qtag == tag && qname == name then Some(e) else Lookup(t, qtag, qname)
  {
    var e := Mint(t, tag, name, payload);
    var u := Insert(t, e);
    InsertKeepsWellFormed(t, tag, name, payload);
    if qtag == tag && qname == name {
      LookupFindsDeclared(u, tag, |Declared(t, tag)|);
    } else if qtag != tag {
      assert Declared(u, qtag) == Declared(t, qtag);
    } else if HasName(t, qtag, qname) {
      var i :| 0 <= i < |Declared(t, qtag)| && Declared(t, qtag)[i].name == qname;
      LookupFindsDeclared(t, qtag, i);
      assert Declared(u, qtag)[i] == Declared(t, qtag)[i];
      LookupFindsDeclared(u, qtag, i);
    } else {
      forall i | 0 <= i < |Declared(u, qtag)| ensures Declared(u, qtag)[i].name != qname {
        if i < |Declared(t, qtag)| {
          assert Declared(u, qtag)[i] == Declared(t, qtag)[i];
        }
      }
    }
  }

  /** ResolveAll succeeds exactly when `f` resolves every key. */
  lemma {:induction false} ResolveAllFound<K, V>(f: K -> Option<V>, keys: seq<K>)
    ensures ResolveAll(f, keys).Some? <==> forall k :: 0 <= k < |keys| ==> f(keys[k]).Some?
    decreases |keys|
  {
    if keys != [] {
      var n := |keys| - 1;
      var init := keys[..n];
      ResolveAllFound(f, init);
      assert forall k :: 0 <= k < n ==> init[k] == keys[k];
      if ResolveAll(f, init).None? {
        var k :| 0 <= k < n && f(init[k]).None?;
        assert f(keys[k]).None?;
      }
    }
  }

  /** A successful ResolveAll holds, at position `k`, what `f` answers for the `k`-th key. */
  lemma {:induction false} ResolveAllAt<K, V>(f: K -> Option<V>, keys: seq<K>, found: seq<V>, k: nat)
    requires ResolveAll(f, keys) == Some(found) && k < |keys|
    ensures |found| == |keys| && Some(found[k]) == f(keys[k])
    decreases |keys|
  {
    var n := |keys| - 1;
    var init := keys[..n];
    var prefix := ResolveAll(f, init).value;
    assert found == prefix + [f(keys[n]).value];
    if k < n {
      ResolveAllAt(f, init, prefix, k);
      assert init[k] == keys[k];
    } else if n > 0 {
      ResolveAllAt(f, init, prefix, 0);
    }
  }

  /** A successful ResolveAll answers, key by key and in order, what `f` answers. */
  lemma ResolveAllValues<K, V>(f: K -> Option<V>, keys: seq<K>, found: seq<V>)
    requires ResolveAll(f, keys) == Some(found)
    ensures |found| == |keys|
    ensures forall k :: 0 <= k < |keys| ==> Some(found[k]) == f(keys[k])
  {
    if keys != [] {
      ResolveAllAt(f, keys, found, 0);
    }
    forall k | 0 <= k < |keys| ensures Some(found[k]) == f(keys[k]) {
      ResolveAllAt(f, keys, found, k);
    }
  }

  /** Once a prefix of the keys fails, ResolveAll fails on the whole list. */
  lemma {:induction false} ResolveAllStaysFailed<K, V>(f: K -> Option<V>, keys: seq<K>, i: nat)
    requires i <= |keys| && ResolveAll(f, keys[..i]).None?
    ensures ResolveAll(f, keys).None?
    decreases |keys|
  {
    if i < |keys| {
      var init := keys[..|keys| - 1];
      assert init[..i] == keys[..i];
      ResolveAllStaysFailed(f, init, i);
    } else {
      assert keys[..i] == keys;
    }
  }

  /**
   * GetEnums is all-or-nothing: it succeeds exactly when every name is an
   * instance of the type, and then returns ValueOf's answer for each name,
   * in the order the names were given.
   */
  lemma LookupAllMeaning<P>(t: Tables<P>, tag: string, names: seq<string>)
    ensures LookupAll(t, tag, names).Some? <==> forall k :: 0 <= k < |names| ==> HasName(t, tag, names[k])
    ensures LookupAll(t, tag, names).Some? ==>
      |LookupAll(t, tag, names).value| == |names| &&
      forall k :: 0 <= k < |names| ==> Some(LookupAll(t, tag, names).value[k]) == Lookup(t, tag, names[k])
  {
    var f := name => Lookup(t, tag, name);
    ResolveAllFound(f, names);
    if LookupAll(t, tag, names).Some? {
      ResolveAllValues(f, names, LookupAll(t, tag, names).value);
    }
  }

  /** One name of GetEnums' loop: a failed lookup fails the whole batch, a found one extends the prefix. */
  lemma LookupAllStep<P>(t: Tables<P>, tag: string, names: seq<string>, i: nat, init: seq<Entry<P>>, found: Option<Entry<P>>)
    requires i < |names| && LookupAll(t, tag, names[..i]) == Some(init) && found == Lookup(t, tag, names[i])
    ensures found.None? ==> LookupAll(t, tag, names).None?
    ensures found.Some? ==> LookupAll(t, tag, names[..i + 1]) == Some(init + [found.value])
  {
    assert names[..i + 1][..i] == names[..i];
    if found.None? {
      ResolveAllStaysFailed(name => Lookup(t, tag, name), names, i + 1);
    }
  }

  /** Among registered instances, Equals is exactly identity. */
  lemma EqualsIsIdentity<P>(t: Tables<P>, a: Entry<P>, b: Entry<P>)
    requires WellFormed(t) && Registered(t, a) && Registered(t, b)
    ensures a.Equals(b) <==> a == b
  {
    if a.Equals(b) {
      var d := Declared(t, a.tag);
      assert d[a.ordinal].name == d[b.ordinal].name;
    }
  }

  /**
   * Compare orders the instances of one type by declaration: it is the
   * difference of their positions in Values, negative exactly when the first
   * was declared earlier, and zero exactly when the two are Equals.
   */
  lemma CompareFollowsDeclarationOrder<P>(t: Tables<P>, tag: string, i: nat, j: nat)
    requires WellFormed(t) && i < |Declared(t, tag)| && j < |Declared(t, tag)|
    ensures Declared(t, tag)[i].Compare(Declared(t, tag)[j]) == i - j
    ensures Declared(t, tag)[i].Compare(Declared(t, tag)[j]) < 0 <==> i < j
    ensures Declared(t, tag)[i].Compare(Declared(t, tag)[j]) == 0 <==> Declared(t, tag)[i].Equals(Declared(t, tag)[j])
  {
    var d := Declared(t, tag);
    EqualsIsIdentity(t, d[i], d[j]);
  }

  /**
   * ValueOfIgnoreCase finds something whenever ValueOf does: an instance
   * whose name folds to the query, declared no later than the exact match.
   */
  lemma IgnoreCaseFindsExactMatches<P>(t: Tables<P>, tag: string, name: string)
    requires WellFormed(t) && Lookup(t, tag, name).Some?
    ensures LookupFold(t, tag, name).Some?
    ensures EqualFold(LookupFold(t, tag, name).value.name, name)
    ensures LookupFold(t, tag, name).value.ordinal <= Lookup(t, tag, name).value.ordinal
  {
    var d := Declared(t, tag);
    LookupIsRegistered(t, tag, name);
    var e := Lookup(t, tag, name).value;
    assert d[e.ordinal] == e;
    assert EqualFold(d[e.ordinal].name, name);
    var r := IndexOfFold(d, name);
    assert r.Some? && r.value <= e.ordinal;
    assert LookupFold(t, tag, name) == Some(d[r.value]);
  }

  /**
   * When no two names of the type fold together, ValueOfIgnoreCase finds an
   * instance under every case variant of its name.
   */
  lemma IgnoreCaseFindsCaseVariants<P>(t: Tables<P>, tag: string, i: nat, query: string)
    requires FoldDistinct(t, tag)
    requires i < |Declared(t, tag)| && EqualFold(Declared(t, tag)[i].name, query)
    ensures LookupFold(t, tag, query) == Some(Declared(t, tag)[i])
  {
    var d := Declared(t, tag);
    var j := IndexOfFold(d, query).value;
    EqualFoldJoins(d[j].name, query, d[i].name);
    assert j == i;
  }

  /** Two strings that fold to the same query fold to each other. */
  lemma EqualFoldJoins(a: string, q: string, b: string)
    requires EqualFold(a, q) && EqualFold(b, q)
    ensures EqualFold(a, b)
  {
    forall k | 0 <= k < |a| ensures FoldAscii(a[k]) == FoldAscii(b[k]) {
      assert FoldAscii(a[k]) == FoldAscii(q[k]);
    }
  }

  /** GetEnumMap's loop: each instance keyed by its name, for instances with distinct names. */
  method MapByName<P>(values: seq<Entry<P>>) returns (m: map<string, Entry<P>>)
    requires forall i, j :: 0 <= i < j < |values| ==> values[i].name != values[j].name
    ensures forall name :: name in m <==> exists k :: 0 <= k < |values| && values[k].name == name
    ensures forall k :: 0 <= k < |values| ==> values[k].name in m && m[values[k].name] == values[k]
    ensures |m| == |values|
  {
    m := map[];
    for i := 0 to |values|
      invariant forall name :: name in m <==> exists k :: 0 <= k < i && values[k].name == name
      invariant forall k :: 0 <= k < i ==> values[k].name in m && m[values[k].name] == values[k]
      invariant |m| == i
    {
      assert values[i].name !in m;
      m := m[values[i].name := values[i]];
    }
  }

  // ---------------------------------------------------------------------
  // The registry object
  // ---------------------------------------------------------------------

  /**
   * The process-wide registry: Go's three package-level maps become the
   * fields of one object that NewEnum updates in place. `zero` is the payload
   * of Go's zero value of the enum type, used when no template is passed.
   */
  class Registry<P> {
    var name2enums: map<string, seq<Entry<P>>>
    var type2enums: map<string, seq<Entry<P>>>
    var typeIndex: map<string, nat>
    const zero: P

    /** The three maps as a value. */
    ghost function State(): Tables<P>
      reads this
    {
      Tables(name2enums, type2enums, typeIndex)
    }

    ghost predicate Valid()
      reads this
    {
      WellFormed(State())
    }

    /** The maps are created empty at process start. */
    constructor (zero: P)
      ensures Valid() && State() == EmptyTables() && this.zero == zero
    {
      name2enums, type2enums, typeIndex := map[], map[], map[];
      this.zero := zero;
    }

    /**
     * NewEnum: panics with "Enum must be unique" when the type already has an
     * instance of that name, leaving the maps unchanged; otherwise stamps the
     * template's payload (or the zero value's) with the name, the tag and
     * the type's counter as ordinal, bumps the counter and appends the
     * instance to both lists.
     */
    method NewEnum(tag: string, name: string, src: seq<P>) returns (r: Result<Entry<P>>)
      requires Valid()
      modifies this
      ensures Valid()
      ensures old(HasName(State(), tag, name)) ==>
        r == Panic("Enum must be unique") && State() == old(State())
      ensures !old(HasName(State(), tag, name)) ==>
        && r == Ok(Mint(old(State()), tag, name, if |src| > 0 then src[0] else zero))
        && State() == Insert(old(State()), r.value)
    {
      var dup := IsValidEnum(tag, name);
      if dup {
        return Panic("Enum must be unique");
      }
      var payload := if |src| > 0 then src[0] else zero;
      var idx := if tag in typeIndex then typeIndex[tag] else 0;
      var e := Entry(name, tag, idx, payload);
      InsertKeepsWellFormed(State(), tag, name, payload);
      typeIndex := typeIndex[tag := idx + 1];
      type2enums := type2enums[tag := (if tag in type2enums then type2enums[tag] else []) + [e]];
      name2enums := name2enums[name := (if name in name2enums then name2enums[name] else []) + [e]];
      r := Ok(e);
    }

    /** ValueOf: scans the instances registered under `name` for the first of type `tag`. */
    method ValueOf(tag: string, name: string) returns (r: Option<Entry<P>>)
      requires Valid()
      ensures r == Lookup(State(), tag, name)
    {
      var enums := if name in name2enums then name2enums[name] else [];
      assert enums == Named(State(), name);
      var i := 0;
      while i < |enums|
        invariant 0 <= i <= |enums|
        invariant forall k :: 0 <= k < i ==> enums[k].tag != tag
      {
        if enums[i].tag == tag {
          LookupFindsDeclared(State(), tag, enums[i].ordinal);
          return Some(enums[i]);
        }
        i := i + 1;
      }
      var d := Declared(State(), tag);
      forall j | 0 <= j < |d| ensures d[j].name != name {
        assert d[j] in Named(State(), d[j].name);
      }
      r := None;
    }

    /** ValueOfIgnoreCase: the first instance of Values whose name folds to `name`. */
    method ValueOfIgnoreCase(tag: string, name: string) returns (r: Option<Entry<P>>)
      requires Valid()
      ensures r == LookupFold(State(), tag, name)
    {
      var values := Values(tag);
      var i := 0;
      while i < |values|
        invariant 0 <= i <= |values|
        invariant forall k :: 0 <= k < i ==> !EqualFold(values[k].name, name)
      {
        if EqualFold(values[i].name, name) {
          var f := IndexOfFold(values, name);
          assert f == Some(i);
          return Some(values[i]);
        }
        i := i + 1;
      }
      r := None;
    }

    /** Values: the type's instances, filtered by the type assertion, in ordinal order. */
    method Values(tag: string) returns (res: seq<Entry<P>>)
      requires Valid()
      ensures res == Declared(State(), tag)
      ensures |res| == Size(tag)
      ensures forall i :: 0 <= i < |res| ==> res[i].tag == tag && res[i].ordinal == i
    {
      var all := if tag in type2enums then type2enums[tag] else [];
      assert all == Declared(State(), tag);
      res := [];
      for i := 0 to |all|
        invariant res == all[..i]
      {
        if all[i].tag == tag {
          res := res + [all[i]];
        }
      }
    }

    /** Size: the length of the type's list, which is also its ordinal counter. */
    function Size(tag: string): (n: nat)
      reads this
      ensures Valid() ==> n == NextOrdinal(State(), tag)
    {
      if tag in type2enums then |type2enums[tag]| else 0
    }

    /** GetEnumMap: name to instance for every instance of the type; it agrees with ValueOf on every name. */
    method GetEnumMap(tag: string) returns (m: map<string, Entry<P>>)
      requires Valid()
      ensures forall name :: Get(m, name) == Lookup(State(), tag, name)
      ensures |m| == Size(tag)
    {
      var values := Values(tag);
      m := MapByName(values);
      forall name ensures Get(m, name) == Lookup(State(), tag, name) {
        if name in m {
          var k :| 0 <= k < |values| && values[k].name == name;
          LookupFindsDeclared(State(), tag, k);
        }
      }
    }

    /**
     * EnumNames: the names of the given instances in argument order, or, with
     * no instances given, the names of all of the type's Values.
     */
    method EnumNames(tag: string, enums: seq<Entry<P>>) returns (names: seq<string>)
      requires Valid()
      ensures var src := if |enums| == 0 then Declared(State(), tag) else enums;
        |names| == |src| && forall i :: 0 <= i < |src| ==> names[i] == src[i].name
    {
      var src := enums;
      if |enums| == 0 {
        src := Values(tag);
      }
      names := [];
      for i := 0 to |src|
        invariant |names| == i
        invariant forall k :: 0 <= k < i ==> names[k] == src[k].name
      {
        names := names + [src[i].name];
      }
    }

    /**
     * GetEnums: all-or-nothing batch ValueOf. Fails as soon as one name is not
     * an instance of the type; otherwise the instances in the order given.
     */
    method GetEnums(tag: string, names: seq<string>) returns (r: Option<seq<Entry<P>>>)
      requires Valid()
      ensures r == LookupAll(State(), tag, names)
    {
      var res: seq<Entry<P>> := [];
      for i := 0 to |names|
        invariant LookupAll(State(), tag, names[..i]) == Some(res)
      {
        var found := ValueOf(tag, names[i]);
        LookupAllStep(State(), tag, names, i, res, found);
        if found.None? {
          return None;
        }
        res := res + [found.value];
      }
      assert names[..|names|] == names;
      r := Some(res);
    }

    /** IsValidEnum: ValueOf succeeds. */
    method IsValidEnum(tag: string, name: string) returns (valid: bool)
      requires Valid()
      ensures valid <==> HasName(State(), tag, name)
    {
      var r := ValueOf(tag, name);
      valid := r.Some?;
    }
  }
}

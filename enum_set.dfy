/**
 * UnsafeEnumSet (enum_set.go): a set of instances of one enum type, stored as
 * a packed bit vector indexed by ordinal, with a running count of members.
 *
 * The words follow the layout the source documents: ordinal `o` is bit
 * `o % 64` of word `o / 64` (`Bits.Mask`). The literal `uint64(1) << ordinal`
 * of the source is modelled separately below, as written.
 */
module EnumSets {
  import opened Bits
  import opened Enums

  // ---------------------------------------------------------------------
  // Iteration order of Each
  // ---------------------------------------------------------------------

  /** The instances of `values` whose ordinal is in `members`, in the order of `values`. */
  function InSet<P>(values: seq<Entry<P>>, members: set<nat>): seq<Entry<P>>
  {
    if |values| == 0 then []
    else if values[0].ordinal in members then [values[0]] + InSet(values[1..], members)
    else InSet(values[1..], members)
  }

  /**
   * What Each hands to its callback: the members among `values`, in order,
   * up to and including the first one the callback answers false for.
   */
  function Visit<P>(values: seq<Entry<P>>, members: set<nat>, f: Entry<P> -> bool): seq<Entry<P>>
  {
    if |values| == 0 then []
    else if values[0].ordinal in members then
      if f(values[0]) then [values[0]] + Visit(values[1..], members, f) else [values[0]]
    else Visit(values[1..], members, f)
  }

  /**
   * One step of Each's loop: with `prefix` visited before position `i`, the
   * instance there is skipped when it is not a member, visited and passed
   * when `f` accepts it, and visited last when `f` refuses it.
   */
  lemma VisitStep<P>(values: seq<Entry<P>>, members: set<nat>, f: Entry<P> -> bool, i: nat, prefix: seq<Entry<P>>)
    requires i < |values| && Visit(values, members, f) == prefix + Visit(values[i..], members, f)
    ensures values[i].ordinal !in members ==>
      Visit(values, members, f) == prefix + Visit(values[i + 1..], members, f)
    ensures values[i].ordinal in members && f(values[i]) ==>
      Visit(values, members, f) == (prefix + [values[i]]) + Visit(values[i + 1..], members, f)
    ensures values[i].ordinal in members && !f(values[i]) ==>
      Visit(values, members, f) == prefix + [values[i]]
  {
    assert values[i..][1..] == values[i + 1..];
  }

  /**
   * Each stops exactly at the first refusal: what it visits is a prefix of
   * the members in order; every visited instance but the last was accepted;
   * and it visits fewer than all members only when the last one was refused.
   */
  lemma {:induction false} VisitIsPrefix<P>(values: seq<Entry<P>>, members: set<nat>, f: Entry<P> -> bool)
    ensures Visit(values, members, f) <= InSet(values, members)
    ensures forall k :: 0 <= k < |Visit(values, members, f)| - 1 ==> f(Visit(values, members, f)[k])
    ensures |Visit(values, members, f)| < |InSet(values, members)| ==>
      |Visit(values, members, f)| > 0 && !f(Visit(values, members, f)[|Visit(values, members, f)| - 1])
    decreases |values|
  {
    if |values| > 0 {
      VisitIsPrefix(values[1..], members, f);
    }
  }

  /** A callback that accepts everything sees every member, in order. */
  lemma {:induction false} VisitAllAccepted<P>(values: seq<Entry<P>>, members: set<nat>, f: Entry<P> -> bool)
    requires forall k :: 0 <= k < |values| ==> f(values[k])
    ensures Visit(values, members, f) == InSet(values, members)
    decreases |values|
  {
    if |values| > 0 {
      VisitAllAccepted(values[1..], members, f);
    }
  }

  /**
   * Over a type's instances `base`, `base + 1`, ... (as Values returns them),
   * InSet yields only members of that range, each at its own place in
   * `values`.
   */
  lemma {:induction false} InSetSound<P>(values: seq<Entry<P>>, members: set<nat>, base: nat)
    requires forall i :: 0 <= i < |values| ==> values[i].ordinal == base + i
    ensures forall e :: e in InSet(values, members) ==>
      e.ordinal in members && base <= e.ordinal < base + |values| && e == values[e.ordinal - base]
    decreases |values|
  {
    if |values| > 0 {
      var rest := values[1..];
      InSetSound(rest, members, base + 1);
      forall e | e in InSet(rest, members)
        ensures e == values[e.ordinal - base]
      {
        assert values[e.ordinal - base] == rest[e.ordinal - (base + 1)];
      }
    }
  }

  /** ... and yields every member of that range. */
  lemma {:induction false} InSetComplete<P>(values: seq<Entry<P>>, members: set<nat>, base: nat)
    requires forall i :: 0 <= i < |values| ==> values[i].ordinal == base + i
    ensures forall o :: o in members && base <= o < base + |values| ==> values[o - base] in InSet(values, members)
    decreases |values|
  {
    if |values| > 0 {
      var rest := values[1..];
      InSetComplete(rest, members, base + 1);
      forall o | o in members && base < o < base + |values|
        ensures values[o - base] in InSet(values, members)
      {
        assert values[o - base] == rest[o - (base + 1)];
      }
    }
  }

  /** ... by strictly ascending ordinal. */
  lemma {:induction false} InSetAscending<P>(values: seq<Entry<P>>, members: set<nat>, base: nat)
    requires forall i :: 0 <= i < |values| ==> values[i].ordinal == base + i
    ensures forall k, l :: 0 <= k < l < |InSet(values, members)| ==>
      InSet(values, members)[k].ordinal < InSet(values, members)[l].ordinal
    decreases |values|
  {
    if |values| > 0 {
      var rest := values[1..];
      InSetAscending(rest, members, base + 1);
      InSetSound(rest, members, base + 1);
      var t := InSet(rest, members);
      if values[0].ordinal in members {
        var r := InSet(values, members);
        assert r == [values[0]] + t;
        forall k, l | 0 <= k < l < |r| ensures r[k].ordinal < r[l].ordinal {
          if k == 0 {
            assert r[l] == t[l - 1] && t[l - 1] in t;
          } else {
            assert r[k] == t[k - 1] && r[l] == t[l - 1];
          }
        }
      }
    }
  }

  /** The members in `lo..hi-1`, gathered from `lo` upwards as InSet walks them. */
  ghost function Within(members: set<nat>, lo: nat, hi: nat): set<nat>
    decreases hi - lo
  {
    if hi <= lo then {}
    else if lo in members then Within(members, lo + 1, hi) + {lo}
    else Within(members, lo + 1, hi)
  }

  /** `o` is gathered exactly when it is a member within `lo..hi-1`. */
  lemma {:induction false} WithinAt(members: set<nat>, lo: nat, hi: nat, o: nat)
    ensures o in Within(members, lo, hi) <==> o in members && lo <= o < hi
    decreases hi - lo
  {
    if lo < hi {
      WithinAt(members, lo + 1, hi, o);
    }
  }

  /** ... one instance per member of that range. */
  lemma {:induction false} InSetCount<P>(values: seq<Entry<P>>, members: set<nat>, base: nat)
    requires forall i :: 0 <= i < |values| ==> values[i].ordinal == base + i
    ensures |InSet(values, members)| == |Within(members, base, base + |values|)|
    decreases |values|
  {
    if |values| > 0 {
      var rest := values[1..];
      forall i | 0 <= i < |rest| ensures rest[i].ordinal == (base + 1) + i {
        assert rest[i] == values[i + 1];
      }
      InSetCount(rest, members, base + 1);
      assert values[0].ordinal == base;
      var hi := base + |values|;
      var later := Within(members, base + 1, hi);
      assert |InSet(rest, members)| == |later|;
      if base in members {
        assert InSet(values, members) == [values[0]] + InSet(rest, members);
        assert Within(members, base, hi) == later + {base};
        WithinAt(members, base + 1, hi, base);
        assert base !in later;
        assert |Within(members, base, hi)| == |later| + 1;
        assert |InSet(values, members)| == |InSet(rest, members)| + 1;
      } else {
        assert InSet(values, members) == InSet(rest, members);
        assert Within(members, base, hi) == later;
      }
    }
  }

  /** Over ordinals `0..n-1`, a set of members below `n` is walked one instance per member. */
  lemma InSetCountsAll<P>(values: seq<Entry<P>>, members: set<nat>)
    requires forall i :: 0 <= i < |values| ==> values[i].ordinal == i
    requires forall o :: o in members ==> o < |values|
    ensures |InSet(values, members)| == |members|
  {
    InSetCount(values, members, 0);
    forall o ensures o in Within(members, 0, |values|) <==> o in members {
      WithinAt(members, 0, |values|, o);
    }
    assert Within(members, 0, |values|) == members;
  }

  // ---------------------------------------------------------------------
  // The set
  // ---------------------------------------------------------------------

  /**
   * `UnsafeEnumSet[E]`: `tag` stands for the type parameter `E`, `enumSize`
   * is `Size[E]()` when the set was made, `elements` the packed words and
   * `len` the number of members.
   */
  class UnsafeEnumSet<P> {
    const tag: string
    const enumSize: nat
    const elements: array<uint64>
    var len: nat
    /** The ordinals the set holds. */
    ghost var Contents: set<nat>

    /**
     * The word count fits the enum size, `Contents` is what the words
     * hold, and `len` counts it.
     */
    ghost predicate Valid()
      reads this, elements
    {
      elements.Length == WordCount(enumSize) && Represents(elements[..], Contents) && len == |Contents|
    }

    /** Under Valid, `Contents` is exactly what the words hold. */
    lemma ContentsAreMembers()
      requires Valid()
      ensures Contents == Members(elements[..])
    {
      RepresentsIff(elements[..], Contents);
    }

    /** NewUnsafeEnumSet: empty, with `(Size + 63) >> 6` zero words. */
    constructor (reg: Enums.Registry<P>, tag: string)
      ensures Valid() && this.tag == tag && enumSize == reg.Size(tag)
      ensures elements.Length == WordCount(enumSize)
      ensures forall i :: 0 <= i < elements.Length ==> elements[i] == 0
      ensures Contents == {} && len == 0
      ensures fresh(elements)
    {
      var size := reg.Size(tag);
      this.tag := tag;
      enumSize := size;
      elements := new uint64[WordCount(size)](_ => 0);
      len := 0;
      Contents := {};
      new;
      ZerosAreEmpty(elements[..]);
      RepresentsIff(elements[..], Contents);
    }

    /** Clone: same type, size, count and words, in a freshly allocated array. */
    constructor Clone(src: UnsafeEnumSet<P>)
      requires src.Valid()
      ensures Valid() && tag == src.tag && enumSize == src.enumSize && len == src.len
      ensures elements[..] == src.elements[..] && Contents == src.Contents
      ensures fresh(elements)
    {
      tag := src.tag;
      enumSize := src.enumSize;
      len := src.len;
      Contents := src.Contents;
      elements := new uint64[src.elements.Length];
      new;
      ghost var words := src.elements[..];
      forall i | 0 <= i < elements.Length {
        elements[i] := src.elements[i];
      }
      assert elements[..] == words;
    }

    /**
     * addIdx: sets the ordinal's bit in word `ordinal >> 6`, reports whether
     * the word changed, and counts the new member.
     */
    method AddIdx(ordinal: nat) returns (added: bool)
      requires Valid() && ordinal / 64 < elements.Length
      modifies this, elements
      ensures Valid()
      ensures added <==> ordinal !in old(Contents)
      ensures Contents == old(Contents) + {ordinal}
      ensures len == old(len) + (if added then 1 else 0)
    {
      ContentsAreMembers();
      ghost var before := elements[..];
      var i := ordinal / 64;
      var prev := elements[i];
      var next := Or(prev, Mask(ordinal));
      SetBitAdds(before, ordinal, prev);
      elements[i] := next;
      assert elements[..] == before[i := next] == SetBit(before, ordinal);
      Contents := Contents + {ordinal};
      added := prev != next;
      if added {
        len := len + 1;
      }
      RepresentsIff(elements[..], Contents);
    }

    /** Add: addIdx at the instance's ordinal. */
    method Add(e: Entry<P>) returns (added: bool)
      requires Valid() && e.tag == tag && e.ordinal / 64 < elements.Length
      modifies this, elements
      ensures Valid()
      ensures added <==> e.ordinal !in old(Contents)
      ensures Contents == old(Contents) + {e.ordinal}
      ensures len == old(len) + (if added then 1 else 0)
    {
      added := AddIdx(e.ordinal);
    }

    /**
     * removeIdx: clears the ordinal's bit in word `ordinal >> 6`, reports
     * whether the word changed, and uncounts the old member.
     */
    method RemoveIdx(ordinal: nat) returns (deleted: bool)
      requires Valid() && ordinal / 64 < elements.Length
      modifies this, elements
      ensures Valid()
      ensures deleted <==> ordinal in old(Contents)
      ensures Contents == old(Contents) - {ordinal}
      ensures len + (if deleted then 1 else 0) == old(len)
    {
      ContentsAreMembers();
      ghost var before := elements[..];
      var i := ordinal / 64;
      var prev := elements[i];
      var next := And(prev, Not(Mask(ordinal)));
      ClearBitRemoves(before, ordinal, prev);
      elements[i] := next;
      assert elements[..] == before[i := next] == ClearBit(before, ordinal);
      Contents := Contents - {ordinal};
      deleted := prev != next;
      if deleted {
        len := len - 1;
      }
      RepresentsIff(elements[..], Contents);
    }

    /** Remove: removeIdx at the instance's ordinal. */
    method Remove(e: Entry<P>) returns (deleted: bool)
      requires Valid() && e.tag == tag && e.ordinal / 64 < elements.Length
      modifies this, elements
      ensures Valid()
      ensures deleted <==> e.ordinal in old(Contents)
      ensures Contents == old(Contents) - {e.ordinal}
      ensures len + (if deleted then 1 else 0) == old(len)
    {
      deleted := RemoveIdx(e.ordinal);
    }

    /**
     * AddRange: adds every ordinal from `begin`'s to `end`'s inclusive and
     * returns how many of them were not members before; nothing when
     * `begin` comes after `end`.
     */
    method AddRange(begin: Entry<P>, end: Entry<P>) returns (cnt: nat)
      requires Valid() && begin.tag == tag && end.tag == tag
      requires begin.ordinal <= end.ordinal ==> end.ordinal / 64 < elements.Length
      modifies this, elements
      ensures Valid()
      ensures Contents == old(Contents) + Span(begin.ordinal, end.ordinal + 1)
      ensures cnt == |Span(begin.ordinal, end.ordinal + 1) - old(Contents)|
      ensures len == old(len) + cnt
    {
      var lo := begin.ordinal;
      var hi := if lo <= end.ordinal then end.ordinal + 1 else lo;
      cnt := AddFrom(lo, hi);
      AddedRange(old(Contents), Contents, lo, end.ordinal, hi, cnt);
    }

    /** AddRange's loop: addIdx at every ordinal from `lo` up to, not including, `hi`. */
    method AddFrom(lo: nat, hi: nat) returns (cnt: nat)
      requires Valid() && lo <= hi && (lo < hi ==> (hi - 1) / 64 < elements.Length)
      modifies this, elements
      ensures Valid() && Contents == old(Contents) + Span(lo, hi) && len == old(len) + cnt
    {
      ghost var c0, len0 := Contents, len;
      cnt := 0;
      for i := lo to hi
        invariant Valid()
        invariant Contents == c0 + Span(lo, i)
        invariant len == len0 + cnt
      {
        cnt := AddNext(c0, len0, lo, i, cnt);
      }
    }

    /** One iteration of AddRange's loop: addIdx at `i`, which extends the range added to `c0` and counts a new member. */
    method AddNext(ghost c0: set<nat>, ghost len0: nat, ghost lo: nat, i: nat, cnt: nat) returns (next: nat)
      requires Valid() && i / 64 < elements.Length
      requires lo <= i && Contents == c0 + Span(lo, i) && len == len0 + cnt
      modifies this, elements
      ensures Valid() && Contents == c0 + Span(lo, i + 1) && len == len0 + next
    {
      ghost var c := Contents;
      var added := AddIdx(i);
      next := if added then cnt + 1 else cnt;
      AddRangeStep(c0, c, Contents, lo, i);
    }

    /**
     * RemoveRange: removes every ordinal from `begin`'s to `end`'s inclusive
     * and returns how many of them were members before.
     */
    method RemoveRange(begin: Entry<P>, end: Entry<P>) returns (cnt: nat)
      requires Valid() && begin.tag == tag && end.tag == tag
      requires begin.ordinal <= end.ordinal ==> end.ordinal / 64 < elements.Length
      modifies this, elements
      ensures Valid()
      ensures Contents == old(Contents) - Span(begin.ordinal, end.ordinal + 1)
      ensures cnt == |Span(begin.ordinal, end.ordinal + 1) * old(Contents)|
      ensures len + cnt == old(len)
    {
      var lo := begin.ordinal;
      var hi := if lo <= end.ordinal then end.ordinal + 1 else lo;
      cnt := RemoveFrom(lo, hi);
      RemovedRange(old(Contents), Contents, lo, end.ordinal, hi, cnt);
    }

    /** RemoveRange's loop: removeIdx at every ordinal from `lo` up to, not including, `hi`. */
    method RemoveFrom(lo: nat, hi: nat) returns (cnt: nat)
      requires Valid() && lo <= hi && (lo < hi ==> (hi - 1) / 64 < elements.Length)
      modifies this, elements
      ensures Valid() && Contents == old(Contents) - Span(lo, hi) && len + cnt == old(len)
    {
      ghost var c0, len0 := Contents, len;
      cnt := 0;
      for i := lo to hi
        invariant Valid()
        invariant Contents == c0 - Span(lo, i)
        invariant len + cnt == len0
      {
        cnt := RemoveNext(c0, len0, lo, i, cnt);
      }
    }

    /** One iteration of RemoveRange's loop: removeIdx at `i`, which extends the range removed from `c0` and counts a lost member. */
    method RemoveNext(ghost c0: set<nat>, ghost len0: nat, ghost lo: nat, i: nat, cnt: nat) returns (next: nat)
      requires Valid() && i / 64 < elements.Length
      requires lo <= i && Contents == c0 - Span(lo, i) && len + cnt == len0
      modifies this, elements
      ensures Valid() && Contents == c0 - Span(lo, i + 1) && len + next == len0
    {
      ghost var c := Contents;
      var deleted := RemoveIdx(i);
      next := if deleted then cnt + 1 else cnt;
      RemoveRangeStep(c0, c, Contents, lo, i);
    }

    /** Len: the running count, which is the number of members. */
    function Len(): (n: nat)
      reads this, elements
      ensures Valid() ==> n == |Contents|
    {
      len
    }

    /** IsEmpty: no member. */
    function IsEmpty(): (b: bool)
      reads this, elements
      ensures Valid() ==> (b <==> Contents == {})
    {
      Len() == 0
    }

    /** Clear: zeroes every word and the count. */
    method Clear()
      requires Valid()
      modifies this, elements
      ensures Valid()
      ensures forall i :: 0 <= i < elements.Length ==> elements[i] == 0
      ensures Contents == {} && len == 0
    {
      for i := 0 to elements.Length
        invariant forall k :: 0 <= k < i ==> elements[k] == 0
      {
        elements[i] := 0;
      }
      len := 0;
      Contents := {};
      ZerosAreEmpty(elements[..]);
      RepresentsIff(elements[..], Contents);
    }

    /** Contains: every given instance is a member; true for none given. */
    method Contains(enums: seq<Entry<P>>) returns (r: bool)
      requires Valid()
      requires forall k :: 0 <= k < |enums| ==> enums[k].tag == tag && enums[k].ordinal / 64 < elements.Length
      ensures r <==> forall k :: 0 <= k < |enums| ==> enums[k].ordinal in Contents
    {
      ContentsAreMembers();
      ghost var words := elements[..];
      ghost var c := Contents;
      for k := 0 to |enums|
        invariant forall m :: 0 <= m < k ==> enums[m].ordinal in c
      {
        var o := enums[k].ordinal;
        var here := TestBit(elements[o / 64], o);
        MemberAt(words, o);
        if !here {
          return false;
        }
      }
      r := true;
    }

    /**
     * ContainsAll, for another UnsafeEnumSet: every word of `other` is
     * covered by this set's word at the same index, i.e. `other`'s members
     * are all members here.
     */
    method ContainsAll(other: UnsafeEnumSet<P>) returns (r: bool)
      requires Valid() && other.Valid()
      requires other.tag == tag && other.elements.Length <= elements.Length
      ensures r <==> other.Contents <= Contents
    {
      ContentsAreMembers();
      other.ContentsAreMembers();
      ghost var mine, theirs := elements[..], other.elements[..];
      for i := 0 to other.elements.Length
        invariant CoveredUpTo(theirs, mine, i)
      {
        var w, v := other.elements[i], elements[i];
        if And(w, v) != w {
          UncoveredWordHasMember(theirs, mine, i, w, v);
          return false;
        }
        CoveredStep(theirs, mine, i, w, v);
      }
      CoveredWordsAreSubset(theirs, mine);
      r := true;
    }

    /** Equals: ContainsAll both ways, i.e. the same members. */
    method Equals(other: UnsafeEnumSet<P>) returns (r: bool)
      requires Valid() && other.Valid()
      requires other.tag == tag && other.elements.Length == elements.Length
      ensures r <==> Contents == other.Contents
    {
      r := ContainsAll(other);
      if r {
        r := other.ContainsAll(this);
      }
    }

    /**
     * Each: walks the type's Values in ordinal order and calls `f` on each
     * member until it answers false; returns the instances `f` was called on.
     */
    method Each(reg: Enums.Registry<P>, f: Entry<P> -> bool) returns (visited: seq<Entry<P>>)
      requires Valid() && reg.Valid() && reg.Size(tag) <= 64 * elements.Length
      ensures visited == Visit(Declared(reg.State(), tag), Contents, f)
    {
      var all := reg.Values(tag);
      visited := EachOf(all, f);
    }

    /** Each's loop over the instances `all`, asking Contains about one at a time (see VisitStep). */
    method EachOf(all: seq<Entry<P>>, f: Entry<P> -> bool) returns (visited: seq<Entry<P>>)
      requires Valid()
      requires forall k :: 0 <= k < |all| ==> all[k].tag == tag && all[k].ordinal / 64 < elements.Length
      ensures visited == Visit(all, Contents, f)
    {
      ghost var c := Contents;
      visited := [];
      var i := 0;
      while i < |all|
        invariant 0 <= i <= |all|
        invariant Visit(all, c, f) == visited + Visit(all[i..], c, f)
      {
        var one := [all[i]];
        var here := Contains(one);
        assert one[0] == all[i];
        VisitStep(all, c, f, i, visited);
        if here {
          visited := visited + [all[i]];
          if !f(all[i]) {
            break;
          }
        }
        i := i + 1;
      }
      assert i == |all| ==> all[i..] == [];
    }

    /** Names: the names of the members, in ordinal order. */
    method Names(reg: Enums.Registry<P>) returns (names: seq<string>)
      requires Valid() && reg.Valid() && reg.Size(tag) <= 64 * elements.Length
      ensures var m := InSet(Declared(reg.State(), tag), Contents);
        |names| == |m| && forall k :: 0 <= k < |m| ==> names[k] == m[k].name
      ensures (forall o :: o in Contents ==> o < reg.Size(tag)) ==> |names| == |Contents|
    {
      var always := (e: Entry<P>) => true;
      var visited := Each(reg, always);
      VisitAllAccepted(Declared(reg.State(), tag), Contents, always);
      names := [];
      for k := 0 to |visited|
        invariant |names| == k
        invariant forall m :: 0 <= m < k ==> names[m] == visited[m].name
      {
        names := names + [visited[k].name];
      }
      if forall o :: o in Contents ==> o < reg.Size(tag) {
        InSetCountsAll(Declared(reg.State(), tag), Contents);
      }
    }
  }

  // ---------------------------------------------------------------------
  // The shift as written
  // ---------------------------------------------------------------------

  /** addIdx with the literal `uint64(1) << ordinal`: the new words and whether the word changed. */
  function AddAsWritten(words: seq<uint64>, o: nat): (seq<uint64>, bool)
    requires o / 64 < |words|
  {
    var w := Or(words[o / 64], ShiftOne(o));
    (words[o / 64 := w], w != words[o / 64])
  }

  /** removeIdx with the literal `^(uint64(1) << ordinal)`. */
  function RemoveAsWritten(words: seq<uint64>, o: nat): (seq<uint64>, bool)
    requires o / 64 < |words|
  {
    var w := And(words[o / 64], Not(ShiftOne(o)));
    (words[o / 64 := w], w != words[o / 64])
  }

  /** Contains's test with the literal `uint64(1) << ordinal`. */
  predicate ContainsAsWritten(words: seq<uint64>, o: nat)
    requires o / 64 < |words|
  {
    And(words[o / 64], ShiftOne(o)) != 0
  }

  /** In the first word the literal shift is the documented one. */
  lemma AsWrittenAgreesBelow64(words: seq<uint64>, o: nat)
    requires o < 64 && 0 < |words|
    ensures AddAsWritten(words, o) == (words[0 := Or(words[0], Mask(o))], o !in Members(words))
    ensures RemoveAsWritten(words, o) == (words[0 := And(words[0], Not(Mask(o)))], o in Members(words))
    ensures ContainsAsWritten(words, o) <==> o in Members(words)
  {
    assert o / 64 == 0 && ShiftOne(o) == Mask(o);
    MemberAt(words, o);
    OrChanges(words[0], o);
    AndNotChanges(words[0], o);
    MaskedIsZero(words[0], o);
  }

  /**
   * From ordinal 64 on, the literal shift is zero: adding and removing leave
   * the words as they are and report no change, and Contains reports the
   * ordinal absent.
   */
  lemma AsWrittenIgnoresHighOrdinals(words: seq<uint64>, o: nat)
    requires 64 <= o && o / 64 < |words|
    ensures AddAsWritten(words, o) == (words, false)
    ensures RemoveAsWritten(words, o) == (words, false)
    ensures !ContainsAsWritten(words, o)
  {
    var i := o / 64;
    assert ShiftOne(o) == 0;
    OrZero(words[i]);
    AndAllOnes(words[i]);
    AndZero(words[i]);
    assert words[i := words[i]] == words;
  }

  /**
   * The smallest case: in a two-word set, adding ordinal 64 as written
   * reports false and leaves 64 out, where the documented layout adds it.
   */
  lemma AddOf64AsWritten()
    ensures !AddAsWritten([0, 0], 64).1 && 64 !in Members(AddAsWritten([0, 0], 64).0)
    ensures 64 in Members([0, 0][1 := Or(0, Mask(64))])
  {
    AsWrittenIgnoresHighOrdinals([0, 0], 64);
    ZerosAreEmpty([0, 0]);
    SetBitAdds([0, 0], 64, 0);
  }
}

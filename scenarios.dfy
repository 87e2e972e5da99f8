/**
 * Small clients of the model that replay what the repository's own tests
 * check: the duplicate-name panic, same-named instances of two types, Clone's
 * independent storage, and the counts AddRange and RemoveRange report.
 */
module Scenarios {
  import opened Wrappers
  import opened Bits
  import opened Enums
  import opened EnumSets

  /** Registering "Owner" twice for one type panics the second time. */
  method DuplicateNamePanics() returns (first: Result<Entry<int>>, second: Result<Entry<int>>)
    ensures first.Ok? && first.value.name == "Owner" && first.value.ordinal == 0
    ensures second == Panic("Enum must be unique")
  {
    var reg := new Registry<int>(0);
    first := reg.NewEnum("Role", "Owner", []);
    assert Declared(reg.State(), "Role")[0].name == "Owner";
    second := reg.NewEnum("Role", "Owner", []);
  }

  /** "Created" of two different types: same name, distinct and not Equals, each found under its own type. */
  method SameNameTwoTypes() returns (a: Entry<int>, b: Entry<int>)
    ensures a.name == b.name == "Created" && a.tag != b.tag && !a.Equals(b)
  {
    var reg := new Registry<int>(0);
    var ra := reg.NewEnum("pkga.State", "Created", []);
    assert !HasName(reg.State(), "pkgb.State", "Created");
    var rb := reg.NewEnum("pkgb.State", "Created", []);
    a, b := ra.value, rb.value;
  }

  /** Adding to a clone leaves the original as it was. */
  method CloneIsIndependent<P>(s: UnsafeEnumSet<P>, e: Entry<P>) returns (c: UnsafeEnumSet<P>)
    requires s.Valid() && e.tag == s.tag && e.ordinal / 64 < s.elements.Length
    ensures fresh(c) && c.Valid()
    ensures c.Contents == s.Contents + {e.ordinal}
    ensures s.Contents == old(s.Contents) && s.len == old(s.len) && s.elements[..] == old(s.elements[..])
  {
    c := new UnsafeEnumSet<P>.Clone(s);
    var _ := c.Add(e);
  }

  /** The set arithmetic behind RangeCounts: ordinals 16..19 against the members 0 and 17. */
  lemma RangeCountSets()
    ensures Span(16, 20) == {16, 17, 18, 19}
    ensures |Span(16, 20) - {0, 17}| == 3 && |{0, 17} + Span(16, 20)| == 5
    ensures ({0, 17} + Span(16, 20)) - Span(16, 20) == {0}
    ensures |Span(16, 20) * ({0, 17} + Span(16, 20))| == 4
  {
    var s := Span(16, 20);
    assert s == {16, 17, 18, 19};
    assert s - {0, 17} == {16, 18, 19};
    assert {0, 17} + s == {0, 16, 17, 18, 19};
    assert s * ({0, 17} + s) == s;
  }

  /**
   * The range counts: with ordinals 0 and 17 present, adding 16..19 reports
   * the 3 that were missing and the count `mid` reaches 5; removing 16..19 then
   * reports all 4 and leaves ordinal 0 alone.
   */
  method RangeCounts<P>(s: UnsafeEnumSet<P>, comm: Entry<P>, range: Entry<P>) returns (added: nat, mid: nat, removed: nat)
    requires s.Valid() && s.Contents == {0, 17} && 19 / 64 < s.elements.Length
    requires comm.tag == s.tag && range.tag == s.tag && comm.ordinal == 16 && range.ordinal == 19
    modifies s, s.elements
    ensures added == 3 && mid == 5
    ensures removed == 4 && s.len == 1 && s.Contents == {0}
  {
    RangeCountSets();
    added := s.AddRange(comm, range);
    mid := s.Len();
    removed := s.RemoveRange(comm, range);
  }
}

/**
 * Go's `uint64` words and the bit operations UnsafeEnumSet applies to them,
 * and sequences of words read as sets of ordinals. Ordinal `o` lives in word
 * `o / 64`, at bit `o % 64` of that word; low bits hold low ordinals.
 *
 * Bits are defined arithmetically: bit `j` of `w` is the last binary digit of
 * `w` halved `j` times, and `|`, `&` are computed digit by digit over the low
 * `n` digits, so every fact below is proved by induction on the digits.
 */
module Bits {

  /** Go's `uint64`. */
  newtype uint64 = x: int | 0 <= x < 0x1_0000_0000_0000_0000

  // ---------------------------------------------------------------------
  // Binary digits of naturals
  // ---------------------------------------------------------------------

  function Pow2(n: nat): (r: nat)
    ensures r >= 1
  {
    if n == 0 then 1 else 2 * Pow2(n - 1)
  }

  lemma {:induction false} Pow2Sum(a: nat, b: nat)
    ensures Pow2(a + b) == Pow2(a) * Pow2(b)
    decreases a
  {
    if a > 0 {
      Pow2Sum(a - 1, b);
    }
  }

  /** A `uint64` holds exactly the naturals below `2^64`. */
  lemma Pow2Word()
    ensures Pow2(64) == 0x1_0000_0000_0000_0000
  {
    assert Pow2(1) == 2;
    Pow2Sum(1, 1);
    assert Pow2(2) == 4;
    Pow2Sum(2, 2);
    assert Pow2(4) == 16;
    Pow2Sum(4, 4);
    assert Pow2(8) == 0x100;
    Pow2Sum(8, 8);
    assert Pow2(16) == 0x1_0000;
    Pow2Sum(16, 16);
    assert Pow2(32) == 0x1_0000_0000;
    Pow2Sum(32, 32);
  }

  lemma {:induction false} Pow2Grows(i: nat, j: nat)
    requires i <= j
    ensures Pow2(i) <= Pow2(j)
    decreases j
  {
    if i < j {
      Pow2Grows(i, j - 1);
    }
  }

  /** Binary digit `j` of `w`, counting from the least significant. */
  predicate Bit(w: nat, j: nat)
    decreases j
  {
    if j == 0 then w % 2 == 1 else Bit(w / 2, j - 1)
  }

  /** The low `n` digits of `a | b`. */
  function OrBits(a: nat, b: nat, n: nat): nat
    decreases n
  {
    if n == 0 then 0
    else 2 * OrBits(a / 2, b / 2, n - 1) + (if a % 2 == 1 || b % 2 == 1 then 1 else 0)
  }

  /** The low `n` digits of `a & b`. */
  function AndBits(a: nat, b: nat, n: nat): nat
    decreases n
  {
    if n == 0 then 0
    else 2 * AndBits(a / 2, b / 2, n - 1) + (if a % 2 == 1 && b % 2 == 1 then 1 else 0)
  }

  /** `n` digits fit below `2^n`. */
  lemma {:induction false} OrBitsBound(a: nat, b: nat, n: nat)
    ensures OrBits(a, b, n) < Pow2(n)
    decreases n
  {
    if n > 0 {
      OrBitsBound(a / 2, b / 2, n - 1);
    }
  }

  lemma {:induction false} AndBitsBound(a: nat, b: nat, n: nat)
    ensures AndBits(a, b, n) < Pow2(n)
    decreases n
  {
    if n > 0 {
      AndBitsBound(a / 2, b / 2, n - 1);
    }
  }

  lemma {:induction false} ZeroBits(j: nat)
    ensures !Bit(0, j)
    decreases j
  {
    if j > 0 {
      ZeroBits(j - 1);
    }
  }

  /** The last digit of `2x + d` is `d`, the rest is `x`. */
  lemma LastDigit(x: nat, d: nat)
    requires d < 2
    ensures (2 * x + d) / 2 == x && (2 * x + d) % 2 == d
  {
  }

  lemma {:induction false} OrBitsAt(a: nat, b: nat, n: nat, j: nat)
    requires j < n
    ensures Bit(OrBits(a, b, n), j) == (Bit(a, j) || Bit(b, j))
    decreases n
  {
    var d := if a % 2 == 1 || b % 2 == 1 then 1 else 0;
    LastDigit(OrBits(a / 2, b / 2, n - 1), d);
    if j > 0 {
      OrBitsAt(a / 2, b / 2, n - 1, j - 1);
    }
  }

  lemma {:induction false} AndBitsAt(a: nat, b: nat, n: nat, j: nat)
    requires j < n
    ensures Bit(AndBits(a, b, n), j) == (Bit(a, j) && Bit(b, j))
    decreases n
  {
    var d := if a % 2 == 1 && b % 2 == 1 then 1 else 0;
    LastDigit(AndBits(a / 2, b / 2, n - 1), d);
    if j > 0 {
      AndBitsAt(a / 2, b / 2, n - 1, j - 1);
    }
  }

  /** `2^n - 1 - m` flips each of the low `n` digits of `m`. */
  lemma {:induction false} ComplementBits(m: nat, n: nat, j: nat)
    requires m < Pow2(n) && j < n
    ensures Bit(Pow2(n) - 1 - m, j) == !Bit(m, j)
    decreases n
  {
    var q, r := m / 2, m % 2;
    assert m == 2 * q + r;
    assert q < Pow2(n - 1);
    assert Pow2(n) - 1 - m == 2 * (Pow2(n - 1) - 1 - q) + (1 - r);
    LastDigit(Pow2(n - 1) - 1 - q, 1 - r);
    if j > 0 {
      ComplementBits(q, n - 1, j - 1);
    }
  }

  /** `2^k` has digit `k` and no other. */
  lemma {:induction false} Pow2Bits(k: nat, j: nat)
    ensures Bit(Pow2(k), j) == (j == k)
    decreases k
  {
    if k == 0 {
      if j > 0 {
        ZeroBits(j - 1);
      }
    } else if j > 0 {
      Pow2Bits(k - 1, j - 1);
    }
  }

  /** Two naturals below `2^n` with the same low `n` digits are equal. */
  lemma {:induction false} BitsDetermine(a: nat, b: nat, n: nat)
    requires a < Pow2(n) && b < Pow2(n)
    requires forall j: nat :: j < n ==> Bit(a, j) == Bit(b, j)
    ensures a == b
    decreases n
  {
    if n > 0 {
      assert Bit(a, 0) == Bit(b, 0);
      forall j: nat | j < n - 1 ensures Bit(a / 2, j) == Bit(b / 2, j) {
        assert Bit(a, j + 1) == Bit(b, j + 1);
      }
      BitsDetermine(a / 2, b / 2, n - 1);
    }
  }

  // ---------------------------------------------------------------------
  // Go's operators on uint64
  // ---------------------------------------------------------------------

  /** `a | b`. */
  function Or(a: uint64, b: uint64): uint64
  {
    Pow2Word();
    OrBitsBound(a as int, b as int, 64);
    OrBits(a as int, b as int, 64) as uint64
  }

  /** `a & b`. */
  function And(a: uint64, b: uint64): uint64
  {
    Pow2Word();
    AndBitsBound(a as int, b as int, 64);
    AndBits(a as int, b as int, 64) as uint64
  }

  /** `^a`, the bitwise complement. */
  function Not(a: uint64): uint64
  {
    0xFFFF_FFFF_FFFF_FFFF - a
  }

  /** `uint64(1) << s`: Go shifts the one out of the word once `s` reaches 64. */
  function ShiftOne(s: nat): uint64
  {
    if s < 64 then
      Pow2Grows(s, 63);
      Pow2Word();
      Pow2(s) as uint64
    else
      0
  }

  /** Bit `j` of the word `w`. */
  predicate WordBit(w: uint64, j: nat)
  {
    Bit(w as int, j)
  }

  lemma OrAt(a: uint64, b: uint64, j: nat)
    requires j < 64
    ensures WordBit(Or(a, b), j) == (WordBit(a, j) || WordBit(b, j))
  {
    OrBitsAt(a as int, b as int, 64, j);
  }

  lemma AndAt(a: uint64, b: uint64, j: nat)
    requires j < 64
    ensures WordBit(And(a, b), j) == (WordBit(a, j) && WordBit(b, j))
  {
    AndBitsAt(a as int, b as int, 64, j);
  }

  lemma NotAt(a: uint64, j: nat)
    requires j < 64
    ensures WordBit(Not(a), j) == !WordBit(a, j)
  {
    Pow2Word();
    ComplementBits(a as int, 64, j);
  }

  /** `uint64(1) << s` for `s < 64` has bit `s` and no other. */
  lemma ShiftOneAt(s: nat, j: nat)
    requires s < 64
    ensures WordBit(ShiftOne(s), j) == (j == s)
  {
    Pow2Bits(s, j);
  }

  lemma ZeroAt(j: nat)
    ensures !WordBit(0, j)
  {
    ZeroBits(j);
  }

  /** Words with the same 64 bits are equal. */
  lemma WordsEqual(a: uint64, b: uint64)
    requires forall j: nat :: j < 64 ==> WordBit(a, j) == WordBit(b, j)
    ensures a == b
  {
    Pow2Word();
    var x: nat, y: nat := a as int, b as int;
    forall j: nat | j < 64 ensures Bit(x, j) == Bit(y, j) {
      assert WordBit(a, j) == WordBit(b, j);
    }
    BitsDetermine(x, y, 64);
  }

  /** `x & y == x` holds exactly when every bit set in `x` is set in `y`. */
  lemma WordCovered(x: uint64, y: uint64)
    ensures And(x, y) == x <==> forall j: nat :: j < 64 && WordBit(x, j) ==> WordBit(y, j)
  {
    if forall j: nat :: j < 64 && WordBit(x, j) ==> WordBit(y, j) {
      forall j: nat | j < 64 ensures WordBit(And(x, y), j) == WordBit(x, j) {
        AndAt(x, y, j);
      }
      WordsEqual(And(x, y), x);
    } else {
      var j: nat :| j < 64 && WordBit(x, j) && !WordBit(y, j);
      AndAt(x, y, j);
    }
  }

  /** `x | 0 == x`. */
  lemma OrZero(x: uint64)
    ensures Or(x, 0) == x
  {
    forall j: nat | j < 64 ensures WordBit(Or(x, 0), j) == WordBit(x, j) {
      OrAt(x, 0, j);
      ZeroAt(j);
    }
    WordsEqual(Or(x, 0), x);
  }

  /** `x & ^0 == x`. */
  lemma AndAllOnes(x: uint64)
    ensures And(x, Not(0)) == x
  {
    forall j: nat | j < 64 ensures WordBit(And(x, Not(0)), j) == WordBit(x, j) {
      AndAt(x, Not(0), j);
      NotAt(0, j);
      ZeroAt(j);
    }
    WordsEqual(And(x, Not(0)), x);
  }

  /** `x & 0 == 0`. */
  lemma AndZero(x: uint64)
    ensures And(x, 0) == 0
  {
    forall j: nat | j < 64 ensures WordBit(And(x, 0), j) == WordBit(0, j) {
      AndAt(x, 0, j);
      ZeroAt(j);
    }
    WordsEqual(And(x, 0), 0);
  }

  // ---------------------------------------------------------------------
  // Ordinals within a word
  // ---------------------------------------------------------------------

  /** `uint64(1) << (ordinal % 64)`: the mask of ordinal `o` within its word. */
  function Mask(o: nat): uint64
  {
    ShiftOne(o % 64)
  }

  /** The bit of ordinal `o` is set in `w`. */
  predicate HasBit(w: uint64, o: nat)
  {
    WordBit(w, o % 64)
  }

  lemma MaskAt(o: nat, j: nat)
    ensures WordBit(Mask(o), j) == (j == o % 64)
  {
    ShiftOneAt(o % 64, j);
  }

  /** `w | Mask(o)` holds what `w` holds and the position of `o`. */
  lemma OrBit(w: uint64, o: nat, p: nat)
    ensures HasBit(Or(w, Mask(o)), p) == (HasBit(w, p) || o % 64 == p % 64)
  {
    OrAt(w, Mask(o), p % 64);
    MaskAt(o, p % 64);
  }

  /** `w & ^Mask(o)` loses exactly the position of `o`. */
  lemma AndNotBit(w: uint64, o: nat, p: nat)
    ensures HasBit(And(w, Not(Mask(o))), p) == (HasBit(w, p) && o % 64 != p % 64)
  {
    AndAt(w, Not(Mask(o)), p % 64);
    NotAt(Mask(o), p % 64);
    MaskAt(o, p % 64);
  }

  /** `|=` changes the word exactly when the bit of `o` was clear. */
  lemma OrChanges(w: uint64, o: nat)
    ensures (Or(w, Mask(o)) != w) == !HasBit(w, o)
  {
    if HasBit(w, o) {
      forall j: nat | j < 64 ensures WordBit(Or(w, Mask(o)), j) == WordBit(w, j) {
        OrAt(w, Mask(o), j);
        MaskAt(o, j);
      }
      WordsEqual(Or(w, Mask(o)), w);
    } else {
      OrBit(w, o, o);
    }
  }

  /** `&= ^` changes the word exactly when the bit of `o` was set. */
  lemma AndNotChanges(w: uint64, o: nat)
    ensures (And(w, Not(Mask(o))) != w) == HasBit(w, o)
  {
    if HasBit(w, o) {
      AndNotBit(w, o, o);
    } else {
      forall j: nat | j < 64 ensures WordBit(And(w, Not(Mask(o))), j) == WordBit(w, j) {
        AndAt(w, Not(Mask(o)), j);
        NotAt(Mask(o), j);
        MaskAt(o, j);
      }
      WordsEqual(And(w, Not(Mask(o))), w);
    }
  }

  /** `w & Mask(o) == 0` holds exactly when the bit of `o` is clear. */
  lemma MaskedIsZero(w: uint64, o: nat)
    ensures (And(w, Mask(o)) == 0) == !HasBit(w, o)
  {
    if HasBit(w, o) {
      AndAt(w, Mask(o), o % 64);
      MaskAt(o, o % 64);
      ZeroAt(o % 64);
    } else {
      forall j: nat | j < 64 ensures WordBit(And(w, Mask(o)), j) == WordBit(0, j) {
        AndAt(w, Mask(o), j);
        MaskAt(o, j);
        ZeroAt(j);
      }
      WordsEqual(And(w, Mask(o)), 0);
    }
  }

  // ---------------------------------------------------------------------
  // Sequences of words as sets of ordinals
  // ---------------------------------------------------------------------

  /** The number of words for `size` ordinals: `(size + 63) >> 6`, `size / 64` rounded up. */
  function WordCount(size: nat): (n: nat)
    ensures size <= 64 * n < size + 64
  {
    (size + 63) / 64
  }

  /** The ordinals below `n` whose bit is set in the words. */
  ghost function MembersBelow(words: seq<uint64>, n: nat): set<nat>
    requires n <= 64 * |words|
    decreases n
  {
    if n == 0 then {}
    else MembersBelow(words, n - 1) + (if HasBit(words[(n - 1) / 64], n - 1) then {n - 1} else {})
  }

  /** The ordinals a sequence of words holds. */
  ghost function Members(words: seq<uint64>): set<nat>
  {
    MembersBelow(words, 64 * |words|)
  }

  /** Below `n`, the words set exactly the bits of the ordinals in `c`. */
  ghost predicate Agree(words: seq<uint64>, c: set<nat>, n: nat)
    requires n <= 64 * |words|
    decreases n
  {
    n == 0 || (Agree(words, c, n - 1) && ((n - 1 in c) == HasBit(words[(n - 1) / 64], n - 1)))
  }

  /** The words represent `c`: every ordinal of `c` lies within them and they agree with `c` throughout. */
  ghost predicate Represents(words: seq<uint64>, c: set<nat>)
  {
    (forall o :: o in c ==> o < 64 * |words|) && Agree(words, c, 64 * |words|)
  }

  /** Agreement below `n` is agreement at every ordinal below `n`. */
  lemma {:induction false} AgreeAt(words: seq<uint64>, c: set<nat>, n: nat)
    requires n <= 64 * |words|
    ensures Agree(words, c, n) <==> forall o: nat :: o < n ==> ((o in c) == HasBit(words[o / 64], o))
    decreases n
  {
    if n > 0 {
      AgreeAt(words, c, n - 1);
    }
  }

  /** The words represent exactly one set of ordinals: their members. */
  lemma RepresentsIff(words: seq<uint64>, c: set<nat>)
    ensures Represents(words, c) <==> c == Members(words)
  {
    AgreeAt(words, c, 64 * |words|);
    forall o: nat ensures o in Members(words) <==> o < 64 * |words| && HasBit(words[o / 64], o) {
      MemberIff(words, o);
    }
  }

  /** The ordinals `lo`, ..., `hi - 1`. */
  ghost function Span(lo: nat, hi: nat): (s: set<nat>)
    ensures forall o :: o in s <==> lo <= o < hi
    decreases hi
  {
    if hi <= lo then {} else Span(lo, hi - 1) + {hi - 1}
  }

  /** Below `n`, an ordinal is counted exactly when its bit is set. */
  lemma {:induction false} MembersBelowAt(words: seq<uint64>, n: nat, o: nat)
    requires n <= 64 * |words|
    ensures o in MembersBelow(words, n) <==> o < n && HasBit(words[o / 64], o)
    decreases n
  {
    if n > 0 {
      MembersBelowAt(words, n - 1, o);
    }
  }

  /** The words hold exactly the ordinals within them whose bit is set. */
  lemma MemberIff(words: seq<uint64>, o: nat)
    ensures o in Members(words) <==> o < 64 * |words| && HasBit(words[o / 64], o)
  {
    MembersBelowAt(words, 64 * |words|, o);
  }

  /** An ordinal within the words is a member exactly when its bit is set. */
  lemma MemberAt(words: seq<uint64>, o: nat)
    requires o / 64 < |words|
    ensures o in Members(words) <==> HasBit(words[o / 64], o)
  {
    MemberIff(words, o);
  }

  /** The members determine the words: two word sequences of one length with the same members are equal. */
  lemma MembersDetermine(a: seq<uint64>, b: seq<uint64>)
    requires |a| == |b| && Members(a) == Members(b)
    ensures a == b
  {
    forall i | 0 <= i < |a| ensures a[i] == b[i] {
      forall j: nat | j < 64 ensures WordBit(a[i], j) == WordBit(b[i], j) {
        var p: nat := 64 * i + j;
        assert p / 64 == i && p % 64 == j;
        MemberIff(a, p);
        MemberIff(b, p);
      }
      WordsEqual(a[i], b[i]);
    }
  }

  /** Two ordinals in the same word are equal exactly when their positions are. */
  lemma SameOrdinal(o: nat, p: nat)
    requires p / 64 == o / 64
    ensures (o % 64 == p % 64) == (o == p)
  {
  }

  /** Contains's test `w & (1 << (o % 64)) != 0`: the bit of `o` is set in `w`. */
  method TestBit(w: uint64, o: nat) returns (r: bool)
    ensures r == HasBit(w, o)
  {
    r := And(w, Mask(o)) != 0;
    MaskedIsZero(w, o);
  }

  /** addIdx's word update: `words[o >> 6] |= 1 << (o % 64)`. */
  function SetBit(words: seq<uint64>, o: nat): (r: seq<uint64>)
    requires o / 64 < |words|
    ensures |r| == |words|
  {
    words[o / 64 := Or(words[o / 64], Mask(o))]
  }

  /** removeIdx's word update: `words[o >> 6] &= ^(1 << (o % 64))`. */
  function ClearBit(words: seq<uint64>, o: nat): (r: seq<uint64>)
    requires o / 64 < |words|
    ensures |r| == |words|
  {
    words[o / 64 := And(words[o / 64], Not(Mask(o)))]
  }

  /** After addIdx's update, an ordinal is a member exactly when it was one or is `o`. */
  lemma SetBitAt(words: seq<uint64>, o: nat, p: nat)
    requires o / 64 < |words|
    ensures p in Members(SetBit(words, o)) <==> p in Members(words) || p == o
  {
    MemberIff(SetBit(words, o), p);
    MemberIff(words, p);
    if p / 64 == o / 64 {
      OrBit(words[o / 64], o, p);
      SameOrdinal(o, p);
    }
  }

  /** After removeIdx's update, an ordinal is a member exactly when it was one and is not `o`. */
  lemma ClearBitAt(words: seq<uint64>, o: nat, p: nat)
    requires o / 64 < |words|
    ensures p in Members(ClearBit(words, o)) <==> p in Members(words) && p != o
  {
    MemberIff(ClearBit(words, o), p);
    MemberIff(words, p);
    if p / 64 == o / 64 {
      AndNotBit(words[o / 64], o, p);
      SameOrdinal(o, p);
    }
  }

  /**
   * addIdx's update: the members grow by exactly `o`, and the word changes
   * exactly when `o` was absent.
   */
  lemma SetBitAdds(words: seq<uint64>, o: nat, w: uint64)
    requires o / 64 < |words| && words[o / 64] == w
    ensures Members(SetBit(words, o)) == Members(words) + {o}
    ensures |Members(SetBit(words, o))| == |Members(words)| + (if o in Members(words) then 0 else 1)
    ensures (Or(w, Mask(o)) != w) == (o !in Members(words))
  {
    forall p: nat ensures p in Members(SetBit(words, o)) <==> p in Members(words) + {o} {
      SetBitAt(words, o, p);
    }
    if o in Members(words) {
      assert Members(words) + {o} == Members(words);
    }
    MemberAt(words, o);
    OrChanges(w, o);
  }

  /**
   * removeIdx's update: the members shrink by exactly `o`, and the word
   * changes exactly when `o` was present.
   */
  lemma ClearBitRemoves(words: seq<uint64>, o: nat, w: uint64)
    requires o / 64 < |words| && words[o / 64] == w
    ensures Members(ClearBit(words, o)) == Members(words) - {o}
    ensures |Members(ClearBit(words, o))| == |Members(words)| - (if o in Members(words) then 1 else 0)
    ensures (And(w, Not(Mask(o))) != w) == (o in Members(words))
  {
    forall p: nat ensures p in Members(ClearBit(words, o)) <==> p in Members(words) - {o} {
      ClearBitAt(words, o, p);
    }
    if o in Members(words) {
      assert Members(words) == (Members(words) - {o}) + {o};
    }
    MemberAt(words, o);
    AndNotChanges(w, o);
  }

  /** All-zero words hold no ordinal. */
  lemma ZerosAreEmpty(words: seq<uint64>)
    requires forall i :: 0 <= i < |words| ==> words[i] == 0
    ensures Members(words) == {}
  {
    forall p: nat ensures p !in Members(words) {
      MemberIff(words, p);
      if p < 64 * |words| {
        ZeroAt(p % 64);
      }
    }
  }

  /** Word `i` of `a` is covered by word `i` of `b`: ContainsAll's `a[i] & b[i] == a[i]`. */
  ghost predicate Covers(a: seq<uint64>, b: seq<uint64>, i: nat)
    requires i < |a| && i < |b|
  {
    And(a[i], b[i]) == a[i]
  }

  /** The first `n` words of `a` are covered by those of `b`. */
  ghost predicate CoveredUpTo(a: seq<uint64>, b: seq<uint64>, n: nat)
    requires n <= |a| && n <= |b|
  {
    forall i :: 0 <= i < n ==> Covers(a, b, i)
  }

  /** One step of ContainsAll's loop: word `i`, read as `w` and `v`, passes the test. */
  lemma CoveredStep(a: seq<uint64>, b: seq<uint64>, i: nat, w: uint64, v: uint64)
    requires i < |a| && i < |b| && a[i] == w && b[i] == v
    requires CoveredUpTo(a, b, i) && And(w, v) == w
    ensures CoveredUpTo(a, b, i + 1)
  {
    assert Covers(a, b, i);
  }

  /** A word of `a`, read as `w`, not covered by the word `v` of `b` at the same index holds an ordinal missing from `b`. */
  lemma UncoveredWordHasMember(a: seq<uint64>, b: seq<uint64>, i: nat, w: uint64, v: uint64)
    requires i < |a| && i < |b| && a[i] == w && b[i] == v && And(w, v) != w
    ensures exists p :: p in Members(a) && p !in Members(b)
  {
    WordCovered(w, v);
    var j: nat :| j < 64 && WordBit(w, j) && !WordBit(v, j);
    var p: nat := 64 * i + j;
    assert p / 64 == i && p % 64 == j;
    MemberIff(a, p);
    MemberIff(b, p);
  }

  /** Words of `a` all covered by the words of `b` hold no ordinal missing from `b`. */
  lemma CoveredWordsAreSubset(a: seq<uint64>, b: seq<uint64>)
    requires |a| <= |b| && CoveredUpTo(a, b, |a|)
    ensures Members(a) <= Members(b)
  {
    forall p | p in Members(a) ensures p in Members(b) {
      MemberIff(a, p);
      var i := p / 64;
      assert Covers(a, b, i);
      WordCovered(a[i], b[i]);
      assert WordBit(a[i], p % 64);
      MemberAt(b, p);
    }
  }

  /**
   * ContainsAll's word test decides inclusion: when `a` has no more words than
   * `b`, covering word by word is the same as inclusion of the members.
   */
  lemma CoveredIsSubset(a: seq<uint64>, b: seq<uint64>)
    requires |a| <= |b|
    ensures CoveredUpTo(a, b, |a|) <==> Members(a) <= Members(b)
  {
    if CoveredUpTo(a, b, |a|) {
      CoveredWordsAreSubset(a, b);
    } else {
      var i :| 0 <= i < |a| && !Covers(a, b, i);
      UncoveredWordHasMember(a, b, i, a[i], b[i]);
    }
  }

  /** One more ordinal of AddRange's loop: adding `i` to the set `c` extends the range added to `c0`. */
  lemma AddRangeStep(c0: set<nat>, c: set<nat>, next: set<nat>, lo: nat, i: nat)
    requires lo <= i && c == c0 + Span(lo, i) && next == c + {i}
    ensures next == c0 + Span(lo, i + 1)
  {
    assert Span(lo, i + 1) == Span(lo, i) + {i};
  }

  /** One more ordinal of RemoveRange's loop: removing `i` from the set `c` extends the range removed from `c0`. */
  lemma RemoveRangeStep(c0: set<nat>, c: set<nat>, next: set<nat>, lo: nat, i: nat)
    requires lo <= i && c == c0 - Span(lo, i) && next == c - {i}
    ensures next == c0 - Span(lo, i + 1)
  {
    assert Span(lo, i + 1) == Span(lo, i) + {i};
  }

  /**
   * AddRange's loop has stopped at `hi`, `last + 1` or `lo` for an empty range:
   * `c0` has gained `lo .. last`, and the count gained is the number of them
   * that were missing.
   */
  lemma AddedRange(c0: set<nat>, c: set<nat>, lo: nat, last: nat, hi: nat, cnt: nat)
    requires hi == (if lo <= last then last + 1 else lo)
    requires c == c0 + Span(lo, hi) && |c| == |c0| + cnt
    ensures c == c0 + Span(lo, last + 1)
    ensures cnt == |Span(lo, last + 1) - c0|
  {
    if last < lo {
      assert Span(lo, hi) == {} == Span(lo, last + 1);
    }
    var s := Span(lo, last + 1);
    assert c == c0 + (s - c0);
  }

  /**
   * RemoveRange's loop has stopped at `hi`: `c0` has lost `lo .. last`, and
   * the count lost is the number of them that were members.
   */
  lemma RemovedRange(c0: set<nat>, c: set<nat>, lo: nat, last: nat, hi: nat, cnt: nat)
    requires hi == (if lo <= last then last + 1 else lo)
    requires c == c0 - Span(lo, hi) && |c| + cnt == |c0|
    ensures c == c0 - Span(lo, last + 1)
    ensures cnt == |Span(lo, last + 1) * c0|
  {
    if last < lo {
      assert Span(lo, hi) == {} == Span(lo, last + 1);
    }
    var s := Span(lo, last + 1);
    assert c0 == c + (s * c0);
  }

}

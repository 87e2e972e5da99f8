# goenum in Dafny

A model of the core of goenum, together with proofs about it. goenum is a Go library for enumerations with a fixed set of instances. The model covers two parts.

**The enum registry (`enum.go`).** Three process-wide maps hold the registry:
- name → instances of every type with that name;
- type → instances in declaration order;
- type → next ordinal.

`NewEnum` builds on these maps:
- It panics with "Enum must be unique" when the type already has an instance of that name.
- Otherwise it stamps the instance with the type's counter as its ordinal, bumps the counter and appends the instance to both lists.

On top of that registry sit the lookups `ValueOf`, `ValueOfIgnoreCase`, `Values`, `Size`, `GetEnumMap`, `EnumNames`, `GetEnums` (all-or-nothing) and `IsValidEnum`, plus the identity methods `Equals` and `Compare`.

**The bit set `UnsafeEnumSet` (`enum_set.go`).** A set of instances of one type, stored as `(Size + 63) >> 6` packed `uint64` words indexed by ordinal, with a running member count. It supports:
- `Add`/`Remove` and `AddRange`/`RemoveRange`, which report what actually changed;
- `Contains`, the word-by-word subset test `ContainsAll`, and `Equals`;
- `Clear`, `Clone`, and the ordered walks `Each`/`Names`.

Layout of the Dafny files:
- `wrappers.dfy` (`Wrappers`): `Option`, and `Result`, whose `Panic` case stands for Go's `panic`.
- `enum.dfy` (`Enums`):
  - the `Entry` datatype: name, type tag, ordinal and payload;
  - the registry as a value (`Tables`), with its invariant `WellFormed` and the pure lookups `Lookup`, `LookupFold` and `LookupAll`;
  - the `Registry` class, whose fields are the three maps and whose methods are the Go functions.
- `bits.dfy` (`Bits`):
  - Go's `uint64`: `|` and `&` defined digit by digit, `^a` as `2^64 - 1 - a` and `uint64(1) << s` as `2^s` (0 once `s` reaches 64), with lemmas (`OrAt`, `AndAt`, `NotAt`, `ShiftOneAt`) giving every operator's effect on each bit;
  - `Members(words)`, which reads a sequence of words as the set of ordinals whose bit is set, together with the facts the set operations rest on.
- `enum_set.dfy` (`EnumSets`):
  - the `UnsafeEnumSet` class, holding its words in an `array<uint64>` that is updated in place and a `len` field;
  - the ghost set `Contents`, with the invariant `Valid()`: the words represent `Contents` and `len == |Contents|`;
  - the literal shift of the source, modelled as written (see "## Findings").
- `scenarios.dfy` (`Scenarios`): clients that replay what the repository's tests check.

Go's type parameter `T` becomes an explicit string `tag`, standing for the map key `typeKey(T)`, and the model assumes that one tag belongs to one Go type; the type assertion `e.(T)` on a registered instance then becomes `e.tag == tag` (see "## Left out" for what this assumption excludes). The payload fields of the caller's enum struct are a type parameter `P`, and Go's zero value of `T` is the registry's `zero`.

## Model

| member | source | states |
|---|---|---|
| Enums.Entry.Equals | enum.go:38-43 | Equals: the names agree and then the types agree (its meaning among registered instances is EqualsIsIdentity) |
| Enums.Entry.Compare | enum.go:57-59 | Compare: the ordinal of the receiver minus that of the argument (its meaning is CompareFollowsDeclarationOrder) |
| Enums.EqualsIsIdentity | enum.go:38-43 | Equals compares name and type only; among registered instances it holds exactly when the two are the same instance |
| Enums.CompareFollowsDeclarationOrder | enum.go:57-59 | Compare of two instances of a type is the difference of their positions in Values. It is negative exactly when the first was declared earlier, and zero exactly when the two are Equals |
| Enums.EmptyTables | enum.go:69-78 | the three maps start empty: no type has instances, every counter is 0, and the registry invariant holds |
| Enums.Registry.constructor | enum.go:69-78 | the registry object starts with the empty maps and satisfies its invariant |
| Enums.Registry.NewEnum | enum.go:82-120 | a name the type already has gives Panic("Enum must be unique") and leaves all three maps unchanged. Otherwise the result is the template's payload (or the zero value's) stamped with the name, the tag and the type's counter, and the maps are updated by Insert. The invariant is kept |
| Enums.Mint | enum.go:104-111 | the instance NewEnum builds: the given name, payload and tag, with the type's current counter as ordinal (proved to be the population in InsertKeepsWellFormed) |
| Enums.Insert | enum.go:109-118 | NewEnum's three map updates: the counter bumped, the instance appended to the type's list and to the name's list (properties in the InsertKeeps lemmas) |
| Enums.InsertKeepsWellFormed | enum.go:104-118 | registering a new name: the ordinal equals the type's counter and its population, the instance is appended to the type's list, the counter grows by exactly one, other types are unchanged, and the registry invariant still holds |
| Enums.InsertKeepsCounters | enum.go:104-111 | after the update, each type's counter still equals its population |
| Enums.InsertKeepsOrdinals | enum.go:104-117 | after the update, the instances of each type still carry ordinals 0..k-1 in list order |
| Enums.InsertKeepsNamesUnique | enum.go:83-85 | after the duplicate check, names stay unique within a type |
| Enums.InsertKeepsNameIndexComplete | enum.go:117-118 | every instance of every type is in the name map under its name |
| Enums.InsertKeepsNameIndexSound | enum.go:117-118 | the name map holds only registered instances, each under its own name |
| Enums.InsertKeepsRegistered | enum.go:117 | appending keeps every instance that was already registered at its place |
| Enums.LookupAfterInsert | enum.go:117-131 | after NewEnum registers `name` for a type, ValueOf finds the new instance there; every other (type, name) query answers as before |
| Enums.Lookup | enum.go:122-131 | ValueOf's answer is found exactly when the type has an instance of that name, and then carries that name |
| Enums.IndexOfName | enum.go:125-129 | the position of the first entry with the name; no earlier entry has it; None means no entry has it |
| Enums.Registry.ValueOf | enum.go:122-131 | scanning the instances under the name for the first of the type answers Lookup on the current maps |
| Enums.LookupFindsDeclared | enum.go:122-131 | round trip: every declared instance is found by ValueOf under its type and name |
| Enums.LookupIsRegistered | enum.go:124-128 | what ValueOf finds has the queried type and is registered |
| Enums.LookupFold | enum.go:136-144 | ValueOfIgnoreCase's answer folds to the query, and it is None exactly when no instance of the type folds to it |
| Enums.IndexOfFold | enum.go:138-142 | the first position in Values whose name folds to the query, or None when there is none |
| Enums.Registry.ValueOfIgnoreCase | enum.go:136-144 | the scan of Values answers LookupFold on the current maps |
| Enums.IgnoreCaseFindsExactMatches | enum.go:136-144 | whenever ValueOf finds an instance, ValueOfIgnoreCase finds one too. The found name folds to the query, and it was declared no later than the exact match |
| Enums.IgnoreCaseFindsCaseVariants | enum.go:136-144 | when no two names of the type fold together, every case variant of a name finds that instance |
| Enums.FoldAscii | enum.go:139 | the case folding of strings.EqualFold on ASCII letters: 'A'..'Z' to 'a'..'z', anything else unchanged |
| Enums.EqualFold | enum.go:139 | strings.EqualFold under ASCII folding: same length and equal folded characters (used by LookupFold, IgnoreCaseFindsCaseVariants, EqualFoldJoins) |
| Enums.EqualFoldJoins | enum.go:139 | two names that fold to the same query fold to each other |
| Enums.Registry.Values | enum.go:161-172 | the type's list, in ordinal order: entry `i` has the type and ordinal `i`, and the length is Size |
| Enums.Registry.Size | enum.go:174-178 | the length of the type's list is also its ordinal counter |
| Enums.Registry.GetEnumMap | enum.go:182-189 | the map agrees with ValueOf on every name, found or not, and has Size entries |
| Enums.MapByName | enum.go:183-188 | keying distinct-named instances by name: the keys are exactly their names, each maps to its instance, and no entry is lost |
| Enums.Registry.EnumNames | enum.go:193-201 | with no instances given, the names of Values in ordinal order; otherwise the names of the given instances in argument order |
| Enums.ResolveAll | enum.go:205-213 | GetEnums's loop over an arbitrary lookup: all keys resolved in order, or nothing once one fails (meaning in ResolveAllFound, ResolveAllAt, ResolveAllValues, ResolveAllStaysFailed) |
| Enums.LookupAll | enum.go:204-214 | GetEnums's answer: ResolveAll with ValueOf's Lookup (meaning in LookupAllMeaning) |
| Enums.Registry.GetEnums | enum.go:204-214 | the loop's answer is LookupAll on the current maps |
| Enums.LookupAllMeaning | enum.go:204-214 | GetEnums succeeds exactly when every name is an instance of the type. It then has one entry per name, in the names' order, each being ValueOf's answer for that name |
| Enums.LookupAllStep | enum.go:205-210 | one name of the loop: a failed ValueOf fails the whole batch, a found one extends the answer for the prefix |
| Enums.ResolveAllFound | enum.go:205-213 | all-or-nothing resolution succeeds exactly when every key resolves |
| Enums.ResolveAllAt | enum.go:205-213 | a successful resolution has one entry per key, and the `k`-th is the answer for the `k`-th key |
| Enums.ResolveAllValues | enum.go:205-213 | a successful resolution answers key by key, in order |
| Enums.ResolveAllStaysFailed | enum.go:207-208 | once a prefix fails, the whole list fails |
| Enums.Registry.IsValidEnum | enum.go:217-220 | true exactly when the type has an instance of that name |
| Bits.Or | enum_set.go:85 | `a \| b` on uint64, digit by digit; OrAt gives its effect on each bit |
| Bits.And | enum_set.go:106 | `a & b` on uint64, digit by digit; AndAt gives its effect on each bit |
| Bits.Not | enum_set.go:106 | `^a` on uint64 as `2^64 - 1 - a`; NotAt shows it flips every bit |
| Bits.ShiftOne | enum_set.go:85 | `uint64(1) << s`: `2^s` below 64 and 0 from 64 on, as Go defines it; ShiftOneAt shows it sets bit `s` only |
| Bits.Mask | enum_set.go:84 | the documented mask `1 << (o % 64)` of ordinal `o` within its word; MaskAt shows it sets bit `o % 64` only |
| Bits.SetBit | enum_set.go:82-85 | addIdx's update of word `o >> 6` with `\|=` the mask; its effect on the members is SetBitAdds |
| Bits.ClearBit | enum_set.go:104-106 | removeIdx's update of word `o >> 6` with `&= ^mask`; its effect on the members is ClearBitRemoves |
| Bits.WordCount | enum_set.go:52 | `(size + 63) >> 6` words hold `size` ordinals, with less than one word to spare |
| EnumSets.UnsafeEnumSet.constructor | enum_set.go:48-54 | a new set has WordCount(Size) zero words, no member and count 0 |
| Bits.ZerosAreEmpty | enum_set.go:48-54 | all-zero words hold no ordinal |
| EnumSets.UnsafeEnumSet.ContentsAreMembers | enum_set.go:59-63 | under the invariant, the members are exactly the ordinals whose bit is set in the words |
| Bits.RepresentsIff | enum_set.go:59-63 | the words represent exactly one set of ordinals: their members |
| Bits.AgreeAt | enum_set.go:59-63 | agreement of words and set below `n` is agreement at every ordinal below `n` |
| Bits.MembersBelowAt | enum_set.go:59-63 | below `n`, an ordinal is a member exactly when its bit is set |
| Bits.MemberIff | enum_set.go:59-63 | ordinal `o` is a member exactly when it lies within the words and bit `o % 64` of word `o >> 6` is set |
| Bits.MemberAt | enum_set.go:59-63 | an ordinal within the words is a member exactly when its bit is set |
| Bits.MembersDetermine | enum_set.go:59-63 | two word sequences of one length with the same members are equal, so Contents fixes the words |
| EnumSets.UnsafeEnumSet.Add | enum_set.go:76-78 | addIdx at the instance's ordinal |
| EnumSets.UnsafeEnumSet.AddIdx | enum_set.go:80-91 | the result is true exactly when the ordinal was absent; the members grow by exactly that ordinal; the count grows by one exactly when the result is true |
| Bits.SetBitAdds | enum_set.go:80-91 | OR-ing in the ordinal's mask adds exactly that ordinal, changes the word exactly when the ordinal was absent, and raises the member count by exactly that much |
| Bits.SetBitAt | enum_set.go:85 | after the update, an ordinal is a member exactly when it was one or is the added ordinal |
| Bits.OrChanges | enum_set.go:85-86 | `w \| mask` differs from `w` exactly when the bit was clear |
| EnumSets.UnsafeEnumSet.AddRange | enum_set.go:93-101 | every ordinal from `begin`'s to `end`'s, inclusive, is added. The result is the number of them that were missing, and the count grows by exactly that. Nothing changes when `begin` comes after `end` |
| EnumSets.UnsafeEnumSet.AddFrom | enum_set.go:94-100 | the loop adds the ordinals from `lo` up to `hi` and the count grows by the returned number |
| EnumSets.UnsafeEnumSet.AddNext | enum_set.go:95-98 | one iteration: ordinal `i` joins the range added so far, and the running count follows addIdx's answer |
| Bits.AddRangeStep | enum_set.go:95-98 | adding `i` to a set that has gained `lo..i-1` gives the set that has gained `lo..i` |
| Bits.AddedRange | enum_set.go:93-101 | at loop exit, the set has gained `begin..end`, and the count gained is the number of those ordinals that were missing |
| EnumSets.UnsafeEnumSet.RemoveIdx | enum_set.go:103-112 | the result is true exactly when the ordinal was present; the members lose exactly that ordinal; the count drops by one exactly when the result is true |
| Bits.ClearBitRemoves | enum_set.go:103-112 | AND-ing with the complement of the mask removes exactly that ordinal, changes the word exactly when the ordinal was present, and lowers the member count by exactly that much |
| Bits.ClearBitAt | enum_set.go:106 | after the update, an ordinal is a member exactly when it was one and is not the removed ordinal |
| Bits.AndNotChanges | enum_set.go:106-107 | `w & ^mask` differs from `w` exactly when the bit was set |
| EnumSets.UnsafeEnumSet.Remove | enum_set.go:114-116 | removeIdx at the instance's ordinal; removing an absent instance reports false and changes nothing |
| EnumSets.UnsafeEnumSet.RemoveRange | enum_set.go:118-126 | every ordinal from `begin`'s to `end`'s, inclusive, is removed. The result is the number of them that were members, and the count drops by exactly that |
| EnumSets.UnsafeEnumSet.RemoveFrom | enum_set.go:119-125 | the loop removes the ordinals from `lo` up to `hi` and the count drops by the returned number |
| EnumSets.UnsafeEnumSet.RemoveNext | enum_set.go:120-123 | one iteration: ordinal `i` joins the range removed so far, and the running count follows removeIdx's answer |
| Bits.RemoveRangeStep | enum_set.go:120-123 | removing `i` from a set that has lost `lo..i-1` gives the set that has lost `lo..i` |
| Bits.RemovedRange | enum_set.go:118-126 | at loop exit, the set has lost `begin..end`, and the count lost is the number of those ordinals that were members |
| EnumSets.UnsafeEnumSet.Len | enum_set.go:128-130 | the running count is the number of members |
| EnumSets.UnsafeEnumSet.IsEmpty | enum_set.go:132-134 | true exactly when there is no member |
| EnumSets.UnsafeEnumSet.Clear | enum_set.go:136-141 | every word is zero, there is no member and the count is 0; the invariant is kept |
| EnumSets.UnsafeEnumSet.Contains | enum_set.go:143-151 | true exactly when every given instance is a member; true when none is given |
| Bits.TestBit | enum_set.go:145 | `w & mask != 0` is true exactly when the ordinal's bit is set |
| Bits.MaskedIsZero | enum_set.go:145 | `w & mask == 0` exactly when the ordinal's bit is clear |
| EnumSets.UnsafeEnumSet.ContainsAll | enum_set.go:153-161 | the word-by-word test is true exactly when the other set's members are all members here |
| Bits.CoveredIsSubset | enum_set.go:155-160 | when `a` has no more words than `b`, `a[i] & b[i] == a[i]` for every word is the same as inclusion of the members |
| Bits.CoveredWordsAreSubset | enum_set.go:155-160 | covered words hold no ordinal missing from `b` |
| Bits.UncoveredWordHasMember | enum_set.go:156-158 | a word that fails the test holds an ordinal missing from `b` |
| Bits.CoveredStep | enum_set.go:155-159 | one passing word extends the covered prefix |
| Bits.WordCovered | enum_set.go:156 | `x & y == x` exactly when every bit of `x` is a bit of `y` |
| EnumSets.UnsafeEnumSet.Equals | enum_set.go:173-175 | ContainsAll both ways: true exactly when the two sets have the same members |
| EnumSets.InSet | enum_set.go:177-186 | the members among a list of instances, in list order: what Each walks when the callback accepts everything (properties in InSetSound, InSetComplete, InSetAscending, InSetCount) |
| EnumSets.Visit | enum_set.go:177-186 | what Each hands the callback: the members in order, up to and including the first refused one (properties in VisitIsPrefix, VisitAllAccepted) |
| EnumSets.UnsafeEnumSet.Each | enum_set.go:177-186 | the instances handed to the callback are Visit of the type's Values over the members |
| EnumSets.UnsafeEnumSet.EachOf | enum_set.go:179-185 | the loop with its early break hands the callback exactly Visit of the instances over the members |
| EnumSets.VisitStep | enum_set.go:179-185 | one iteration: a non-member is skipped, an accepted member is visited and passed, a refused member is visited last |
| EnumSets.VisitIsPrefix | enum_set.go:177-186 | Each visits a prefix of the members in order. Every visited instance except the last was accepted, and Each stops before the end only after a refusal |
| EnumSets.VisitAllAccepted | enum_set.go:188-195 | a callback that accepts everything sees every member, in order |
| EnumSets.InSetSound | enum_set.go:178-180 | over Values, the walk yields only members, each at its own ordinal's place |
| EnumSets.InSetComplete | enum_set.go:178-180 | over Values, the walk yields every member within the type's population |
| EnumSets.InSetAscending | enum_set.go:178-180 | over Values, the walk yields members by strictly ascending ordinal |
| EnumSets.UnsafeEnumSet.Names | enum_set.go:188-195 | the names of the members that are instances in Values, in ordinal order; when every member is below the type's Size (as every ordinal Go can add is), exactly one name per member |
| EnumSets.InSetCount | enum_set.go:178-180 | over Values from ordinal `base` on, the walk yields exactly as many instances as there are members in that ordinal range |
| EnumSets.InSetCountsAll | enum_set.go:178-180 | when all members are below the number of instances, the walk over Values yields one instance per member |
| EnumSets.UnsafeEnumSet.Clone | enum_set.go:197-205 | same type, size, count, words and members, in a freshly allocated array |
| EnumSets.AddAsWritten | enum_set.go:80-91 | addIdx with the literal `uint64(1) << ordinal`: the new words and whether the word changed |
| EnumSets.RemoveAsWritten | enum_set.go:103-112 | removeIdx with the literal `^(uint64(1) << ordinal)`: the new words and whether the word changed |
| EnumSets.ContainsAsWritten | enum_set.go:145 | Contains's test with the literal `uint64(1) << ordinal` |
| EnumSets.AsWrittenAgreesBelow64 | enum_set.go:85 | for ordinals below 64, the literal shift is the documented one for adding, removing and testing |
| EnumSets.AsWrittenIgnoresHighOrdinals | enum_set.go:85 | as written, from ordinal 64 on, adding and removing leave the words unchanged and report false, and Contains reports the ordinal absent |
| EnumSets.AddOf64AsWritten | enum_set.go:85 | in a two-word set, adding ordinal 64 as written reports false and leaves 64 out, whereas the documented layout adds it |
| Scenarios.DuplicateNamePanics | internal/role_enums_test.go:51-58 | registering "Owner" twice for one type gives the instance with ordinal 0, then Panic("Enum must be unique") |
| Scenarios.SameNameTwoTypes | internal/pkgb/state_enum_test.go:16-19 | two instances named "Created" of two different types have the same name, different types, and are not Equals |
| Scenarios.CloneIsIndependent | enum_set_test.go:65-71 | adding to a clone gives the original's members plus the added one, and leaves the original's members, count and words as they were |
| Scenarios.RangeCounts | enum_set_test.go:73-74 | with ordinals 0 and 17 present, AddRange over 16..19 reports 3 and Len right after it is 5. A following RemoveRange over the same range reports 4 and leaves only ordinal 0, with Len 1 |
| Scenarios.RangeCountSets | enum_set_test.go:73-74 | the set arithmetic behind those counts |

## Left out

- JSON and text output: `MarshalJSON`, `MarshalText`, `String` and `Unmarshal` are serialisation glue over `Name()` and `Names()`.
- One Go type per tag: Go keys all three maps by `typeKey(T)`, which is `reflect.Type.String()` (enum.go:222-224), and package-qualified names such as `pkgb.State` need not be unique in a binary. Two such types share one counter and one list in `type2enumsMap`, so the second type's ordinals do not start at 0 and both are counted together in `Size`; only the assertion `e.(T)` in ValueOf and Values (enum.go:126, enum.go:167) keeps them apart. The model gives each tag one type, which is what `Enums.OrdinalsContiguous` and the filter-free `Enums.Registry.Values` rely on; such a collision is not modelled.
- Reflection:
  - `typeKey`, `reflect.New` and `FieldByName` are left out, and so is embedding by pointer versus by value.
  - The type tag is a string parameter. `*T` and `T` are simply two tags.
  - Building the returned instance from the template is reduced to keeping the template's payload `src[0]`, or the zero value when there is none.
- Concurrency: the three maps are unsynchronised globals. The model is single-threaded.
- Unicode case folding: `strings.EqualFold` is modelled as ASCII-only folding (`Enums.FoldAscii`).
- Ordinals are `nat`, so a negative ordinal cannot arise. Go's `int` overflow of the counter is not modelled.
- `Enums.Entry.Compare` is the mathematical difference of the two ordinals. Overflow of Go's `int` subtraction is not modelled.
- The `cap` field of `UnsafeEnumSet` is never read or written by the source and is left out.
- Word indices out of range: in Go, an ordinal beyond the set's words (a type that grew after the set was made) is a runtime index panic, which is not modelled; instead the methods require words that are in range, in places more than Go reaches:
  - `AddIdx`, `Add`, `RemoveIdx`, `Remove`, `AddRange` and `RemoveRange` require the word of every ordinal they touch to be within the array.
  - `Contains` requires this for every given instance, even those after the first absent one, which Go never indexes.
  - `ContainsAll` requires `other` to have no more words than this set, and `Equals` requires the same number of words, although Go only indexes past the end when every earlier word passed.
  - `Each` and `Names` require the type's Size to fit in the set's words, since Go's Each asks Contains about every instance in Values.
- `EnumSets.UnsafeEnumSet.ContainsAll`: only the path for another `*UnsafeEnumSet` is modelled, because that is the only implementation of the set interface. The fallback through `Each` is left out.
- `EnumSets.UnsafeEnumSet.Each`: the callback is a pure function. Side effects of Go closures are not modelled, except the list that `Names` builds, which the model returns directly.
- `EnumSets.UnsafeEnumSet.AddIdx`, `EnumSets.UnsafeEnumSet.RemoveIdx`: the new words are stated through `Contents` and `Valid()` rather than as an explicit array. `Bits.MembersDetermine` shows that this fixes the words.
- nil versus empty slices and maps: a nil slice from `GetEnums` or `EnumNames` is the empty sequence, and GetEnums's `(nil, false)` is `None`.
- For a name that is missing, each method returns `None` where the Go function returns Go's zero value of `T`.

## Findings

| source | as written | input that shows it | evidently intended | confidence | as-written member | corrected member |
|---|---|---|---|---|---|---|
| enum_set.go:85, enum_set.go:106, enum_set.go:145 | `uint64(1) << ordinal` | two words `[0, 0]`, ordinal 64: Go's shift by 64 yields 0, so `Add` returns false and Contains stays false | `uint64(1) << (ordinal % 64)`, as the layout comment at enum_set.go:59-62 and the comment at enum_set.go:84 say | not executed | EnumSets.AsWrittenIgnoresHighOrdinals | Bits.SetBitAdds |

The rest of the model uses the documented layout (`Bits.Mask`). `EnumSets.AddOf64AsWritten` is the concrete case. `EnumSets.AsWrittenAgreesBelow64` shows that the two variants coincide for every ordinal below 64.

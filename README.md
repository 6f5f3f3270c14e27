# Memory-map classification, serial-addition identities and the PermittedSubclasses attribute

This project models three pieces of the JDK and proves properties of them in Dafny.

- **`MemMapPrinter`** (`mem_map_printer.dfy`) covers the Windows memory-map printer of HotSpot.
  - `ProcSmapsInfo` turns one region reported by the operating system into four short text codes: allocation protection, state, protection and type.
  - Each code is written into a 20-character `char` buffer.
  - `ProcSmapsSummary` accumulates the number of non-free regions and their total, committed and reserved sizes.
  - The buffers are Dafny arrays written in place, with the same index arithmetic as the source.
  - Each method is proved against a specification function: `ProtectString`, `StateString`, `TypeString`, and `AddMappingTo`/`AddMappings` for the counters.
  - DWORDs are integers below 2^32. Every flag the source tests with `&` is a single bit, so the test is written `HasBit`.
  - `unsigned` counters wrap modulo 2^32 and `size_t` counters modulo 2^64.
  - `sizeof(buffer)` inside the three string functions is the size of a pointer (8), because the array parameter decays. So every `snprintf` there keeps at most 7 characters, and the model renders hexadecimal text exactly that way.
- **`SerialAdditionCanonicalization`** (`serial_addition.dfy`, on top of `JavaArith` in `java_arith.dfy`) covers the C2 canonicalisation test.
  - Both `verifyResult` overloads are modelled.
  - Each `@Test` method becomes a lemma over every `int` or `long` operand.
  - Each lemma proves that `verifyResult` accepts the test's expression and that the expression equals the strength-reduced form in the test's comment.
  - Java arithmetic is two's complement with wrap-around, written with mathematical integers.
- **`PermittedSubclasses`** (`permitted_subclasses.dfy`) covers the class-file attribute of section 4.7.31 of the Java Virtual Machine Specification.
  - The attribute is a datatype with exactly the two implementations of the sealed interface: `Unbound`, built from class entries, and `Bound`, a record inside a class file read against its constant pool.
  - It includes the big-endian record layout, with round trips in both directions.
  - It includes the four factories.
  - It includes the rule that a class keeps only the last such attribute supplied.

`wrappers.dfy` holds `Option` and `Result`. `mod_arith.dfy` holds two facts about remainders.

## Model

Paths are relative to the repository root.

| member | source | states |
|---|---|---|
| MemMapPrinter.WriteString | src/hotspot/os/windows/memMapPrinter_windows.cpp:82 | `strncpy_s` of a text that fits: the buffer starts with the text and a NUL, and the rest of the buffer is unchanged |
| MemMapPrinter.StrLen | src/hotspot/os/windows/memMapPrinter_windows.cpp:112 | `strlen` is the length of the C string the buffer holds |
| MemMapPrinter.Snprintf | src/hotspot/os/windows/memMapPrinter_windows.cpp:111 | `snprintf` leaves a prefix of the formatted text, at most size - 1 characters long |
| MemMapPrinter.Hex | src/hotspot/os/windows/memMapPrinter_windows.cpp:111 | `%x` gives at least one lower-case hexadecimal digit and nothing else |
| MemMapPrinter.FirstMatch | src/hotspot/os/windows/memMapPrinter_windows.cpp:83-109 | the rule picked is one whose bit is set, and no earlier rule in the else-if order has its bit set |
| MemMapPrinter.BaseTextChain | src/hotspot/os/windows/memMapPrinter_windows.cpp:83-113 | the text before the modifiers follows the source's else-if chain: first set bit wins, then hex for a non-zero value, then the bare template |
| MemMapPrinter.FirstMatchWins | src/hotspot/os/windows/memMapPrinter_windows.cpp:83-109 | when rule k is the first whose bit is set, the result is that rule's text followed by the modifier letters |
| MemMapPrinter.HexProtectionShape | src/hotspot/os/windows/memMapPrinter_windows.cpp:110-112 | the hex fallback is exactly "(0x" + digits + ")" when there are at most 3 hex digits, and otherwise "(0x" + the first 4 digits with no ")"; it is 5 to 7 characters in all |
| MemMapPrinter.FourHexDigitsCut | src/hotspot/os/windows/memMapPrinter_windows.cpp:111 | protection 0x1000 comes out as "(0x1000" with no closing parenthesis, because of the pointer-sized bound |
| MemMapPrinter.NoUpdateRuleShadowed | src/hotspot/os/windows/memMapPrinter_windows.cpp:106-109 | the TARGETS_NO_UPDATE branch is never the first match: it tests the same bit as TARGETS_INVALID |
| MemMapPrinter.NoUpdateNeverShown | src/hotspot/os/windows/memMapPrinter_windows.cpp:106-109 | no protection string contains 'n' |
| MemMapPrinter.BaseTextLength | src/hotspot/os/windows/memMapPrinter_windows.cpp:81-113 | the base text is 4 to 7 characters long, so idx is 4 to 7 after the chain |
| MemMapPrinter.BaseTextChars | src/hotspot/os/windows/memMapPrinter_windows.cpp:82-113 | the base text contains only template, permission, marker and hex characters |
| MemMapPrinter.RuleTextSlots | src/hotspot/os/windows/memMapPrinter_windows.cpp:77-109 | every rule writes r, w and x only into slots IR, IW and IX |
| MemMapPrinter.BaseTextSlots | src/hotspot/os/windows/memMapPrinter_windows.cpp:77-113 | in the base text, r, w and x appear only in slots 0, 1 and 2 |
| MemMapPrinter.PermissionLettersInSlots | src/hotspot/os/windows/memMapPrinter_windows.cpp:77-123 | in the whole protection string, r, w and x appear only in slots 0, 1 and 2 |
| MemMapPrinter.ModifierLettersExact | src/hotspot/os/windows/memMapPrinter_windows.cpp:115-123 | G, C and W each appear exactly when their bit is set, at most once each, and in that order |
| MemMapPrinter.ProtectStringFits | src/hotspot/os/windows/memMapPrinter_windows.cpp:124-128 | the result is 4 to 10 characters with no NUL, so idx is never 0 and the terminating NUL stays inside the 20-character buffer |
| MemMapPrinter.CopyOnWriteMarker | src/hotspot/os/windows/memMapPrinter_windows.cpp:92-105 | both copy-on-write protections put exactly one 'c', at position 4 |
| MemMapPrinter.NoAccessText | src/hotspot/os/windows/memMapPrinter_windows.cpp:96-97 | PAGE_NOACCESS gives "(NA)", followed by modifier letters only |
| MemMapPrinter.WriteHexProtection | src/hotspot/os/windows/memMapPrinter_windows.cpp:110-112 | after `snprintf` and `strlen`, idx is 5 to 7 and the buffer before idx is the hex text |
| MemMapPrinter.WriteBaseProtection | src/hotspot/os/windows/memMapPrinter_windows.cpp:81-113 | after the template and the else-if chain, the buffer before idx is the base text and 4 <= idx <= 7 |
| MemMapPrinter.AppendChar | src/hotspot/os/windows/memMapPrinter_windows.cpp:116 | `buffer[idx++] = c` puts c after the text before idx and advances idx by one |
| MemMapPrinter.AppendModifierLetters | src/hotspot/os/windows/memMapPrinter_windows.cpp:115-123 | the modifier letters are appended at idx, idx advances by their number, and the earlier text is unchanged |
| MemMapPrinter.GetProtectString | src/hotspot/os/windows/memMapPrinter_windows.cpp:76-130 | the buffer holds the C string `ProtectString(prot)` |
| MemMapPrinter.HexCodeShape | src/hotspot/os/windows/memMapPrinter_windows.cpp:139 | the "0x%x" fallback is "0x" and 1 to 5 hex digits |
| MemMapPrinter.StateStringCodes | src/hotspot/os/windows/memMapPrinter_windows.cpp:131-142 | "c", "f" and "r" each mean exactly MEM_COMMIT, MEM_FREE or MEM_RESERVE; any other state is shown in hex; the text fits the buffer |
| MemMapPrinter.TypeStringCodes | src/hotspot/os/windows/memMapPrinter_windows.cpp:144-155 | "img", "map" and "prv" each mean exactly MEM_IMAGE, MEM_MAPPED or MEM_PRIVATE; any other type is shown in hex; the text fits the buffer |
| MemMapPrinter.GetStateString | src/hotspot/os/windows/memMapPrinter_windows.cpp:131-142 | the buffer holds the C string `StateString(state)` |
| MemMapPrinter.GetTypeString | src/hotspot/os/windows/memMapPrinter_windows.cpp:144-155 | the buffer holds the C string `TypeString(type)` |
| MemMapPrinter.ProcSmapsInfo.constructor | src/hotspot/os/windows/memMapPrinter_windows.cpp:43-55 | five fresh, distinct buffers of the declared sizes |
| MemMapPrinter.ProcSmapsInfo.FillCodes | src/hotspot/os/windows/memMapPrinter_windows.cpp:57-60 | the four code buffers hold the two protection strings, the state string and the type string |
| MemMapPrinter.ProcSmapsInfo.FillFileName | src/hotspot/os/windows/memMapPrinter_windows.cpp:61-71 | the file name is cleared; for an image region it is the module's file name, cut to the buffer |
| MemMapPrinter.ProcSmapsInfo.Process | src/hotspot/os/windows/memMapPrinter_windows.cpp:56-74 | all four codes and the file name are as specified, and rss is 0 |
| MemMapPrinter.UnsignedStep | src/hotspot/os/windows/memMapPrinter_windows.cpp:177 | incrementing an `unsigned` that has already wrapped gives the same result as wrapping once at the end |
| MemMapPrinter.SizeStep | src/hotspot/os/windows/memMapPrinter_windows.cpp:178-180 | adding to a `size_t` that has already wrapped gives the same result as wrapping once at the end |
| MemMapPrinter.AddMappingToWraps | src/hotspot/os/windows/memMapPrinter_windows.cpp:175-182 | one `add_mapping` on wrapped counters adds the region's count and sizes before the wrap |
| MemMapPrinter.AddMappingsWraps | src/hotspot/os/windows/memMapPrinter_windows.cpp:175-182 | after any sequence of `add_mapping` calls, each counter is its start plus the exact count or size sum of the regions, reduced to the counter's width |
| MemMapPrinter.CommittedAndReservedWithinTotal | src/hotspot/os/windows/memMapPrinter_windows.cpp:178-180 | the committed and reserved sums together never exceed the total size |
| MemMapPrinter.FreeRegionsIgnored | src/hotspot/os/windows/memMapPrinter_windows.cpp:176 | free regions change nothing: walking only the non-free regions gives the same counters |
| MemMapPrinter.ZeroStartWithinTotal | src/hotspot/os/windows/memMapPrinter_windows.cpp:175-182 | from zero, the mapping count is the number of non-free regions; while the total has not wrapped, committed + reserved <= total |
| MemMapPrinter.UninitialisedStartBreaksBound | src/hotspot/os/windows/memMapPrinter_windows.cpp:167-168 | starting from a garbage committed value of 1, one committed 4096-byte region gives committed > total |
| MemMapPrinter.ProcSmapsSummary.constructor | src/hotspot/os/windows/memMapPrinter_windows.cpp:167-174 | all four counters start at zero, no regions have been seen yet, and the page size and meminfo flag are as the operating system reported |
| MemMapPrinter.ProcSmapsSummary.AsWritten | src/hotspot/os/windows/memMapPrinter_windows.cpp:167-168 | the constructor as written: committed and reserved start from arbitrary values |
| MemMapPrinter.ProcSmapsSummary.AddMapping | src/hotspot/os/windows/memMapPrinter_windows.cpp:175-182 | the counters become `AddMappingTo` of the old counters; the region is recorded; the page size and meminfo flag are unchanged; the counters stay equal to the fold over all regions seen |
| MemMapPrinter.SummaryWithinTotal | src/hotspot/os/windows/memMapPrinter_windows.cpp:163-165 | a summary started at zero keeps committed + reserved within the total region size while the total has not wrapped |
| SerialAdditionCanonicalization.VerifyResultInt | test/hotspot/jtreg/compiler/c2/arithmeticCanonicalization/SerialAdditionCanonicalization.java:41-46 | the int check accepts exactly the observed values congruent to base * factor modulo 2^32; the narrowing `(int) factor` makes no difference |
| SerialAdditionCanonicalization.VerifyResultLong | test/hotspot/jtreg/compiler/c2/arithmeticCanonicalization/SerialAdditionCanonicalization.java:49-54 | the long check accepts exactly the observed values congruent to base * factor modulo 2^64 |
| SerialAdditionCanonicalization.VerifyResultIntAccepts | test/hotspot/jtreg/compiler/c2/arithmeticCanonicalization/SerialAdditionCanonicalization.java:41-46 | the wrapped int product passes the check |
| SerialAdditionCanonicalization.VerifyResultLongAccepts | test/hotspot/jtreg/compiler/c2/arithmeticCanonicalization/SerialAdditionCanonicalization.java:49-54 | the wrapped long product passes the check |
| SerialAdditionCanonicalization.WrapMatches | test/hotspot/jtreg/compiler/c2/arithmeticCanonicalization/SerialAdditionCanonicalization.java:43 | `expected != observed` fails exactly when observed is congruent to the exact product |
| SerialAdditionCanonicalization.SerialAdditionIsMultiplication | test/hotspot/jtreg/compiler/c2/arithmeticCanonicalization/SerialAdditionCanonicalization.java:135-136 | n left-to-right wrapping additions of a equal a * n with wrap-around, for either width |
| SerialAdditionCanonicalization.MulPlusOperand | test/hotspot/jtreg/compiler/c2/arithmeticCanonicalization/SerialAdditionCanonicalization.java:89 | a * c + a == a * (c + 1) with wrap-around |
| SerialAdditionCanonicalization.MulPlusMul | test/hotspot/jtreg/compiler/c2/arithmeticCanonicalization/SerialAdditionCanonicalization.java:107 | a * c + a * d == a * (c + d) with wrap-around |
| SerialAdditionCanonicalization.MulMinusMul | test/hotspot/jtreg/compiler/c2/arithmeticCanonicalization/SerialAdditionCanonicalization.java:117 | a * c - a * d == a * (c - d) with wrap-around |
| SerialAdditionCanonicalization.MulFactorCongruent | test/hotspot/jtreg/compiler/c2/arithmeticCanonicalization/SerialAdditionCanonicalization.java:179 | factors equal modulo 2^width give equal products (MAX + 1 behaves as MIN) |
| SerialAdditionCanonicalization.MulOne | test/hotspot/jtreg/compiler/c2/arithmeticCanonicalization/SerialAdditionCanonicalization.java:117 | a * 1 == a |
| SerialAdditionCanonicalization.NegIsMul | test/hotspot/jtreg/compiler/c2/arithmeticCanonicalization/SerialAdditionCanonicalization.java:198 | -a == a * -1 with wrap-around |
| JavaArith.ShlIsMul | test/hotspot/jtreg/compiler/c2/arithmeticCanonicalization/SerialAdditionCanonicalization.java:62 | a << n is a * 2^n with wrap-around for every shift below the width |
| SerialAdditionCanonicalization.AddTo3L | test/hotspot/jtreg/compiler/c2/arithmeticCanonicalization/SerialAdditionCanonicalization.java:61-64 | a + a + a passes `verifyResult(a, 3, ...)` and equals (a << 1) + a |
| SerialAdditionCanonicalization.AddTo4L | test/hotspot/jtreg/compiler/c2/arithmeticCanonicalization/SerialAdditionCanonicalization.java:70-73 | four additions pass with factor 4 and equal a << 2 |
| SerialAdditionCanonicalization.ShiftAndAddTo4L | test/hotspot/jtreg/compiler/c2/arithmeticCanonicalization/SerialAdditionCanonicalization.java:79-82 | (a << 1) + a + a passes with factor 4 and equals a << 2 |
| SerialAdditionCanonicalization.MulAndAddTo4L | test/hotspot/jtreg/compiler/c2/arithmeticCanonicalization/SerialAdditionCanonicalization.java:88-91 | a * 3 + a passes with factor 4 and equals a << 2 |
| SerialAdditionCanonicalization.AddTo5L | test/hotspot/jtreg/compiler/c2/arithmeticCanonicalization/SerialAdditionCanonicalization.java:97-100 | five additions pass with factor 5 and equal (a << 2) + a |
| SerialAdditionCanonicalization.AddTo6L | test/hotspot/jtreg/compiler/c2/arithmeticCanonicalization/SerialAdditionCanonicalization.java:106-109 | six additions pass with factor 6 and equal (a << 1) + (a << 2) |
| SerialAdditionCanonicalization.AddTo7L | test/hotspot/jtreg/compiler/c2/arithmeticCanonicalization/SerialAdditionCanonicalization.java:116-119 | seven additions pass with factor 7 and equal (a << 3) - a |
| SerialAdditionCanonicalization.AddTo8 | test/hotspot/jtreg/compiler/c2/arithmeticCanonicalization/SerialAdditionCanonicalization.java:125-128 | eight long additions pass with factor 8 and equal a << 3 |
| SerialAdditionCanonicalization.AddTo16 | test/hotspot/jtreg/compiler/c2/arithmeticCanonicalization/SerialAdditionCanonicalization.java:134-138 | sixteen int additions pass with factor 16 and equal a << 4 |
| SerialAdditionCanonicalization.AddTo42 | test/hotspot/jtreg/compiler/c2/arithmeticCanonicalization/SerialAdditionCanonicalization.java:144-151 | forty-two int additions pass with factor 42 and equal a * 42 |
| SerialAdditionCanonicalization.MulAndAddTo42 | test/hotspot/jtreg/compiler/c2/arithmeticCanonicalization/SerialAdditionCanonicalization.java:157-160 | a * 40 + a + a passes with factor 42 and equals a * 42 |
| SerialAdditionCanonicalization.MulAndAddToMax | test/hotspot/jtreg/compiler/c2/arithmeticCanonicalization/SerialAdditionCanonicalization.java:169-172 | a * (MAX - 1) + a passes with factor MAX, equals a * MAX and equals (a << 31) - a |
| SerialAdditionCanonicalization.MulAndAddToOverflow | test/hotspot/jtreg/compiler/c2/arithmeticCanonicalization/SerialAdditionCanonicalization.java:178-181 | a * MAX + a passes with factor MIN and equals a << 31 |
| SerialAdditionCanonicalization.MulAndAddToZero | test/hotspot/jtreg/compiler/c2/arithmeticCanonicalization/SerialAdditionCanonicalization.java:187-190 | a * -1 + a passes with factor 0 and is 0 |
| SerialAdditionCanonicalization.MulAndAddToMinus1 | test/hotspot/jtreg/compiler/c2/arithmeticCanonicalization/SerialAdditionCanonicalization.java:197-200 | a * -2 + a passes with factor -1, equals -a and equals a - (a << 1) |
| SerialAdditionCanonicalization.MulAndAddToMinus42 | test/hotspot/jtreg/compiler/c2/arithmeticCanonicalization/SerialAdditionCanonicalization.java:206-209 | a * -43 + a passes with factor -42 and equals a * -42 |
| SerialAdditionCanonicalization.MulAndAddToMaxL | test/hotspot/jtreg/compiler/c2/arithmeticCanonicalization/SerialAdditionCanonicalization.java:219-222 | a * (MAX - 1) + a passes with factor MAX, equals a * MAX and equals (a << 63) - a |
| SerialAdditionCanonicalization.MulAndAddToOverflowL | test/hotspot/jtreg/compiler/c2/arithmeticCanonicalization/SerialAdditionCanonicalization.java:228-231 | a * MAX + a passes with factor MIN and equals a << 63 |
| SerialAdditionCanonicalization.MaxCommentFormDiffers | test/hotspot/jtreg/compiler/c2/arithmeticCanonicalization/SerialAdditionCanonicalization.java:170 | the form (a << 31) - 1 named in the comment differs from a * MAX (and the same for long) |
| PermittedSubclasses.U2BytesOfRead | src/java.base/share/classes/java/lang/classfile/attribute/PermittedSubclassesAttribute.java:39 | two bytes re-encode to themselves as a big-endian u2 |
| PermittedSubclasses.U4BytesOfRead | src/java.base/share/classes/java/lang/classfile/attribute/PermittedSubclassesAttribute.java:39 | four bytes re-encode to themselves as a big-endian u4 |
| PermittedSubclasses.EncodePayload | src/java.base/share/classes/java/lang/classfile/attribute/PermittedSubclassesAttribute.java:39 | the payload is 2 + 2n bytes and starts with the count n; it fails with TooManyEntries exactly when n > 65535 |
| PermittedSubclasses.DecodePayload | src/java.base/share/classes/java/lang/classfile/attribute/PermittedSubclassesAttribute.java:39 | decoding succeeds exactly when the length is 2 + 2 * the count read; the result has that many classes; any other length is Malformed |
| PermittedSubclasses.DecodeEncodeIndices | src/java.base/share/classes/java/lang/classfile/attribute/PermittedSubclassesAttribute.java:39 | decoding encoded indices gives the classes back |
| PermittedSubclasses.EncodeDecodeIndices | src/java.base/share/classes/java/lang/classfile/attribute/PermittedSubclassesAttribute.java:39 | encoding decoded indices gives the bytes back |
| PermittedSubclasses.DecodeEncodePayload | src/java.base/share/classes/java/lang/classfile/attribute/PermittedSubclassesAttribute.java:39 | decode(encode(classes)) == classes, with order and duplicates kept |
| PermittedSubclasses.EncodeDecodePayload | src/java.base/share/classes/java/lang/classfile/attribute/PermittedSubclassesAttribute.java:39 | encode(decode(payload)) == payload for every well-formed payload |
| PermittedSubclasses.EmptyListPayload | src/java.base/share/classes/java/lang/classfile/attribute/PermittedSubclassesAttribute.java:39 | an empty list is written as a zero count and reads back as empty |
| PermittedSubclasses.ShortPayloadMalformed | src/java.base/share/classes/java/lang/classfile/attribute/PermittedSubclassesAttribute.java:39 | a count of 5 with only 3 indices present is Malformed |
| PermittedSubclasses.EncodeRecord | src/java.base/share/classes/java/lang/classfile/attribute/PermittedSubclassesAttribute.java:38-40 | the record is the name index, the u4 length 2 + 2n, then the payload; it fails exactly when n > 65535 |
| PermittedSubclasses.RecordAt | src/java.base/share/classes/java/lang/classfile/attribute/PermittedSubclassesAttribute.java:52-54 | a bound record is found exactly when its header and its declared length fit in the class file's bytes |
| PermittedSubclasses.Resolve | src/java.base/share/classes/java/lang/classfile/attribute/PermittedSubclassesAttribute.java:59 | the read classes are returned unchanged exactly when each index names a class entry of the pool; otherwise the error is PoolBounds for an offending index |
| PermittedSubclasses.BoundReadsWritten | src/java.base/share/classes/java/lang/classfile/attribute/PermittedSubclassesAttribute.java:52-59 | the record an unbound attribute writes for valid classes, placed anywhere in a class file, reads back through the bound variant's `permittedSubclasses()` as the same classes |
| PermittedSubclasses.BoundRoundTrip | src/java.base/share/classes/java/lang/classfile/attribute/PermittedSubclassesAttribute.java:52-54 | a bound attribute that reads successfully re-encodes to exactly the bytes of its record |
| PermittedSubclasses.PermittedSubclassesOf | src/java.base/share/classes/java/lang/classfile/attribute/PermittedSubclassesAttribute.java:59 | an unbound attribute returns the list it was built from; a bound one that reads successfully returns as many classes as its record's count, each naming a class entry of its pool |
| PermittedSubclasses.WriteTo | src/java.base/share/classes/java/lang/classfile/attribute/PermittedSubclassesAttribute.java:52-54 | an unbound attribute writes iff it has at most 65535 classes, and the bytes written carry the name index, a u4 length equal to the payload length, and a payload that decodes to its classes; the byte copy a bound attribute writes equals re-encoding the classes it reads |
| PermittedSubclasses.NonNull | src/java.base/share/classes/java/lang/classfile/attribute/PermittedSubclassesAttribute.java:65-67 | copying a list succeeds exactly when no element is null and keeps every element in place; a null gives NullEntry |
| PermittedSubclasses.Of | src/java.base/share/classes/java/lang/classfile/attribute/PermittedSubclassesAttribute.java:65-67 | `of(list)` succeeds iff no element is null (otherwise NullEntry), builds an unbound attribute, and its classes are the list itself, in order and with duplicates |
| PermittedSubclasses.OfVarargs | src/java.base/share/classes/java/lang/classfile/attribute/PermittedSubclassesAttribute.java:73-75 | `of(e1, ..., en)` equals `of([e1, ..., en])`, including the rejection of a null element |
| PermittedSubclasses.EntryList | src/java.base/share/classes/java/lang/classfile/attribute/PermittedSubclassesAttribute.java:82 | a successful conversion has one entry per descriptor; a failure is NullEntry or Unresolvable |
| PermittedSubclasses.EntryListResolves | src/java.base/share/classes/java/lang/classfile/attribute/PermittedSubclassesAttribute.java:82 | the conversion succeeds iff every descriptor is non-null and resolvable, and then entry i is descriptor i's class entry |
| PermittedSubclasses.OfSymbols | src/java.base/share/classes/java/lang/classfile/attribute/PermittedSubclassesAttribute.java:81-83 | `ofSymbols(list)` succeeds iff every descriptor is non-null and resolvable, its classes are then the descriptors' entries in order, and a failure is NullEntry or Unresolvable |
| PermittedSubclasses.OfSymbolsVarargs | src/java.base/share/classes/java/lang/classfile/attribute/PermittedSubclassesAttribute.java:89-92 | `ofSymbols(d1, ..., dn)` has the contract of `ofSymbols` on the list view of its arguments, which it only delegates to; a null argument makes it fail |
| PermittedSubclasses.FirstPermitted | src/java.base/share/classes/java/lang/classfile/attribute/PermittedSubclassesAttribute.java:44-46 | finds the position of the first PermittedSubclasses attribute, or reports that there is none |
| PermittedSubclasses.FirstPermittedAt | src/java.base/share/classes/java/lang/classfile/attribute/PermittedSubclassesAttribute.java:44-46 | the first PermittedSubclasses attribute is the one with none before it |
| PermittedSubclasses.WithAttribute | src/java.base/share/classes/java/lang/classfile/attribute/PermittedSubclassesAttribute.java:44-46 | adding a PermittedSubclasses attribute makes it the one the list holds, adding another attribute appends it to the others and keeps the PermittedSubclasses attribute, and a list with at most one such attribute keeps at most one |
| PermittedSubclasses.Collect | src/java.base/share/classes/java/lang/classfile/attribute/PermittedSubclassesAttribute.java:44-46 | a built class never holds two PermittedSubclasses attributes, the one it holds is the last one supplied (none if none was), and every other attribute supplied is kept in the order supplied |
| PermittedSubclasses.OthersUnchangedByReplace | src/java.base/share/classes/java/lang/classfile/attribute/PermittedSubclassesAttribute.java:45-46 | replacing one PermittedSubclasses attribute by another leaves the other attributes in place |
| PermittedSubclasses.TwoSuppliedSecondKept | src/java.base/share/classes/java/lang/classfile/attribute/PermittedSubclassesAttribute.java:45-46 | supplying two instances in turn leaves only the second |

## Left out

- The Windows API calls are not modelled: `GetCurrentProcess`, `GetModuleHandleEx`, `GetModuleFileName`, `GetProcessInformation`, `GetSystemInfo` and `VirtualQueryEx`. Their results are parameters instead:
  - the module file name, which is "" when the lookup fails;
  - the page size;
  - whether the application memory information could be read.
- The contents of `APP_MEMORY_INFORMATION` are not modelled, and neither is `ProcSmapsInfo`'s process handle.
- The region walk of `pd_print_all_mappings` is out. It is an operating-system loop. `AddMappings` and `ProcSmapsSummary.AddMapping` cover its effect on the summary.
- All printing is out: `ProcSmapsPrinter`, `print_on`, the column padding and the stray `printf` calls. They write to an output stream.
- `IP` is declared but never used in the source, so it is not modelled.
- The bounds that `strncpy_s` and `snprintf` take are not modelled as error paths. Every text written fits its buffer, as `ProtectStringFits`, `StateStringCodes` and `TypeStringCodes` show.
- `GetProtectString` does not model the `"0x%x"` fallback of the `idx == 0` branch. That branch is unreachable (`ProtectStringFits`), and the model proves the branch dead instead.
- Pointers are assumed to be 8 bytes (64-bit Windows). This fixes the `sizeof(buffer)` bound at 8.
- The `@IR` node-count annotations, `@Arguments` and `main` are out. They describe compiled code and the test framework, not the arithmetic. The random operand becomes a universally quantified `a`.
- The `AssertionError` of `verifyResult` is not modelled as an exception. The models return whether the check passes.
- The `Attribute` and `ClassElement` members that this interface inherits are out (attribute name, attribute mapper, traversal). The interface does not declare them.
- The internals of `BoundAttribute`, `UnboundAttribute` and `Util.entryList`, and of the constant-pool builder, are not part of this model. Specifically:
  - a `ClassEntry` is a pool index;
  - a parsed pool is a sequence of entry kinds;
  - the builder's resolution of descriptors is a map given as a parameter.
- `PermittedSubclasses.WriteTo`: only the same-pool path is modelled. Re-interning into a different constant pool belongs to the unseen pool builder.
- Where the surviving attribute sits among the others is a modelling choice. The collecting builder is not part of this model. The replacement takes the place of the earlier instance, and other kinds of attribute are appended without a single-instance rule of their own.
- The record's name index is not checked against the pool entry "PermittedSubclasses". Dispatch by name happens before the bound variant exists.

## Findings

| source | as written | input that shows it | evidently intended | confidence | as-written member | corrected member |
|---|---|---|---|---|---|---|
| src/hotspot/os/windows/memMapPrinter_windows.cpp:167-168 | the initialiser list leaves `_total_committed` and `_total_reserved` out; `summary` is a stack local (line 279), so both start indeterminate and `add_mapping` adds to garbage | committed starts at 1 and one committed region of 4096 bytes is added: committed 4097 > total 4096 | all four counters start at zero, so committed + reserved never exceeds the total | not executed; high | MemMapPrinter.ProcSmapsSummary.AsWritten, MemMapPrinter.UninitialisedStartBreaksBound | MemMapPrinter.ProcSmapsSummary.constructor, MemMapPrinter.ZeroStartWithinTotal, MemMapPrinter.SummaryWithinTotal |
| test/hotspot/jtreg/compiler/c2/arithmeticCanonicalization/SerialAdditionCanonicalization.java:170 | the comment gives the reduced form of `a * MAX` as `(a<<31) - 1`, and line 220 gives `(a<<63) - 1` | a = 0: `(0<<31) - 1` is -1, but `0 * MAX` is 0 | `(a<<31) - a` and `(a<<63) - a`, which is also what the `SUB` count expects | not executed; high (only the comment is wrong, the check at line 171 is right) | SerialAdditionCanonicalization.MaxCommentFormDiffers | SerialAdditionCanonicalization.MulAndAddToMax, SerialAdditionCanonicalization.MulAndAddToMaxL |

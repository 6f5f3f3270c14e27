/**
 * The Windows part of the VM's memory-map printer: how one region returned by
 * the operating system is turned into short text codes (protection, state and
 * type), and how the summary counters accumulate over the regions walked.
 *
 * DWORD values are integers below 2^32; every flag the source tests with `&`
 * is a single bit, so `x & FLAG != 0` is written `HasBit(x, FLAG)`. The
 * counters are integers reduced explicitly modulo 2^32 (`unsigned`) and 2^64
 * (`size_t`).
 */
module MemMapPrinter {
  import opened Wrappers
  import opened ModArith

  // Memory protection bits of winnt.h.
  const PAGE_NOACCESS: Dword := 0x01
  const PAGE_READONLY: Dword := 0x02
  const PAGE_READWRITE: Dword := 0x04
  const PAGE_WRITECOPY: Dword := 0x08
  const PAGE_EXECUTE: Dword := 0x10
  const PAGE_EXECUTE_READ: Dword := 0x20
  const PAGE_EXECUTE_READWRITE: Dword := 0x40
  const PAGE_EXECUTE_WRITECOPY: Dword := 0x80
  const PAGE_GUARD: Dword := 0x100
  const PAGE_NOCACHE: Dword := 0x200
  const PAGE_WRITECOMBINE: Dword := 0x400
  /** winnt.h gives PAGE_TARGETS_INVALID and PAGE_TARGETS_NO_UPDATE the same bit. */
  const PAGE_TARGETS_INVALID: Dword := 0x4000_0000
  const PAGE_TARGETS_NO_UPDATE: Dword := 0x4000_0000

  // Region states and types of winnt.h.
  const MEM_COMMIT: Dword := 0x1000
  const MEM_RESERVE: Dword := 0x2000
  const MEM_FREE: Dword := 0x1_0000
  const MEM_PRIVATE: Dword := 0x2_0000
  const MEM_MAPPED: Dword := 0x4_0000
  const MEM_IMAGE: Dword := 0x100_0000

  /**
   * What `sizeof(buffer)` yields inside the three string methods: the array
   * parameter has decayed to a pointer, 8 bytes on 64-bit Windows.
   */
  const POINTER_SIZE: nat := 8
  /** Declared length of the four code buffers of ProcSmapsInfo. */
  const MAX_STR_LEN: nat := 20
  /** Declared length of ProcSmapsInfo's file name buffer. */
  const FILE_NAME_LEN: nat := 100

  // Slots of the "----" template.
  const IR: nat := 0
  const IW: nat := 1
  const IX: nat := 2

  const UNSIGNED_MOD: int := 0x1_0000_0000
  const SIZE_MOD: int := 0x1_0000_0000_0000_0000

  type Unsigned = x: int | 0 <= x < 0x1_0000_0000
  type Dword = Unsigned

  /** `x & flag != 0` for a flag that is a single bit. */
  predicate HasBit(x: Dword, flag: Dword)
    requires flag > 0
  {
    (x / flag) % 2 == 1
  }
  type SizeT = x: int | 0 <= x < 0x1_0000_0000_0000_0000

  /** A path as the module-name lookup returns it: text without a NUL. */
  type Path = s: string | '\0' !in s

  /** The fields of MEMORY_BASIC_INFORMATION that the classification and the summary read. */
  datatype RegionInfo = RegionInfo(
    allocationProtect: Dword,
    regionSize: SizeT,
    state: Dword,
    protect: Dword,
    regionType: Dword)

  // ----- C strings in char buffers -----

  /** The text of a NUL-terminated buffer: everything before the first NUL. */
  function CString(s: seq<char>): (r: string)
    ensures '\0' !in r && r <= s
    ensures |r| < |s| ==> s[|r|] == '\0'
  {
    if |s| == 0 || s[0] == '\0' then [] else [s[0]] + CString(s[1..])
  }

  /** A buffer holding t followed by a NUL reads back as t. */
  lemma CStringOf(s: seq<char>, t: string)
    requires '\0' !in t && |t| < |s| && s[..|t|] == t && s[|t|] == '\0'
    ensures CString(s) == t
  {
  }

  /** Writes text and a terminating NUL at the front of the buffer, as strncpy_s and snprintf do with text that fits. */
  method WriteString(buffer: array<char>, text: string)
    requires '\0' !in text && |text| < buffer.Length
    modifies buffer
    ensures buffer[..|text|] == text && buffer[|text|] == '\0'
    ensures buffer[|text| + 1..] == old(buffer[|text| + 1..])
  {
    var i := 0;
    while i < |text|
      invariant 0 <= i <= |text|
      invariant buffer[..i] == text[..i]
      invariant buffer[i..] == old(buffer[i..])
    {
      buffer[i] := text[i];
      i := i + 1;
    }
    buffer[i] := '\0';
  }

  /** `strlen`: the position of the first NUL. */
  method StrLen(buffer: array<char>) returns (n: nat)
    requires '\0' in buffer[..]
    ensures n == |CString(buffer[..])|
  {
    n := 0;
    while buffer[n] != '\0'
      invariant n < buffer.Length
      invariant '\0' !in buffer[..n]
      invariant '\0' in buffer[n..]
      decreases buffer.Length - n
    {
      assert buffer[n..] == [buffer[n]] + buffer[n + 1..];
      assert buffer[..n + 1] == buffer[..n] + [buffer[n]];
      n := n + 1;
    }
    CStringOf(buffer[..], buffer[..n]);
  }

  // ----- hexadecimal rendering -----

  predicate IsHexDigit(c: char)
  {
    '0' <= c <= '9' || 'a' <= c <= 'f'
  }

  /** The `%x` digit for a value below 16. */
  function HexDigit(d: nat): (c: char)
    requires d < 16
    ensures IsHexDigit(c)
  {
    if d < 10 then (48 + d) as char else (87 + d) as char
  }

  /** `%x`: lower-case hexadecimal digits without leading zeros. */
  function Hex(n: nat): (s: string)
    ensures |s| >= 1
    ensures forall i :: 0 <= i < |s| ==> IsHexDigit(s[i])
  {
    if n < 16 then [HexDigit(n)] else Hex(n / 16) + [HexDigit(n % 16)]
  }

  /** The text snprintf leaves in a buffer of the given size: at most size - 1 characters. */
  function Snprintf(size: nat, text: string): (r: string)
    requires size >= 1
    ensures r <= text && |r| == if |text| < size then |text| else size - 1
  {
    if |text| < size then text else text[..size - 1]
  }

  // ----- protection string -----

  /** A base protection bit and the text getProtectString leaves before idx when it is the first one set. */
  datatype BaseRule = BaseRule(mask: Dword, text: string)

  /** Number of base protections getProtectString tests. */
  const RULE_COUNT: nat := 10

  /** The base protections in the order getProtectString tests them. */
  function Rule(k: nat): BaseRule
    requires k < RULE_COUNT
  {
    match k
    case 0 => BaseRule(PAGE_EXECUTE, "--x-")
    case 1 => BaseRule(PAGE_EXECUTE_READ, "r-x-")
    case 2 => BaseRule(PAGE_EXECUTE_READWRITE, "rwx-")
    case 3 => BaseRule(PAGE_EXECUTE_WRITECOPY, "-wx-c")
    case 4 => BaseRule(PAGE_NOACCESS, "(NA)")
    case 5 => BaseRule(PAGE_READONLY, "r---")
    case 6 => BaseRule(PAGE_READWRITE, "rw--")
    case 7 => BaseRule(PAGE_WRITECOPY, "-w--c")
    case 8 => BaseRule(PAGE_TARGETS_INVALID, "----i")
    case _ => BaseRule(PAGE_TARGETS_NO_UPDATE, "----n")
  }

  predicate Matches(prot: Dword, k: nat)
    requires k < RULE_COUNT
  {
    HasBit(prot, Rule(k).mask)
  }

  /** The first rule at or after k whose bit is set in prot, if any. */
  function FirstMatch(prot: Dword, k: nat): (r: Option<nat>)
    requires k <= RULE_COUNT
    ensures r.Some? ==> k <= r.value < RULE_COUNT && Matches(prot, r.value)
    ensures forall j :: k <= j < RULE_COUNT && (r.None? || j < r.value) ==> !Matches(prot, j)
    decreases RULE_COUNT - k
  {
    if k == RULE_COUNT then None
    else if Matches(prot, k) then Some(k)
    else FirstMatch(prot, k + 1)
  }

  /** The text before the modifier letters: the first matching rule, else hex for a non-zero value, else the bare template. */
  function BaseText(prot: Dword): string
  {
    match FirstMatch(prot, 0)
    case Some(k) => Rule(k).text
    case None => if prot != 0 then HexProtection(prot) else "----"
  }

  /** `snprintf(buffer, sizeof(buffer), "(0x%x)", prot)`. */
  function HexProtection(prot: Dword): string
  {
    Snprintf(POINTER_SIZE, "(0x" + Hex(prot) + ")")
  }

  /** The letters for the guard, no-cache and write-combine bits, in that order. */
  function ModifierLetters(prot: Dword): string
  {
    (if HasBit(prot, PAGE_GUARD) then "G" else "")
    + (if HasBit(prot, PAGE_NOCACHE) then "C" else "")
    + (if HasBit(prot, PAGE_WRITECOMBINE) then "W" else "")
  }

  /** The text getProtectString returns. */
  function ProtectString(prot: Dword): string
  {
    BaseText(prot) + ModifierLetters(prot)
  }

  /** The priority table read as the source's else-if chain. */
  lemma BaseTextChain(prot: Dword)
    ensures BaseText(prot) ==
      if HasBit(prot, PAGE_EXECUTE) then "--x-"
      else if HasBit(prot, PAGE_EXECUTE_READ) then "r-x-"
      else if HasBit(prot, PAGE_EXECUTE_READWRITE) then "rwx-"
      else if HasBit(prot, PAGE_EXECUTE_WRITECOPY) then "-wx-c"
      else if HasBit(prot, PAGE_NOACCESS) then "(NA)"
      else if HasBit(prot, PAGE_READONLY) then "r---"
      else if HasBit(prot, PAGE_READWRITE) then "rw--"
      else if HasBit(prot, PAGE_WRITECOPY) then "-w--c"
      else if HasBit(prot, PAGE_TARGETS_INVALID) then "----i"
      else if HasBit(prot, PAGE_TARGETS_NO_UPDATE) then "----n"
      else if prot != 0 then HexProtection(prot)
      else "----"
  {
    assert FirstMatch(prot, 10) == None;
    assert FirstMatch(prot, 9) == if HasBit(prot, Rule(9).mask) then Some(9) else None;
    assert FirstMatch(prot, 8) == if HasBit(prot, Rule(8).mask) then Some(8) else FirstMatch(prot, 9);
    assert FirstMatch(prot, 7) == if HasBit(prot, Rule(7).mask) then Some(7) else FirstMatch(prot, 8);
    assert FirstMatch(prot, 6) == if HasBit(prot, Rule(6).mask) then Some(6) else FirstMatch(prot, 7);
    assert FirstMatch(prot, 5) == if HasBit(prot, Rule(5).mask) then Some(5) else FirstMatch(prot, 6);
    assert FirstMatch(prot, 4) == if HasBit(prot, Rule(4).mask) then Some(4) else FirstMatch(prot, 5);
    assert FirstMatch(prot, 3) == if HasBit(prot, Rule(3).mask) then Some(3) else FirstMatch(prot, 4);
    assert FirstMatch(prot, 2) == if HasBit(prot, Rule(2).mask) then Some(2) else FirstMatch(prot, 3);
    assert FirstMatch(prot, 1) == if HasBit(prot, Rule(1).mask) then Some(1) else FirstMatch(prot, 2);
    assert FirstMatch(prot, 0) == if HasBit(prot, Rule(0).mask) then Some(0) else FirstMatch(prot, 1);
  }

  /**
   * The hex fallback: "(0x", then the hex digits, then ")" when the whole
   * text fits in the 7 characters snprintf keeps; with four or more digits
   * only the first four survive and the parenthesis is lost.
   */
  lemma HexProtectionShape(prot: Dword)
    ensures var d := Hex(prot);
      HexProtection(prot) == if |d| <= 3 then "(0x" + d + ")" else "(0x" + d[..4]
    ensures var h := HexProtection(prot);
      5 <= |h| <= 7 && h[..3] == "(0x"
      && forall i :: 3 <= i < |h| ==> IsHexDigit(h[i]) || h[i] == ')'
  {
    var d := Hex(prot);
    var text := "(0x" + d + ")";
    var h := HexProtection(prot);
    if |d| > 3 {
      assert h == text[..7];
      assert text[..7] == "(0x" + d[..4];
    }
    assert h <= text;
    forall i | 3 <= i < |h|
      ensures IsHexDigit(h[i]) || h[i] == ')'
    {
      assert h[i] == text[i];
      if i < 3 + |d| {
        assert text[i] == d[i - 3];
      }
    }
  }

  /**
   * A value with four hex digits and no known bit loses its closing
   * parenthesis: snprintf keeps only the 7 characters a pointer-sized bound
   * leaves.
   */
  lemma FourHexDigitsCut()
    ensures ProtectString(0x1000) == "(0x1000"
  {
    assert Hex(0x1000) == "1000" by {
      assert Hex(0x100) == "100" by {
        assert Hex(0x10) == "10";
      }
    }
    assert FirstMatch(0x1000, 0) == None;
    assert ModifierLetters(0x1000) == "";
  }

  /** The priority rule for the NO_UPDATE bit is shadowed by the TARGETS_INVALID rule, which tests the same bit. */
  lemma NoUpdateRuleShadowed(prot: Dword)
    ensures FirstMatch(prot, 0) != Some(9)
  {
  }

  /** The characters a protection string is made of. */
  predicate IsProtectChar(c: char)
  {
    c == '-' || c == 'r' || c == 'w' || c == 'x' || c == 'c' || c == 'i'
    || c == '(' || c == ')' || c == 'N' || c == 'A' || IsHexDigit(c)
  }

  /** The base text is 4 to 7 characters long. */
  lemma BaseTextLength(prot: Dword)
    ensures 4 <= |BaseText(prot)| <= 7
  {
    if FirstMatch(prot, 0).None? && prot != 0 {
      HexProtectionShape(prot);
    }
  }

  /** The base text holds only template, permission and hex characters; in particular no NUL and no 'n'. */
  lemma BaseTextChars(prot: Dword)
    ensures forall i :: 0 <= i < |BaseText(prot)| ==> IsProtectChar(BaseText(prot)[i])
  {
    NoUpdateRuleShadowed(prot);
    if FirstMatch(prot, 0).None? && prot != 0 {
      HexProtectionShape(prot);
    }
  }

  /** r, w and x sit only in slots 0, 1 and 2 of the text s. */
  predicate PermissionSlots(s: string)
  {
    (forall i :: 0 <= i < |s| && s[i] == 'r' ==> i == IR)
    && (forall i :: 0 <= i < |s| && s[i] == 'w' ==> i == IW)
    && (forall i :: 0 <= i < |s| && s[i] == 'x' ==> i == IX)
  }

  /** Every rule text keeps r, w and x in their slots. */
  lemma RuleTextSlots(k: nat)
    requires k < RULE_COUNT
    ensures PermissionSlots(Rule(k).text)
  {
    match k
    case 0 => assert PermissionSlots("--x-");
    case 1 => assert PermissionSlots("r-x-");
    case 2 => assert PermissionSlots("rwx-");
    case 3 => assert PermissionSlots("-wx-c");
    case 4 => assert PermissionSlots("(NA)");
    case 5 => assert PermissionSlots("r---");
    case 6 => assert PermissionSlots("rw--");
    case 7 => assert PermissionSlots("-w--c");
    case 8 => assert PermissionSlots("----i");
    case _ => assert PermissionSlots("----n");
  }

  /** In the base text, r, w and x can only sit in slots 0, 1 and 2. */
  lemma BaseTextSlots(prot: Dword)
    ensures PermissionSlots(BaseText(prot))
  {
    match FirstMatch(prot, 0)
    case Some(k) => RuleTextSlots(k);
    case None =>
      if prot != 0 {
        HexProtectionShape(prot);
      }
  }

  /** G, C and W each appear exactly when their bit is set, at most once, and in that order. */
  lemma ModifierLettersExact(prot: Dword)
    ensures var m := ModifierLetters(prot);
      |m| <= 3
      && ('G' in m <==> HasBit(prot, PAGE_GUARD))
      && ('C' in m <==> HasBit(prot, PAGE_NOCACHE))
      && ('W' in m <==> HasBit(prot, PAGE_WRITECOMBINE))
      && (forall i, j :: 0 <= i < j < |m| ==> LetterRank(m[i]) < LetterRank(m[j]))
  {
  }

  /** Position of a modifier letter in the order the source appends them. */
  function LetterRank(c: char): nat
  {
    if c == 'G' then 0 else if c == 'C' then 1 else 2
  }

  /**
   * The text is 4 to 10 characters without a NUL, so it always fits the
   * 20-character buffer and idx never ends at 0: the `idx == 0` hex fallback
   * of the source is dead.
   */
  lemma ProtectStringFits(prot: Dword)
    ensures var s := ProtectString(prot); 4 <= |s| <= 10 && '\0' !in s
  {
    BaseTextLength(prot);
    BaseTextChars(prot);
    var b, m := BaseText(prot), ModifierLetters(prot);
    assert forall i :: 0 <= i < |m| ==> m[i] == 'G' || m[i] == 'C' || m[i] == 'W';
    assert forall i :: |b| <= i < |b| + |m| ==> ProtectString(prot)[i] == m[i - |b|];
  }

  /** r, w and x are only ever written to slots 0, 1 and 2 of the template. */
  lemma PermissionLettersInSlots(prot: Dword)
    ensures PermissionSlots(ProtectString(prot))
  {
    BaseTextSlots(prot);
    var b, m := BaseText(prot), ModifierLetters(prot);
    assert forall i :: 0 <= i < |m| ==> m[i] == 'G' || m[i] == 'C' || m[i] == 'W';
    assert forall i :: |b| <= i < |b| + |m| ==> ProtectString(prot)[i] == m[i - |b|];
  }

  /** 'n' is never produced: the NO_UPDATE test repeats the TARGETS_INVALID bit. */
  lemma NoUpdateNeverShown(prot: Dword)
    ensures 'n' !in ProtectString(prot)
  {
    BaseTextChars(prot);
    var b, m := BaseText(prot), ModifierLetters(prot);
    assert forall i :: 0 <= i < |m| ==> m[i] == 'G' || m[i] == 'C' || m[i] == 'W';
    assert forall i :: |b| <= i < |b| + |m| ==> ProtectString(prot)[i] == m[i - |b|];
  }

  /** Only the first base protection that matches counts: a set EXECUTE bit wins over every other base bit. */
  lemma FirstMatchWins(prot: Dword, k: nat)
    requires k < RULE_COUNT && Matches(prot, k)
    requires forall j :: 0 <= j < k ==> !Matches(prot, j)
    ensures ProtectString(prot) == Rule(k).text + ModifierLetters(prot)
  {
  }

  /** The copy-on-write protections put exactly one 'c', at position 4. */
  lemma CopyOnWriteMarker(prot: Dword)
    requires FirstMatch(prot, 0) == Some(3) || FirstMatch(prot, 0) == Some(7)
    ensures var s := ProtectString(prot);
      |s| > 4 && s[4] == 'c' && forall i :: 0 <= i < |s| && s[i] == 'c' ==> i == 4
  {
    var m := ModifierLetters(prot);
    assert forall i :: 0 <= i < |m| ==> m[i] == 'G' || m[i] == 'C' || m[i] == 'W';
  }

  /** PAGE_NOACCESS replaces the template by "(NA)"; only modifier letters can follow it. */
  lemma NoAccessText(prot: Dword)
    requires FirstMatch(prot, 0) == Some(4)
    ensures var s := ProtectString(prot);
      s[..4] == "(NA)" && forall i :: 4 <= i < |s| ==> s[i] == 'G' || s[i] == 'C' || s[i] == 'W'
  {
    var m := ModifierLetters(prot);
    assert forall i :: 0 <= i < |m| ==> m[i] == 'G' || m[i] == 'C' || m[i] == 'W';
  }

  /** `snprintf(buffer, sizeof(buffer), "(0x%x)", prot)` followed by `idx = strlen(buffer)`. */
  method WriteHexProtection(buffer: array<char>, prot: Dword) returns (idx: nat)
    requires buffer.Length == MAX_STR_LEN
    modifies buffer
    ensures 5 <= idx <= 7 && buffer[..idx] == HexProtection(prot)
  {
    HexProtectionShape(prot);
    WriteString(buffer, HexProtection(prot));
    idx := StrLen(buffer);
    CStringOf(buffer[..], HexProtection(prot));
  }

  /**
   * The first half of `getProtectString`: the "----" template and the first
   * base protection that matches. Returns idx, the end of the text so far.
   */
  method WriteBaseProtection(buffer: array<char>, prot: Dword) returns (idx: nat)
    requires buffer.Length == MAX_STR_LEN
    modifies buffer
    ensures 4 <= idx <= 7 && buffer[..idx] == BaseText(prot)
  {
    idx := 4;
    WriteString(buffer, "----  ");
    if HasBit(prot, PAGE_EXECUTE) {
      buffer[IX] := 'x';
      assert buffer[..idx] == "--x-";
    } else if HasBit(prot, PAGE_EXECUTE_READ) {
      buffer[IR] := 'r';
      buffer[IX] := 'x';
      assert buffer[..idx] == "r-x-";
    } else if HasBit(prot, PAGE_EXECUTE_READWRITE) {
      buffer[IR] := 'r';
      buffer[IW] := 'w';
      buffer[IX] := 'x';
      assert buffer[..idx] == "rwx-";
    } else if HasBit(prot, PAGE_EXECUTE_WRITECOPY) {
      buffer[IW] := 'w';
      buffer[IX] := 'x';
      buffer[idx] := 'c';
      idx := idx + 1;
      assert buffer[..idx] == "-wx-c";
    } else if HasBit(prot, PAGE_NOACCESS) {
      WriteString(buffer, "(NA)");
      assert buffer[..idx] == "(NA)";
    } else if HasBit(prot, PAGE_READONLY) {
      buffer[IR] := 'r';
      assert buffer[..idx] == "r---";
    } else if HasBit(prot, PAGE_READWRITE) {
      buffer[IR] := 'r';
      buffer[IW] := 'w';
      assert buffer[..idx] == "rw--";
    } else if HasBit(prot, PAGE_WRITECOPY) {
      buffer[IW] := 'w';
      buffer[idx] := 'c';
      idx := idx + 1;
      assert buffer[..idx] == "-w--c";
    } else if HasBit(prot, PAGE_TARGETS_INVALID) {
      buffer[idx] := 'i';
      idx := idx + 1;
      assert buffer[..idx] == "----i";
    } else if HasBit(prot, PAGE_TARGETS_NO_UPDATE) {
      // The source appends 'n' here; PAGE_TARGETS_NO_UPDATE is the bit just
      // tested as PAGE_TARGETS_INVALID, so this branch is never taken.
      assert false;
    } else if prot != 0 {
      idx := WriteHexProtection(buffer, prot);
    } else {
      assert buffer[..idx] == "----";
    }
    BaseTextChain(prot);
  }

  /** `buffer[idx++] = c`. */
  method AppendChar(buffer: array<char>, idx0: nat, c: char) returns (idx: nat)
    requires idx0 < buffer.Length
    modifies buffer
    ensures idx == idx0 + 1 && buffer[..idx] == old(buffer[..idx0]) + [c]
  {
    buffer[idx0] := c;
    idx := idx0 + 1;
  }

  /** The second half of `getProtectString`: G, C and W at idx for the modifier bits that are set. */
  method AppendModifierLetters(buffer: array<char>, idx0: nat, prot: Dword) returns (idx: nat)
    requires idx0 + 3 < buffer.Length
    modifies buffer
    ensures idx == idx0 + |ModifierLetters(prot)|
    ensures buffer[..idx] == old(buffer[..idx0]) + ModifierLetters(prot)
  {
    idx := idx0;
    if HasBit(prot, PAGE_GUARD) {
      idx := AppendChar(buffer, idx, 'G');
    }
    ghost var guard := buffer[..idx];
    if HasBit(prot, PAGE_NOCACHE) {
      idx := AppendChar(buffer, idx, 'C');
    }
    ghost var noCache := buffer[..idx];
    if HasBit(prot, PAGE_WRITECOMBINE) {
      idx := AppendChar(buffer, idx, 'W');
    }
    assert guard == old(buffer[..idx0]) + (if HasBit(prot, PAGE_GUARD) then "G" else "");
    assert noCache == guard + (if HasBit(prot, PAGE_NOCACHE) then "C" else "");
    assert buffer[..idx] == noCache + (if HasBit(prot, PAGE_WRITECOMBINE) then "W" else "");
  }

  /**
   * `getProtectString`: the base protection, then G, C and W for the modifier
   * bits, then the NUL at idx.
   */
  method GetProtectString(buffer: array<char>, prot: Dword)
    requires buffer.Length == MAX_STR_LEN
    modifies buffer
    ensures CString(buffer[..]) == ProtectString(prot)
  {
    var idx := WriteBaseProtection(buffer, prot);
    ProtectStringFits(prot);
    idx := AppendModifierLetters(buffer, idx, prot);
    assert buffer[..idx] == ProtectString(prot);
    if idx == 0 {
      // The source falls back to "0x%x" here; the base text alone is at
      // least 4 characters (ProtectStringFits), so idx is never 0.
      assert false;
    } else {
      buffer[idx] := '\0';
    }
    assert buffer[..idx] == ProtectString(prot);
    CStringOf(buffer[..], ProtectString(prot));
  }

  // ----- state and type codes -----

  /** `snprintf(buffer, sizeof(buffer), "0x%x", v)`. */
  function HexCode(v: Dword): string
  {
    Snprintf(POINTER_SIZE, "0x" + Hex(v))
  }

  /** The hex code is "0x" and one to five hex digits. */
  lemma HexCodeShape(v: Dword)
    ensures var h := HexCode(v);
      3 <= |h| <= 7 && h[..2] == "0x" && forall i :: 2 <= i < |h| ==> IsHexDigit(h[i])
  {
    var d := Hex(v);
    var text := "0x" + d;
    var h := HexCode(v);
    assert h <= text;
    forall i | 2 <= i < |h|
      ensures IsHexDigit(h[i])
    {
      assert h[i] == text[i] == d[i - 2];
    }
  }

  /** The text getStateString returns for a region state. */
  function StateString(state: Dword): string
  {
    if state == MEM_COMMIT then "c"
    else if state == MEM_FREE then "f"
    else if state == MEM_RESERVE then "r"
    else HexCode(state)
  }

  /** The text getTypeString returns for a region type. */
  function TypeString(regionType: Dword): string
  {
    if regionType == MEM_IMAGE then "img"
    else if regionType == MEM_MAPPED then "map"
    else if regionType == MEM_PRIVATE then "prv"
    else HexCode(regionType)
  }

  /** Each state code names exactly one state; any other state is shown as "0x" and hex digits. */
  lemma StateStringCodes(state: Dword)
    ensures var s := StateString(state);
      (s == "c" <==> state == MEM_COMMIT)
      && (s == "f" <==> state == MEM_FREE)
      && (s == "r" <==> state == MEM_RESERVE)
      && (state != MEM_COMMIT && state != MEM_FREE && state != MEM_RESERVE ==> s == HexCode(state) && s[..2] == "0x")
      && 1 <= |s| <= 7 && '\0' !in s
  {
    HexCodeShape(state);
  }

  /** Each type code names exactly one region type; any other type is shown as "0x" and hex digits. */
  lemma TypeStringCodes(regionType: Dword)
    ensures var s := TypeString(regionType);
      (s == "img" <==> regionType == MEM_IMAGE)
      && (s == "map" <==> regionType == MEM_MAPPED)
      && (s == "prv" <==> regionType == MEM_PRIVATE)
      && (regionType != MEM_IMAGE && regionType != MEM_MAPPED && regionType != MEM_PRIVATE ==> s == HexCode(regionType) && s[..2] == "0x")
      && 3 <= |s| <= 7 && '\0' !in s
  {
    HexCodeShape(regionType);
  }

  /** `getStateString`. */
  method GetStateString(buffer: array<char>, region: RegionInfo)
    requires buffer.Length == MAX_STR_LEN
    modifies buffer
    ensures CString(buffer[..]) == StateString(region.state)
  {
    if region.state == MEM_COMMIT {
      buffer[0] := 'c';
      buffer[1] := '\0';
    } else if region.state == MEM_FREE {
      buffer[0] := 'f';
      buffer[1] := '\0';
    } else if region.state == MEM_RESERVE {
      buffer[0] := 'r';
      buffer[1] := '\0';
    } else {
      HexCodeShape(region.state);
      WriteString(buffer, HexCode(region.state));
    }
    StateStringCodes(region.state);
    CStringOf(buffer[..], StateString(region.state));
  }

  /** `getTypeString`. */
  method GetTypeString(buffer: array<char>, region: RegionInfo)
    requires buffer.Length == MAX_STR_LEN
    modifies buffer
    ensures CString(buffer[..]) == TypeString(region.regionType)
  {
    if region.regionType == MEM_IMAGE {
      WriteString(buffer, "img");
    } else if region.regionType == MEM_MAPPED {
      WriteString(buffer, "map");
    } else if region.regionType == MEM_PRIVATE {
      WriteString(buffer, "prv");
    } else {
      HexCodeShape(region.regionType);
      WriteString(buffer, HexCode(region.regionType));
    }
    TypeStringCodes(region.regionType);
    CStringOf(buffer[..], TypeString(region.regionType));
  }

  // ----- one region's text codes -----

  /** The text buffers one region is classified into. */
  class ProcSmapsInfo {
    const apBuffer: array<char>
    const stateBuffer: array<char>
    const protectBuffer: array<char>
    const typeBuffer: array<char>
    var rss: int
    const fileName: array<char>

    /** The buffers have their declared sizes and are five distinct arrays. */
    ghost predicate Valid()
    {
      apBuffer.Length == MAX_STR_LEN && stateBuffer.Length == MAX_STR_LEN
      && protectBuffer.Length == MAX_STR_LEN && typeBuffer.Length == MAX_STR_LEN
      && fileName.Length == FILE_NAME_LEN
      && apBuffer != stateBuffer && apBuffer != protectBuffer && apBuffer != typeBuffer
      && stateBuffer != protectBuffer && stateBuffer != typeBuffer && protectBuffer != typeBuffer
    }

    constructor ()
      ensures Valid()
      ensures fresh(apBuffer) && fresh(stateBuffer) && fresh(protectBuffer) && fresh(typeBuffer) && fresh(fileName)
    {
      apBuffer := new char[MAX_STR_LEN];
      stateBuffer := new char[MAX_STR_LEN];
      protectBuffer := new char[MAX_STR_LEN];
      typeBuffer := new char[MAX_STR_LEN];
      fileName := new char[FILE_NAME_LEN];
    }

    /** The first four steps of `process`: the two protections, the state and the type. */
    method FillCodes(region: RegionInfo)
      requires Valid()
      modifies apBuffer, stateBuffer, protectBuffer, typeBuffer
      ensures CString(apBuffer[..]) == ProtectString(region.allocationProtect)
      ensures CString(stateBuffer[..]) == StateString(region.state)
      ensures CString(protectBuffer[..]) == ProtectString(region.protect)
      ensures CString(typeBuffer[..]) == TypeString(region.regionType)
    {
      GetProtectString(apBuffer, region.allocationProtect);
      GetStateString(stateBuffer, region);
      GetProtectString(protectBuffer, region.protect);
      GetTypeString(typeBuffer, region);
    }

    /**
     * The file name step of `process`: cleared, then, for an image region,
     * the module's file name cut to the buffer.
     */
    method FillFileName(region: RegionInfo, moduleFileName: Path)
      requires fileName.Length == FILE_NAME_LEN
      modifies fileName
      ensures CString(fileName[..]) == if region.regionType == MEM_IMAGE then Snprintf(FILE_NAME_LEN, moduleFileName) else ""
    {
      fileName[0] := '\0';
      if region.regionType == MEM_IMAGE {
        WriteString(fileName, Snprintf(FILE_NAME_LEN, moduleFileName));
      }
      CStringOf(fileName[..], if region.regionType == MEM_IMAGE then Snprintf(FILE_NAME_LEN, moduleFileName) else "");
    }

    /**
     * `process`: classifies one region into the four code buffers. For an
     * image region the file name is what the module lookup returned, cut to
     * the buffer; moduleFileName is "" when the lookup fails.
     */
    method Process(region: RegionInfo, moduleFileName: Path)
      requires Valid()
      modifies this, apBuffer, stateBuffer, protectBuffer, typeBuffer, fileName
      ensures Valid()
      ensures CString(apBuffer[..]) == ProtectString(region.allocationProtect)
      ensures CString(stateBuffer[..]) == StateString(region.state)
      ensures CString(protectBuffer[..]) == ProtectString(region.protect)
      ensures CString(typeBuffer[..]) == TypeString(region.regionType)
      ensures CString(fileName[..]) == if region.regionType == MEM_IMAGE then Snprintf(FILE_NAME_LEN, moduleFileName) else ""
      ensures rss == 0
    {
      FillCodes(region);
      FillFileName(region, moduleFileName);
      rss := 0;
    }
  }

  // ----- summary counters -----

  /** The four counters add_mapping updates: `unsigned` mappings and three `size_t` sizes. */
  datatype Counters = Counters(
    numMappings: Unsigned,
    totalRegionSize: SizeT,
    totalCommitted: SizeT,
    totalReserved: SizeT)

  const ZERO: Counters := Counters(0, 0, 0, 0)

  /** `unsigned` arithmetic keeps the value modulo 2^32. */
  function WrapUnsigned(x: int): Unsigned
  {
    x % UNSIGNED_MOD
  }

  /** `size_t` arithmetic keeps the value modulo 2^64. */
  function WrapSize(x: int): SizeT
  {
    x % SIZE_MOD
  }

  /** The counters after one `add_mapping` call, with the machine wrap-around of each field. */
  function AddMappingTo(c: Counters, region: RegionInfo): Counters
  {
    if region.state == MEM_FREE then c
    else Counters(
      WrapUnsigned(c.numMappings + 1),
      WrapSize(c.totalRegionSize + region.regionSize),
      WrapSize(c.totalCommitted + if region.state == MEM_COMMIT then region.regionSize else 0),
      WrapSize(c.totalReserved + if region.state == MEM_RESERVE then region.regionSize else 0))
  }

  /** The counters after add_mapping was called on each region in turn. */
  function AddMappings(start: Counters, regions: seq<RegionInfo>): Counters
  {
    if |regions| == 0 then start
    else AddMappingTo(AddMappings(start, regions[..|regions| - 1]), regions[|regions| - 1])
  }

  // Reference sums over the regions walked, without wrap-around.

  /** Number of regions that are not free. */
  function MappedCount(regions: seq<RegionInfo>): nat
  {
    if |regions| == 0 then 0
    else MappedCount(regions[..|regions| - 1]) + (if regions[|regions| - 1].state != MEM_FREE then 1 else 0)
  }

  /** The three size counters of the summary. */
  datatype SizeColumn = Total | Committed | Reserved

  /** Whether a region in the given state adds its size to the column. */
  predicate CountedIn(column: SizeColumn, state: Dword)
  {
    match column
    case Total => state != MEM_FREE
    case Committed => state == MEM_COMMIT
    case Reserved => state == MEM_RESERVE
  }

  /** What one region adds to the column. */
  function Added(column: SizeColumn, region: RegionInfo): nat
  {
    if CountedIn(column, region.state) then region.regionSize else 0
  }

  /** Total size of the regions counted in the column. */
  function SizeSum(regions: seq<RegionInfo>, column: SizeColumn): nat
  {
    if |regions| == 0 then 0
    else SizeSum(regions[..|regions| - 1], column) + Added(column, regions[|regions| - 1])
  }

  /** The starting counters plus exact amounts, each reduced to its field's width. */
  function WrappedFrom(start: Counters, count: nat, total: nat, committed: nat, reserved: nat): Counters
  {
    Counters(
      WrapUnsigned(start.numMappings + count),
      WrapSize(start.totalRegionSize + total),
      WrapSize(start.totalCommitted + committed),
      WrapSize(start.totalReserved + reserved))
  }

  /** Wrapping an operand before adding does not change the wrapped sum. */
  lemma WrapAddWrap(a: int, b: int, m: int)
    requires m > 0
    ensures (a % m + b) % m == (a + b) % m
  {
    var d := (a + b) / m;
    var q := a / m;
    assert a + b == d * m + (a + b) % m;
    assert a == q * m + a % m;
    assert a % m + b == (d - q) * m + (a + b) % m;
    ModUnique(a % m + b, d - q, (a + b) % m, m);
  }

  /** Adding to a wrapped `unsigned` gives the wrapped sum. */
  lemma UnsignedStep(a: int, b: int)
    ensures WrapUnsigned(WrapUnsigned(a) + b) == WrapUnsigned(a + b)
  {
    WrapAddWrap(a, b, UNSIGNED_MOD);
  }

  /** Adding to a wrapped `size_t` gives the wrapped sum. */
  lemma SizeStep(a: int, b: int)
    ensures WrapSize(WrapSize(a) + b) == WrapSize(a + b)
  {
    WrapAddWrap(a, b, SIZE_MOD);
  }

  /** One add_mapping call on wrapped counters adds the region's amounts before the wrap. */
  lemma AddMappingToWraps(start: Counters, count: nat, total: nat, committed: nat, reserved: nat, region: RegionInfo)
    ensures AddMappingTo(WrappedFrom(start, count, total, committed, reserved), region)
      == WrappedFrom(start, count + (if region.state != MEM_FREE then 1 else 0), total + Added(Total, region),
           committed + Added(Committed, region), reserved + Added(Reserved, region))
  {
    if region.state != MEM_FREE {
      UnsignedStep(start.numMappings + count, 1);
      SizeStep(start.totalRegionSize + total, Added(Total, region));
      SizeStep(start.totalCommitted + committed, Added(Committed, region));
      SizeStep(start.totalReserved + reserved, Added(Reserved, region));
    }
  }

  /**
   * Walking the regions from given counters gives the reference counts and
   * sums added to the starting values, each reduced to its field's width.
   */
  lemma {:induction false} AddMappingsWraps(start: Counters, regions: seq<RegionInfo>)
    ensures AddMappings(start, regions) == WrappedFrom(start, MappedCount(regions),
      SizeSum(regions, Total), SizeSum(regions, Committed), SizeSum(regions, Reserved))
  {
    if |regions| == 0 {
      assert start.numMappings % UNSIGNED_MOD == start.numMappings;
      assert start.totalRegionSize % SIZE_MOD == start.totalRegionSize;
      assert start.totalCommitted % SIZE_MOD == start.totalCommitted;
      assert start.totalReserved % SIZE_MOD == start.totalReserved;
    } else {
      var init, r := regions[..|regions| - 1], regions[|regions| - 1];
      AddMappingsWraps(start, init);
      AddMappingToWraps(start, MappedCount(init), SizeSum(init, Total), SizeSum(init, Committed), SizeSum(init, Reserved), r);
    }
  }

  /** A committed or reserved region is never free, and no region is both: the two sums together stay within the total. */
  lemma {:induction false} CommittedAndReservedWithinTotal(regions: seq<RegionInfo>)
    ensures SizeSum(regions, Committed) + SizeSum(regions, Reserved) <= SizeSum(regions, Total)
  {
    if |regions| > 0 {
      CommittedAndReservedWithinTotal(regions[..|regions| - 1]);
    }
  }

  /** Free regions change no counter: walking only the non-free regions gives the same counters. */
  lemma {:induction false} FreeRegionsIgnored(start: Counters, regions: seq<RegionInfo>)
    ensures AddMappings(start, regions) == AddMappings(start, NonFree(regions))
  {
    if |regions| > 0 {
      var init, r := regions[..|regions| - 1], regions[|regions| - 1];
      FreeRegionsIgnored(start, init);
      var kept := NonFree(regions);
      if r.state != MEM_FREE {
        assert kept == NonFree(init) + [r];
        assert kept[..|kept| - 1] == NonFree(init);
        assert AddMappings(start, kept) == AddMappingTo(AddMappings(start, NonFree(init)), r);
      } else {
        assert kept == NonFree(init);
      }
    }
  }

  /** The regions that are not free, in order. */
  function NonFree(regions: seq<RegionInfo>): (r: seq<RegionInfo>)
    ensures forall i :: 0 <= i < |r| ==> r[i].state != MEM_FREE
  {
    if |regions| == 0 then []
    else NonFree(regions[..|regions| - 1]) + (if regions[|regions| - 1].state != MEM_FREE then [regions[|regions| - 1]] else [])
  }

  /**
   * Started from zero, the counters are the reference counts reduced to their
   * widths; while the total has not wrapped, committed plus reserved is
   * within the total region size.
   */
  lemma ZeroStartWithinTotal(regions: seq<RegionInfo>)
    requires SizeSum(regions, Total) < SIZE_MOD
    ensures var c := AddMappings(ZERO, regions);
      c.numMappings == WrapUnsigned(MappedCount(regions))
      && c.totalRegionSize == SizeSum(regions, Total)
      && c.totalCommitted + c.totalReserved <= c.totalRegionSize
  {
    AddMappingsWraps(ZERO, regions);
    CommittedAndReservedWithinTotal(regions);
    var total, committed, reserved := SizeSum(regions, Total), SizeSum(regions, Committed), SizeSum(regions, Reserved);
    ModUnique(total, 0, total, SIZE_MOD);
    ModUnique(committed, 0, committed, SIZE_MOD);
    ModUnique(reserved, 0, reserved, SIZE_MOD);
  }

  /**
   * As written, the constructor leaves `_total_committed` and
   * `_total_reserved` uninitialised: when the memory they occupy holds 1,
   * one committed region of 4096 bytes already breaks the bound.
   */
  lemma UninitialisedStartBreaksBound()
    ensures var c := AddMappings(Counters(0, 0, 1, 0), [RegionInfo(PAGE_READWRITE, 4096, MEM_COMMIT, PAGE_READWRITE, MEM_PRIVATE)]);
      c.totalCommitted + c.totalReserved > c.totalRegionSize
  {
    var regions := [RegionInfo(PAGE_READWRITE, 4096, MEM_COMMIT, PAGE_READWRITE, MEM_PRIVATE)];
    assert regions[..0] == [];
  }

  /** The summary `pd_print_all_mappings` accumulates over all regions. */
  class ProcSmapsSummary {
    var kernelPageSize: Unsigned
    var meminfoValid: bool
    var numMappings: Unsigned
    var totalRegionSize: SizeT
    var totalCommitted: SizeT
    var totalReserved: SizeT
    /** The counters the object started from. */
    ghost var start: Counters
    /** The regions passed to AddMapping so far. */
    ghost var regions: seq<RegionInfo>

    function Snapshot(): Counters
      reads this
    {
      Counters(numMappings, totalRegionSize, totalCommitted, totalReserved)
    }

    /** The counters are the result of adding each region to the starting counters. */
    ghost predicate Valid()
      reads this
    {
      Snapshot() == AddMappings(start, regions)
    }

    /**
     * The constructor with every counter starting at zero. The page size and
     * whether the process memory information could be read come from the
     * operating system and are parameters.
     */
    constructor (pageSize: Unsigned, appMemoryInfoRead: bool)
      ensures Valid() && start == ZERO && regions == []
      ensures kernelPageSize == pageSize && meminfoValid == appMemoryInfoRead
    {
      numMappings := 0;
      totalRegionSize := 0;
      kernelPageSize := pageSize;
      meminfoValid := appMemoryInfoRead;
      totalCommitted := 0;
      totalReserved := 0;
      start := ZERO;
      regions := [];
    }

    /**
     * The constructor as written: `_total_committed` and `_total_reserved`
     * are not in the initialiser list, so they start from whatever the
     * memory held.
     */
    constructor AsWritten(pageSize: Unsigned, appMemoryInfoRead: bool, committedGarbage: SizeT, reservedGarbage: SizeT)
      ensures Valid() && start == Counters(0, 0, committedGarbage, reservedGarbage) && regions == []
      ensures kernelPageSize == pageSize && meminfoValid == appMemoryInfoRead
    {
      numMappings := 0;
      totalRegionSize := 0;
      kernelPageSize := pageSize;
      meminfoValid := appMemoryInfoRead;
      totalCommitted := committedGarbage;
      totalReserved := reservedGarbage;
      start := Counters(0, 0, committedGarbage, reservedGarbage);
      regions := [];
    }

    /** `add_mapping`: counts a non-free region and adds its size to the total and to committed or reserved. */
    method AddMapping(region: RegionInfo)
      requires Valid()
      modifies this
      ensures Valid() && start == old(start) && regions == old(regions) + [region]
      ensures Snapshot() == AddMappingTo(old(Snapshot()), region)
      ensures kernelPageSize == old(kernelPageSize) && meminfoValid == old(meminfoValid)
    {
      ghost var before := Snapshot();
      if region.state != MEM_FREE {
        numMappings := WrapUnsigned(numMappings + 1);
        totalRegionSize := WrapSize(totalRegionSize + region.regionSize);
        totalCommitted := WrapSize(totalCommitted + if region.state == MEM_COMMIT then region.regionSize else 0);
        totalReserved := WrapSize(totalReserved + if region.state == MEM_RESERVE then region.regionSize else 0);
      }
      assert Snapshot() == AddMappingTo(before, region);
      ghost var walked := regions;
      regions := regions + [region];
      assert regions[..|regions| - 1] == walked;
      assert AddMappings(start, regions) == AddMappingTo(AddMappings(start, walked), region);
    }
  }

  /** A summary started at zero keeps committed plus reserved within the total while the total has not wrapped. */
  lemma SummaryWithinTotal(summary: ProcSmapsSummary)
    requires summary.Valid() && summary.start == ZERO && SizeSum(summary.regions, Total) < SIZE_MOD
    ensures summary.totalCommitted + summary.totalReserved <= summary.totalRegionSize
  {
    ZeroStartWithinTotal(summary.regions);
  }
}

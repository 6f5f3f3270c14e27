/**
 * The `PermittedSubclasses` class-file attribute of section 4.7.31 of the
 * Java Virtual Machine Specification, as the class-file API presents it: a
 * value that is either unbound (built by a factory from class entries) or
 * bound (a view of an attribute record inside a parsed class file), its
 * binary form, and the rule that a class keeps at most one such attribute,
 * the last one supplied.
 */
module PermittedSubclasses {
  import opened Wrappers
  import ModArith

  /** An unsigned byte of a class file. */
  type Byte = x: int | 0 <= x < 0x100

  /** A class-file `u2`. */
  type U2 = x: int | 0 <= x < 0x1_0000

  /** A class-file `u4`. */
  type U4 = x: int | 0 <= x < 0x1_0000_0000

  const U2_LIMIT: int := 0x1_0000

  /** The attribute may occur at most once on a class. */
  const ALLOWS_MULTIPLE: bool := false

  /** Bytes before the payload in an attribute record: u2 name index and u4 length. */
  const HEADER_LEN: nat := 6

  /** A `ClassEntry`: the index of a `CONSTANT_Class` entry of some constant pool. */
  datatype ClassEntry = ClassEntry(index: U2)

  /** A symbolic class descriptor (`ClassDesc`), such as "Ljava/lang/String;". */
  datatype ClassDesc = ClassDesc(descriptor: string)

  /** The kinds of constant-pool entry this model distinguishes. */
  datatype PoolEntry = ClassInfo(name: string) | Utf8Info(text: string) | OtherInfo

  /**
   * A parsed constant pool; index 0 is never a valid index, so the entry at
   * position 0 of the sequence is ignored.
   */
  type Pool = seq<PoolEntry>

  /** The failures the attribute's operations report. */
  datatype Error =
    | NullEntry                  // a null element passed to a factory
    | Unresolvable(desc: ClassDesc)  // a descriptor the pool builder cannot turn into a class entry
    | TooManyEntries             // more than 65535 classes do not fit the u2 count
    | Malformed                  // the record's lengths disagree with the bytes
    | PoolBounds(index: U2)      // an index outside the pool or not naming a class

  /**
   * The two implementations of the sealed interface: Unbound holds the
   * classes it was built from; Bound is the record at `offset` in a class
   * file's bytes, read against that class file's constant pool.
   */
  datatype Attribute =
    | Unbound(classes: seq<ClassEntry>)
    | Bound(image: seq<Byte>, offset: nat, pool: Pool)

  // ----- big-endian integers -----

  function ReadU2(b: seq<Byte>, at: nat): U2
    requires at + 2 <= |b|
  {
    (b[at] as int) * 0x100 + b[at + 1] as int
  }

  function ReadU4(b: seq<Byte>, at: nat): U4
    requires at + 4 <= |b|
  {
    ReadU2(b, at) * 0x1_0000 + ReadU2(b, at + 2)
  }

  /** The two bytes of a u2, high byte first. */
  function U2Bytes(v: U2): (r: seq<Byte>)
    ensures |r| == 2 && ReadU2(r, 0) == v
  {
    [v / 0x100, v % 0x100]
  }

  /** The four bytes of a u4, high byte first. */
  function U4Bytes(v: U4): (r: seq<Byte>)
    ensures |r| == 4 && ReadU4(r, 0) == v
  {
    var r := U2Bytes(v / 0x1_0000) + U2Bytes(v % 0x1_0000);
    assert ReadU2(r, 0) == v / 0x1_0000 && ReadU2(r, 2) == v % 0x1_0000;
    r
  }

  /** Two bytes are the encoding of the u2 they hold. */
  lemma U2BytesOfRead(b: seq<Byte>, at: nat)
    requires at + 2 <= |b|
    ensures U2Bytes(ReadU2(b, at)) == b[at..at + 2]
  {
    var v := ReadU2(b, at);
    ModArith.ModUnique(v, b[at], b[at + 1], 0x100);
    assert v / 0x100 == b[at];
  }

  /** Four bytes are the encoding of the u4 they hold. */
  lemma U4BytesOfRead(b: seq<Byte>, at: nat)
    requires at + 4 <= |b|
    ensures U4Bytes(ReadU4(b, at)) == b[at..at + 4]
  {
    var v, hi, lo := ReadU4(b, at), ReadU2(b, at), ReadU2(b, at + 2);
    ModArith.ModUnique(v, hi, lo, 0x1_0000);
    assert v / 0x1_0000 == hi;
    U2BytesOfRead(b, at);
    U2BytesOfRead(b, at + 2);
    assert b[at..at + 4] == b[at..at + 2] + b[at + 2..at + 4];
  }

  // ----- the section 4.7.31 payload: u2 number_of_classes, u2 classes[number_of_classes] -----

  /** The class indices, two bytes each, in order. */
  function EncodeIndices(classes: seq<ClassEntry>): (r: seq<Byte>)
    ensures |r| == 2 * |classes|
  {
    if |classes| == 0 then [] else U2Bytes(classes[0].index) + EncodeIndices(classes[1..])
  }

  /** The classes named by consecutive two-byte indices. */
  function DecodeIndices(b: seq<Byte>): (r: seq<ClassEntry>)
    requires |b| % 2 == 0
    ensures |r| == |b| / 2
  {
    if |b| == 0 then [] else [ClassEntry(ReadU2(b, 0))] + DecodeIndices(b[2..])
  }

  /** The payload of the attribute; a list too long for the u2 count cannot be written. */
  function EncodePayload(classes: seq<ClassEntry>): (r: Result<seq<Byte>, Error>)
    ensures r.Failure? <==> |classes| >= U2_LIMIT
    ensures r.Failure? ==> r.error == TooManyEntries
    ensures r.Success? ==> |r.value| == 2 + 2 * |classes| && ReadU2(r.value, 0) == |classes|
  {
    if |classes| >= U2_LIMIT then Failure(TooManyEntries)
    else Success(U2Bytes(|classes|) + EncodeIndices(classes))
  }

  /**
   * The classes of a payload; the payload is malformed unless its length is
   * exactly two bytes for the count plus two for each class.
   */
  function DecodePayload(payload: seq<Byte>): (r: Result<seq<ClassEntry>, Error>)
    ensures r.Success? <==> |payload| >= 2 && |payload| == 2 + 2 * ReadU2(payload, 0)
    ensures r.Failure? ==> r.error == Malformed
    ensures r.Success? ==> |r.value| == ReadU2(payload, 0)
  {
    if |payload| < 2 || |payload| != 2 + 2 * ReadU2(payload, 0) then Failure(Malformed)
    else Success(DecodeIndices(payload[2..]))
  }

  lemma {:induction false} DecodeEncodeIndices(classes: seq<ClassEntry>)
    ensures DecodeIndices(EncodeIndices(classes)) == classes
  {
    if |classes| > 0 {
      var b := EncodeIndices(classes);
      assert b[2..] == EncodeIndices(classes[1..]);
      assert ReadU2(b, 0) == ReadU2(U2Bytes(classes[0].index), 0);
      DecodeEncodeIndices(classes[1..]);
    }
  }

  lemma {:induction false} EncodeDecodeIndices(b: seq<Byte>)
    requires |b| % 2 == 0
    ensures EncodeIndices(DecodeIndices(b)) == b
  {
    if |b| > 0 {
      var classes := DecodeIndices(b);
      assert classes[1..] == DecodeIndices(b[2..]);
      EncodeDecodeIndices(b[2..]);
      U2BytesOfRead(b, 0);
      assert b == b[..2] + b[2..];
    }
  }

  /** Decoding an encoded list gives back the same classes, in order and with duplicates. */
  lemma DecodeEncodePayload(classes: seq<ClassEntry>)
    requires |classes| < U2_LIMIT
    ensures DecodePayload(EncodePayload(classes).value) == Success(classes)
  {
    var payload := EncodePayload(classes).value;
    assert payload[2..] == EncodeIndices(classes);
    DecodeEncodeIndices(classes);
  }

  /** Re-encoding the classes of a well-formed payload gives the same bytes. */
  lemma EncodeDecodePayload(payload: seq<Byte>)
    requires DecodePayload(payload).Success?
    ensures EncodePayload(DecodePayload(payload).value) == Success(payload)
  {
    EncodeDecodeIndices(payload[2..]);
    U2BytesOfRead(payload, 0);
    assert payload == payload[..2] + payload[2..];
  }

  /** An empty list is written as a zero count alone and reads back as empty. */
  lemma EmptyListPayload()
    ensures EncodePayload([]) == Success([0, 0])
    ensures DecodePayload([0, 0]) == Success([])
  {
    assert U2Bytes(0) + EncodeIndices([]) == [0, 0];
  }

  /** A count of five with only three indices present is malformed. */
  lemma ShortPayloadMalformed()
    ensures DecodePayload([0, 5, 0, 1, 0, 2, 0, 3]) == Failure(Malformed)
  {
  }

  // ----- the whole attribute record: u2 name index, u4 length, payload -----

  /** The attribute record with the given name index and classes. */
  function EncodeRecord(nameIndex: U2, classes: seq<ClassEntry>): (r: Result<seq<Byte>, Error>)
    ensures r.Failure? <==> |classes| >= U2_LIMIT
    ensures r.Success? ==>
      |r.value| == HEADER_LEN + 2 + 2 * |classes| && ReadU2(r.value, 0) == nameIndex && ReadU4(r.value, 2) == 2 + 2 * |classes|
  {
    match EncodePayload(classes)
    case Failure(e) => Failure(e)
    case Success(payload) =>
      var r := U2Bytes(nameIndex) + U4Bytes(|payload|) + payload;
      assert r[2..6] == U4Bytes(|payload|);
      assert ReadU4(r, 2) == ReadU4(r[2..6], 0);
      Success(r)
  }

  /**
   * The record at `offset`: its six header bytes must be present, and the
   * length they declare must not run past the end of the bytes.
   */
  function RecordAt(image: seq<Byte>, offset: nat): (r: Result<seq<Byte>, Error>)
    ensures r.Success? <==> offset + HEADER_LEN <= |image| && offset + HEADER_LEN + ReadU4(image, offset + 2) <= |image|
    ensures r.Success? ==> r.value == image[offset..offset + HEADER_LEN + ReadU4(image, offset + 2)]
  {
    if offset + HEADER_LEN > |image| then Failure(Malformed)
    else
      var length := ReadU4(image, offset + 2);
      if offset + HEADER_LEN + length > |image| then Failure(Malformed)
      else Success(image[offset..offset + HEADER_LEN + length])
  }

  /** Whether an index names a `CONSTANT_Class` entry of the pool. */
  predicate IsClassIndex(pool: Pool, index: U2)
  {
    0 < index < |pool| && pool[index].ClassInfo?
  }

  /** The classes, provided each index names a class entry of the pool; otherwise the first bad index. */
  function Resolve(pool: Pool, classes: seq<ClassEntry>): (r: Result<seq<ClassEntry>, Error>)
    ensures r.Success? <==> forall i :: 0 <= i < |classes| ==> IsClassIndex(pool, classes[i].index)
    ensures r.Success? ==> r.value == classes
    ensures r.Failure? ==>
      exists i :: 0 <= i < |classes| && r.error == PoolBounds(classes[i].index) && !IsClassIndex(pool, classes[i].index)
  {
    if |classes| == 0 then Success([])
    else if !IsClassIndex(pool, classes[0].index) then Failure(PoolBounds(classes[0].index))
    else
      match Resolve(pool, classes[1..])
      case Failure(e) => Failure(e)
      case Success(rest) => Success([classes[0]] + rest)
  }

  /**
   * `permittedSubclasses()`: an unbound attribute returns the list it was
   * built from; a bound one reads the count and the indices of its record
   * and checks each against its class file's pool.
   */
  function PermittedSubclassesOf(a: Attribute): (r: Result<seq<ClassEntry>, Error>)
    ensures a.Unbound? ==> r == Success(a.classes)
    ensures a.Bound? && r.Success? ==>
      a.offset + HEADER_LEN + 2 <= |a.image| && |r.value| == ReadU2(a.image, a.offset + HEADER_LEN)
      && forall i :: 0 <= i < |r.value| ==> IsClassIndex(a.pool, r.value[i].index)
  {
    match a
    case Unbound(classes) => Success(classes)
    case Bound(image, offset, pool) =>
      match RecordAt(image, offset)
      case Failure(e) => Failure(e)
      case Success(record) =>
        match DecodePayload(record[HEADER_LEN..])
        case Failure(e) => Failure(e)
        case Success(classes) =>
          assert ReadU2(record[HEADER_LEN..], 0) == ReadU2(image, offset + HEADER_LEN);
          Resolve(pool, classes)
  }

  /**
   * A record written by an unbound attribute for classes that all name class
   * entries of the pool, placed anywhere in a class file, reads back through
   * the bound variant as those classes.
   */
  lemma BoundReadsWritten(prefix: seq<Byte>, suffix: seq<Byte>, nameIndex: U2, classes: seq<ClassEntry>, pool: Pool)
    requires |classes| < U2_LIMIT
    requires forall i :: 0 <= i < |classes| ==> IsClassIndex(pool, classes[i].index)
    ensures WriteTo(Unbound(classes), nameIndex).Success?
    ensures PermittedSubclassesOf(Bound(prefix + WriteTo(Unbound(classes), nameIndex).value + suffix, |prefix|, pool))
      == Success(classes)
  {
    var record := WriteTo(Unbound(classes), nameIndex).value;
    var image := prefix + record + suffix;
    var at := |prefix|;
    assert image[at..at + |record|] == record;
    assert image[at + 2..at + 6] == record[2..6];
    assert ReadU4(image, at + 2) == ReadU4(image[at + 2..at + 6], 0);
    assert ReadU4(record, 2) == ReadU4(record[2..6], 0);
  }

  /**
   * A bound attribute that reads successfully is re-encoded, under its own
   * name index, to exactly the bytes of its record: copying the record is
   * the same as writing the classes again.
   */
  lemma BoundRoundTrip(image: seq<Byte>, offset: nat, pool: Pool)
    requires PermittedSubclassesOf(Bound(image, offset, pool)).Success?
    ensures EncodeRecord(ReadU2(image, offset), PermittedSubclassesOf(Bound(image, offset, pool)).value)
      == RecordAt(image, offset)
  {
    var record := RecordAt(image, offset).value;
    var payload := record[HEADER_LEN..];
    EncodeDecodePayload(payload);
    U2BytesOfRead(image, offset);
    U4BytesOfRead(image, offset + 2);
    assert record == image[offset..offset + 2] + image[offset + 2..offset + 6] + payload;
  }

  /**
   * `writeTo` for the same constant pool: an unbound attribute writes its
   * record, whose payload reads back as its classes; a bound one copies its
   * record byte for byte.
   */
  function WriteTo(a: Attribute, nameIndex: U2): (r: Result<seq<Byte>, Error>)
    ensures a.Unbound? ==> r == EncodeRecord(nameIndex, a.classes)
    ensures a.Unbound? ==> (r.Success? <==> |a.classes| < U2_LIMIT)
    ensures a.Unbound? && r.Success? ==>
      |r.value| >= HEADER_LEN && ReadU2(r.value, 0) == nameIndex && ReadU4(r.value, 2) == |r.value| - HEADER_LEN
      && DecodePayload(r.value[HEADER_LEN..]) == Success(a.classes)
    ensures a.Bound? && PermittedSubclassesOf(a).Success? ==>
      r == EncodeRecord(ReadU2(a.image, a.offset), PermittedSubclassesOf(a).value)
  {
    match a
    case Unbound(classes) =>
      if |classes| < U2_LIMIT then
        DecodeEncodePayload(classes);
        EncodeRecord(nameIndex, classes)
      else EncodeRecord(nameIndex, classes)
    case Bound(image, offset, pool) =>
      if PermittedSubclassesOf(a).Success? then
        BoundRoundTrip(image, offset, pool);
        RecordAt(image, offset)
      else RecordAt(image, offset)
  }

  // ----- factories -----

  /** A Java list whose elements may be null (None). */
  function NonNull<T>(list: seq<Option<T>>): (r: Result<seq<T>, Error>)
    ensures r.Success? <==> forall i :: 0 <= i < |list| ==> list[i].Some?
    ensures r.Success? ==> |r.value| == |list| && forall i :: 0 <= i < |list| ==> r.value[i] == list[i].value
    ensures r.Failure? ==> r.error == NullEntry
  {
    if |list| == 0 then Success([])
    else if list[0].None? then Failure(NullEntry)
    else
      match NonNull(list[1..])
      case Failure(e) => Failure(e)
      case Success(rest) => Success([list[0].value] + rest)
  }

  /**
   * `of(List<ClassEntry>)`: the unbound attribute over a copy of the list,
   * which must hold no null; its `permittedSubclasses()` is then the list
   * itself, in order and with duplicates.
   */
  function Of(list: seq<Option<ClassEntry>>): (r: Result<Attribute, Error>)
    ensures r.Success? <==> forall i :: 0 <= i < |list| ==> list[i].Some?
    ensures r.Failure? ==> r.error == NullEntry
    ensures r.Success? ==> r.value.Unbound? && Lift(r.value.classes) == list
  {
    match NonNull(list)
    case Failure(e) => Failure(e)
    case Success(classes) =>
      assert Lift(classes) == list;
      Success(Unbound(classes))
  }

  /** Each element of a list without nulls, as a possibly-null value again. */
  function Lift<T>(values: seq<T>): (r: seq<Option<T>>)
    ensures |r| == |values| && forall i :: 0 <= i < |values| ==> r[i] == Some(values[i])
  {
    seq(|values|, i requires 0 <= i < |values| => Some(values[i]))
  }

  /**
   * `of(ClassEntry...)`: `List.of` over the arguments (which rejects null),
   * then `of`; the two null checks agree, so this is `of` on the argument list.
   */
  function OfVarargs(args: seq<Option<ClassEntry>>): (r: Result<Attribute, Error>)
    ensures r == Of(args)
  {
    match NonNull(args)
    case Failure(e) => Failure(e)
    case Success(classes) =>
      assert Lift(classes) == args;
      Of(Lift(classes))
  }

  /**
   * `Util.entryList`: each descriptor turned into a class entry by the pool
   * builder, given as the entries it has for descriptors; the first null or
   * unresolvable descriptor fails the whole conversion.
   */
  function EntryList(descs: seq<Option<ClassDesc>>, entries: map<ClassDesc, ClassEntry>): (r: Result<seq<Option<ClassEntry>>, Error>)
    ensures r.Success? ==> |r.value| == |descs|
    ensures r.Failure? ==> r.error.NullEntry? || r.error.Unresolvable?
  {
    if |descs| == 0 then Success([])
    else if descs[0].None? then Failure(NullEntry)
    else if descs[0].value !in entries then Failure(Unresolvable(descs[0].value))
    else
      match EntryList(descs[1..], entries)
      case Failure(e) => Failure(e)
      case Success(rest) => Success([Some(entries[descs[0].value])] + rest)
  }

  lemma {:induction false} EntryListResolves(descs: seq<Option<ClassDesc>>, entries: map<ClassDesc, ClassEntry>)
    ensures EntryList(descs, entries).Success? <==>
      forall i :: 0 <= i < |descs| ==> descs[i].Some? && descs[i].value in entries
    ensures EntryList(descs, entries).Success? ==>
      forall i :: 0 <= i < |descs| ==> EntryList(descs, entries).value[i] == Some(entries[descs[i].value])
  {
    if |descs| > 0 {
      var tail := descs[1..];
      EntryListResolves(tail, entries);
      assert forall i :: 0 <= i < |tail| ==> tail[i] == descs[i + 1];
      if descs[0].Some? && descs[0].value in entries && EntryList(tail, entries).Success? {
        var list, rest := EntryList(descs, entries).value, EntryList(tail, entries).value;
        assert forall i :: 0 <= i < |tail| ==> list[i + 1] == rest[i];
      } else if descs[0].Some? && descs[0].value in entries {
        var k :| 0 <= k < |tail| && !(tail[k].Some? && tail[k].value in entries);
        assert descs[k + 1] == tail[k];
      }
    }
  }

  /**
   * `ofSymbols(List<ClassDesc>)`: the descriptors converted to class
   * entries, then `of`. It fails on the first null or unresolvable
   * descriptor; otherwise its classes are the descriptors' entries, in order.
   */
  function OfSymbols(descs: seq<Option<ClassDesc>>, entries: map<ClassDesc, ClassEntry>): (r: Result<Attribute, Error>)
    ensures r.Success? <==> forall i :: 0 <= i < |descs| ==> descs[i].Some? && descs[i].value in entries
    ensures r.Success? ==>
      r.value.Unbound? && |r.value.classes| == |descs|
      && forall i :: 0 <= i < |descs| ==> r.value.classes[i] == entries[descs[i].value]
    ensures r.Failure? ==> r.error.NullEntry? || r.error.Unresolvable?
  {
    EntryListResolves(descs, entries);
    match EntryList(descs, entries)
    case Failure(e) => Failure(e)
    case Success(list) => Of(list)
  }

  /**
   * `ofSymbols(ClassDesc...)`: the arguments through `Arrays.asList`, a
   * view that keeps nulls, then `ofSymbols`. The source only delegates, so
   * this is `OfSymbols` over the same sequence, and its contract is
   * `OfSymbols`'s; in particular a null argument makes it fail.
   */
  function OfSymbolsVarargs(args: seq<Option<ClassDesc>>, entries: map<ClassDesc, ClassEntry>): (r: Result<Attribute, Error>)
    ensures r.Success? <==> forall i :: 0 <= i < |args| ==> args[i].Some? && args[i].value in entries
    ensures r.Success? ==>
      r.value.Unbound? && |r.value.classes| == |args|
      && forall i :: 0 <= i < |args| ==> r.value.classes[i] == entries[args[i].value]
    ensures (exists i :: 0 <= i < |args| && args[i].None?) ==> r.Failure?
  {
    OfSymbols(args, entries)
  }

  // ----- at most one per class: the last one supplied wins -----

  /** The attributes a class builder collects: this one, or any other attribute. */
  datatype ClassAttribute =
    | Permitted(attribute: Attribute)
    | Other(name: string, body: seq<Byte>)

  /** Position of the first PermittedSubclasses attribute, if any. */
  function FirstPermitted(attrs: seq<ClassAttribute>): (r: Option<nat>)
    ensures r.Some? ==>
      r.value < |attrs| && attrs[r.value].Permitted? && forall j :: 0 <= j < r.value ==> !attrs[j].Permitted?
    ensures r.None? ==> forall j :: 0 <= j < |attrs| ==> !attrs[j].Permitted?
  {
    if |attrs| == 0 then None
    else if attrs[0].Permitted? then Some(0)
    else
      match FirstPermitted(attrs[1..])
      case None => None
      case Some(i) => Some(i + 1)
  }

  /** The first PermittedSubclasses attribute is the one with none before it. */
  lemma {:induction false} FirstPermittedAt(attrs: seq<ClassAttribute>, i: nat)
    requires i < |attrs| && attrs[i].Permitted?
    requires forall j :: 0 <= j < i ==> !attrs[j].Permitted?
    ensures FirstPermitted(attrs) == Some(i)
  {
    if i > 0 {
      FirstPermittedAt(attrs[1..], i - 1);
    }
  }

  /** No two PermittedSubclasses attributes in the list. */
  predicate AtMostOnePermitted(attrs: seq<ClassAttribute>)
  {
    forall i, j :: 0 <= i < j < |attrs| ==> !(attrs[i].Permitted? && attrs[j].Permitted?)
  }

  /** The PermittedSubclasses attribute a list of attributes holds first, if any. */
  function PermittedIn(attrs: seq<ClassAttribute>): Option<Attribute>
  {
    match FirstPermitted(attrs)
    case None => None
    case Some(i) => Some(attrs[i].attribute)
  }

  /** The attributes other than PermittedSubclasses, in order. */
  function Others(attrs: seq<ClassAttribute>): seq<ClassAttribute>
  {
    if |attrs| == 0 then []
    else Others(attrs[..|attrs| - 1]) + (if attrs[|attrs| - 1].Other? then [attrs[|attrs| - 1]] else [])
  }

  lemma {:induction false} OthersUnchangedByReplace(attrs: seq<ClassAttribute>, i: nat, a: ClassAttribute)
    requires i < |attrs| && attrs[i].Permitted? && a.Permitted?
    ensures Others(attrs[i := a]) == Others(attrs)
  {
    var last := |attrs| - 1;
    if i == last {
      assert attrs[i := a][..last] == attrs[..last];
    } else {
      assert attrs[i := a][..last] == attrs[..last][i := a];
      OthersUnchangedByReplace(attrs[..last], i, a);
    }
  }

  /**
   * Adding an attribute to those collected so far. The attribute does not
   * allow multiple instances, so a PermittedSubclasses attribute takes the
   * place of the one already there, if any; anything else is appended. The
   * new PermittedSubclasses attribute is the one added, the others keep
   * their order, and a list with at most one keeps at most one.
   */
  function WithAttribute(attrs: seq<ClassAttribute>, a: ClassAttribute): (r: seq<ClassAttribute>)
    ensures PermittedIn(r) == if a.Permitted? then Some(a.attribute) else PermittedIn(attrs)
    ensures Others(r) == Others(attrs) + (if a.Other? then [a] else [])
    ensures AtMostOnePermitted(attrs) ==> AtMostOnePermitted(r)
  {
    if a.Permitted? && !ALLOWS_MULTIPLE then
      match FirstPermitted(attrs)
      case Some(i) =>
        var r := attrs[i := a];
        FirstPermittedAt(r, i);
        OthersUnchangedByReplace(attrs, i, a);
        r
      case None =>
        var r := attrs + [a];
        assert r[..|attrs|] == attrs;
        FirstPermittedAt(r, |attrs|);
        r
    else
      var r := attrs + [a];
      assert r[..|attrs|] == attrs;
      if a.Other? then
        match FirstPermitted(attrs)
        case Some(i) =>
          FirstPermittedAt(r, i);
          r
        case None =>
          assert forall j :: 0 <= j < |r| ==> !r[j].Permitted?;
          r
      else
        r
  }

  /** The last PermittedSubclasses attribute supplied, if any. */
  function LastSupplied(supplied: seq<ClassAttribute>): (r: Option<Attribute>)
  {
    if |supplied| == 0 then None
    else if supplied[|supplied| - 1].Permitted? then Some(supplied[|supplied| - 1].attribute)
    else LastSupplied(supplied[..|supplied| - 1])
  }

  /**
   * The attributes of a class built from the supplied ones, in the order
   * supplied: it never holds two PermittedSubclasses attributes, the one it
   * holds is the last one supplied (none if none was), and every other
   * attribute supplied is kept, in order.
   */
  function Collect(supplied: seq<ClassAttribute>): (r: seq<ClassAttribute>)
    ensures AtMostOnePermitted(r)
    ensures PermittedIn(r) == LastSupplied(supplied)
    ensures Others(r) == Others(supplied)
  {
    if |supplied| == 0 then []
    else WithAttribute(Collect(supplied[..|supplied| - 1]), supplied[|supplied| - 1])
  }

  /** Two PermittedSubclasses attributes supplied in turn leave only the second. */
  lemma TwoSuppliedSecondKept(first: Attribute, second: Attribute)
    ensures Collect([Permitted(first), Permitted(second)]) == [Permitted(second)]
  {
    var supplied := [Permitted(first), Permitted(second)];
    assert supplied[..1] == [Permitted(first)];
    assert supplied[..1][..0] == [];
    assert Collect(supplied[..1]) == [Permitted(first)];
    FirstPermittedAt([Permitted(first)], 0);
  }
}

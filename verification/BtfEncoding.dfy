/** Type sections as the format defines them, and the proof that the parser reads them back.
    Layouts follow section 2 of the Linux kernel's Documentation/bpf/btf.rst. */
module BtfEncoding {
  import opened Wrappers
  import opened Collections
  import opened ByteTypes
  import opened BtfParser

  datatype Member = Member(nameOff: u32, typeId: u32, offset: u32)

  datatype TypeDecl =
    | Composite(nameOff: u32, isUnion: bool, kindFlag: bool, size: u32, members: seq<Member>)
    | Other(nameOff: u32, kind: nat, kindFlag: bool, vlen: nat, sizeOrType: u32, payload: Bytes)

  function KindOf(t: TypeDecl): nat {
    match t
    case Composite(_, isUnion, _, _, _) => if isUnion then KIND_UNION else KIND_STRUCT
    case Other(_, kind, _, _, _, _) => kind
  }

  function VlenOf(t: TypeDecl): nat {
    match t
    case Composite(_, _, _, _, members) => |members|
    case Other(_, _, _, vlen, _, _) => vlen
  }

  const KIND_INT: nat := 1
  const KIND_ARRAY: nat := 3
  const KIND_ENUM: nat := 6
  const KIND_FUNC_PROTO: nat := 13
  const KIND_VAR: nat := 14
  const KIND_DATASEC: nat := 15
  const KIND_DECL_TAG: nat := 17
  const KIND_ENUM64: nat := 19

  /** The words that follow every type of a kind: an int's encoding, an array's two types and its length, a
      variable's linkage, a tag's component. */
  function FixedWords(kind: nat): nat {
    if kind in {KIND_INT, KIND_VAR, KIND_DECL_TAG} then 1 else if kind == KIND_ARRAY then 3 else 0
  }

  /** The words of each of the `vlen` entries that follow a type of a kind: members, section entries and 64-bit
      enumerators have three, enumerators and parameters two. */
  function EntryWords(kind: nat): nat {
    if kind in {KIND_STRUCT, KIND_UNION, KIND_DATASEC, KIND_ENUM64} then 3
    else if kind in {KIND_ENUM, KIND_FUNC_PROTO} then 2
    else 0
  }

  /** All kinds from 1 to 19, with any 16-bit count and whatever payload belongs to kind and count. */
  predicate WellFormed(t: TypeDecl) {
    && VlenOf(t) < 0x1_0000
    && (t.Other? ==> 1 <= t.kind <= 19 && t.kind != KIND_STRUCT && t.kind != KIND_UNION
                     && |t.payload| == 4 * (FixedWords(t.kind) + t.vlen * EntryWords(t.kind)))
  }

  predicate AllWellFormed(ts: seq<TypeDecl>) {
    forall i | 0 <= i < |ts| :: WellFormed(ts[i])
  }

  /** The low `count` bytes of `n`, least significant first. */
  function LittleEndian(n: nat, count: nat): (b: Bytes)
    ensures |b| == count
  {
    if count == 0 then [] else [n % 0x100] + LittleEndian(n / 0x100, count - 1)
  }

  function EncodeU32(n: u32): (b: Bytes)
    ensures |b| == 4
  {
    LittleEndian(n, 4)
  }

  function InfoOf(t: TypeDecl): u32
    requires WellFormed(t)
  {
    VlenOf(t) + 0x100_0000 * KindOf(t) + if t.kindFlag then 0x8000_0000 else 0
  }

  function EncodeMembers(ms: seq<Member>): (b: Bytes)
    ensures |b| == 12 * |ms|
  {
    if ms == [] then []
    else EncodeU32(ms[0].nameOff) + EncodeU32(ms[0].typeId) + EncodeU32(ms[0].offset) + EncodeMembers(ms[1..])
  }

  function ExtraOf(t: TypeDecl): Bytes {
    match t
    case Composite(_, _, _, _, members) => EncodeMembers(members)
    case Other(_, _, _, _, _, payload) => payload
  }

  function SizeOf(t: TypeDecl): nat {
    12 + |ExtraOf(t)|
  }

  function EncodeType(t: TypeDecl): (b: Bytes)
    requires WellFormed(t)
    ensures |b| == SizeOf(t)
  {
    EncodeU32(t.nameOff) + EncodeU32(InfoOf(t)) + EncodeU32(if t.Composite? then t.size else t.sizeOrType) + ExtraOf(t)
  }

  function EncodeTypes(ts: seq<TypeDecl>): Bytes
    requires AllWellFormed(ts)
  {
    if ts == [] then [] else EncodeType(ts[0]) + EncodeTypes(ts[1..])
  }

  // ---------------------------------------------------------------- reading back words and records

  lemma FourBytes(n: u32)
    ensures EncodeU32(n) == [n % 0x100, n / 0x100 % 0x100, n / 0x1_0000 % 0x100, n / 0x100_0000]
  {
    var n1 := n / 0x100;
    var n2 := n1 / 0x100;
    var n3 := n2 / 0x100;
    assert LittleEndian(n3, 1) == [n3 % 0x100] + LittleEndian(n3 / 0x100, 0);
    assert LittleEndian(n2, 2) == [n2 % 0x100] + LittleEndian(n3, 1);
    assert LittleEndian(n1, 3) == [n1 % 0x100] + LittleEndian(n2, 2);
    assert n2 == n / 0x1_0000 && n3 == n / 0x100_0000;
  }

  lemma {:induction false} ReadsBackU32(data: Bytes, off: nat, n: u32)
    requires off + 4 <= |data| && data[off..off + 4] == EncodeU32(n)
    ensures ReadU32(data, off) == Ok(n)
  {
    var b := EncodeU32(n);
    FourBytes(n);
    WordFromBytes(n);
    hide EncodeU32;
    assert data[off] == b[0] && data[off + 1] == b[1] && data[off + 2] == b[2] && data[off + 3] == b[3];
  }

  lemma {:induction false} WordFromBytes(n: u32)
    ensures n == n % 0x100 + 0x100 * (n / 0x100 % 0x100) + 0x1_0000 * (n / 0x1_0000 % 0x100) + 0x100_0000 * (n / 0x100_0000)
  {
    var n1 := n / 0x100;
    var n2 := n1 / 0x100;
    assert n == n % 0x100 + 0x100 * n1 && n1 == n1 % 0x100 + 0x100 * n2 && n2 == n2 % 0x100 + 0x100 * (n2 / 0x100);
    assert n2 == n / 0x1_0000 && n2 / 0x100 == n / 0x100_0000;
  }

  /** Reading a word gives a number exactly where its four bytes are. */
  lemma {:induction false} ReadsU32Iff(data: Bytes, off: nat, n: u32)
    ensures ReadU32(data, off) == Ok(n) <==> HasAt(data, off, EncodeU32(n))
  {
    if ReadU32(data, off) == Ok(n) {
      FourBytes(n);
      WordOfBytes(data[off], data[off + 1], data[off + 2], data[off + 3], n);
      assert data[off..off + 4] == [data[off], data[off + 1], data[off + 2], data[off + 3]];
    }
    if HasAt(data, off, EncodeU32(n)) { ReadsBackU32(data, off, n); }
  }

  lemma {:induction false} WordOfBytes(a: byte, b: byte, c: byte, d: byte, n: u32)
    requires n == a as int + 0x100 * (b as int) + 0x1_0000 * (c as int) + 0x100_0000 * (d as int)
    ensures n % 0x100 == a && n / 0x100 % 0x100 == b && n / 0x1_0000 % 0x100 == c && n / 0x100_0000 == d
  {
    var n2 := c as int + 0x100 * (d as int);
    var n1 := b as int + 0x100 * n2;
    assert n == a as int + 0x100 * n1;
    assert n % 0x100 == a && n / 0x100 == n1;
    assert n1 % 0x100 == b && n1 / 0x100 == n2;
    assert n2 % 0x100 == c && n2 / 0x100 == d;
    assert n / 0x1_0000 == n2 && n / 0x100_0000 == n2 / 0x100;
  }

  lemma InfoSplits(t: TypeDecl)
    requires WellFormed(t)
    ensures InfoOf(t) % 0x1_0000 == VlenOf(t)
    ensures InfoOf(t) / 0x100_0000 % 0x20 == KindOf(t)
    ensures InfoOf(t) / 0x8000_0000 % 2 == (if t.kindFlag then 1 else 0)
  {
  }

  /** The parser's table of sizes is the format's. */
  lemma ExtraLenMatches(t: TypeDecl)
    requires WellFormed(t)
    ensures ExtraLen(KindOf(t), VlenOf(t)) == Ok(|ExtraOf(t)|)
  {
  }

  /** The parser knows the sizes of the kinds 1 to 19, and no others. */
  lemma KnownKinds(kind: nat, vlen: nat)
    ensures ExtraLen(kind, vlen).Ok? <==> 1 <= kind <= 19
    ensures !(1 <= kind <= 19) ==> ExtraLen(kind, vlen) == Err(UnknownKind(kind))
  {
  }

  /** `data` has `part` at `off`. */
  predicate HasAt(data: Bytes, off: nat, part: Bytes) {
    off + |part| <= |data| && data[off..off + |part|] == part
  }

  lemma HasParts(data: Bytes, off: nat, a: Bytes, b: Bytes)
    requires HasAt(data, off, a + b)
    ensures HasAt(data, off, a) && HasAt(data, off + |a|, b)
  {
    assert data[off..off + |a|] == (a + b)[..|a|];
    assert data[off + |a|..off + |a| + |b|] == (a + b)[|a|..];
  }

  function EntryOf(t: TypeDecl, off: nat): TypeEntry {
    TypeEntry(t.nameOff, KindOf(t), VlenOf(t), t.kindFlag, off + 12)
  }

  lemma ReadsBackEntry(data: Bytes, off: nat, t: TypeDecl)
    requires WellFormed(t) && HasAt(data, off, EncodeType(t))
    ensures EntryAt(data, off) == Ok(EntryOf(t, off)) && HasAt(data, off + 12, ExtraOf(t))
  {
    var name, info := EncodeU32(t.nameOff), EncodeU32(InfoOf(t));
    var word := EncodeU32(if t.Composite? then t.size else t.sizeOrType);
    HasParts(data, off, name + info + word, ExtraOf(t));
    HasParts(data, off, name + info, word);
    HasParts(data, off, name, info);
    ReadsBackU32(data, off, t.nameOff);
    ReadsBackU32(data, off + 4, InfoOf(t));
    InfoSplits(t);
  }

  /** One step of the walk over a well-formed record. */
  lemma {:induction false} WalkStep(data: Bytes, off: nat, end: nat, t: TypeDecl, rest: seq<TypeEntry>, stop: Option<BtfError>)
    requires WellFormed(t) && HasAt(data, off, EncodeType(t)) && off < end
    requires Entries(data, off + SizeOf(t), end) == (rest, stop)
    ensures Entries(data, off, end) == ([EntryOf(t, off)] + rest, stop)
  {
    ReadsBackEntry(data, off, t);
    ExtraLenMatches(t);
  }

  /** The entries of a section that starts at `off`. */
  function EntriesOf(ts: seq<TypeDecl>, off: nat): (es: seq<TypeEntry>)
    ensures |es| == |ts|
  {
    if ts == [] then [] else [EntryOf(ts[0], off)] + EntriesOf(ts[1..], off + SizeOf(ts[0]))
  }

  lemma FirstEntry(ts: seq<TypeDecl>, off: nat)
    requires ts != []
    ensures EntriesOf(ts, off) == [EntryOf(ts[0], off)] + EntriesOf(ts[1..], off + SizeOf(ts[0]))
  {
  }

  lemma {:induction false} SplitSection(data: Bytes, off: nat, ts: seq<TypeDecl>)
    requires ts != [] && AllWellFormed(ts) && HasAt(data, off, EncodeTypes(ts))
    ensures WellFormed(ts[0]) && AllWellFormed(ts[1..])
    ensures HasAt(data, off, EncodeType(ts[0])) && HasAt(data, off + SizeOf(ts[0]), EncodeTypes(ts[1..]))
    ensures |EncodeTypes(ts)| == SizeOf(ts[0]) + |EncodeTypes(ts[1..])|
  {
    HasParts(data, off, EncodeType(ts[0]), EncodeTypes(ts[1..]));
  }

  /** From `off` the walk visits `es` and goes on at `next`. */
  predicate GoesOn(data: Bytes, off: nat, end: nat, es: seq<TypeEntry>, next: nat) {
    Entries(data, off, end) == (es + Entries(data, next, end).0, Entries(data, next, end).1)
  }

  lemma {:induction false} GoesOnFurther(data: Bytes, off: nat, end: nat, a: seq<TypeEntry>, mid: nat, b: seq<TypeEntry>, next: nat)
    requires GoesOn(data, off, end, a, mid) && GoesOn(data, mid, end, b, next)
    ensures GoesOn(data, off, end, a + b, next)
  {
    hide Entries;
    assert a + (b + Entries(data, next, end).0) == a + b + Entries(data, next, end).0;
  }

  lemma {:induction false} GoesOnAtOnce(data: Bytes, off: nat, end: nat)
    ensures GoesOn(data, off, end, [], off)
  {
    hide Entries;
    assert [] + Entries(data, off, end).0 == Entries(data, off, end).0;
  }

  /** The walk over well-formed records goes on with whatever follows them. */
  lemma {:induction false} WalkGoesOn(data: Bytes, off: nat, end: nat, ts: seq<TypeDecl>)
    requires AllWellFormed(ts) && HasAt(data, off, EncodeTypes(ts)) && off + |EncodeTypes(ts)| <= end
    ensures GoesOn(data, off, end, EntriesOf(ts, off), off + |EncodeTypes(ts)|)
    decreases |ts|
  {
    hide GoesOn, Entries, EncodeType, WellFormed, HasAt;
    if ts == [] {
      assert EntriesOf(ts, off) == [] && |EncodeTypes(ts)| == 0;
      GoesOnAtOnce(data, off, end);
    } else {
      SplitSection(data, off, ts);
      WalkGoesOn(data, off + SizeOf(ts[0]), end, ts[1..]);
      WalkOne(data, off, end, ts[0]);
      FirstEntry(ts, off);
      GoesOnFurther(data, off, end, [EntryOf(ts[0], off)], off + SizeOf(ts[0]),
                    EntriesOf(ts[1..], off + SizeOf(ts[0])), off + |EncodeTypes(ts)|);
    }
  }

  lemma {:induction false} WalkOne(data: Bytes, off: nat, end: nat, t: TypeDecl)
    requires WellFormed(t) && HasAt(data, off, EncodeType(t)) && off < end
    ensures GoesOn(data, off, end, [EntryOf(t, off)], off + SizeOf(t))
  {
    var after := Entries(data, off + SizeOf(t), end);
    hide Entries;
    WalkStep(data, off, end, t, after.0, after.1);
  }

  /** On a well-formed section the walk visits exactly the records, in order, and stops exactly at the end. */
  lemma {:induction false} WalkVisitsRecords(data: Bytes, off: nat, end: nat, ts: seq<TypeDecl>)
    requires AllWellFormed(ts) && HasAt(data, off, EncodeTypes(ts)) && end == off + |EncodeTypes(ts)|
    ensures Entries(data, off, end) == (EntriesOf(ts, off), None)
  {
    hide EncodeTypes, EntriesOf, HasAt;
    WalkGoesOn(data, off, end, ts);
    assert Entries(data, end, end) == ([], None) && EntriesOf(ts, off) + [] == EntriesOf(ts, off);
  }

  lemma {:induction false} MembersArePlaced(data: Bytes, off: nat, ms: seq<Member>, j: nat)
    requires HasAt(data, off, EncodeMembers(ms)) && j < |ms|
    ensures ReadU32(data, off + j * 12) == Ok(ms[j].nameOff) && ReadU32(data, off + j * 12 + 8) == Ok(ms[j].offset)
    decreases |ms|
  {
    var a, b, c := EncodeU32(ms[0].nameOff), EncodeU32(ms[0].typeId), EncodeU32(ms[0].offset);
    HasParts(data, off, a + b + c, EncodeMembers(ms[1..]));
    if j == 0 {
      HasParts(data, off, a + b, c);
      HasParts(data, off, a, b);
      ReadsBackU32(data, off, ms[0].nameOff);
      ReadsBackU32(data, off + 8, ms[0].offset);
    } else {
      MembersArePlaced(data, off + 12, ms[1..], j - 1);
    }
  }

  // ---------------------------------------------------------------- names

  /** The string table has `name` at the offset `off`: bytes up to a NUL, and nothing at zero. */
  ghost predicate HasStringAt(strings: Bytes, off: u32, name: Bytes) {
    if off == 0 then name == []
    else HasAt(strings, off, name + [0]) && 0 !in name
  }

  /** The string table gives the name `name`, which is text, to the offset `off`. */
  ghost predicate IsNamed(strings: Bytes, off: u32, name: Bytes) {
    HasStringAt(strings, off, name) && ValidUtf8(name)
  }

  /** The file holds the string section where its header says. */
  ghost predicate HasStrings(b: Btf, strings: Bytes) {
    b.hdr.strLen == |strings| && HasAt(b.data, b.hdr.hdrLen + b.hdr.strOff, strings)
  }

  lemma NameBeforeNul(strings: Bytes, off: u32, name: Bytes)
    requires off != 0 && HasStringAt(strings, off, name)
    ensures off + |name| < |strings| && Find(strings[off..], 0) == |name| && strings[off..][..|name|] == name
  {
    var s := strings[off..];
    assert s == name + [0] + s[|name| + 1..] by { assert s[..|name| + 1] == name + [0]; }
    FindAfterWord(name, 0, s[|name| + 1..]);
  }

  /** What the string table has at an offset is read back if it is text, and rejected if it is not. */
  lemma ReadsBackName(b: Btf, strings: Bytes, off: u32, name: Bytes)
    requires HasStrings(b, strings) && HasStringAt(strings, off, name)
    ensures NameAt(b, off) == if ValidUtf8(name) then Ok(name) else Err(InvalidUtf8)
  {
    hide Find, ValidUtf8;
    NothingIsText();
    if off != 0 {
      var base := b.hdr.hdrLen + b.hdr.strOff;
      NameBeforeNul(strings, off, name);
      assert b.data[base + off..base + |strings|] == b.data[base..base + |strings|][off..];
    }
  }

  /** On any bytes and header: the name at an offset other than zero is the text before the first NUL from there on
      inside the string section, and what is missing else is what the error says. */
  lemma {:induction false} NameAtMeans(b: Btf, off: u32, name: Bytes)
    requires off != 0
    ensures var base := b.hdr.hdrLen + b.hdr.strOff;
            var start, end := base + off, base + b.hdr.strLen;
            var inside := start <= end <= |b.data|;
            && (NameAt(b, off) == Ok(name) <==>
                  inside && start + |name| < end && HasAt(b.data, start, name + [0]) && 0 !in name && ValidUtf8(name))
            && (NameAt(b, off) == Err(StringOutOfRange) <==> !inside)
            && (NameAt(b, off) == Err(UnterminatedString) <==> inside && 0 !in b.data[start..end])
  {
    hide ValidUtf8, Find, HasAt;
    var base := b.hdr.hdrLen + b.hdr.strOff;
    var start, end := base + off, base + b.hdr.strLen;
    if start <= end <= |b.data| {
      var slice := b.data[start..end];
      FirstNul(slice, name);
      NoNul(slice);
      HasAtSlice(b.data, start, end, name + [0]);
    }
  }

  lemma HasAtSlice(data: Bytes, start: nat, end: nat, part: Bytes)
    requires start <= end <= |data|
    ensures start + |part| <= end && HasAt(data, start, part) <==>
            |part| <= |data[start..end]| && data[start..end][..|part|] == part
  {
    if start + |part| <= end {
      assert data[start..end][..|part|] == data[start..start + |part|];
    }
  }

  lemma {:induction false} NoNul(slice: Bytes)
    ensures Find(slice, 0) == |slice| <==> 0 !in slice
  {
    assert slice[..|slice|] == slice;
  }

  lemma {:induction false} FirstNul(slice: Bytes, name: Bytes)
    ensures Find(slice, 0) < |slice| && slice[..Find(slice, 0)] == name <==>
            |name + [0]| <= |slice| && slice[..|name + [0]|] == name + [0] && 0 !in name
  {
    hide Find;
    var k := Find(slice, 0);
    if |name| < |slice| && slice[..|name| + 1] == name + [0] && 0 !in name {
      assert slice == name + [0] + slice[|name| + 1..];
      FindAfterWord(name, 0, slice[|name| + 1..]);
      assert slice[..|name|] == name;
    }
    if k < |slice| && slice[..k] == name {
      assert slice[..k + 1] == name + [0];
    }
  }

  lemma NameIsUnique(strings: Bytes, off: u32, a: Bytes, b: Bytes)
    requires IsNamed(strings, off, a) && IsNamed(strings, off, b)
    ensures a == b
  {
    if off != 0 {
      NameBeforeNul(strings, off, a);
      NameBeforeNul(strings, off, b);
    }
  }

  /** A string table: the empty name at zero, then the given names, each ended by a NUL. */
  function StringTable(names: seq<Bytes>): Bytes {
    if names == [] then [0] else StringTable(names[..|names| - 1]) + names[|names| - 1] + [0]
  }

  /** Laying out NUL-free names gives each of them an offset that reads back as that name. */
  lemma {:induction false} TableNamesAll(names: seq<Bytes>, i: nat)
    requires i < |names| && 0 !in names[i]
    ensures var off := |StringTable(names[..i])|;
            off != 0 && HasAt(StringTable(names), off, names[i] + [0])
    decreases |names|
  {
    var n := |names| - 1;
    if i == n {
      assert StringTable(names) == StringTable(names[..n]) + (names[i] + [0]);
    } else {
      TableNamesAll(names[..n], i);
      assert names[..n][..i] == names[..i];
      var off, front := |StringTable(names[..i])|, StringTable(names[..n]);
      assert StringTable(names)[off..off + |names[i]| + 1] == front[off..off + |names[i]| + 1];
    }
  }

  lemma OnlyName(strings: Bytes, off: u32, a: Bytes, b: Bytes)
    requires IsNamed(strings, off, a) && a != b
    ensures !IsNamed(strings, off, b)
  {
    if IsNamed(strings, off, b) { NameIsUnique(strings, off, a, b); }
  }

  // ---------------------------------------------------------------- what the parser should answer

  /** The string table names every struct, every union and every member. */
  ghost predicate WellNamed(ts: seq<TypeDecl>, strings: Bytes) {
    forall i | 0 <= i < |ts| && ts[i].Composite? :: HasName(strings, ts[i].nameOff) && MembersNamed(ts[i], strings)
  }

  ghost predicate HasName(strings: Bytes, off: u32) {
    exists name :: IsNamed(strings, off, name)
  }

  ghost predicate MembersNamed(t: TypeDecl, strings: Bytes)
    requires t.Composite?
  {
    forall j | 0 <= j < |t.members| :: HasName(strings, t.members[j].nameOff)
  }

  ghost predicate IsStruct(t: TypeDecl, strings: Bytes, name: Bytes) {
    t.Composite? && IsNamed(strings, t.nameOff, name)
  }

  ghost predicate NoStruct(ts: seq<TypeDecl>, strings: Bytes, name: Bytes) {
    forall n | 0 <= n < |ts| :: !IsStruct(ts[n], strings, name)
  }

  ghost predicate FirstStruct(ts: seq<TypeDecl>, strings: Bytes, name: Bytes, i: nat) {
    i < |ts| && IsStruct(ts[i], strings, name) && forall n | 0 <= n < i :: !IsStruct(ts[n], strings, name)
  }

  ghost predicate FirstMember(t: TypeDecl, strings: Bytes, field: Bytes, j: nat)
    requires t.Composite?
  {
    && j < |t.members| && IsNamed(strings, t.members[j].nameOff, field)
    && forall n | 0 <= n < j :: !IsNamed(strings, t.members[n].nameOff, field)
  }

  /** With the kind flag set, the low 24 bits of a member's offset word are its bit offset, else all of them. */
  function BitOffset(t: TypeDecl, j: nat): nat
    requires t.Composite? && j < |t.members|
  {
    if t.kindFlag then t.members[j].offset % 0x100_0000 else t.members[j].offset
  }

  ghost predicate AnswersField(t: TypeDecl, strings: Bytes, field: Bytes, r: Result<nat, BtfError>)
    requires t.Composite?
  {
    match r
    case Ok(n) => exists j: nat :: FirstMember(t, strings, field, j) && 8 * n == BitOffset(t, j)
    case Err(Bitfield(bits)) => exists j: nat :: FirstMember(t, strings, field, j) && bits == BitOffset(t, j) && bits % 8 != 0
    case Err(NoSuchField) => forall j | 0 <= j < |t.members| :: !IsNamed(strings, t.members[j].nameOff, field)
    case Err(_) => false
  }

  /** The byte offset of the first member so named in the first struct or union so named, or the one error
      that says what is missing or that the member does not start at a byte. */
  ghost predicate Answers(ts: seq<TypeDecl>, strings: Bytes, name: Bytes, field: Bytes, r: Result<nat, BtfError>) {
    if r == Err(NoSuchStruct) then NoStruct(ts, strings, name)
    else exists i: nat :: FirstStruct(ts, strings, name, i) && AnswersField(ts[i], strings, field, r)
  }

  /** The file holds the type section `ts` and the string section `strings` where its header says. */
  ghost predicate LaidOut(b: Btf, ts: seq<TypeDecl>, strings: Bytes) {
    && AllWellFormed(ts) && WellNamed(ts, strings)
    && b.hdr.typeLen == |EncodeTypes(ts)| && HasAt(b.data, TypesStart(b), EncodeTypes(ts))
    && HasStrings(b, strings)
  }

  /** One step of the search for a member. */
  lemma MemberStep(b: Btf, e: TypeEntry, t: TypeDecl, strings: Bytes, field: Bytes, j: nat, name: Bytes)
    requires t.Composite? && j < |t.members| && e.vlen == |t.members| && e.kindFlag == t.kindFlag
    requires HasStrings(b, strings)
    requires HasAt(b.data, e.extraOff, EncodeMembers(t.members)) && IsNamed(strings, t.members[j].nameOff, name)
    ensures MemberOffset(b, e, field, j)
         == if name != field then MemberOffset(b, e, field, j + 1)
            else if BitOffset(t, j) % 8 != 0 then Err(Bitfield(BitOffset(t, j)))
            else Ok(BitOffset(t, j) / 8)
  {
    hide NameAt, ReadU32, HasAt, EncodeMembers, ValidUtf8;
    MembersArePlaced(b.data, e.extraOff, t.members, j);
    ReadsBackName(b, strings, t.members[j].nameOff, name);
  }

  lemma MemberFound(t: TypeDecl, strings: Bytes, field: Bytes, j: nat)
    requires t.Composite? && FirstMember(t, strings, field, j)
    ensures var bits := BitOffset(t, j);
            AnswersField(t, strings, field, if bits % 8 != 0 then Err(Bitfield(bits)) else Ok(bits / 8))
  {
  }

  /** The search for a member from `j` on, given that the members' words and names can be read. */
  lemma {:induction false} MembersAreSearched(b: Btf, e: TypeEntry, t: TypeDecl, strings: Bytes, field: Bytes, j: nat)
    requires t.Composite? && j <= |t.members| && e.vlen == |t.members| && e.kindFlag == t.kindFlag
    requires HasStrings(b, strings)
    requires HasAt(b.data, e.extraOff, EncodeMembers(t.members))
    requires MembersNamed(t, strings)
    requires forall n | 0 <= n < j :: !IsNamed(strings, t.members[n].nameOff, field)
    ensures AnswersField(t, strings, field, MemberOffset(b, e, field, j))
    decreases |t.members| - j
  {
    hide ReadU32, NameAt, EncodeMembers, HasAt;
    if j < |t.members| {
      assert HasName(strings, t.members[j].nameOff);
      var name :| IsNamed(strings, t.members[j].nameOff, name);
      MemberStep(b, e, t, strings, field, j, name);
      if name == field {
        MemberFound(t, strings, field, j);
      } else {
        OnlyName(strings, t.members[j].nameOff, name, field);
        MembersAreSearched(b, e, t, strings, field, j + 1);
      }
    }
  }

  /** The search of a section that starts at `off`. */
  lemma {:induction false} SectionIsSearched(b: Btf, off: nat, ts: seq<TypeDecl>, strings: Bytes, name: Bytes, field: Bytes)
    requires AllWellFormed(ts) && WellNamed(ts, strings)
    requires HasAt(b.data, off, EncodeTypes(ts)) && HasStrings(b, strings)
    ensures Answers(ts, strings, name, field, Scan(b, EntriesOf(ts, off), None, name, field))
    decreases |ts|
  {
    if ts != [] {
      SplitSection(b.data, off, ts);
      FirstEntry(ts, off);
      var es, next := EntriesOf(ts, off), off + SizeOf(ts[0]);
      if IsStruct(ts[0], strings, name) {
        FirstStructAnswers(b, off, ts, strings, name, field, es);
      } else {
        assert es[1..] == EntriesOf(ts[1..], next);
        OtherTypeIsSkipped(b, off, ts[0], strings, name, field, es);
        SectionIsSearched(b, next, ts[1..], strings, name, field);
        AnswersShift(ts, strings, name, field, Scan(b, es, None, name, field));
      }
    }
  }

  lemma OtherTypeIsSkipped(b: Btf, off: nat, t: TypeDecl, strings: Bytes, name: Bytes, field: Bytes, es: seq<TypeEntry>)
    requires HasStrings(b, strings) && !IsStruct(t, strings, name) && (t.Composite? ==> HasName(strings, t.nameOff))
    requires WellFormed(t) && es != [] && es[0] == EntryOf(t, off)
    ensures Scan(b, es, None, name, field) == Scan(b, es[1..], None, name, field)
  {
    if t.Composite? {
      var found :| IsNamed(strings, t.nameOff, found);
      ReadsBackName(b, strings, t.nameOff, found);
    }
  }

  /** A struct so named at the front decides the answer. */
  lemma FirstStructAnswers(b: Btf, off: nat, ts: seq<TypeDecl>, strings: Bytes, name: Bytes, field: Bytes, es: seq<TypeEntry>)
    requires ts != [] && HasStrings(b, strings) && IsStruct(ts[0], strings, name) && MembersNamed(ts[0], strings)
    requires WellFormed(ts[0]) && HasAt(b.data, off, EncodeType(ts[0])) && es != [] && es[0] == EntryOf(ts[0], off)
    ensures Answers(ts, strings, name, field, Scan(b, es, None, name, field))
  {
    ReadsBackName(b, strings, ts[0].nameOff, name);
    ReadsBackEntry(b.data, off, ts[0]);
    MembersAreSearched(b, es[0], ts[0], strings, field, 0);
    assert Scan(b, es, None, name, field) == MemberOffset(b, es[0], field, 0);
    assert FirstStruct(ts, strings, name, 0);
  }

  /** A type with another name at the front changes no answer. */
  lemma AnswersShift(ts: seq<TypeDecl>, strings: Bytes, name: Bytes, field: Bytes, r: Result<nat, BtfError>)
    requires ts != [] && !IsStruct(ts[0], strings, name) && Answers(ts[1..], strings, name, field, r)
    ensures Answers(ts, strings, name, field, r)
  {
  }

  lemma OffsetIsScan(b: Btf, es: seq<TypeEntry>, name: Bytes, field: Bytes)
    requires Entries(b.data, TypesStart(b), TypesEnd(b)) == (es, None)
    ensures OffsetOf(b, name, field) == Scan(b, es, None, name, field)
  {
  }

  /** On every well-formed type and string section the parser gives the right answer. */
  lemma ParserInvertsEncoding(b: Btf, ts: seq<TypeDecl>, strings: Bytes, name: Bytes, field: Bytes)
    requires LaidOut(b, ts, strings)
    ensures Answers(ts, strings, name, field, OffsetOf(b, name, field))
  {
    WalkVisitsRecords(b.data, TypesStart(b), TypesEnd(b), ts);
    SectionIsSearched(b, TypesStart(b), ts, strings, name, field);
    OffsetIsScan(b, EntriesOf(ts, TypesStart(b)), name, field);
  }

  /** An error at the end of the walk counts only if none of the records before it decides the search. */
  lemma {:induction false} StopComesLast(b: Btf, es: seq<TypeEntry>, stop: BtfError, name: Bytes, field: Bytes)
    requires forall e | e in es :: VisitEntry(b, e, name, field) != Err(NoSuchStruct)
    ensures Scan(b, es, Some(stop), name, field)
         == if Scan(b, es, None, name, field) == Err(NoSuchStruct) then Err(stop) else Scan(b, es, None, name, field)
    decreases |es|
  {
    hide VisitEntry;
    if es != [] { StopComesLast(b, es[1..], stop, name, field); }
  }

  lemma {:induction false} MembersAlwaysMissAField(b: Btf, e: TypeEntry, field: Bytes, i: nat)
    ensures MemberOffset(b, e, field, i) != Err(NoSuchStruct)
    decreases e.vlen - i
  {
    if i < e.vlen { MembersAlwaysMissAField(b, e, field, i + 1); }
  }

  /** Well-formed records and then one that cannot be read or is of no known kind. */
  ghost predicate BrokenAfter(b: Btf, ts: seq<TypeDecl>)
    requires AllWellFormed(ts)
  {
    && HasAt(b.data, TypesStart(b), EncodeTypes(ts)) && TypesStart(b) + |EncodeTypes(ts)| < TypesEnd(b)
    && var next := EntryAt(b.data, TypesStart(b) + |EncodeTypes(ts)|);
       next.Err? || next.value.kind == 0 || next.value.kind > 19
  }

  function BreakError(next: Result<TypeEntry, BtfError>): BtfError {
    if next.Err? then Truncated else UnknownKind(next.value.kind)
  }

  lemma {:induction false} BrokenEntries(b: Btf, ts: seq<TypeDecl>) returns (rest: seq<TypeEntry>)
    requires AllWellFormed(ts) && BrokenAfter(b, ts)
    ensures rest == [] || (|rest| == 1 && (rest[0].kind == 0 || rest[0].kind > 19))
    ensures Entries(b.data, TypesStart(b), TypesEnd(b))
         == (EntriesOf(ts, TypesStart(b)) + rest, Some(BreakError(EntryAt(b.data, TypesStart(b) + |EncodeTypes(ts)|))))
  {
    hide Entries, EntryAt, EntriesOf, HasAt, WellFormed, EncodeTypes, TypesStart, TypesEnd;
    var at := TypesStart(b) + |EncodeTypes(ts)|;
    WalkGoesOn(b.data, TypesStart(b), TypesEnd(b), ts);
    BrokenRecordStops(b.data, at, TypesEnd(b));
    rest := Entries(b.data, at, TypesEnd(b)).0;
  }

  lemma {:induction false} ScanIsOffset(b: Btf, es: seq<TypeEntry>, stop: BtfError, name: Bytes, field: Bytes)
    requires Entries(b.data, TypesStart(b), TypesEnd(b)) == (es, Some(stop))
    ensures var r := Scan(b, es, None, name, field);
            OffsetOf(b, name, field) == if r == Err(NoSuchStruct) then Err(stop) else r
  {
    hide VisitEntry, Entries, Scan;
    forall e | e in es ensures VisitEntry(b, e, name, field) != Err(NoSuchStruct) { VisitAlwaysHasAStruct(b, e, name, field); }
    StopComesLast(b, es, stop, name, field);
  }

  lemma {:induction false} VisitAlwaysHasAStruct(b: Btf, e: TypeEntry, name: Bytes, field: Bytes)
    ensures VisitEntry(b, e, name, field) != Err(NoSuchStruct)
  {
    MembersAlwaysMissAField(b, e, field, 0);
  }

  /** A field of a struct before the broken record is found or missed as in a whole section, and any other search ends
      in the one error. */
  lemma {:induction false} ParserOnBrokenSection(b: Btf, ts: seq<TypeDecl>, strings: Bytes, name: Bytes, field: Bytes)
    requires AllWellFormed(ts) && WellNamed(ts, strings) && HasStrings(b, strings) && BrokenAfter(b, ts)
    ensures var r := OffsetOf(b, name, field);
            if NoStruct(ts, strings, name)
            then r == Err(BreakError(EntryAt(b.data, TypesStart(b) + |EncodeTypes(ts)|)))
            else r != Err(NoSuchStruct) && Answers(ts, strings, name, field, r)
  {
    hide Entries, EntryAt, EntriesOf, Scan, OffsetOf, Answers, NoStruct, BreakError, WellNamed, WellFormed, HasStrings,
         HasAt, EncodeTypes, TypesStart, TypesEnd;
    var start := TypesStart(b);
    var es := EntriesOf(ts, start);
    var rest := BrokenEntries(b, ts);
    SectionIsSearched(b, start, ts, strings, name, field);
    ScanIsOffset(b, es + rest, BreakError(EntryAt(b.data, start + |EncodeTypes(ts)|)), name, field);
    BrokenRecordIsNoStruct(b, es, rest, name, field);
    AnswerOrNone(ts, strings, name, field, Scan(b, es, None, name, field));
  }

  lemma {:induction false} BrokenRecordStops(data: Bytes, at: nat, end: nat)
    requires at < end && (EntryAt(data, at).Err? || EntryAt(data, at).value.kind == 0 || EntryAt(data, at).value.kind > 19)
    ensures var next := EntryAt(data, at);
            Entries(data, at, end) == if next.Err? then ([], Some(Truncated)) else ([next.value], Some(UnknownKind(next.value.kind)))
  {
  }

  lemma {:induction false} BrokenRecordIsNoStruct(b: Btf, es: seq<TypeEntry>, rest: seq<TypeEntry>, name: Bytes, field: Bytes)
    requires rest == [] || (|rest| == 1 && (rest[0].kind == 0 || rest[0].kind > 19))
    ensures Scan(b, es + rest, None, name, field) == Scan(b, es, None, name, field)
    decreases |es|
  {
    if es == [] {
      assert es + rest == rest;
    } else {
      assert (es + rest)[1..] == es[1..] + rest;
      BrokenRecordIsNoStruct(b, es[1..], rest, name, field);
    }
  }

  lemma {:induction false} AnswerOrNone(ts: seq<TypeDecl>, strings: Bytes, name: Bytes, field: Bytes, r: Result<nat, BtfError>)
    requires Answers(ts, strings, name, field, r)
    ensures r == Err(NoSuchStruct) <==> NoStruct(ts, strings, name)
  {
  }

  /** The answer is never ambiguous. */
  lemma AnswerIsUnique(ts: seq<TypeDecl>, strings: Bytes, name: Bytes, field: Bytes, r: Result<nat, BtfError>,
                       s: Result<nat, BtfError>)
    requires Answers(ts, strings, name, field, r) && Answers(ts, strings, name, field, s)
    ensures r == s
  {
  }

  // ---------------------------------------------------------------- whole files

  const HEADER_LEN: nat := 24

  function EncodeHeader(h: Header): (b: Bytes)
    ensures |b| == HEADER_LEN
  {
    [0x9F, 0xeB, 1, 0] + EncodeU32(h.hdrLen) + EncodeU32(h.typeOff) + EncodeU32(h.typeLen) + EncodeU32(h.strOff)
    + EncodeU32(h.strLen)
  }

  /** Header, type section and string section, one after the other. */
  function EncodeFile(ts: seq<TypeDecl>, strings: Bytes): Bytes
    requires AllWellFormed(ts) && |EncodeTypes(ts)| < 0x1_0000_0000 && |strings| < 0x1_0000_0000
  {
    var types := EncodeTypes(ts);
    EncodeHeader(Header(0, |types|, |types|, |strings|, HEADER_LEN)) + types + strings
  }

  lemma ReadsBackHeader(data: Bytes, h: Header)
    requires HasAt(data, 0, EncodeHeader(h))
    ensures ParseHeader(data) == Ok(h)
  {
    var magic: Bytes := [0x9F, 0xeB, 1, 0];
    var a, b, c, d, e := EncodeU32(h.hdrLen), EncodeU32(h.typeOff), EncodeU32(h.typeLen), EncodeU32(h.strOff), EncodeU32(h.strLen);
    HasParts(data, 0, magic + a + b + c + d, e);
    HasParts(data, 0, magic + a + b + c, d);
    HasParts(data, 0, magic + a + b, c);
    HasParts(data, 0, magic + a, b);
    HasParts(data, 0, magic, a);
    assert data[0] == magic[0] && data[1] == magic[1] && data[2] == magic[2];
    ReadsBackU32(data, 4, h.hdrLen);
    ReadsBackU32(data, 8, h.typeOff);
    ReadsBackU32(data, 12, h.typeLen);
    ReadsBackU32(data, 16, h.strOff);
    ReadsBackU32(data, 20, h.strLen);
  }

  /** A file is taken for BTF exactly if it begins with the magic number and version one and has the five words of
      the header, and the header is what those words say. */
  lemma {:induction false} HeaderIsAccepted(data: Bytes, h: Header)
    ensures ParseHeader(data) == Ok(h) <==>
            && |data| >= HEADER_LEN && data[0] == 0x9F && data[1] == 0xEB && data[2] == 1
            && HasAt(data, 4, EncodeU32(h.hdrLen)) && HasAt(data, 8, EncodeU32(h.typeOff)) && HasAt(data, 12, EncodeU32(h.typeLen))
            && HasAt(data, 16, EncodeU32(h.strOff)) && HasAt(data, 20, EncodeU32(h.strLen))
    ensures ParseHeader(data) == Err(BadMagic) <==> |data| >= 2 && !(data[0] == 0x9F && data[1] == 0xEB)
    ensures ParseHeader(data) == Err(UnsupportedVersion) <==>
            |data| >= 3 && data[0] == 0x9F && data[1] == 0xEB && data[2] != 1
    ensures ParseHeader(data) == Err(Truncated) <==>
            |data| < 2 || (data[0] == 0x9F && data[1] == 0xEB && (|data| < 3 || (data[2] == 1 && |data| < HEADER_LEN)))
  {
    ReadsU32Iff(data, 4, h.hdrLen);
    ReadsU32Iff(data, 8, h.typeOff);
    ReadsU32Iff(data, 12, h.typeLen);
    ReadsU32Iff(data, 16, h.strOff);
    ReadsU32Iff(data, 20, h.strLen);
    WordIsThere(data, 4);
    WordIsThere(data, 8);
    WordIsThere(data, 12);
    WordIsThere(data, 16);
    WordIsThere(data, 20);
    hide ReadU32, HasAt;
  }

  lemma WordIsThere(data: Bytes, off: nat)
    ensures ReadU32(data, off).Ok? <==> off + 4 <= |data|
    ensures ReadU32(data, off).Err? ==> ReadU32(data, off) == Err(Truncated)
  {
  }

  /** Encoding a file and asking the parser for a field gives exactly the right answer, for all types, names
      and fields. */
  lemma FileRoundTrip(ts: seq<TypeDecl>, strings: Bytes, name: Bytes, field: Bytes, r: Result<nat, BtfError>)
    requires AllWellFormed(ts) && WellNamed(ts, strings)
    requires |EncodeTypes(ts)| < 0x1_0000_0000 && |strings| < 0x1_0000_0000
    ensures var data := EncodeFile(ts, strings);
            var h := ParseHeader(data);
            h.Ok? && (r == OffsetOf(Btf.Btf(data, h.value), name, field) <==> Answers(ts, strings, name, field, r))
  {
    var types := EncodeTypes(ts);
    var h := Header(0, |types|, |types|, |strings|, HEADER_LEN);
    var data := EncodeFile(ts, strings);
    ThreeParts(EncodeHeader(h), types, strings);
    ReadsBackHeader(data, h);
    var b := Btf.Btf(data, h);
    ParserInvertsEncoding(b, ts, strings, name, field);
    if Answers(ts, strings, name, field, r) {
      AnswerIsUnique(ts, strings, name, field, r, OffsetOf(b, name, field));
    }
  }

  lemma ThreeParts(a: Bytes, b: Bytes, c: Bytes)
    ensures HasAt(a + b + c, 0, a) && HasAt(a + b + c, |a|, b) && HasAt(a + b + c, |a| + |b|, c)
  {
  }
}

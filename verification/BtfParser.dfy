/** The BTF parser on arbitrary bytes, and what it finds in a well-formed type section. */
module BtfParser {
  import opened Wrappers
  import opened Collections
  import opened ByteTypes

  type u32 = x: int | 0 <= x < 0x1_0000_0000

  const BTF_MAGIC: nat := 0xeB9F
  const KIND_STRUCT: nat := 4
  const KIND_UNION: nat := 5

  datatype BtfError =
    | Truncated
    | BadMagic
    | UnsupportedVersion
    | UnknownKind(kind: nat)
    | StringOutOfRange
    | UnterminatedString
    | InvalidUtf8
    | Bitfield(bitOffset: nat)
    | NoSuchField
    | NoSuchStruct

  datatype Header = Header(typeOff: u32, typeLen: u32, strOff: u32, strLen: u32, hdrLen: u32)

  datatype Btf = Btf(data: Bytes, hdr: Header)

  datatype TypeEntry = TypeEntry(nameOff: u32, kind: nat, vlen: nat, kindFlag: bool, extraOff: nat)

  // ---------------------------------------------------------------- reading

  /** The size of what follows the three common words of a type record. */
  function ExtraLen(kind: nat, vlen: nat): Result<nat, BtfError> {
    if kind == 1 then Ok(4)
    else if kind == 2 then Ok(0)
    else if kind == 3 then Ok(12)
    else if kind == 4 || kind == 5 then Ok(vlen * 12)
    else if kind == 6 then Ok(vlen * 8)
    else if 7 <= kind <= 12 then Ok(0)
    else if kind == 13 then Ok(vlen * 8)
    else if kind == 14 then Ok(4)
    else if kind == 15 then Ok(vlen * 12)
    else if kind == 16 then Ok(0)
    else if kind == 17 then Ok(4)
    else if kind == 18 then Ok(0)
    else if kind == 19 then Ok(vlen * 12)
    else Err(UnknownKind(kind))
  }

  function ReadU16(buf: Bytes, off: nat): Result<nat, BtfError> {
    if off + 2 > |buf| then Err(Truncated) else Ok(buf[off] as int + 0x100 * (buf[off + 1] as int))
  }

  function ReadU32(buf: Bytes, off: nat): Result<u32, BtfError> {
    if off + 4 > |buf| then Err(Truncated)
    else Ok(buf[off] as int + 0x100 * (buf[off + 1] as int) + 0x1_0000 * (buf[off + 2] as int)
            + 0x100_0000 * (buf[off + 3] as int))
  }

  function ParseHeader(buf: Bytes): Result<Header, BtfError> {
    var magic := ReadU16(buf, 0);
    if magic.Err? then Err(magic.error)
    else if magic.value != BTF_MAGIC then Err(BadMagic)
    else if |buf| <= 2 then Err(Truncated)
    else if buf[2] != 1 then Err(UnsupportedVersion)
    else
      var hdrLen, typeOff, typeLen := ReadU32(buf, 4), ReadU32(buf, 8), ReadU32(buf, 12);
      var strOff, strLen := ReadU32(buf, 16), ReadU32(buf, 20);
      if hdrLen.Err? || typeOff.Err? || typeLen.Err? || strOff.Err? || strLen.Err? then Err(Truncated)
      else Ok(Header(typeOff.value, typeLen.value, strOff.value, strLen.value, hdrLen.value))
  }

  function TypesStart(b: Btf): nat {
    b.hdr.hdrLen + b.hdr.typeOff
  }

  function TypesEnd(b: Btf): nat {
    TypesStart(b) + b.hdr.typeLen
  }

  function NameAt(b: Btf, nameOff: u32): Result<Bytes, BtfError> {
    if nameOff == 0 then Ok([])
    else
      var base := b.hdr.hdrLen + b.hdr.strOff;
      var start, end := base + nameOff, base + b.hdr.strLen;
      if start > end || end > |b.data| then Err(StringOutOfRange)
      else
        var slice := b.data[start..end];
        var nul := Find(slice, 0);
        if nul == |slice| then Err(UnterminatedString)
        else if !ValidUtf8(slice[..nul]) then Err(InvalidUtf8)
        else Ok(slice[..nul])
  }

  /** The record that starts at `off`, if its first two words are there. */
  function EntryAt(data: Bytes, off: nat): Result<TypeEntry, BtfError> {
    var nameOff, info := ReadU32(data, off), ReadU32(data, off + 4);
    if nameOff.Err? || info.Err? then Err(Truncated)
    else Ok(TypeEntry(nameOff.value, info.value / 0x100_0000 % 0x20, info.value % 0x1_0000,
                      info.value / 0x8000_0000 % 2 == 1, off + 12))
  }

  // ---------------------------------------------------------------- the walk

  /** The records from `off` on, and the error that ends the walk, if it does not end at `end`. */
  function Entries(data: Bytes, off: nat, end: nat): (seq<TypeEntry>, Option<BtfError>)
    decreases end - off
  {
    if off >= end then ([], None)
    else
      var e := EntryAt(data, off);
      if e.Err? then ([], Some(e.error))
      else
        var extra := ExtraLen(e.value.kind, e.value.vlen);
        if extra.Err? then ([e.value], Some(extra.error))
        else
          var (rest, stop) := Entries(data, e.value.extraOff + extra.value, end);
          ([e.value] + rest, stop)
  }

  /** Members `i` and up of a struct or union. */
  function MemberOffset(b: Btf, e: TypeEntry, field: Bytes, i: nat): Result<nat, BtfError>
    decreases e.vlen - i
  {
    if i >= e.vlen then Err(NoSuchField)
    else
      var m := e.extraOff + i * 12;
      var nameOff := ReadU32(b.data, m);
      if nameOff.Err? then Err(nameOff.error)
      else
        var name := NameAt(b, nameOff.value);
        if name.Err? then Err(name.error)
        else if name.value != field then MemberOffset(b, e, field, i + 1)
        else
          var raw := ReadU32(b.data, m + 8);
          if raw.Err? then Err(raw.error)
          else
            var bitOff := if e.kindFlag then raw.value % 0x100_0000 else raw.value;
            if bitOff % 8 != 0 then Err(Bitfield(bitOff)) else Ok(bitOff / 8)
  }

  /** What the search makes of one record: go on, the answer, or an error that ends it. */
  function VisitEntry(b: Btf, e: TypeEntry, structName: Bytes, field: Bytes): Result<Option<nat>, BtfError> {
    if e.kind != KIND_STRUCT && e.kind != KIND_UNION then Ok(None)
    else
      var name := NameAt(b, e.nameOff);
      if name.Err? then Err(name.error)
      else if name.value != structName then Ok(None)
      else
        var r := MemberOffset(b, e, field, 0);
        if r.Err? then Err(r.error) else Ok(Some(r.value))
  }

  /** The first thing any of `es` has to say, else `stop`, else that there is no such struct. */
  function Scan(b: Btf, es: seq<TypeEntry>, stop: Option<BtfError>, structName: Bytes, field: Bytes): Result<nat, BtfError>
  {
    if es == [] then Err(if stop.Some? then stop.value else NoSuchStruct)
    else
      var v := VisitEntry(b, es[0], structName, field);
      if v.Err? then Err(v.error)
      else if v.value.Some? then Ok(v.value.value)
      else Scan(b, es[1..], stop, structName, field)
  }

  function OffsetOf(b: Btf, structName: Bytes, field: Bytes): Result<nat, BtfError> {
    var (es, stop) := Entries(b.data, TypesStart(b), TypesEnd(b));
    Scan(b, es, stop, structName, field)
  }

  method Visit(b: Btf, e: TypeEntry, structName: Bytes, field: Bytes) returns (r: Result<Option<nat>, BtfError>)
    ensures r == VisitEntry(b, e, structName, field)
  {
    hide NameAt, ReadU32;
    if e.kind != KIND_STRUCT && e.kind != KIND_UNION {
      return Ok(None);
    }
    var entryName := NameAt(b, e.nameOff);
    if entryName.Err? {
      return Err(entryName.error);
    }
    if entryName.value != structName {
      return Ok(None);
    }
    for i := 0 to e.vlen
      invariant MemberOffset(b, e, field, 0) == MemberOffset(b, e, field, i)
    {
      var m := e.extraOff + i * 12;
      var nameOff := ReadU32(b.data, m);
      if nameOff.Err? {
        return Err(nameOff.error);
      }
      var name := NameAt(b, nameOff.value);
      if name.Err? {
        return Err(name.error);
      }
      if name.value != field {
        continue;
      }
      var raw := ReadU32(b.data, m + 8);
      if raw.Err? {
        return Err(raw.error);
      }
      var bitOff := if e.kindFlag then raw.value % 0x100_0000 else raw.value;
      if bitOff % 8 != 0 {
        return Err(Bitfield(bitOff));
      }
      return Ok(Some(bitOff / 8));
    }
    return Err(NoSuchField);
  }

  /** The walk over the type section, on any bytes and header whatever. */
  method FieldOffset(b: Btf, structName: Bytes, field: Bytes) returns (r: Result<nat, BtfError>)
    ensures r == OffsetOf(b, structName, field)
  {
    hide VisitEntry, ReadU32, ExtraLen;
    var off := TypesStart(b);
    var end := TypesEnd(b);
    while off < end
      invariant OffsetOf(b, structName, field)
             == Scan(b, Entries(b.data, off, end).0, Entries(b.data, off, end).1, structName, field)
      decreases end - off
    {
      var entry := EntryAt(b.data, off);
      if entry.Err? {
        return Err(entry.error);
      }
      var found := Visit(b, entry.value, structName, field);
      if found.Err? {
        return Err(found.error);
      }
      if found.value.Some? {
        return Ok(found.value.value);
      }
      var extra := ExtraLen(entry.value.kind, entry.value.vlen);
      if extra.Err? {
        return Err(extra.error);
      }
      off := entry.value.extraOff + extra.value;
    }
    return Err(NoSuchStruct);
  }

  /** On arbitrary bytes the walk visits at most one record per started twelve bytes of the section, each
      readable and inside the section. */
  lemma {:induction false} WalkIsBounded(data: Bytes, off: nat, end: nat)
    ensures var es := Entries(data, off, end).0;
            && (off <= end ==> 12 * |es| < end - off + 12) && (off > end ==> es == [])
            && forall i | 0 <= i < |es| :: off + 12 * i <= es[i].extraOff - 12 < end && es[i].extraOff - 4 <= |data|
    decreases end - off
  {
    if off < end {
      var e := EntryAt(data, off);
      if e.Ok? {
        var extra := ExtraLen(e.value.kind, e.value.vlen);
        if extra.Ok? {
          var next := e.value.extraOff + extra.value;
          WalkIsBounded(data, next, end);
          var es, rest := Entries(data, off, end).0, Entries(data, next, end).0;
          assert es == [e.value] + rest;
          forall i | 0 <= i < |es|
            ensures off + 12 * i <= es[i].extraOff - 12 < end && es[i].extraOff - 4 <= |data|
          {
            if i > 0 { assert es[i] == rest[i - 1]; }
          }
        }
      }
    }
  }
}

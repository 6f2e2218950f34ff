/**
  The nested metadata records of a BitLocker volume (disk/Bitlocker/datums, disk/Bitlocker/metadata.go):
  size-tagged records, of which a volume master key holds 28 fixed bytes and then further records.
*/
module Datums {
  import opened Bytes
  import opened Wrappers

  // ---------- Slices and headers ----------

  /** A Go slice: len bytes of a buffer that goes on to the slice's capacity. */
  datatype Slice = Slice(buf: seq<byte>, len: nat) {

    predicate Valid()
    {
      len <= |buf|
    }

    function Bytes(): seq<byte>
      requires Valid()
    {
      buf[..len]
    }

    /** s[from:to]; to may go up to the capacity. */
    function Sub(from: nat, to: nat): (r: Slice)
      requires Valid() && from <= to <= |buf|
      ensures r.Valid()
    {
      Slice(buf[from..], to - from)
    }

    /** s[from:] */
    function From(from: nat): (r: Slice)
      requires Valid() && from <= len
      ensures r.Valid()
    {
      Slice(buf[from..], len - from)
    }
  }

  /** A record header; raw keeps its eight bytes, which authenticate the record's key. */
  datatype Header = Header(entrySize: nat, entryType: nat, valueType: nat, version: nat, raw: seq<byte>)

  const ERASED := 0x0000
  const KEY := 0x0001
  const UNICODE_STRING := 0x0002
  const STRETCH_KEY := 0x0003
  const USE_KEY := 0x0004
  const AES_CCM_KEY := 0x0005
  const VMK := 0x0008
  const EXTERNAL_KEY := 0x0009
  const OFFSET_SIZE := 0x000F

  datatype Datum =
    | Erased
    | Key(header: Header, encryptionMethod: seq<byte>, keyData: seq<byte>)
    | UnicodeString(header: Header, units: seq<nat>)
    | StretchKey(header: Header, encryptionMethod: seq<byte>, salt: seq<byte>, encryptedKey: seq<byte>)
    | UseKey(header: Header, algorithm: nat, padding: nat)
    | AesCcmKey(header: Header, nonce: seq<byte>, encryptedData: seq<byte>)
    | VolumeMasterKey(header: Header, keyIdentifier: seq<byte>, lastModified: nat, unknown: nat,
                      protectionType: nat, datums: seq<Datum>)
    | ExternalKey(header: Header, keyIdentifier: seq<byte>, lastModified: nat, properties: seq<byte>)
    | VolumeHeaderBlock(header: Header, blockOffset: nat, blockSize: nat, unknown1: nat, unknown2: nat,
                        additionalData: seq<byte>)

  function Word(b: seq<byte>, at: nat, width: nat): nat
    requires at + width <= |b|
  {
    LE(b[at..at + width])
  }

  /** Reads a header; fails on a buffer too small for it or for the record it announces. */
  function ParseHeader(raw: Slice): Result<Header>
    requires raw.Valid()
  {
    if raw.len < 8 then Failure
    else
      var b := raw.buf;
      var size := Word(b, 0, 2);
      if size < 8 || size > raw.len then Failure
      else Success(Header(size, Word(b, 2, 2), Word(b, 4, 2), Word(b, 6, 2), b[..8]))
  }

  // ---------- Payloads ----------

  /** A field that is read only if all fields up to its end are there; zeros otherwise. */
  function Field(raw: Slice, at: nat, width: nat): seq<byte>
    requires raw.Valid()
  {
    if at + width <= raw.len then raw.buf[at..at + width] else Zeros(width)
  }

  function Number(raw: Slice, at: nat, width: nat): nat
    requires raw.Valid()
  {
    if at + width <= raw.len then Word(raw.buf, at, width) else 0
  }

  function Tail(raw: Slice, at: nat, minimum: nat): seq<byte>
    requires raw.Valid() && at <= minimum
  {
    if raw.len < minimum then [] else raw.buf[at..raw.len]
  }

  /** The 8-byte time after the 16-byte identifier: sliced without a length check, so it is taken from
      whatever follows a record of 16 to 23 bytes, and faults at the end of the buffer. */
  function TimeField(raw: Slice): Outcome<nat>
    requires raw.Valid()
  {
    if raw.len < 16 then Done(0)
    else if |raw.buf| < 24 then Panic
    else Done(Word(raw.buf, 16, 8))
  }

  /** UTF-16 code units; an odd last byte becomes the replacement character. */
  function CodeUnits(b: seq<byte>): seq<nat>
  {
    if b == [] then []
    else if |b| == 1 then [0xFFFD]
    else [Word(b, 0, 2)] + CodeUnits(b[2..])
  }

  /** What a record's payload becomes. Errors inside a payload are ignored: the fields that were read
      before the error stay. */
  function ParseDatum(h: Header, raw: Slice): (d: Outcome<Datum>)
    requires raw.Valid()
    decreases raw.len
  {
    if h.valueType == ERASED then Done(Erased)
    else if h.valueType == KEY then
      Done(Key(h, if raw.len < 32 then Zeros(4) else Field(raw, 0, 4), Tail(raw, 4, 32)))
    else if h.valueType == UNICODE_STRING then Done(UnicodeString(h, CodeUnits(raw.Bytes())))
    else if h.valueType == STRETCH_KEY then
      Done(StretchKey(h, Field(raw, 0, 4), Field(raw, 4, 16), Tail(raw, 20, 20)))
    else if h.valueType == AES_CCM_KEY then
      if raw.len < 12 then Panic else Done(AesCcmKey(h, Field(raw, 0, 12), Tail(raw, 12, 12)))
    else if h.valueType == VMK then
      var time := TimeField(raw);
      if time.Panic? then Panic
      else if raw.len < 28 then
        Done(VolumeMasterKey(h, Field(raw, 0, 16), time.value, Number(raw, 24, 2), Number(raw, 26, 2), []))
      else
        var nested := ParseDatums(raw.From(28));
        if nested.Done? then
          Done(VolumeMasterKey(h, Field(raw, 0, 16), time.value, Number(raw, 24, 2), Number(raw, 26, 2),
                               nested.value))
        else Panic
    else if h.valueType == USE_KEY then Done(UseKey(h, Number(raw, 0, 2), Number(raw, 2, 2)))
    else if h.valueType == EXTERNAL_KEY then
      var time := TimeField(raw);
      if time.Panic? then Panic
      else Done(ExternalKey(h, Field(raw, 0, 16), time.value, Tail(raw, 24, 24)))
    else if h.valueType == OFFSET_SIZE then
      Done(VolumeHeaderBlock(h, Number(raw, 0, 8), Number(raw, 8, 8), Number(raw, 16, 2), Number(raw, 18, 2),
                             Tail(raw, 20, 20)))
    else Error
  }

  function PrependDatum(d: Datum, r: Outcome<seq<Datum>>): Outcome<seq<Datum>>
  {
    if r.Done? then Done([d] + r.value) else r
  }

  /** The records at the start of a slice, up to the first that cannot be read; only a fault is lost. */
  function ParseDatums(raw: Slice): (r: Outcome<seq<Datum>>)
    requires raw.Valid()
    ensures !r.Error?
    decreases raw.len
  {
    if raw.len == 0 || ParseHeader(raw).Failure? then Done([])
    else
      var h := ParseHeader(raw).value;
      var d := ParseDatum(h, raw.Sub(8, h.entrySize));
      if d.Error? then Done([])
      else if d.Panic? then Panic
      else PrependDatum(d.value, ParseDatums(raw.From(h.entrySize)))
  }

  // ---------- The program's methods ----------

  function PrependDatums(p: seq<Datum>, r: Outcome<seq<Datum>>): Outcome<seq<Datum>>
  {
    if r.Done? then Done(p + r.value) else r
  }

  lemma PrependInTurn(p: seq<Datum>, d: Datum, r: Outcome<seq<Datum>>)
    ensures PrependDatums(p, PrependDatum(d, r)) == PrependDatums(p + [d], r)
  {
    if r.Done? {
      assert p + ([d] + r.value) == (p + [d]) + r.value;
    }
  }

  lemma PrependNone(r: Outcome<seq<Datum>>)
    ensures PrependDatums([], r) == r
  {
    if r.Done? {
      assert [] + r.value == r.value;
    }
  }

  /** Creates the datum of a record and lets it process its payload. */
  method CreateDatum(dh: Header, raw: Slice) returns (r: Outcome<Datum>)
    requires raw.Valid()
    ensures r == ParseDatum(dh, raw)
    decreases raw.len, 1
  {
    hide Word, Zeros, Field, Number, Tail, CodeUnits;
    if dh.valueType == VMK {
      r := ProcessVolumeMasterKey(dh, raw);
    } else {
      r := ParseDatum(dh, raw);
    }
  }

  /** Reads the fixed part of a volume master key, then its nested records. */
  method ProcessVolumeMasterKey(dh: Header, raw: Slice) returns (r: Outcome<Datum>)
    requires raw.Valid() && dh.valueType == VMK
    ensures r == ParseDatum(dh, raw)
    decreases raw.len, 0
  {
    hide Word, Zeros, Field, Number, Tail, CodeUnits, ParseHeader;
    var time := TimeField(raw);
    if time.Panic? {
      return Panic;
    }
    var fixed := VolumeMasterKey(dh, Field(raw, 0, 16), time.value, Number(raw, 24, 2), Number(raw, 26, 2), []);
    if raw.len < 28 {
      return Done(fixed);
    }
    var nested := ParseRecords(raw.From(28));
    if nested.Panic? {
      return Panic;
    }
    r := Done(fixed.(datums := nested.value));
  }

  /** The record loop: advances over one record after the other and collects the datums. */
  method ParseRecords(raw: Slice) returns (r: Outcome<seq<Datum>>)
    requires raw.Valid()
    ensures r == ParseDatums(raw)
    decreases raw.len, 2
  {
    hide ParseDatum, ParseHeader;
    var datums: seq<Datum> := [];
    var offset := 0;
    assert raw.From(0) == raw;
    PrependNone(ParseDatums(raw));
    while offset < raw.len
      invariant offset <= raw.len
      invariant ParseDatums(raw) == PrependDatums(datums, ParseDatums(raw.From(offset)))
      decreases raw.len - offset
    {
      var rest := raw.From(offset);
      var header := ParseHeader(rest);
      if header.Failure? {
        break;
      }
      HeaderBounds(rest);
      var size := header.value.entrySize;
      if size == 0 {
        break;
      }
      var datum := CreateDatum(header.value, rest.Sub(8, size));
      if datum.Error? {
        break;
      }
      if datum.Panic? {
        return Panic;
      }
      PrependInTurn(datums, datum.value, ParseDatums(rest.From(size)));
      assert rest.From(size) == raw.From(offset + size);
      datums := datums + [datum.value];
      offset := offset + size;
    }
    assert datums + [] == datums;
    return Done(datums);
  }

  lemma HeaderBounds(raw: Slice)
    requires raw.Valid() && ParseHeader(raw).Success?
    ensures 8 <= ParseHeader(raw).value.entrySize <= raw.len
  {
  }

  // ---------- The outer block ----------

  /** Reads the fixed 48-byte metadata header: its size field, or an error if the header is cut off. The
      last field, a time, is sliced without a length check. */
  function MetadataHeaderSize(raw: Slice): Outcome<nat>
    requires raw.Valid()
  {
    if raw.len < 40 then Error
    else if |raw.buf| < 48 then Panic
    else Done(Word(raw.buf, 8, 4))
  }

  function MetadataVersion(raw: Slice): nat
    requires raw.Valid()
  {
    if raw.len < 8 then 0 else Word(raw.buf, 4, 4)
  }

  /** Where the records of a metadata block start. */
  function RecordsStart(raw: Slice): Outcome<nat>
    requires raw.Valid() && raw.len > 64
  {
    var inner := raw.From(64);
    var version, size := MetadataVersion(inner), MetadataHeaderSize(inner);
    if version == 1 || version == 3 then if size.Done? then Done(64 + size.value) else size
    else if size.Panic? then Panic
    else if size.Done? && size.value >= 48 then Done(64 + size.value)
    else Done(64)
  }

  function ParseBlock(raw: Slice): Outcome<seq<Datum>>
    requires raw.Valid()
  {
    if raw.len < 64 then Error
    else if raw.len == 64 then Done([])
    else
      var start := RecordsStart(raw);
      if !start.Done? then if start.Error? then Error else Panic
      else if start.value >= raw.len then Done([])
      else ParseDatums(raw.From(start.value))
  }

  method ParseEntries(raw: Slice) returns (r: Outcome<seq<Datum>>)
    requires raw.Valid()
    ensures r == ParseBlock(raw)
  {
    hide Word;
    if raw.len < 64 {
      return Error;
    }
    var offset := 64;
    if raw.len <= offset {
      return Done([]);
    }
    var version, size := MetadataVersion(raw.From(64)), MetadataHeaderSize(raw.From(64));
    if version == 1 || version == 3 {
      if !size.Done? {
        return if size.Error? then Error else Panic;
      }
      offset := offset + size.value;
    } else {
      if size.Panic? {
        return Panic;
      }
      if size.Done? && size.value >= 48 {
        offset := offset + size.value;
      }
    }
    if offset >= raw.len {
      return Done([]);
    }
    r := ParseRecords(raw.From(offset));
  }

  // ---------- Serialisation ----------

  function Serialize(d: Datum): seq<byte>
    requires WellFormed(d)
    decreases d, 2
  {
    if d.Erased? then LEBytes(8, 2) + Zeros(6) else d.header.raw + Payload(d)
  }

  function SerializeAll(ds: seq<Datum>): seq<byte>
    requires forall d | d in ds :: WellFormed(d)
    decreases ds, 3
  {
    if ds == [] then [] else Serialize(ds[0]) + SerializeAll(ds[1..])
  }

  function UnitBytes(units: seq<nat>): seq<byte>
  {
    if units == [] then [] else LEBytes(units[0], 2) + UnitBytes(units[1..])
  }

  function Payload(d: Datum): seq<byte>
    requires !d.Erased? && FieldsFit(d)
    requires d.VolumeMasterKey? ==> forall n | n in d.datums :: WellFormed(n)
    decreases d, 0
  {
    match d
    case Key(_, method', data) => method' + data
    case UnicodeString(_, units) => UnitBytes(units)
    case StretchKey(_, method', salt, key) => method' + salt + key
    case UseKey(_, algorithm, padding) => LEBytes(algorithm, 2) + LEBytes(padding, 2)
    case AesCcmKey(_, nonce, data) => nonce + data
    case VolumeMasterKey(_, id, time, unknown, protection, datums) =>
      id + LEBytes(time, 8) + LEBytes(unknown, 2) + LEBytes(protection, 2) + SerializeAll(datums)
    case ExternalKey(_, id, time, properties) => id + LEBytes(time, 8) + properties
    case VolumeHeaderBlock(_, offset, size, u1, u2, data) =>
      LEBytes(offset, 8) + LEBytes(size, 8) + LEBytes(u1, 2) + LEBytes(u2, 2) + data
  }

  function TypeOf(d: Datum): nat
  {
    match d
    case Erased => ERASED
    case Key(_, _, _) => KEY
    case UnicodeString(_, _) => UNICODE_STRING
    case StretchKey(_, _, _, _) => STRETCH_KEY
    case UseKey(_, _, _) => USE_KEY
    case AesCcmKey(_, _, _) => AES_CCM_KEY
    case VolumeMasterKey(_, _, _, _, _, _) => VMK
    case ExternalKey(_, _, _, _) => EXTERNAL_KEY
    case VolumeHeaderBlock(_, _, _, _, _, _) => OFFSET_SIZE
  }

  /** Each field has the width its record gives it. */
  predicate FieldsFit(d: Datum)
  {
    match d
    case Erased => true
    case Key(_, method', _) => |method'| == 4
    case UnicodeString(_, units) => forall u | u in units :: u < Pow256(2)
    case StretchKey(_, method', salt, _) => |method'| == 4 && |salt| == 16
    case UseKey(_, algorithm, padding) => algorithm < Pow256(2) && padding < Pow256(2)
    case AesCcmKey(_, nonce, _) => |nonce| == 12
    case VolumeMasterKey(_, id, time, unknown, protection, _) =>
      |id| == 16 && time < Pow256(8) && unknown < Pow256(2) && protection < Pow256(2)
    case ExternalKey(_, id, time, _) => |id| == 16 && time < Pow256(8)
    case VolumeHeaderBlock(_, offset, size, u1, u2, _) =>
      offset < Pow256(8) && size < Pow256(8) && u1 < Pow256(2) && u2 < Pow256(2)
  }

  /** The header's numbers are the ones in its raw bytes, and its size is the record's. */
  predicate HeaderFits(h: Header, valueType: nat, payload: nat)
  {
    |h.raw| == 8 && h.entrySize == 8 + payload && h.valueType == valueType &&
    Word(h.raw, 0, 2) == h.entrySize && Word(h.raw, 2, 2) == h.entryType &&
    Word(h.raw, 4, 2) == h.valueType && Word(h.raw, 6, 2) == h.version
  }

  /** A datum that can be stored: nested datums included. */
  predicate WellFormed(d: Datum)
    decreases d, 1
  {
    d.Erased? ||
    (FieldsFit(d) &&
     (d.VolumeMasterKey? ==> forall n | n in d.datums :: WellFormed(n)) &&
     HeaderFits(d.header, TypeOf(d), |Payload(d)|))
  }

  // ---------- Round trip ----------

  /** What is read back of a stored datum: a key record below 32 bytes is read as an error that leaves its
      fields empty, and the error is ignored. */
  function ReadBack(d: Datum): Datum
    decreases d
  {
    match d
    case Key(h, _, data) => if |data| < 28 then Key(h, Zeros(4), []) else d
    case VolumeMasterKey(h, id, time, unknown, protection, datums) =>
      VolumeMasterKey(h, id, time, unknown, protection, ReadBackAll(datums))
    case _ => d
  }

  function ReadBackAll(ds: seq<Datum>): (r: seq<Datum>)
    ensures |r| == |ds|
    decreases ds
  {
    if ds == [] then [] else [ReadBack(ds[0])] + ReadBackAll(ds[1..])
  }

  /** A datum in which, at any depth, every key record has at least 28 bytes of key data (or nothing to lose). */
  predicate KeysAreLong(d: Datum)
    decreases d
  {
    (d.Key? ==> |d.keyData| >= 28 || (d.keyData == [] && d.encryptionMethod == Zeros(4))) &&
    (d.VolumeMasterKey? ==> forall n | n in d.datums :: KeysAreLong(n))
  }

  lemma {:induction false} ReadBackExact(d: Datum)
    ensures ReadBack(d) == d <==> KeysAreLong(d)
    decreases d
  {
    if d.VolumeMasterKey? {
      ReadBackAllExact(d.datums);
    }
  }

  lemma {:induction false} ReadBackAllExact(ds: seq<Datum>)
    ensures ReadBackAll(ds) == ds <==> forall d | d in ds :: KeysAreLong(d)
    decreases ds
  {
    if ds != [] {
      ReadBackExact(ds[0]);
      ReadBackAllExact(ds[1..]);
      assert ds == [ds[0]] + ds[1..];
      assert forall d :: d in ds <==> d == ds[0] || d in ds[1..];
      assert ReadBackAll(ds)[0] == ReadBack(ds[0]) && ReadBackAll(ds)[1..] == ReadBackAll(ds[1..]);
    }
  }

  /** raw holds a payload, followed in its buffer by anything. */
  predicate HoldsPayload(raw: Slice, payload: seq<byte>)
  {
    raw.Valid() && raw.len == |payload| && raw.buf[..raw.len] == payload
  }

  /** A part of the payload, read from the buffer. */
  lemma PartOf(raw: Slice, before: seq<byte>, part: seq<byte>, after: seq<byte>)
    requires HoldsPayload(raw, before + part + after)
    ensures raw.buf[|before|..|before| + |part|] == part
  {
    var payload := before + part + after;
    SliceOfSlice(raw.buf, 0, raw.len, |before|, |before| + |part|);
    assert payload[|before|..|before| + |part|] == part;
  }

  lemma NumberOf(raw: Slice, before: seq<byte>, v: nat, width: nat, after: seq<byte>)
    requires HoldsPayload(raw, before + LEBytes(v, width) + after) && v < Pow256(width)
    ensures Word(raw.buf, |before|, width) == v
  {
    PartOf(raw, before, LEBytes(v, width), after);
    LEOfBytes(v, width);
  }

  lemma {:induction false} UnitsRoundTrip(units: seq<nat>)
    requires forall u | u in units :: u < Pow256(2)
    ensures CodeUnits(UnitBytes(units)) == units
  {
    if units != [] {
      var b := UnitBytes(units);
      var head := LEBytes(units[0], 2);
      assert units[0] in units && forall u | u in units[1..] :: u in units;
      UnitsRoundTrip(units[1..]);
      LEOfBytes(units[0], 2);
      assert b[0..2] == head && b[2..] == UnitBytes(units[1..]);
    }
  }

  lemma KeyRoundTrip(d: Datum, raw: Slice)
    requires d.Key? && FieldsFit(d) && d.header.valueType == KEY && HoldsPayload(raw, Payload(d))
    ensures ParseDatum(d.header, raw) == Done(ReadBack(d))
  {
    assert Payload(d) == [] + d.encryptionMethod + d.keyData;
    PartOf(raw, [], d.encryptionMethod, d.keyData);
    assert Payload(d) == d.encryptionMethod + d.keyData + [];
    PartOf(raw, d.encryptionMethod, d.keyData, []);
  }

  lemma StretchKeyRoundTrip(d: Datum, raw: Slice)
    requires d.StretchKey? && FieldsFit(d) && d.header.valueType == STRETCH_KEY && HoldsPayload(raw, Payload(d))
    ensures ParseDatum(d.header, raw) == Done(d)
  {
    assert Payload(d) == [] + d.encryptionMethod + (d.salt + d.encryptedKey);
    PartOf(raw, [], d.encryptionMethod, d.salt + d.encryptedKey);
    PartOf(raw, d.encryptionMethod, d.salt, d.encryptedKey);
    assert Payload(d) == (d.encryptionMethod + d.salt) + d.encryptedKey + [];
    PartOf(raw, d.encryptionMethod + d.salt, d.encryptedKey, []);
  }

  lemma UseKeyRoundTrip(d: Datum, raw: Slice)
    requires d.UseKey? && FieldsFit(d) && d.header.valueType == USE_KEY && HoldsPayload(raw, Payload(d))
    ensures ParseDatum(d.header, raw) == Done(d)
  {
    hide Word;
    assert Payload(d) == [] + LEBytes(d.algorithm, 2) + LEBytes(d.padding, 2);
    NumberOf(raw, [], d.algorithm, 2, LEBytes(d.padding, 2));
    assert Payload(d) == LEBytes(d.algorithm, 2) + LEBytes(d.padding, 2) + [];
    NumberOf(raw, LEBytes(d.algorithm, 2), d.padding, 2, []);
  }

  lemma AesCcmKeyRoundTrip(d: Datum, raw: Slice)
    requires d.AesCcmKey? && FieldsFit(d) && d.header.valueType == AES_CCM_KEY && HoldsPayload(raw, Payload(d))
    ensures ParseDatum(d.header, raw) == Done(d)
  {
    assert Payload(d) == [] + d.nonce + d.encryptedData;
    PartOf(raw, [], d.nonce, d.encryptedData);
    assert Payload(d) == d.nonce + d.encryptedData + [];
    PartOf(raw, d.nonce, d.encryptedData, []);
  }

  lemma ExternalKeyRoundTrip(d: Datum, raw: Slice)
    requires d.ExternalKey? && FieldsFit(d) && d.header.valueType == EXTERNAL_KEY && HoldsPayload(raw, Payload(d))
    ensures ParseDatum(d.header, raw) == Done(d)
  {
    hide Word;
    var time := LEBytes(d.lastModified, 8);
    assert Payload(d) == [] + d.keyIdentifier + (time + d.properties);
    PartOf(raw, [], d.keyIdentifier, time + d.properties);
    NumberOf(raw, d.keyIdentifier, d.lastModified, 8, d.properties);
    assert Payload(d) == (d.keyIdentifier + time) + d.properties + [];
    PartOf(raw, d.keyIdentifier + time, d.properties, []);
  }

  lemma VolumeHeaderBlockRoundTrip(d: Datum, raw: Slice)
    requires d.VolumeHeaderBlock? && FieldsFit(d) && d.header.valueType == OFFSET_SIZE
    requires HoldsPayload(raw, Payload(d))
    ensures ParseDatum(d.header, raw) == Done(d)
  {
    hide Word;
    var a, b := LEBytes(d.blockOffset, 8), LEBytes(d.blockSize, 8);
    var u1, u2 := LEBytes(d.unknown1, 2), LEBytes(d.unknown2, 2);
    var p, rest := Payload(d), d.additionalData;
    assert p == [] + a + (b + u1 + u2 + rest);
    NumberOf(raw, [], d.blockOffset, 8, b + u1 + u2 + rest);
    assert p == a + b + (u1 + u2 + rest);
    NumberOf(raw, a, d.blockSize, 8, u1 + u2 + rest);
    assert p == (a + b) + u1 + (u2 + rest);
    NumberOf(raw, a + b, d.unknown1, 2, u2 + rest);
    assert p == (a + b + u1) + u2 + rest;
    NumberOf(raw, a + b + u1, d.unknown2, 2, rest);
    assert p == (a + b + u1 + u2) + rest + [];
    PartOf(raw, a + b + u1 + u2, rest, []);
  }

  /** The 28 fixed bytes of a master key, and the nested records behind them. */
  lemma MasterKeyFields(d: Datum, raw: Slice)
    requires d.VolumeMasterKey? && FieldsFit(d) && d.header.valueType == VMK
    requires forall n | n in d.datums :: WellFormed(n)
    requires HoldsPayload(raw, Payload(d))
    ensures raw.len >= 28 && HoldsPayload(raw.From(28), SerializeAll(d.datums))
    ensures Field(raw, 0, 16) == d.keyIdentifier && TimeField(raw) == Done(d.lastModified)
    ensures Number(raw, 24, 2) == d.unknown && Number(raw, 26, 2) == d.protectionType
  {
    hide Word, SerializeAll;
    var id, time := d.keyIdentifier, LEBytes(d.lastModified, 8);
    var u, t := LEBytes(d.unknown, 2), LEBytes(d.protectionType, 2);
    var p, rest := Payload(d), SerializeAll(d.datums);
    assert p == [] + id + (time + u + t + rest);
    PartOf(raw, [], id, time + u + t + rest);
    assert p == id + time + (u + t + rest);
    NumberOf(raw, id, d.lastModified, 8, u + t + rest);
    assert p == (id + time) + u + (t + rest);
    NumberOf(raw, id + time, d.unknown, 2, t + rest);
    assert p == (id + time + u) + t + rest;
    NumberOf(raw, id + time + u, d.protectionType, 2, rest);
    assert p == (id + time + u + t) + rest + [];
    PartOf(raw, id + time + u + t, rest, []);
    assert raw.From(28).buf[..|rest|] == raw.buf[28..28 + |rest|];
  }

  lemma UnicodeStringRoundTrip(d: Datum, raw: Slice)
    requires d.UnicodeString? && FieldsFit(d) && d.header.valueType == UNICODE_STRING
    requires HoldsPayload(raw, Payload(d))
    ensures ParseDatum(d.header, raw) == Done(d)
  {
    UnitsRoundTrip(d.units);
  }

  lemma MasterKeyRoundTrip(d: Datum, raw: Slice)
    requires WellFormed(d) && d.VolumeMasterKey? && HoldsPayload(raw, Payload(d))
    ensures ParseDatum(d.header, raw) == Done(ReadBack(d))
    decreases d, 0
  {
    hide Payload, SerializeAll, Field, Number, TimeField, ParseDatums, ParseDatum;
    MasterKeyFields(d, raw);
    NestedRoundTrip(d.datums, raw.From(28));
    ParseMasterKey(d.header, raw, ReadBackAll(d.datums));
  }

  lemma ParseMasterKey(h: Header, raw: Slice, ds: seq<Datum>)
    requires raw.Valid() && raw.len >= 28 && h.valueType == VMK
    requires ParseDatums(raw.From(28)) == Done(ds)
    ensures TimeField(raw).Done?
    ensures ParseDatum(h, raw) ==
            Done(VolumeMasterKey(h, Field(raw, 0, 16), TimeField(raw).value, Number(raw, 24, 2), Number(raw, 26, 2), ds))
  {
    hide Field, Number, ParseDatums;
  }

  lemma NestedRoundTrip(ds: seq<Datum>, inner: Slice)
    requires forall d | d in ds :: WellFormed(d)
    requires HoldsPayload(inner, SerializeAll(ds))
    ensures ParseDatums(inner) == Done(ReadBackAll(ds))
    decreases ds, 2
  {
    hide SerializeAll, ParseDatums;
    var rest := inner.buf[inner.len..];
    assert inner.buf == SerializeAll(ds) + rest;
    NothingToParse(rest);
    DatumsReadBack(ds, rest, 0);
  }

  lemma NothingToParse(buf: seq<byte>)
    ensures ParseDatums(Slice(buf, 0)) == Done([])
  {
  }

  /** Parsing the payload of a stored datum gives the datum back, short keys emptied. */
  lemma {:induction false} DatumReadBack(d: Datum, raw: Slice)
    requires WellFormed(d) && !d.Erased? && HoldsPayload(raw, Payload(d))
    ensures ParseDatum(d.header, raw) == Done(ReadBack(d))
    decreases d, 1
  {
    hide ParseDatum, Payload, FieldsFit, HoldsPayload;
    match d
    case Erased =>
    case Key(_, _, _) => KeyRoundTrip(d, raw);
    case UnicodeString(_, _) => UnicodeStringRoundTrip(d, raw);
    case StretchKey(_, _, _, _) => StretchKeyRoundTrip(d, raw);
    case UseKey(_, _, _) => UseKeyRoundTrip(d, raw);
    case AesCcmKey(_, _, _) => AesCcmKeyRoundTrip(d, raw);
    case VolumeMasterKey(_, _, _, _, _, _) => MasterKeyRoundTrip(d, raw);
    case ExternalKey(_, _, _, _) => ExternalKeyRoundTrip(d, raw);
    case VolumeHeaderBlock(_, _, _, _, _, _) => VolumeHeaderBlockRoundTrip(d, raw);
  }

  lemma HeaderInPlace(raw: Slice, h: seq<byte>)
    requires raw.Valid() && |h| == 8 <= raw.len && raw.buf[..8] == h
    requires 8 <= Word(h, 0, 2) <= raw.len
    ensures ParseHeader(raw) == Success(Header(Word(h, 0, 2), Word(h, 2, 2), Word(h, 4, 2), Word(h, 6, 2), h))
  {
    hide LE;
    SliceOfSlice(raw.buf, 0, 8, 0, 2);
    SliceOfSlice(raw.buf, 0, 8, 2, 4);
    SliceOfSlice(raw.buf, 0, 8, 4, 6);
    SliceOfSlice(raw.buf, 0, 8, 6, 8);
  }

  lemma ErasedInPlace(raw: Slice)
    requires raw.Valid() && raw.len >= 8 && raw.buf[..8] == Serialize(Erased)
    ensures var h := ParseHeader(raw); h.Success? && h.value.entrySize == 8 && h.value.valueType == ERASED
  {
    hide LEBytes;
    var h := Serialize(Erased);
    assert h[0..2] == LEBytes(8, 2) && h[4..6] == Zeros(2);
    assert Pow256(2) == 0x1_0000;
    LEOfBytes(8, 2);
    assert LE(Zeros(2)) == 0 by {
      assert Zeros(2) == [0, 0] && Zeros(2)[1..] == [0] && Zeros(2)[1..][1..] == [];
    }
    HeaderInPlace(raw, h);
  }

  /** The record at the start of a buffer: its header is read back, its payload is in place. */
  lemma RecordInPlace(d: Datum, rest: seq<byte>, extra: nat)
    requires WellFormed(d) && extra <= |rest|
    ensures var raw := Slice(Serialize(d) + rest, |Serialize(d)| + extra);
            var h := ParseHeader(raw);
            h.Success? && h.value.entrySize == |Serialize(d)| && |Serialize(d)| >= 8 &&
            (d.Erased? ==> h.value.valueType == ERASED) &&
            (!d.Erased? ==> h.value == d.header && HoldsPayload(raw.Sub(8, |Serialize(d)|), Payload(d)))
  {
    hide LEBytes, ParseHeader, Payload, Word;
    var s := Serialize(d);
    var raw := Slice(s + rest, |s| + extra);
    if d.Erased? {
      assert |s| == 8;
      assert raw.buf[..8] == s;
      ErasedInPlace(raw);
    } else {
      assert raw.buf[..8] == d.header.raw;
      HeaderInPlace(raw, d.header.raw);
      assert raw.Sub(8, |s|).buf[..|s| - 8] == Payload(d);
    }
  }

  /** One record in front of others. */
  lemma ParseStep(raw: Slice, h: Header, d: Datum, ds: seq<Datum>)
    requires raw.Valid() && raw.len > 0 && ParseHeader(raw) == Success(h) && 8 <= h.entrySize <= raw.len
    requires ParseDatum(h, raw.Sub(8, h.entrySize)) == Done(d)
    requires ParseDatums(raw.From(h.entrySize)) == Done(ds)
    ensures ParseDatums(raw) == Done([d] + ds)
  {
    hide ParseHeader, ParseDatum;
  }

  lemma ParseErased(h: Header, raw: Slice)
    requires raw.Valid() && h.valueType == ERASED
    ensures ParseDatum(h, raw) == Done(Erased)
  {
  }

  /** Stored datums, followed by anything that parses to no record, are read back one by one. */
  lemma {:induction false} DatumsReadBack(ds: seq<Datum>, rest: seq<byte>, extra: nat)
    requires forall d | d in ds :: WellFormed(d)
    requires extra <= |rest| && ParseDatums(Slice(rest, extra)) == Done([])
    ensures ParseDatums(Slice(SerializeAll(ds) + rest, |SerializeAll(ds)| + extra)) == Done(ReadBackAll(ds))
    decreases ds, 1
  {
    hide ParseHeader, ParseDatum, ParseDatums, Serialize, Payload;
    if ds == [] {
      assert [] + rest == rest;
    } else {
      var d, more := ds[0], SerializeAll(ds[1..]);
      var s, tail := Serialize(d), more + rest;
      assert SerializeAll(ds) + rest == s + tail;
      var raw := Slice(s + tail, |s| + (|more| + extra));
      RecordInPlace(d, tail, |more| + extra);
      DatumsReadBack(ds[1..], rest, extra);
      assert (s + tail)[|s|..] == tail;
      var h := ParseHeader(raw).value;
      if d.Erased? {
        ParseErased(h, raw.Sub(8, |s|));
      } else {
        DatumReadBack(d, raw.Sub(8, |s|));
      }
      ParseStep(raw, h, ReadBack(d), ReadBackAll(ds[1..]));
    }
  }

  /** Round trip: parsing the payload of a stored datum gives it back exactly if all its keys are long enough. */
  lemma DatumRoundTrip(d: Datum, raw: Slice)
    requires WellFormed(d) && !d.Erased? && HoldsPayload(raw, Payload(d))
    ensures ParseDatum(d.header, raw) == Done(d) <==> KeysAreLong(d)
  {
    hide ParseDatum, Payload, HoldsPayload, WellFormed, ReadBack, KeysAreLong;
    DatumReadBack(d, raw);
    ReadBackExact(d);
  }

  /** Stored datums, followed by anything that parses to no record, come back exactly if all their keys are
      long enough. */
  lemma DatumsRoundTrip(ds: seq<Datum>, rest: seq<byte>, extra: nat)
    requires forall d | d in ds :: WellFormed(d)
    requires extra <= |rest| && ParseDatums(Slice(rest, extra)) == Done([])
    ensures ParseDatums(Slice(SerializeAll(ds) + rest, |SerializeAll(ds)| + extra)) == Done(ds) <==>
            forall d | d in ds :: KeysAreLong(d)
  {
    hide ParseDatums, SerializeAll, WellFormed, ReadBackAll, KeysAreLong;
    DatumsReadBack(ds, rest, extra);
    ReadBackAllExact(ds);
  }

  /** The record types by their numbers: a record whose header has such a number in its fifth and sixth byte is read as
      the datum of that type. */
  lemma RecordTypes(d: Datum, number: nat)
    requires !d.Erased? && FieldsFit(d) && (d.VolumeMasterKey? ==> forall n | n in d.datums :: WellFormed(n))
    requires number == match d {
               case Key(_, _, _) => 1
               case UnicodeString(_, _) => 2
               case StretchKey(_, _, _, _) => 3
               case UseKey(_, _, _) => 4
               case AesCcmKey(_, _, _) => 5
               case VolumeMasterKey(_, _, _, _, _, _) => 8
               case ExternalKey(_, _, _, _) => 9
               case VolumeHeaderBlock(_, _, _, _, _, _) => 15
               case Erased => 0
             }
    requires HeaderFits(d.header, number, |Payload(d)|)
    ensures d.header.raw[4..6] == LEBytes(number, 2)
    ensures var bytes := d.header.raw + Payload(d);
            ParseDatums(Slice(bytes, |bytes|)) == Done([ReadBack(d)])
  {
    hide ParseDatums, Payload, FieldsFit, ReadBack, WellFormed, LEBytes, LE;
    BytesOfLE(d.header.raw[4..6]);
    IsStored(d, number);
    OneSerialized(d);
    NothingToParse([]);
    DatumsReadBack([d], [], 0);
    assert ReadBackAll([d]) == [ReadBack(d)] by { OneReadBack(d); }
    var bytes := d.header.raw + Payload(d);
    assert SerializeAll([d]) + [] == bytes;
  }

  /** A record of type 0 is skipped over, one of a type that is none of these ends the list. */
  lemma OtherTypes(h: Header, raw: Slice)
    requires raw.Valid()
    ensures h.valueType == 0 ==> ParseDatum(h, raw) == Done(Erased)
    ensures h.valueType !in {0, 1, 2, 3, 4, 5, 8, 9, 15} ==> ParseDatum(h, raw) == Error
  {
  }

  /** Records that are cut off: fields up to the cut are kept, the others stay zero or empty, a nonce that is cut off
      faults. */
  lemma CutOffRecords(h: Header, raw: Slice)
    requires raw.Valid()
    ensures h.valueType == 1 && raw.len < 32 ==> ParseDatum(h, raw) == Done(Key(h, Zeros(4), []))
    ensures h.valueType == 3 && raw.len < 4 ==> ParseDatum(h, raw) == Done(StretchKey(h, Zeros(4), Zeros(16), []))
    ensures h.valueType == 3 && 4 <= raw.len < 20 ==>
              ParseDatum(h, raw) == Done(StretchKey(h, raw.buf[..4], Zeros(16), []))
    ensures h.valueType == 4 && raw.len < 2 ==> ParseDatum(h, raw) == Done(UseKey(h, 0, 0))
    ensures h.valueType == 4 && 2 <= raw.len < 4 ==> ParseDatum(h, raw) == Done(UseKey(h, LE(raw.buf[..2]), 0))
    ensures h.valueType == 5 && raw.len < 12 ==> ParseDatum(h, raw) == Panic
    ensures h.valueType == 15 && 8 <= raw.len < 16 ==>
              ParseDatum(h, raw) == Done(VolumeHeaderBlock(h, LE(raw.buf[..8]), 0, 0, 0, []))
  {
    hide LE, CodeUnits;
  }

  /** A string whose last code unit is cut in two. */
  lemma CutOffString(h: Header, raw: Slice, a: byte, b: byte, c: byte)
    requires raw.Valid() && h.valueType == 2 && raw.Bytes() == [a, b, c]
    ensures ParseDatum(h, raw) == Done(UnicodeString(h, [Val(a) + 256 * Val(b), 0xFFFD]))
  {
    hide Val;
    var bytes := raw.Bytes();
    assert bytes[0..2] == [a, b] && [a, b][1..] == [b] && [b][1..] == [];
    assert LE([]) == 0 && LE([b]) == Val(b) && LE([a, b]) == Val(a) + 256 * Val(b);
    assert bytes[2..] == [c] && CodeUnits([c]) == [0xFFFD];
    assert Word(bytes, 0, 2) == Val(a) + 256 * Val(b);
    assert CodeUnits(bytes) == [Val(a) + 256 * Val(b)] + [0xFFFD] == [Val(a) + 256 * Val(b), 0xFFFD];
    assert ParseDatum(h, raw) == Done(UnicodeString(h, CodeUnits(bytes)));
  }

  /** The times of master keys and external keys are read on beyond the end of a record that has room for the identifier
      before them, and fault at the end of the buffer. */
  lemma CutOffTimes(h: Header, raw: Slice)
    requires raw.Valid() && 16 <= raw.len < 24 && h.valueType in {8, 9}
    ensures |raw.buf| < 24 ==> ParseDatum(h, raw) == Panic
    ensures |raw.buf| >= 24 && h.valueType == 8 ==>
              ParseDatum(h, raw) == Done(VolumeMasterKey(h, raw.buf[..16], LE(raw.buf[16..24]), 0, 0, []))
    ensures |raw.buf| >= 24 && h.valueType == 9 ==>
              ParseDatum(h, raw) == Done(ExternalKey(h, raw.buf[..16], LE(raw.buf[16..24]), []))
  {
    hide LE, CodeUnits, ParseDatums;
  }

  /** Where the records of a block begin: behind a metadata header of the size it announces in its ninth to twelfth byte.
      For versions other than 1 and 3 a header that is cut off or announces fewer than 48 bytes counts as none. */
  lemma MetadataStarts(raw: Slice)
    requires raw.Valid() && raw.len > 64
    ensures raw.len >= 112 ==>
              var (version, size) := (LE(raw.buf[68..72]), LE(raw.buf[72..76]));
              RecordsStart(raw) == Done(if version == 1 || version == 3 || size >= 48 then 64 + size else 64)
    ensures 72 <= raw.len < 104 && LE(raw.buf[68..72]) in {1, 3} ==> RecordsStart(raw) == Error
    ensures 72 <= raw.len < 104 && LE(raw.buf[68..72]) !in {1, 3} ==> RecordsStart(raw) == Done(64)
    ensures raw.len < 72 ==> RecordsStart(raw) == Done(64)
    ensures 104 <= raw.len && |raw.buf| < 112 ==> RecordsStart(raw) == Panic
  {
    hide LE;
    var inner := raw.From(64);
    if raw.len >= 72 {
      SliceOfDrop(raw.buf, 64, 4, 8);
    }
    if raw.len >= 76 {
      SliceOfDrop(raw.buf, 64, 8, 12);
    }
  }

  lemma IsStored(d: Datum, number: nat)
    requires !d.Erased? && FieldsFit(d) && (d.VolumeMasterKey? ==> forall n | n in d.datums :: WellFormed(n))
    requires number == TypeOf(d) && HeaderFits(d.header, number, |Payload(d)|)
    ensures WellFormed(d)
  {
    hide Payload, FieldsFit, HeaderFits;
  }

  lemma OneSerialized(d: Datum)
    requires WellFormed(d) && !d.Erased?
    ensures SerializeAll([d]) == d.header.raw + Payload(d)
  {
    hide Payload;
    assert [d][1..] == [];
  }

  lemma OneReadBack(d: Datum)
    ensures ReadBackAll([d]) == [ReadBack(d)]
  {
    assert [d][1..] == [];
  }

  /** A stored 16-byte key comes back without its method and without its data. */
  lemma ShortKeyLost()
    ensures var h := Header(28, 2, KEY, 1, [28, 0, 2, 0, 1, 0, 1, 0]);
            var d := Key(h, [0, 0x20, 0, 0], seq(16, _ => 7));
            HoldsPayload(Slice(Payload(d), 20), Payload(d)) &&
            ParseDatum(h, Slice(Payload(d), 20)) == Done(Key(h, Zeros(4), []))
  {
    var h := Header(28, 2, KEY, 1, [28, 0, 2, 0, 1, 0, 1, 0]);
    var d := Key(h, [0, 0x20, 0, 0], seq(16, _ => 7));
    assert |Payload(d)| == 20;
  }

  /** The whole block: 64 bytes, a metadata header that announces its own size, the stored datums, and a
      remainder that starts no record. It parses to those datums exactly if all their keys are long enough. */
  lemma BlockRoundTrip(head: seq<byte>, meta: seq<byte>, ds: seq<Datum>, rest: seq<byte>)
    requires |head| == 64 && |meta| >= 48 && Word(meta, 8, 4) == |meta|
    requires forall d | d in ds :: WellFormed(d)
    requires ParseDatums(Slice(rest, |rest|)) == Done([])
    ensures var block := head + meta + SerializeAll(ds) + rest;
            ParseBlock(Slice(block, |block|)) == Done(ds) <==> forall d | d in ds :: KeysAreLong(d)
  {
    hide SerializeAll, ParseDatums, KeysAreLong;
    var block := head + meta + SerializeAll(ds) + rest;
    var raw := Slice(block, |block|);
    var inner := raw.From(64);
    assert inner.buf[8..12] == meta[8..12];
    assert inner.buf[4..8] == meta[4..8];
    assert RecordsStart(raw) == Done(64 + |meta|);
    DatumsRoundTrip(ds, rest, |rest|);
    var start := 64 + |meta|;
    assert block[start..] == SerializeAll(ds) + rest;
    if start >= raw.len {
      NoRecords(ds);
    }
  }

  lemma NoRecords(ds: seq<Datum>)
    requires forall d | d in ds :: WellFormed(d)
    ensures SerializeAll(ds) == [] <==> ds == []
  {
    if ds != [] {
      assert |Serialize(ds[0])| >= 8;
    }
  }
}

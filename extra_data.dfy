/**
 * The device's `ExtraData` blob: a big-endian record read field by field.
 *
 *   records            uint32
 *   len_name           uint32
 *   name               len_name + 1 bytes
 *   data_type          uint32 (ignored by every consumer)
 *   timestamps_length  uint32
 *   timestamps_length entries of { data_type: uint32, pad: bit1, timestamp: uint32 }
 *
 * The record reader realigns to a byte boundary before a byte-aligned field
 * that follows a bit field, so the one-bit `pad` occupies a whole byte (its
 * most significant bit is the value, the other seven bits are discarded) and
 * each entry spans TagSize + PadSize + TimestampSize bytes.
 */
module ExtraData {
  import opened Wrappers

  type Byte = x: nat | x < 0x100
  type U32 = x: nat | x < 0x1_0000_0000
  type Bit = x: nat | x < 2

  /** The only failure: the input ends before a field is complete (an EOFError, which is an IOError). */
  datatype Error = EndOfInput

  const WordSize: nat := 4
  const TagSize: nat := WordSize
  /** Bytes taken by the one-bit pad once the reader realigns to a byte boundary. */
  const PadSize: nat := 1
  const TimestampSize: nat := WordSize
  const EntrySize: nat := TagSize + PadSize + TimestampSize

  /** Offset of the name field: after `records` and `len_name`. */
  const NameOffset: nat := 2 * WordSize

  datatype Entry = Entry(dataType: U32, pad: Bit, timestamp: U32)

  datatype Record = Record(
    records: U32,
    lenName: U32,
    name: seq<Byte>,
    dataType: U32,
    timestampsLength: U32,
    timestamps: seq<Entry>)

  /** The length fields agree with the fields they describe. */
  predicate WellFormed(r: Record) {
    && |r.name| == r.lenName + 1
    && |r.timestamps| == r.timestampsLength
  }

  // ---------------------------------------------------------------------------
  // Reference reading of big-endian integers

  /** The unsigned integer whose big-endian digits in base 256 are `bytes`. */
  function BigEndian(bytes: seq<Byte>): nat
  {
    if bytes == [] then 0 else BigEndian(bytes[..|bytes| - 1]) * 0x100 + bytes[|bytes| - 1]
  }

  /** The 32-bit big-endian word at `off`. */
  function U32At(s: seq<Byte>, off: nat): (v: U32)
    requires off + WordSize <= |s|
  {
    (s[off] as nat) * 0x100_0000 + (s[off + 1] as nat) * 0x1_0000 + (s[off + 2] as nat) * 0x100 + s[off + 3]
  }

  lemma U32AtIsBigEndian(s: seq<Byte>, off: nat)
    requires off + WordSize <= |s|
    ensures U32At(s, off) == BigEndian(s[off..off + WordSize])
  {
    var a1: seq<Byte> := [s[off]];
    var a2 := a1 + [s[off + 1]];
    var a3 := a2 + [s[off + 2]];
    var a4 := a3 + [s[off + 3]];
    assert a1[..0] == [] && a2[..1] == a1 && a3[..2] == a2 && a4[..3] == a3;
    assert BigEndian(a1) == s[off];
    assert BigEndian(a2) == (s[off] as nat) * 0x100 + s[off + 1];
    assert BigEndian(a3) == ((s[off] as nat) * 0x100 + s[off + 1]) * 0x100 + s[off + 2];
    assert a4 == s[off..off + WordSize];
  }

  /** The four big-endian bytes of `v`. */
  function WordBytes(v: U32): (b: seq<Byte>)
    ensures |b| == WordSize
  {
    [v / 0x100_0000, (v / 0x1_0000) % 0x100, (v / 0x100) % 0x100, v % 0x100]
  }

  lemma {:induction false} WordBytesRoundTrip(v: U32, prefix: seq<Byte>, suffix: seq<Byte>)
    ensures U32At(prefix + WordBytes(v) + suffix, |prefix|) == v
  {
    var s := prefix + WordBytes(v) + suffix;
    var o := |prefix|;
    assert s[o] == v / 0x100_0000;
    assert s[o + 1] == (v / 0x1_0000) % 0x100;
    assert s[o + 2] == (v / 0x100) % 0x100;
    assert s[o + 3] == v % 0x100;
  }

  // ---------------------------------------------------------------------------
  // The layout, stated by absolute offsets

  /** Offset of `data_type` for a name of declared length `lenName`. */
  function DataTypeOffset(lenName: nat): nat { NameOffset + lenName + 1 }

  /** Offset of the first entry. */
  function EntriesOffset(lenName: nat): nat { DataTypeOffset(lenName) + 2 * WordSize }

  /** Number of bytes a record with these two declared lengths occupies. */
  function RequiredLength(lenName: nat, count: nat): nat { EntriesOffset(lenName) + count * EntrySize }

  /** The entry whose first byte is at `off`: tag, then the pad byte's top bit, then the timestamp. */
  function EntryAt(s: seq<Byte>, off: nat): Entry
    requires off + EntrySize <= |s|
  {
    Entry(U32At(s, off), s[off + TagSize] / 0x80, U32At(s, off + TagSize + PadSize))
  }

  /** The input is at least as long as its own declared lengths require. */
  predicate Fits(s: seq<Byte>)
  {
    && NameOffset <= |s|
    && EntriesOffset(U32At(s, WordSize)) <= |s|
    && RequiredLength(U32At(s, WordSize), U32At(s, DataTypeOffset(U32At(s, WordSize)) + WordSize)) <= |s|
  }

  /** `r` is what the bytes `s` say, field by field, in order. */
  predicate Layout(s: seq<Byte>, r: Record)
  {
    && NameOffset <= |s|
    && r.records == U32At(s, 0)
    && r.lenName == U32At(s, WordSize)
    && EntriesOffset(r.lenName) <= |s|
    && r.name == s[NameOffset..DataTypeOffset(r.lenName)]
    && r.dataType == U32At(s, DataTypeOffset(r.lenName))
    && r.timestampsLength == U32At(s, DataTypeOffset(r.lenName) + WordSize)
    && RequiredLength(r.lenName, r.timestampsLength) <= |s|
    && |r.timestamps| == r.timestampsLength
    && forall k :: 0 <= k < |r.timestamps| ==>
         r.timestamps[k] == EntryAt(s, EntriesOffset(r.lenName) + k * EntrySize)
  }

  // ---------------------------------------------------------------------------
  // The reader, field by field from an offset

  function ReadU32(s: seq<Byte>, off: nat): (r: Result<(U32, nat), Error>)
    ensures r.Ok? <==> off + WordSize <= |s|
    ensures r.Ok? ==> r.value == (U32At(s, off), off + WordSize)
  {
    if off + WordSize <= |s| then Ok((U32At(s, off), off + WordSize)) else Err(EndOfInput)
  }

  function ReadBytes(s: seq<Byte>, off: nat, n: nat): (r: Result<(seq<Byte>, nat), Error>)
    ensures r.Ok? <==> off + n <= |s|
    ensures r.Ok? ==> r.value == (s[off..off + n], off + n)
  {
    if off + n <= |s| then Ok((s[off..off + n], off + n)) else Err(EndOfInput)
  }

  /** One entry: a word, a bit (whose byte the reader then leaves), a word. */
  function ReadEntry(s: seq<Byte>, off: nat): (r: Result<(Entry, nat), Error>)
    ensures r.Ok? <==> off + EntrySize <= |s|
    ensures r.Ok? ==> r.value == (EntryAt(s, off), off + EntrySize)
  {
    match ReadU32(s, off)
    case Err(e) => Err(e)
    case Ok((tag, afterTag)) =>
      if afterTag + PadSize > |s| then Err(EndOfInput)
      else
        var pad := s[afterTag] / 0x80;
        match ReadU32(s, afterTag + PadSize)
        case Err(e) => Err(e)
        case Ok((ts, next)) => Ok((Entry(tag, pad, ts), next))
  }

  /** `n` consecutive entries starting at `off`. */
  function ReadEntries(s: seq<Byte>, off: nat, n: nat): (r: Result<(seq<Entry>, nat), Error>)
    requires off <= |s|
    decreases n
    ensures r.Ok? <==> off + n * EntrySize <= |s|
    ensures r.Ok? ==> |r.value.0| == n && r.value.1 == off + n * EntrySize
    ensures r.Ok? ==> forall k :: 0 <= k < n ==> r.value.0[k] == EntryAt(s, off + k * EntrySize)
  {
    if n == 0 then Ok(([], off))
    else
      match ReadEntry(s, off)
      case Err(e) => Err(e)
      case Ok((first, next)) =>
        match ReadEntries(s, next, n - 1)
        case Err(e) => Err(e)
        case Ok((rest, last)) => Ok(([first] + rest, last))
  }

  /** `ExtraData.read`: the whole record, or EndOfInput if the input is too short. */
  function Decode(s: seq<Byte>): (r: Result<Record, Error>)
    ensures r.Ok? <==> Fits(s)
    ensures r.Ok? ==> WellFormed(r.value) && Layout(s, r.value)
  {
    match ReadU32(s, 0)
    case Err(e) => Err(e)
    case Ok((records, o1)) =>
      match ReadU32(s, o1)
      case Err(e) => Err(e)
      case Ok((lenName, o2)) =>
        match ReadBytes(s, o2, lenName + 1)
        case Err(e) => Err(e)
        case Ok((name, o3)) =>
          match ReadU32(s, o3)
          case Err(e) => Err(e)
          case Ok((dataType, o4)) =>
            match ReadU32(s, o4)
            case Err(e) => Err(e)
            case Ok((count, o5)) =>
              match ReadEntries(s, o5, count)
              case Err(e) => Err(e)
              case Ok((entries, _)) => Ok(Record(records, lenName, name, dataType, count, entries))
  }

  /** Bytes a well-formed record occupies on the wire. */
  function EncodedSize(r: Record): nat { RequiredLength(r.lenName, r.timestampsLength) }

  // ---------------------------------------------------------------------------
  // The writer

  function EncodeEntry(e: Entry): (b: seq<Byte>)
    ensures |b| == EntrySize
  {
    WordBytes(e.dataType) + [e.pad * 0x80] + WordBytes(e.timestamp)
  }

  function EncodeEntries(es: seq<Entry>): (b: seq<Byte>)
    ensures |b| == |es| * EntrySize
  {
    if es == [] then [] else EncodeEntry(es[0]) + EncodeEntries(es[1..])
  }

  function Encode(r: Record): (b: seq<Byte>)
    requires WellFormed(r)
    ensures |b| == EncodedSize(r)
  {
    WordBytes(r.records) + WordBytes(r.lenName) + r.name
      + WordBytes(r.dataType) + WordBytes(r.timestampsLength)
      + EncodeEntries(r.timestamps)
  }

  // ---------------------------------------------------------------------------
  // Properties of the layout

  /** A word or an entry reads the same inside any surrounding bytes. */
  lemma U32AtShift(p: seq<Byte>, b: seq<Byte>, q: seq<Byte>, off: nat)
    requires off + WordSize <= |b|
    ensures U32At(p + b + q, |p| + off) == U32At(b, off)
  {
    var s := p + b + q;
    assert s[|p| + off] == b[off] && s[|p| + off + 1] == b[off + 1];
    assert s[|p| + off + 2] == b[off + 2] && s[|p| + off + 3] == b[off + 3];
  }

  lemma EntryAtShift(p: seq<Byte>, b: seq<Byte>, off: nat)
    requires off + EntrySize <= |b|
    ensures EntryAt(p + b, |p| + off) == EntryAt(b, off)
  {
    U32AtShift(p, b, [], off);
    U32AtShift(p, b, [], off + TagSize + PadSize);
    assert p + b + [] == p + b;
    assert (p + b)[|p| + off + TagSize] == b[off + TagSize];
  }

  /** Two inputs that agree on the first `n` bytes agree on every field that lies there. */
  lemma U32AtAgree(s: seq<Byte>, s': seq<Byte>, n: nat, off: nat)
    requires n <= |s| && n <= |s'| && s[..n] == s'[..n] && off + WordSize <= n
    ensures U32At(s, off) == U32At(s', off)
  {
    assert s[off] == s[..n][off] && s'[off] == s'[..n][off];
    assert s[off + 1] == s[..n][off + 1] && s'[off + 1] == s'[..n][off + 1];
    assert s[off + 2] == s[..n][off + 2] && s'[off + 2] == s'[..n][off + 2];
    assert s[off + 3] == s[..n][off + 3] && s'[off + 3] == s'[..n][off + 3];
  }

  lemma EntryAtAgree(s: seq<Byte>, s': seq<Byte>, n: nat, off: nat)
    requires n <= |s| && n <= |s'| && s[..n] == s'[..n] && off + EntrySize <= n
    ensures EntryAt(s, off) == EntryAt(s', off)
  {
    U32AtAgree(s, s', n, off);
    U32AtAgree(s, s', n, off + TagSize + PadSize);
    assert s[off + TagSize] == s[..n][off + TagSize] && s'[off + TagSize] == s'[..n][off + TagSize];
  }

  /** The entries of a laid-out record lie within the bytes it occupies. */
  lemma EntriesTransfer(s: seq<Byte>, s': seq<Byte>, r: Record)
    requires Layout(s, r)
    requires EncodedSize(r) <= |s'| && s[..EncodedSize(r)] == s'[..EncodedSize(r)]
    ensures forall k :: 0 <= k < |r.timestamps| ==>
      r.timestamps[k] == EntryAt(s', EntriesOffset(r.lenName) + k * EntrySize)
  {
    forall k | 0 <= k < |r.timestamps|
      ensures r.timestamps[k] == EntryAt(s', EntriesOffset(r.lenName) + k * EntrySize)
    {
      assert k * EntrySize + EntrySize <= r.timestampsLength * EntrySize by {
        assert EntrySize == 9;
      }
      EntryAtAgree(s, s', EncodedSize(r), EntriesOffset(r.lenName) + k * EntrySize);
    }
  }

  /** The layout of a record is a property of the bytes it occupies, and of nothing after them. */
  lemma LayoutTransfer(s: seq<Byte>, s': seq<Byte>, r: Record)
    requires Layout(s, r)
    requires EncodedSize(r) <= |s'| && s[..EncodedSize(r)] == s'[..EncodedSize(r)]
    ensures Layout(s', r)
  {
    var n := EncodedSize(r);
    U32AtAgree(s, s', n, 0);
    U32AtAgree(s, s', n, WordSize);
    U32AtAgree(s, s', n, DataTypeOffset(r.lenName));
    U32AtAgree(s, s', n, DataTypeOffset(r.lenName) + WordSize);
    assert s[NameOffset..DataTypeOffset(r.lenName)] == s[..n][NameOffset..DataTypeOffset(r.lenName)];
    assert s'[NameOffset..DataTypeOffset(r.lenName)] == s'[..n][NameOffset..DataTypeOffset(r.lenName)];
    EntriesTransfer(s, s', r);
  }

  /** Bytes laid out as a record fit its declared lengths. */
  lemma LayoutFits(s: seq<Byte>, r: Record)
    requires Layout(s, r)
    ensures Fits(s)
  {
  }

  /** The bytes determine the record: at most one record is laid out in any input. */
  lemma {:induction false} LayoutUnique(s: seq<Byte>, a: Record, b: Record)
    requires Layout(s, a) && Layout(s, b)
    ensures a == b
  {
    assert a.timestamps == b.timestamps by {
      forall k | 0 <= k < |a.timestamps| ensures a.timestamps[k] == b.timestamps[k] { }
    }
  }

  /** Bytes after the last entry are ignored. */
  lemma DecodeIgnoresTrailing(s: seq<Byte>, t: seq<Byte>)
    requires Decode(s).Ok?
    ensures Decode(s + t) == Decode(s)
  {
    var r := Decode(s).value;
    assert (s + t)[..EncodedSize(r)] == s[..EncodedSize(r)];
    LayoutTransfer(s, s + t, r);
    LayoutFits(s + t, r);
    LayoutUnique(s + t, r, Decode(s + t).value);
  }

  /** A successful decode depends only on the prefix its declared lengths require. */
  lemma DecodeDependsOnPrefix(s: seq<Byte>)
    requires Decode(s).Ok?
    ensures EncodedSize(Decode(s).value) <= |s|
    ensures Decode(s[..EncodedSize(Decode(s).value)]) == Decode(s)
  {
    var r := Decode(s).value;
    var p := s[..EncodedSize(r)];
    assert p[..EncodedSize(r)] == s[..EncodedSize(r)];
    LayoutTransfer(s, p, r);
    LayoutFits(p, r);
    LayoutUnique(p, r, Decode(p).value);
  }

  /** A prefix of bytes laid out as `r` that is itself laid out as some record covers all of `r`. */
  lemma LayoutPrefix(s: seq<Byte>, k: nat, r: Record, q: Record)
    requires k <= |s| && Layout(s, r) && Layout(s[..k], q)
    ensures EncodedSize(r) <= k
  {
    var p := s[..k];
    assert p[..k] == s[..k];
    U32AtAgree(p, s, k, WordSize);
    assert q.lenName == r.lenName;
    U32AtAgree(p, s, k, DataTypeOffset(q.lenName) + WordSize);
    assert q.timestampsLength == r.timestampsLength;
  }

  /** Any input shorter than what a decoded record occupies fails: there is no partial result. */
  lemma TruncatedFails(s: seq<Byte>, k: nat)
    requires Decode(s).Ok? && k < EncodedSize(Decode(s).value)
    ensures Decode(s[..k]) == Err(EndOfInput)
  {
    var d := Decode(s[..k]);
    if d.Ok? {
      LayoutPrefix(s, k, Decode(s).value, d.value);
    } else {
      assert d.error.EndOfInput?;
    }
  }

  /** The encoding of one entry reads back as that entry. */
  lemma {:induction false} EncodeEntryRoundTrip(e: Entry, p: seq<Byte>, q: seq<Byte>)
    ensures EntryAt(p + EncodeEntry(e) + q, |p|) == e
  {
    var b := EncodeEntry(e);
    WordBytesRoundTrip(e.dataType, [], [e.pad * 0x80] + WordBytes(e.timestamp));
    assert [] + WordBytes(e.dataType) + ([e.pad * 0x80] + WordBytes(e.timestamp)) == b;
    WordBytesRoundTrip(e.timestamp, WordBytes(e.dataType) + [e.pad * 0x80], []);
    assert WordBytes(e.dataType) + [e.pad * 0x80] + WordBytes(e.timestamp) + [] == b;
    assert b[TagSize] == e.pad * 0x80;
    EntryAtShift(p, b, 0);
    assert (p + b + q)[..|p| + EntrySize] == (p + b)[..|p| + EntrySize];
    EntryAtAgree(p + b + q, p + b, |p| + EntrySize, |p|);
  }

  /** An encoded entry array starts with the encoding of its first entry. */
  lemma EncodeEntriesFirst(es: seq<Entry>)
    requires es != []
    ensures EntryAt(EncodeEntries(es), 0) == es[0]
  {
    EncodeEntryRoundTrip(es[0], [], EncodeEntries(es[1..]));
  }

  /** The k-th entry of an encoded entry array sits k entries in. */
  lemma {:induction false} EncodeEntriesAt(es: seq<Entry>, k: nat)
    requires k < |es|
    ensures EntryAt(EncodeEntries(es), k * EntrySize) == es[k]
  {
    if k == 0 {
      EncodeEntriesFirst(es);
    } else {
      var head, rest := EncodeEntry(es[0]), EncodeEntries(es[1..]);
      assert |head| + (k - 1) * EntrySize == k * EntrySize && (k - 1) * EntrySize + EntrySize <= |rest| by {
        assert EntrySize == 9;
      }
      EncodeEntriesAt(es[1..], k - 1);
      EntryAtShift(head, rest, (k - 1) * EntrySize);
      assert head + rest == EncodeEntries(es);
    }
  }

  /** The fixed-size fields and the name of a record, as written before its entries. */
  function Header(r: Record): (b: seq<Byte>)
    requires WellFormed(r)
    ensures |b| == EntriesOffset(r.lenName)
  {
    WordBytes(r.records) + WordBytes(r.lenName) + r.name + WordBytes(r.dataType) + WordBytes(r.timestampsLength)
  }

  lemma HeaderFields(r: Record, es: seq<Byte>)
    requires WellFormed(r)
    ensures var s := Header(r) + es;
      && U32At(s, 0) == r.records
      && U32At(s, WordSize) == r.lenName
      && s[NameOffset..DataTypeOffset(r.lenName)] == r.name
      && U32At(s, DataTypeOffset(r.lenName)) == r.dataType
      && U32At(s, DataTypeOffset(r.lenName) + WordSize) == r.timestampsLength
  {
    var s := Header(r) + es;
    var w0, w1 := WordBytes(r.records), WordBytes(r.lenName);
    var w2, w3 := WordBytes(r.dataType), WordBytes(r.timestampsLength);
    WordBytesRoundTrip(r.records, [], w1 + r.name + w2 + w3 + es);
    assert [] + w0 + (w1 + r.name + w2 + w3 + es) == s;
    WordBytesRoundTrip(r.lenName, w0, r.name + w2 + w3 + es);
    assert w0 + w1 + (r.name + w2 + w3 + es) == s;
    WordBytesRoundTrip(r.dataType, w0 + w1 + r.name, w3 + es);
    assert w0 + w1 + r.name + w2 + (w3 + es) == s;
    WordBytesRoundTrip(r.timestampsLength, w0 + w1 + r.name + w2, es);
    assert s[NameOffset..DataTypeOffset(r.lenName)] == r.name;
  }

  lemma EntriesAfterHeader(h: seq<Byte>, es: seq<Entry>, k: nat)
    requires k < |es|
    ensures |h| + k * EntrySize + EntrySize <= |h + EncodeEntries(es)|
    ensures EntryAt(h + EncodeEntries(es), |h| + k * EntrySize) == es[k]
  {
    assert k * EntrySize + EntrySize <= |es| * EntrySize by {
      assert EntrySize == 9;
    }
    EncodeEntriesAt(es, k);
    EntryAtShift(h, EncodeEntries(es), k * EntrySize);
  }

  /** The encoding of a well-formed record is laid out as that record. */
  lemma EncodeLayout(r: Record)
    requires WellFormed(r)
    ensures Layout(Encode(r), r)
  {
    var es := EncodeEntries(r.timestamps);
    assert Encode(r) == Header(r) + es;
    HeaderFields(r, es);
    forall k | 0 <= k < |r.timestamps|
      ensures r.timestamps[k] == EntryAt(Encode(r), EntriesOffset(r.lenName) + k * EntrySize)
    {
      EntriesAfterHeader(Header(r), r.timestamps, k);
    }
  }

  /** Round trip: decoding the encoding of a well-formed record gives back that record. */
  lemma DecodeEncode(r: Record)
    requires WellFormed(r)
    ensures Decode(Encode(r)) == Ok(r)
  {
    EncodeLayout(r);
    LayoutFits(Encode(r), r);
    LayoutUnique(Encode(r), r, Decode(Encode(r)).value);
  }
}

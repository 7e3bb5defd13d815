/** The records of a ZIP archive (PKWARE APPNOTE, section 4.3) as the inspector reads them. */
module ZipFormat {
  import opened Bytes

  const LOCAL_HEADER: nat := 0x0403_4b50
  const CENTRAL_HEADER: nat := 0x0201_4b50
  const END_OF_DIRECTORY: nat := 0x0605_4b50
  const ZIP64_END: nat := 0x0606_4b50
  const ZIP64_LOCATOR: nat := 0x0706_4b50
  const DATA_DESCRIPTOR: nat := 0x0807_4b50

  predicate Has(data: seq<byte>, offset: nat, count: nat) { offset <= |data| && count <= |data| - offset }

  function Read(data: seq<byte>, offset: nat, width: nat): nat
    requires Has(data, offset, width)
  {
    FromLittleEndian(data[offset..offset + width])
  }

  function Read16(data: seq<byte>, offset: nat): nat
    requires Has(data, offset, 2)
  {
    Read(data, offset, 2)
  }

  function Read32(data: seq<byte>, offset: nat): nat
    requires Has(data, offset, 4)
  {
    Read(data, offset, 4)
  }

  function Read64(data: seq<byte>, offset: nat): nat
    requires Has(data, offset, 8)
  {
    Read(data, offset, 8)
  }

  // ---- the end of the central directory ------------------------------------------------------

  /** An end record whose comment reaches exactly to the end of the data. */
  predicate EndAt(data: seq<byte>, offset: nat) {
    && Has(data, offset, 22) && Read32(data, offset) == END_OF_DIRECTORY
    && offset + 22 + Read16(data, offset + 20) == |data|
  }

  /** The lowest place where an end record with the longest possible comment could start. */
  function Earliest(data: seq<byte>): nat {
    if |data| > 22 + 65535 then |data| - (22 + 65535) else 0
  }

  /** The last end record that starts at `earliest` or later and no later than `offset`. */
  function LastEnd(data: seq<byte>, earliest: nat, offset: nat): Option<nat>
    decreases offset
  {
    if offset < earliest then None
    else if EndAt(data, offset) then Some(offset)
    else if offset == 0 then None
    else LastEnd(data, earliest, offset - 1)
  }

  function EndOfDirectory(data: seq<byte>): Option<nat> {
    if |data| < 22 then None else LastEnd(data, Earliest(data), |data| - 22)
  }

  method FindEnd(data: seq<byte>) returns (r: Option<nat>)
    ensures r == EndOfDirectory(data)
  {
    if |data| < 22 { return None; }
    var earliest := if |data| > 22 + 65535 then |data| - (22 + 65535) else 0;
    var offset := |data| - 22;
    while true
      invariant earliest <= offset <= |data| - 22
      invariant EndOfDirectory(data) == LastEnd(data, earliest, offset)
      decreases offset
    {
      if Read32(data, offset) == END_OF_DIRECTORY &&
         Has(data, offset, 22 + Read16(data, offset + 20)) &&
         offset + 22 + Read16(data, offset + 20) == |data| {
        return Some(offset);
      }
      if offset == earliest { break; }
      offset := offset - 1;
    }
    return None;
  }

  lemma {:induction false} LastEndIsLast(data: seq<byte>, earliest: nat, offset: nat)
    ensures LastEnd(data, earliest, offset).None? ==> forall k | earliest <= k <= offset :: !EndAt(data, k)
    ensures LastEnd(data, earliest, offset).Some? ==>
      var r := LastEnd(data, earliest, offset).value;
      && earliest <= r <= offset && EndAt(data, r) && forall k | r < k <= offset :: !EndAt(data, k)
    decreases offset
  {
    hide EndAt;
    if offset >= earliest && !EndAt(data, offset) && offset > 0 {
      LastEndIsLast(data, earliest, offset - 1);
    }
  }

  lemma {:induction false} ReadBound(data: seq<byte>, offset: nat, width: nat)
    requires Has(data, offset, width)
    ensures Read(data, offset, width) < Pow256(width)
    ensures width == 2 ==> Pow256(width) == 0x1_0000
  {
    LittleEndianBound(data[offset..offset + width]);
    assert Pow256(2) == 0x100 * (0x100 * Pow256(0));
  }

  /**
   The directory is found exactly when some end record closes the data, and then the last such record is
   used: the 65,535 bytes a comment may take never hide an earlier one.
   */
  lemma EndExact(data: seq<byte>)
    ensures EndOfDirectory(data).None? ==> forall k: nat :: !EndAt(data, k)
    ensures EndOfDirectory(data).Some? ==>
      var r := EndOfDirectory(data).value;
      EndAt(data, r) && forall k: nat | k > r :: !EndAt(data, k)
  {
    if |data| >= 22 { LastEndIsLast(data, Earliest(data), |data| - 22); }
    forall k: nat | EndAt(data, k)
      ensures |data| >= 22 && Earliest(data) <= k <= |data| - 22
    {
      ReadBound(data, k + 20, 2);
    }
  }

  // ---- where the central directory lies ------------------------------------------------------

  datatype Directory = Directory(entries: nat, offset: nat, size: nat)

  function Zip64Directory(data: seq<byte>, end: nat): Option<Directory>
    requires Has(data, end, 22)
  {
    if end < 20 || Read32(data, end - 20) != ZIP64_LOCATOR || Read32(data, end - 16) != 0
       || Read32(data, end - 4) != 1 then None
    else
      var record := Read64(data, end - 12);
      if !Has(data, record, 12) then None
      else
        var size := Read64(data, record + 4);
        if size < 44 || !Has(data, record, 12 + size) || record + 12 + size != end - 20 then None
        else if Read32(data, record) != ZIP64_END || Read32(data, record + 16) != 0
                || Read32(data, record + 20) != 0 then None
        else
          var entries := Read64(data, record + 32);
          if Read64(data, record + 24) != entries then None
          else Some(Directory(entries, Read64(data, record + 48), Read64(data, record + 40)))
  }

  function LocateDirectory(data: seq<byte>, end: nat): Option<Directory>
    requires Has(data, end, 22)
  {
    if Read16(data, end + 4) != 0 || Read16(data, end + 6) != 0 then None
    else
      var d := Directory(Read16(data, end + 10), Read32(data, end + 16), Read32(data, end + 12));
      if Read16(data, end + 8) != d.entries then None
      else if d.entries == 0xffff || d.offset == 0xffff_ffff || d.size == 0xffff_ffff then Zip64Directory(data, end)
      else Some(d)
  }

  // ---- ZIP64 extra fields --------------------------------------------------------------------

  datatype Values = Values(uncompressed: nat, compressed: nat, localOffset: nat, disk: nat, valid: bool)

  const NARROW32: nat := 0xffff_ffff
  const NARROW16: nat := 0xffff

  /** Takes the next eight bytes of the field if the narrow value asks for a wide one. */
  function Widen(extra: seq<byte>, field: nat, end: nat, narrow: nat): (r: (Option<nat>, nat))
  {
    if narrow != NARROW32 then (Some(narrow), field)
    else if !Has(extra, field, 8) || field + 8 > end then (None, field)
    else (Some(Read64(extra, field)), field + 8)
  }

  /** The ZIP64 field between `field` and `end`: wide values in a fixed order, only where needed. */
  function WideValues(extra: seq<byte>, field: nat, end: nat, narrow: Values): Values {
    var (u, f1) := Widen(extra, field, end, narrow.uncompressed);
    var (c, f2) := Widen(extra, f1, end, narrow.compressed);
    var (l, f3) := Widen(extra, f2, end, narrow.localOffset);
    var diskFits := narrow.disk != NARROW16 || (Has(extra, f3, 4) && f3 + 4 <= end);
    Values(
      if u.Some? then u.value else narrow.uncompressed,
      if c.Some? then c.value else narrow.compressed,
      if l.Some? then l.value else narrow.localOffset,
      if narrow.disk == NARROW16 && diskFits then Read32(extra, f3) else narrow.disk,
      u.Some? && c.Some? && l.Some? && diskFits)
  }

  predicate NeedsWide(v: Values) {
    v.uncompressed == NARROW32 || v.compressed == NARROW32 || v.localOffset == NARROW32 || v.disk == NARROW16
  }

  /** The values after looking for the first ZIP64 field at or after `offset`. */
  function FromExtra(extra: seq<byte>, offset: nat, narrow: Values): Values
    decreases |extra| - offset
  {
    if offset + 4 > |extra| then narrow.(valid := !NeedsWide(narrow))
    else
      var id, size := Read16(extra, offset), Read16(extra, offset + 2);
      if !Has(extra, offset + 4, size) then narrow.(valid := false)
      else if id == 1 then WideValues(extra, offset + 4, offset + 4 + size, narrow)
      else FromExtra(extra, offset + 4 + size, narrow)
  }

  method ParseZip64(extra: seq<byte>, uncompressed32: nat, compressed32: nat, local32: nat, disk16: nat)
    returns (r: Values)
    ensures r == FromExtra(extra, 0, Values(uncompressed32, compressed32, local32, disk16, true))
  {
    var narrow := Values(uncompressed32, compressed32, local32, disk16, true);
    r := narrow;
    var offset := 0;
    while offset + 4 <= |extra|
      invariant r == narrow && FromExtra(extra, 0, narrow) == FromExtra(extra, offset, narrow)
      decreases |extra| - offset
    {
      var id, size := Read16(extra, offset), Read16(extra, offset + 2);
      offset := offset + 4;
      if !Has(extra, offset, size) {
        return r.(valid := false);
      }
      if id == 1 {
        var field := offset;
        if uncompressed32 == NARROW32 {
          if !Has(extra, field, 8) || field + 8 > offset + size { r := r.(valid := false); }
          else { r := r.(uncompressed := Read64(extra, field)); field := field + 8; }
        }
        if compressed32 == NARROW32 {
          if !Has(extra, field, 8) || field + 8 > offset + size { r := r.(valid := false); }
          else { r := r.(compressed := Read64(extra, field)); field := field + 8; }
        }
        if local32 == NARROW32 {
          if !Has(extra, field, 8) || field + 8 > offset + size { r := r.(valid := false); }
          else { r := r.(localOffset := Read64(extra, field)); field := field + 8; }
        }
        if disk16 == NARROW16 {
          if !Has(extra, field, 4) || field + 4 > offset + size { r := r.(valid := false); }
          else { r := r.(disk := Read32(extra, field)); }
        }
        return;
      }
      offset := offset + size;
    }
    if uncompressed32 == NARROW32 || compressed32 == NARROW32 || local32 == NARROW32 || disk16 == NARROW16 {
      r := r.(valid := false);
    }
  }

  // ---- records of the central directory ------------------------------------------------------

  datatype Record = Record(flags: nat, kind: nat, crc: nat, compressed32: nat, uncompressed32: nat,
                           name: seq<byte>, extra: seq<byte>, disk: nat, local32: nat, next: nat)

  /** The record at `central` of a directory that ends at `end`. */
  function ParseRecord(data: seq<byte>, central: nat, end: nat): (r: Option<Record>)
    ensures r.Some? ==> central + 47 <= r.value.next <= end && r.value.name != []
  {
    if !Has(data, central, 46) || central + 46 > end || Read32(data, central) != CENTRAL_HEADER then None
    else
      var nameLength, extraLength := Read16(data, central + 28), Read16(data, central + 30);
      var nameOffset := central + 46;
      var extraOffset := nameOffset + nameLength;
      var next := extraOffset + extraLength + Read16(data, central + 32);
      if nameLength == 0 || !Has(data, nameOffset, nameLength) || !Has(data, extraOffset, extraLength)
         || next > end then None
      else
        Some(Record(Read16(data, central + 8), Read16(data, central + 10), Read32(data, central + 16),
                    Read32(data, central + 20), Read32(data, central + 24),
                    data[nameOffset..extraOffset], data[extraOffset..extraOffset + extraLength],
                    Read16(data, central + 34), Read32(data, central + 42), next))
  }

  predicate FlagSet(flags: nat, bit: nat) { Shr(flags, bit) % 2 == 1 }

  predicate HasDescriptor(r: Record) { FlagSet(r.flags, 3) }

  predicate IsUtf8Name(r: Record) { FlagSet(r.flags, 11) }

  /** Any bit of the mask 0x2041. */
  predicate IsEncrypted(r: Record) { FlagSet(r.flags, 0) || FlagSet(r.flags, 6) || FlagSet(r.flags, 13) }

  /** A bit outside the mask 0x284f. */
  predicate HasUnknownFlags(r: Record) {
    || FlagSet(r.flags, 4) || FlagSet(r.flags, 5) || FlagSet(r.flags, 7) || FlagSet(r.flags, 8)
    || FlagSet(r.flags, 9) || FlagSet(r.flags, 10) || FlagSet(r.flags, 12) || FlagSet(r.flags, 14)
    || FlagSet(r.flags, 15)
  }

  // ---- local headers -------------------------------------------------------------------------

  /** The local header repeats flags, method and name, and its payload ends before the directory. */
  function PayloadOffset(data: seq<byte>, directory: Directory, r: Record, v: Values): (p: Option<nat>)
    ensures p.Some? ==> Has(data, p.value, v.compressed) && p.value + v.compressed <= directory.offset
  {
    var local := v.localOffset;
    if !Has(data, local, 30) || Read32(data, local) != LOCAL_HEADER
       || Read16(data, local + 6) != r.flags || Read16(data, local + 8) != r.kind then None
    else
      var nameLength, extraLength := Read16(data, local + 26), Read16(data, local + 28);
      var nameOffset := local + 30;
      var payload := nameOffset + nameLength + extraLength;
      if nameLength != |r.name| || !Has(data, nameOffset, nameLength)
         || data[nameOffset..nameOffset + nameLength] != r.name
         || !Has(data, payload, v.compressed) || payload + v.compressed > directory.offset then None
      else Some(payload)
  }

  /** Without a data descriptor the local header also repeats checksum and sizes. */
  predicate LocalSizesAgree(data: seq<byte>, r: Record, v: Values)
    requires Has(data, v.localOffset, 30)
    requires Has(data, v.localOffset + 30, Read16(data, v.localOffset + 26) + Read16(data, v.localOffset + 28))
  {
    var local := v.localOffset;
    var extraOffset := local + 30 + Read16(data, local + 26);
    var w := FromExtra(data[extraOffset..extraOffset + Read16(data, local + 28)], 0,
                       Values(Read32(data, local + 22), Read32(data, local + 18), 0, 0, true));
    w.valid && Read32(data, local + 14) == r.crc && w.compressed == v.compressed && w.uncompressed == v.uncompressed
  }

  /** Where the compressed bytes lie, if the local header agrees with the record. */
  function Payload(data: seq<byte>, directory: Directory, r: Record, v: Values): (p: Option<nat>)
    ensures p.Some? ==> Has(data, p.value, v.compressed) && p.value + v.compressed <= directory.offset
  {
    match PayloadOffset(data, directory, r, v)
    case None => None
    case Some(offset) =>
      if !HasDescriptor(r) && !LocalSizesAgree(data, r, v) then None else Some(offset)
  }

  /** The data descriptor behind the payload repeats checksum and sizes, in 32 or 64 bits. */
  predicate DescriptorAgrees(data: seq<byte>, directory: Directory, r: Record, v: Values, end: nat) {
    var at := if Has(data, end, 4) && Read32(data, end) == DATA_DESCRIPTOR then end + 4 else end;
    var wide := r.compressed32 == NARROW32 || r.uncompressed32 == NARROW32;
    var size := if wide then 20 else 12;
    && Has(data, at, size) && at + size <= directory.offset && Read32(data, at) == r.crc
    && (if wide then Read64(data, at + 4) == v.compressed && Read64(data, at + 12) == v.uncompressed
        else Read32(data, at + 4) == v.compressed && Read32(data, at + 8) == v.uncompressed)
  }
}

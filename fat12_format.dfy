/** The on-disk encodings the FAT12 image builder produces, as functions on
    byte sequences: the volume layout of a 1.44 MB floppy, little-endian
    fields, the boot sector with its BIOS Parameter Block, 8.3 names, packed
    DOS dates and times, 32-byte directory entries and the packing of 12-bit
    FAT entries (Microsoft FAT specification, sections "Boot Sector and
    BPB", "FAT Data Structure" and "FAT Directory Structure"). */
module Fat12Format {

  import opened Bytes
  import opened Results
  import opened Arith

  // ------------------------------------------------------------- layout

  const BytesPerSector: nat := 512
  const SectorsPerCluster: nat := 1
  const ReservedSectors: nat := 1
  const FatCopies: nat := 2
  const RootEntryCount: nat := 224
  const SectorsPerFat: nat := 9
  const SectorsPerTrack: nat := 18
  const Heads: nat := 2
  const MediaDescriptor: byte := 0xF0
  const DefaultImageSize: nat := 1474560
  const EntrySize: nat := 32
  const EndOfChain: nat := 0xFFF

  function TotalSectors(imageSize: nat): nat {
    imageSize / BytesPerSector
  }

  function FatStart(): nat {
    ReservedSectors
  }

  function RootStart(): nat {
    FatStart() + FatCopies * SectorsPerFat
  }

  /** Sectors holding the root directory, rounded up. */
  function RootSectors(): nat {
    (RootEntryCount * EntrySize + BytesPerSector - 1) / BytesPerSector
  }

  function DataStart(): nat {
    RootStart() + RootSectors()
  }

  /** Bytes per cluster. */
  function ClusterBytes(): nat {
    SectorsPerCluster * BytesPerSector
  }

  /** The number of 12-bit entries that fit one copy of the FAT. */
  function FatEntryCount(): nat {
    SectorsPerFat * BytesPerSector * 2 / 3
  }

  /** The bytes of one copy of the FAT. */
  function FatBytes(): nat {
    SectorsPerFat * BytesPerSector
  }

  /** The bytes of the root directory area. */
  function RootBytes(): nat {
    RootSectors() * BytesPerSector
  }

  /** The byte offset in the image of data cluster `c` (clusters are
      numbered from 2). */
  function ClusterOffset(c: nat): nat
    requires c >= 2
  {
    (DataStart() + (c - 2) * SectorsPerCluster) * BytesPerSector
  }

  /** The layout of the default 1.44 MB image: 2880 sectors, the two FATs
      from sector 1, the root directory from sector 19 over 14 sectors, and
      the data area from sector 33. The root area holds exactly 224 entries
      and the FAT exactly 3072 entries in 4608 bytes. */
  lemma DefaultLayout()
    ensures TotalSectors(DefaultImageSize) == 2880
    ensures FatStart() == 1 && RootStart() == 19 && RootSectors() == 14 && DataStart() == 33
    ensures RootBytes() == RootEntryCount * EntrySize == 7168
    ensures FatEntryCount() == 3072 && FatBytes() == 4608 && FatEntryCount() * 3 == FatBytes() * 2
    ensures ClusterBytes() == 512 && ClusterOffset(2) == DataStart() * BytesPerSector
  {
  }

  /** The clusters the FAT hands out that lie inside a default image: the
      data area from sector 33 to sector 2879 holds clusters 2..2848. */
  const DefaultDataClusterEnd: nat := 2849

  /** Python's `img[lo:lo + len(chunk)] = chunk` on a `bytearray`: both
      slice bounds are clipped to the array's length. Inside the array the
      chunk replaces the bytes at `lo`; from the end on it is appended at
      the end, whatever `lo` was. */
  function SliceAssign(img: seq<byte>, lo: nat, chunk: seq<byte>): (r: seq<byte>)
    ensures lo + |chunk| <= |img| ==>
              && |r| == |img| && r[lo..lo + |chunk|] == chunk
              && r[..lo] == img[..lo] && r[lo + |chunk|..] == img[lo + |chunk|..]
    ensures lo >= |img| ==> r == img + chunk
  {
    var a := if lo < |img| then lo else |img|;
    var b := if lo + |chunk| < |img| then lo + |chunk| else |img|;
    img[..a] + chunk + img[b..]
  }

  /** The data loop of `add_file` as written, on the default image: the
      3072-entry FAT hands out clusters beyond 2848, whose offsets lie at or
      past the end of the 2880-sector image. A one-byte file in cluster
      2849 grows the image by one byte; the next file's first cluster 2850
      should start 512 bytes past the old end, but its data is appended
      right after that one byte. */
  lemma DataPastImageEndAsWritten(img: seq<byte>, x: byte, chunk: seq<byte>)
    requires |img| == DefaultImageSize && |chunk| > 0
    ensures DefaultDataClusterEnd + 1 < FatEntryCount()
    ensures ClusterOffset(DefaultDataClusterEnd) == |img|
    ensures ClusterOffset(DefaultDataClusterEnd + 1) == |img| + ClusterBytes()
    ensures var grown := SliceAssign(img, ClusterOffset(DefaultDataClusterEnd), [x]);
            var r := SliceAssign(grown, ClusterOffset(DefaultDataClusterEnd + 1), chunk);
            |r| == |img| + 1 + |chunk| && r[|img| + 1] == chunk[0]
  {
    DefaultLayout();
    var grown := SliceAssign(img, ClusterOffset(DefaultDataClusterEnd), [x]);
    assert grown == img + [x];
    var r := SliceAssign(grown, ClusterOffset(DefaultDataClusterEnd + 1), chunk);
    assert r == img + [x] + chunk;
  }

  // ------------------------------------------------- little-endian fields

  const U16Limit: nat := 0x1_0000
  const U32Limit: nat := 0x1_0000_0000

  /** `struct.pack('<H', v)`. */
  function LE16(v: nat): (r: seq<byte>)
    requires v < U16Limit
    ensures |r| == 2
  {
    [v % 256, v / 256]
  }

  /** `struct.pack('<L', v)`. */
  function LE32(v: nat): (r: seq<byte>)
    requires v < U32Limit
    ensures |r| == 4
  {
    [v % 256, v / 0x100 % 256, v / 0x1_0000 % 256, v / 0x100_0000]
  }

  /** The little-endian 16-bit field at `off`. */
  function U16(s: seq<byte>, off: nat): nat
    requires off + 2 <= |s|
  {
    s[off] as int + 256 * (s[off + 1] as int)
  }

  /** The little-endian 32-bit field at `off`. */
  function U32(s: seq<byte>, off: nat): nat
    requires off + 4 <= |s|
  {
    s[off] as int + 0x100 * (s[off + 1] as int) + 0x1_0000 * (s[off + 2] as int)
    + 0x100_0000 * (s[off + 3] as int)
  }

  lemma LE16RoundTrip(v: nat)
    requires v < U16Limit
    ensures U16(LE16(v), 0) == v
  {
    DivMod(v, 256);
  }

  lemma {:induction false} LE32RoundTrip(v: nat)
    requires v < U32Limit
    ensures U32(LE32(v), 0) == v
  {
    var b0, q0 := v % 256, v / 256;
    DivMod(v, 256);
    var b1, q1 := q0 % 256, q0 / 256;
    DivMod(q0, 256);
    var b2, b3 := q1 % 256, q1 / 256;
    DivMod(q1, 256);
    DivDiv(v, 256, 256);
    DivDiv(v, 0x1_0000, 256);
    assert LE32(v) == [b0, b1, b2, b3];
    assert v == b0 + 256 * (b1 + 256 * (b2 + 256 * b3));
  }

  /** The same field read from a longer sequence. */
  lemma U16At(s: seq<byte>, off: nat, v: nat)
    requires v < U16Limit && off + 2 <= |s|
    requires s[off] == LE16(v)[0] && s[off + 1] == LE16(v)[1]
    ensures U16(s, off) == v
  {
    LE16RoundTrip(v);
  }

  lemma U32At(s: seq<byte>, off: nat, v: nat)
    requires v < U32Limit && off + 4 <= |s|
    requires s[off] == LE32(v)[0] && s[off + 1] == LE32(v)[1]
    requires s[off + 2] == LE32(v)[2] && s[off + 3] == LE32(v)[3]
    ensures U32(s, off) == v
  {
    LE32RoundTrip(v);
  }

  // -------------------------------------------------------------- text

  predicate IsAscii(s: string) {
    forall i :: 0 <= i < |s| ==> s[i] as int < 128
  }

  /** `s.encode('ascii')`. */
  function Ascii(s: string): (r: seq<byte>)
    requires IsAscii(s)
    ensures |r| == |s| && forall i :: 0 <= i < |s| ==> r[i] == s[i] as int
  {
    seq(|s|, i requires 0 <= i < |s| => s[i] as int)
  }

  /** `struct.pack('<Ns', b)`: truncated or NUL-padded to `n` bytes. */
  function Fixed(b: seq<byte>, n: nat): (r: seq<byte>)
    ensures |r| == n
    ensures forall i :: 0 <= i < n ==> r[i] == if i < |b| then b[i] else 0
  {
    if |b| >= n then b[..n] else b + Zeros(n - |b|)
  }

  // ------------------------------------------------------- boot sector

  /** "NEKKOOS ", "nekkoOS    " and "FAT12   " in ASCII. */
  const OemName: seq<byte> := [0x4E, 0x45, 0x4B, 0x4B, 0x4F, 0x4F, 0x53, 0x20]
  const VolumeLabel: seq<byte> := [0x6E, 0x65, 0x6B, 0x6B, 0x6F, 0x4F, 0x53, 0x20, 0x20, 0x20, 0x20]
  const FileSystemType: seq<byte> := [0x46, 0x41, 0x54, 0x31, 0x32, 0x20, 0x20, 0x20]

  /** The 59 bytes that `struct.pack('<8sHBHBHHBHHHLLBBBL11s8s', ...)`
      produces for the BIOS Parameter Block and the extended boot record,
      in four runs of fields: the 16-bit total-sector field is used for
      volumes under 65536 sectors, otherwise the 32-bit one. */
  function Bpb(totalSectors: nat): (r: seq<byte>)
    requires totalSectors < U32Limit
    ensures |r| == 59
  {
    BpbGeometry() + BpbCounts(totalSectors) + BpbLarge(totalSectors) + BpbExtended()
  }

  /** Bytes 0..13: OEM name, bytes per sector, sectors per cluster,
      reserved sectors, number of FATs. */
  function BpbGeometry(): (r: seq<byte>)
    ensures |r| == 14
  {
    OemName + LE16(BytesPerSector) + [SectorsPerCluster] + LE16(ReservedSectors) + [FatCopies]
  }

  /** Bytes 14..24: root entries, 16-bit total sectors, media descriptor,
      sectors per FAT, sectors per track, heads. */
  function BpbCounts(totalSectors: nat): (r: seq<byte>)
    ensures |r| == 11
  {
    LE16(RootEntryCount) + LE16(if totalSectors < U16Limit then totalSectors else 0)
    + [MediaDescriptor] + LE16(SectorsPerFat) + LE16(SectorsPerTrack) + LE16(Heads)
  }

  /** Bytes 25..32: hidden sectors, 32-bit total sectors. */
  function BpbLarge(totalSectors: nat): (r: seq<byte>)
    requires totalSectors < U32Limit
    ensures |r| == 8
  {
    LE32(0) + LE32(if totalSectors >= U16Limit then totalSectors else 0)
  }

  /** Bytes 33..58: drive number, reserved, extended signature, serial
      number, volume label, file-system type. */
  function BpbExtended(): (r: seq<byte>)
    ensures |r| == 26
  {
    [0, 0, 0x29] + LE32(0x1234_5678) + VolumeLabel + FileSystemType
  }

  datatype Error =
    | BootCodeTooLarge   // the ValueError of `create_boot_sector`
    | FieldOutOfRange    // a struct.error: a value does not fit its field
    | NotAscii           // a UnicodeEncodeError from the 8.3 name
    | FatFull            // an IndexError past the end of the FAT
    | ImageFull          // the data would run past the end of the image

  /** `create_boot_sector`: the boot code, zero-padded to 512 bytes, with
      the BPB over bytes 3..61 and the signature 0x55 0xAA at 510. */
  function CreateBootSector(code: seq<byte>, totalSectors: nat): (r: Result<seq<byte>, Error>)
    ensures r == Err(BootCodeTooLarge) <==> |code| > 512
    ensures r.Ok? <==> |code| <= 512 && totalSectors < U32Limit
    ensures r.Ok? ==> |r.value| == 512 && r.value[3..62] == Bpb(totalSectors)
    ensures r.Ok? ==> r.value[510] == 0x55 && r.value[511] == 0xAA
    ensures r.Ok? ==> forall i :: (0 <= i < 3 || 62 <= i < 510) ==>
                        r.value[i] == if i < |code| then code[i] else 0
  {
    if |code| > 512 then Err(BootCodeTooLarge)
    else if totalSectors >= U32Limit then Err(FieldOutOfRange)
    else
      var padded := code + Zeros(512 - |code|);
      Ok(padded[..3] + Bpb(totalSectors) + padded[62..510] + [0x55, 0xAA])
  }

  /** The BPB read back from the boot sector at the offsets the FAT
      specification gives each field. */
  lemma BootSectorFields(code: seq<byte>, totalSectors: nat)
    requires |code| <= 512 && totalSectors < U32Limit
    ensures var s := CreateBootSector(code, totalSectors).value;
      && s[3..11] == OemName
      && U16(s, 11) == BytesPerSector && s[13] == SectorsPerCluster
      && U16(s, 14) == ReservedSectors && s[16] == FatCopies
      && U16(s, 17) == RootEntryCount
      && U16(s, 19) == (if totalSectors < U16Limit then totalSectors else 0)
      && s[21] == MediaDescriptor && U16(s, 22) == SectorsPerFat
      && U16(s, 24) == SectorsPerTrack && U16(s, 26) == Heads
      && U32(s, 28) == 0
      && U32(s, 32) == (if totalSectors >= U16Limit then totalSectors else 0)
      && s[36] == 0 && s[37] == 0
      && s[38] == 0x29 && U32(s, 39) == 0x1234_5678
      && s[43..54] == VolumeLabel && s[54..62] == FileSystemType
  {
    var s := CreateBootSector(code, totalSectors).value;
    var g, c, l, e := BpbGeometry(), BpbCounts(totalSectors), BpbLarge(totalSectors), BpbExtended();
    assert s[3..62] == g + c + l + e;
    assert s[3..17] == g by { assert (g + c + l + e)[..14] == g; }
    assert s[17..28] == c by { assert (g + c + l + e)[14..25] == c; }
    assert s[28..36] == l by { assert (g + c + l + e)[25..33] == l; }
    assert s[36..62] == e by { assert (g + c + l + e)[33..] == e; }
    GeometryFields(s);
    CountsFields(s, totalSectors);
    LargeFields(s, totalSectors);
    ExtendedFields(s);
  }

  lemma GeometryFields(s: seq<byte>)
    requires |s| >= 17 && s[3..17] == BpbGeometry()
    ensures s[3..11] == OemName
    ensures U16(s, 11) == BytesPerSector && s[13] == SectorsPerCluster
    ensures U16(s, 14) == ReservedSectors && s[16] == FatCopies
  {
    var g := BpbGeometry();
    assert forall k :: 0 <= k < 14 ==> s[3 + k] == g[k];
    assert g[..8] == OemName;
    assert g[8..10] == LE16(BytesPerSector) && g[11..13] == LE16(ReservedSectors);
    U16At(s, 11, BytesPerSector);
    U16At(s, 14, ReservedSectors);
  }

  lemma CountsFields(s: seq<byte>, totalSectors: nat)
    requires |s| >= 28 && s[17..28] == BpbCounts(totalSectors)
    ensures U16(s, 17) == RootEntryCount
    ensures U16(s, 19) == (if totalSectors < U16Limit then totalSectors else 0)
    ensures s[21] == MediaDescriptor && U16(s, 22) == SectorsPerFat
    ensures U16(s, 24) == SectorsPerTrack && U16(s, 26) == Heads
  {
    var c := BpbCounts(totalSectors);
    var small := if totalSectors < U16Limit then totalSectors else 0;
    assert forall k :: 0 <= k < 11 ==> s[17 + k] == c[k];
    assert c[0..2] == LE16(RootEntryCount) && c[2..4] == LE16(small);
    assert c[5..7] == LE16(SectorsPerFat) && c[7..9] == LE16(SectorsPerTrack);
    assert c[9..11] == LE16(Heads);
    U16At(s, 17, RootEntryCount);
    U16At(s, 19, small);
    U16At(s, 22, SectorsPerFat);
    U16At(s, 24, SectorsPerTrack);
    U16At(s, 26, Heads);
  }

  lemma LargeFields(s: seq<byte>, totalSectors: nat)
    requires totalSectors < U32Limit
    requires |s| >= 36 && s[28..36] == BpbLarge(totalSectors)
    ensures U32(s, 28) == 0
    ensures U32(s, 32) == (if totalSectors >= U16Limit then totalSectors else 0)
  {
    var large := if totalSectors >= U16Limit then totalSectors else 0;
    var l := BpbLarge(totalSectors);
    assert forall k :: 0 <= k < 8 ==> s[28 + k] == l[k];
    assert l[..4] == LE32(0) && l[4..8] == LE32(large);
    U32At(s, 28, 0);
    U32At(s, 32, large);
  }

  lemma ExtendedFields(s: seq<byte>)
    requires |s| >= 62 && s[36..62] == BpbExtended()
    ensures s[36] == 0 && s[37] == 0
    ensures s[38] == 0x29 && U32(s, 39) == 0x1234_5678
    ensures s[43..54] == VolumeLabel && s[54..62] == FileSystemType
  {
    var e := BpbExtended();
    assert forall k :: 0 <= k < 26 ==> s[36 + k] == e[k];
    assert e[3..7] == LE32(0x1234_5678);
    assert e[7..18] == VolumeLabel && e[18..] == FileSystemType;
    U32At(s, 39, 0x1234_5678);
  }

  // ----------------------------------------------------------- 8.3 names

  /** `str.upper` on ASCII: a lower-case letter becomes upper case. */
  function UpperChar(c: char): char {
    if 'a' <= c <= 'z' then (c as int - 32) as char else c
  }

  function Upper(s: string): (r: string)
    ensures |r| == |s| && forall i :: 0 <= i < |s| ==> r[i] == UpperChar(s[i])
  {
    seq(|s|, i requires 0 <= i < |s| => UpperChar(s[i]))
  }

  /** `s[:n].ljust(n)`: truncated or space-padded to `n` characters. */
  function Fit(s: string, n: nat): (r: string)
    ensures |r| == n
    ensures forall i :: 0 <= i < n ==> r[i] == if i < |s| then s[i] else ' '
  {
    if |s| >= n then s[..n] else s + seq(n - |s|, _ => ' ')
  }

  /** The index of the first '.' in `s`, if there is one. */
  function FirstDot(s: string): (r: Option<nat>)
    ensures r.None? <==> '.' !in s
    ensures r.Some? ==> r.value < |s| && s[r.value] == '.' && '.' !in s[..r.value]
  {
    if |s| == 0 then None
    else if s[0] == '.' then Some(0)
    else match FirstDot(s[1..])
      case None => None
      case Some(i) => assert s[..i + 1] == [s[0]] + s[1..][..i]; Some(i + 1)
  }

  /** `convert_to_83`: upper-case the name, split it at the first '.', and
      fit the base to 8 and the extension to 3 characters. */
  function ConvertTo83(filename: string): (r: string)
    ensures |r| == 11
    ensures forall i :: 0 <= i < 11 ==> !('a' <= r[i] <= 'z')
  {
    var up := Upper(filename);
    match FirstDot(up)
    case None => Fit(up, 8) + Fit("", 3)
    case Some(i) => Fit(up[..i], 8) + Fit(up[i + 1..], 3)
  }

  /** A name without a dot keeps its first 8 characters, upper-cased and
      space-padded, and gets a blank extension; a name with one is split at
      its first dot, so later dots stay in the extension. */
  lemma ConvertTo83Parts(filename: string)
    ensures '.' !in filename ==>
              ConvertTo83(filename) == Fit(Upper(filename), 8) + "   "
    ensures forall i :: 0 <= i < |filename| && filename[i] == '.' && '.' !in filename[..i] ==>
              ConvertTo83(filename) == Fit(Upper(filename[..i]), 8) + Fit(Upper(filename[i + 1..]), 3)
  {
    var up := Upper(filename);
    assert forall i :: 0 <= i < |filename| ==> (up[i] == '.' <==> filename[i] == '.');
    forall i | 0 <= i < |filename| && filename[i] == '.' && '.' !in filename[..i]
      ensures ConvertTo83(filename) == Fit(Upper(filename[..i]), 8) + Fit(Upper(filename[i + 1..]), 3)
    {
      assert '.' !in up[..i] by {
        forall j | 0 <= j < i ensures up[..i][j] != '.' {
          assert filename[..i][j] == filename[j];
        }
      }
      assert up[..i] == Upper(filename[..i]);
      assert up[i + 1..] == Upper(filename[i + 1..]);
    }
    assert Fit("", 3) == "   ";
  }

  // ------------------------------------------------------- date and time

  /** What `datetime.now()` supplies: a date and a time of day. */
  datatype Stamp = Stamp(year: int, month: int, day: int, hour: int, minute: int, second: int)

  /** The ranges `datetime` guarantees for its fields. */
  predicate ValidStamp(t: Stamp) {
    1 <= t.year <= 9999 && 1 <= t.month <= 12 && 1 <= t.day <= 31
    && 0 <= t.hour < 24 && 0 <= t.minute < 60 && 0 <= t.second < 60
  }

  /** The packed date `(year - 1980) << 9 | month << 5 | day`, when it is
      a 16-bit value: the fields occupy disjoint bits, so the `|` is a sum.
      Before 1980 the value is negative and after 2107 it needs more than
      16 bits, and `struct.pack` rejects it either way. */
  function DosDate(t: Stamp): (r: Option<nat>)
    requires ValidStamp(t)
    ensures r.Some? <==> 1980 <= t.year <= 2107
    ensures r.Some? ==> r.value < U16Limit
  {
    if 1980 <= t.year <= 2107 then Some((t.year - 1980) * 512 + t.month * 32 + t.day) else None
  }

  /** The packed time `hour << 11 | minute << 5 | second // 2`, always a
      16-bit value. */
  function DosTime(t: Stamp): (r: nat)
    requires ValidStamp(t)
    ensures r < U16Limit
  {
    t.hour * 2048 + t.minute * 32 + t.second / 2
  }

  /** The fields of a packed date, as FAT readers decode them. */
  function DateFields(v: nat): (int, int, int) {
    (v / 512 + 1980, v / 32 % 16, v % 32)
  }

  /** The fields of a packed time; seconds are kept in units of two. */
  function TimeFields(v: nat): (int, int, int) {
    (v / 2048, v / 32 % 64, v % 32 * 2)
  }

  lemma DateRoundTrip(t: Stamp)
    requires ValidStamp(t) && 1980 <= t.year <= 2107
    ensures DateFields(DosDate(t).value) == (t.year, t.month, t.day)
  {
    var v := DosDate(t).value;
    var low := t.month * 32 + t.day;
    assert low < 512;
    DivUnique(v, 512, t.year - 1980, low);
    assert v % 512 == low;
    DivUnique(v, 32, (t.year - 1980) * 16 + t.month, t.day);
  }

  lemma TimeRoundTrip(t: Stamp)
    requires ValidStamp(t)
    ensures TimeFields(DosTime(t)) == (t.hour, t.minute, t.second - t.second % 2)
  {
    var v := DosTime(t);
    DivUnique(v, 2048, t.hour, t.minute * 32 + t.second / 2);
    DivUnique(v, 32, t.hour * 64 + t.minute, t.second / 2);
  }

  // ---------------------------------------------------- directory entries

  /** A directory entry laid out from its parts, in the order
      `create_dir_entry` packs them. */
  function EntryLayout(n: seq<byte>, time: nat, date: nat, cluster: nat, size: nat): seq<byte>
    requires time < U16Limit && date < U16Limit && cluster < U16Limit && size < U32Limit
  {
    n + [0x20, 0, 0] + LE16(time) + LE16(date) + LE16(date) + LE16(0)
    + LE16(time) + LE16(date) + LE16(cluster) + LE32(size)
  }

  /** `create_dir_entry`: the 32-byte entry for a file, with the archive
      attribute, the creation, access and write stamps, and the first
      cluster and size. Encoding fails for a non-ASCII name and for values
      `struct.pack` cannot fit in their fields. */
  function CreateDirEntry(name83: string, fileSize: nat, firstCluster: nat, now: Stamp): (r: Result<seq<byte>, Error>)
    requires ValidStamp(now)
    ensures r == Err(NotAscii) <==> !IsAscii(name83)
    ensures r.Err? ==> r.error == NotAscii || r.error == FieldOutOfRange
    ensures r.Ok? <==> IsAscii(name83) && 1980 <= now.year <= 2107
                       && firstCluster < U16Limit && fileSize < U32Limit
    ensures r.Ok? ==> |r.value| == EntrySize
  {
    if !IsAscii(name83) then Err(NotAscii)
    else match DosDate(now)
      case None => Err(FieldOutOfRange)
      case Some(date) =>
        if firstCluster >= U16Limit || fileSize >= U32Limit then Err(FieldOutOfRange)
        else
          var time := DosTime(now);
          Ok(EntryLayout(Fixed(Ascii(name83), 11), time, date, firstCluster, fileSize))
  }

  /** Reading an entry back at the offsets of the FAT directory structure
      gives the name, the archive attribute, the stamps, the first cluster
      and the size. */
  lemma DirEntryFields(name83: string, fileSize: nat, firstCluster: nat, now: Stamp)
    requires ValidStamp(now)
    requires CreateDirEntry(name83, fileSize, firstCluster, now).Ok?
    ensures var e := CreateDirEntry(name83, fileSize, firstCluster, now).value;
      && e[..11] == Fixed(Ascii(name83), 11) && e[11] == 0x20
      && TimeFields(U16(e, 14)) == (now.hour, now.minute, now.second - now.second % 2)
      && DateFields(U16(e, 16)) == (now.year, now.month, now.day)
      && U16(e, 18) == U16(e, 16) == U16(e, 24) && U16(e, 22) == U16(e, 14)
      && U16(e, 20) == 0 && U16(e, 26) == firstCluster && U32(e, 28) == fileSize
  {
    var e := CreateDirEntry(name83, fileSize, firstCluster, now).value;
    var date, time := DosDate(now).value, DosTime(now);
    var n := Fixed(Ascii(name83), 11);
    assert e == EntryLayout(n, time, date, firstCluster, fileSize);
    EntryHead(n, time, date, firstCluster, fileSize);
    EntryTail(n, time, date, firstCluster, fileSize);
    DateRoundTrip(now);
    TimeRoundTrip(now);
  }

  /** The name, the attribute and the creation and access stamps of a laid
      out entry. */
  lemma EntryHead(n: seq<byte>, time: nat, date: nat, cluster: nat, size: nat)
    requires |n| == 11 && time < U16Limit && date < U16Limit
    requires cluster < U16Limit && size < U32Limit
    ensures var e := EntryLayout(n, time, date, cluster, size);
      && |e| == EntrySize && e[..11] == n && e[11] == 0x20
      && U16(e, 14) == time && U16(e, 16) == date && U16(e, 18) == date
  {
    var e := EntryLayout(n, time, date, cluster, size);
    assert e[..11] == n;
    U16At(e, 14, time);
    U16At(e, 16, date);
    U16At(e, 18, date);
  }

  /** The high cluster word, the write stamps, the first cluster and the
      size of a laid out entry. */
  lemma EntryTail(n: seq<byte>, time: nat, date: nat, cluster: nat, size: nat)
    requires |n| == 11 && time < U16Limit && date < U16Limit
    requires cluster < U16Limit && size < U32Limit
    ensures var e := EntryLayout(n, time, date, cluster, size);
      && |e| == EntrySize
      && U16(e, 20) == 0 && U16(e, 22) == time && U16(e, 24) == date
      && U16(e, 26) == cluster && U32(e, 28) == size
  {
    var e := EntryLayout(n, time, date, cluster, size);
    U16At(e, 20, 0);
    U16At(e, 22, time);
    U16At(e, 24, date);
    U16At(e, 26, cluster);
    U32At(e, 28, size);
  }

  // ------------------------------------------------------------ clusters

  /** `add_file`'s cluster count: the size rounded up to whole clusters,
      and one cluster for an empty file. */
  function ClustersNeeded(size: nat): (r: nat)
    ensures r >= 1 && size <= r * ClusterBytes()
    ensures r == 1 || (r - 1) * ClusterBytes() < size
  {
    var n := (size + ClusterBytes() - 1) / ClusterBytes();
    DivMod(size + ClusterBytes() - 1, ClusterBytes());
    if n == 0 then 1 else n
  }

  /** The FAT after `add_file` links `count` clusters from `first`: each
      points to the next, the last holds the end-of-chain mark, and the
      other entries keep their values. When the chain runs past the table,
      the entries up to its end have been linked before the failure. */
  function ChainFat(f: seq<nat>, first: nat, count: nat): (r: seq<nat>)
    requires count >= 1
    ensures |r| == |f|
    ensures forall k :: 0 <= k < |f| && !(first <= k < first + count) ==> r[k] == f[k]
    ensures forall k :: first <= k < first + count - 1 && k < |f| ==> r[k] == k + 1
    ensures first + count <= |f| ==> r[first + count - 1] == EndOfChain
  {
    seq(|f|, k requires 0 <= k < |f| =>
      if first <= k < first + count - 1 then k + 1
      else if k == first + count - 1 then EndOfChain
      else f[k])
  }

  /** The clusters `add_file`'s write loop visits from `c`: it follows the
      FAT until an entry holds the end-of-chain mark. `fuel` bounds the
      walk, since a table may hold a cycle. */
  function ClusterChain(f: seq<nat>, c: nat, fuel: nat): (r: seq<nat>)
    ensures |r| <= fuel
    ensures forall i :: 0 <= i < |r| ==> r[i] < |f|
    decreases fuel
  {
    if fuel == 0 || c >= |f| then []
    else if f[c] == EndOfChain then [c]
    else [c] + ClusterChain(f, f[c], fuel - 1)
  }

  /** Walking a freshly linked chain visits `count` consecutive clusters
      from `first`. */
  lemma ChainWalk(f: seq<nat>, first: nat, count: nat)
    requires count >= 1 && first + count <= |f| <= EndOfChain
    ensures ClusterChain(ChainFat(f, first, count), first, count) == seq(count, i => first + i)
  {
    ChainWalkFrom(f, first, count, 0);
  }

  lemma {:induction false} ChainWalkFrom(f: seq<nat>, first: nat, count: nat, j: nat)
    requires j < count && first + count <= |f| <= EndOfChain
    ensures ClusterChain(ChainFat(f, first, count), first + j, count - j)
            == seq(count - j, i => first + j + i)
    decreases count - j
  {
    var g := ChainFat(f, first, count);
    if j < count - 1 {
      ChainWalkFrom(f, first, count, j + 1);
      assert g[first + j] == first + j + 1;
      var rest := seq(count - j - 1, i => first + j + 1 + i);
      assert [first + j] + rest == seq(count - j, i => first + j + i);
    }
  }

  /** A file of `size` bytes written from the first cluster's offset, as
      `add_file` writes it, is read back in chain order: the `i`-th cluster
      of its chain starts `i` clusters into the file, the chain covers the
      whole file, and every cluster but the first holds some of it. */
  lemma FileInChainOrder(f: seq<nat>, first: nat, size: nat)
    requires first >= 2 && first + ClustersNeeded(size) <= |f| <= EndOfChain
    ensures var chain := ClusterChain(ChainFat(f, first, ClustersNeeded(size)), first, ClustersNeeded(size));
      && |chain| == ClustersNeeded(size)
      && (forall i :: 0 <= i < |chain| ==> chain[i] >= 2 && ClusterOffset(chain[i]) == ClusterOffset(first) + i * ClusterBytes())
      && size <= |chain| * ClusterBytes()
      && forall i :: 1 <= i < |chain| ==> i * ClusterBytes() < size
  {
    var count := ClustersNeeded(size);
    ChainWalk(f, first, count);
    DefaultLayout();
    forall i | 1 <= i < count
      ensures i * ClusterBytes() < size
    {
      MulLe(ClusterBytes(), i, count - 1);
    }
  }

  // -------------------------------------------------------- FAT packing

  lemma Triple(p: nat, j: nat)
    requires j < 3
    ensures (3 * p + j) / 3 == p && (3 * p + j) % 3 == j
  {
    DivUnique(3 * p + j, 3, p, j);
  }

  /** Byte `j` of the three that pack entries `2p` and `2p + 1`, each
      taken modulo 4096, low bits first. */
  function PairByte(f: seq<nat>, p: nat, j: nat): byte
    requires 2 * p + 1 < |f| && j < 3
  {
    var v1, v2 := f[2 * p] % 4096, f[2 * p + 1] % 4096;
    if j == 0 then v1 % 256
    else if j == 1 then v1 / 256 % 16 + v2 % 16 * 16
    else v2 / 16 % 256
  }

  /** Byte `k` of the packed FAT belongs to pair `k / 3`. */
  function FatByte(f: seq<nat>, k: nat): byte
    requires |f| == FatEntryCount() && k < FatBytes()
  {
    DivBelow(k, 3, 1536);
    PairByte(f, k / 3, k % 3)
  }

  /** `write_fat`'s byte image of one FAT copy. */
  function PackFat(f: seq<nat>): (r: seq<byte>)
    requires |f| == FatEntryCount()
    ensures |r| == FatBytes()
  {
    seq(FatBytes(), k requires 0 <= k < FatBytes() => FatByte(f, k))
  }

  /** Entry `n` of a packed FAT, as a FAT12 reader extracts it from the
      bytes at `n + n / 2`. */
  function FatEntry(b: seq<byte>, n: nat): (r: nat)
    requires |b| == FatBytes() && n < FatEntryCount()
    ensures r < 4096
  {
    var off := n + n / 2;
    if n % 2 == 0 then b[off] as int + b[off + 1] as int % 16 * 256
    else b[off] as int / 16 + b[off + 1] as int * 16
  }

  /** Unpacking recovers every entry's low twelve bits. */
  lemma FatRoundTrip(f: seq<nat>, n: nat)
    requires |f| == FatEntryCount() && n < FatEntryCount()
    ensures FatEntry(PackFat(f), n) == f[n] % 4096
  {
    var p := n / 2;
    DivMod(n, 2);
    if n % 2 == 0 {
      assert n == 2 * p;
      EvenEntry(f, p);
    } else {
      assert n == 2 * p + 1;
      OddEntry(f, p);
    }
  }

  lemma EvenEntry(f: seq<nat>, p: nat)
    requires |f| == FatEntryCount() && 2 * p + 1 < FatEntryCount()
    ensures FatEntry(PackFat(f), 2 * p) == f[2 * p] % 4096
  {
    var b := PackFat(f);
    var v1 := f[2 * p] % 4096;
    Triple(p, 0);
    Triple(p, 1);
    assert b[3 * p] == v1 % 256;
    assert b[3 * p + 1] % 16 == v1 / 256 % 16;
  }

  lemma OddEntry(f: seq<nat>, p: nat)
    requires |f| == FatEntryCount() && 2 * p + 1 < FatEntryCount()
    ensures FatEntry(PackFat(f), 2 * p + 1) == f[2 * p + 1] % 4096
  {
    var b := PackFat(f);
    var v2 := f[2 * p + 1] % 4096;
    Triple(p, 1);
    Triple(p, 2);
    assert b[3 * p + 1] / 16 == v2 % 16;
    assert b[3 * p + 2] == v2 / 16;
  }

  // ------------------------------------------------------ root directory

  /** `write_root_directory`'s root area: the entries in insertion order at
      32-byte offsets, as many as fit, then zeros. */
  function RootArea(es: seq<seq<byte>>): (r: seq<byte>)
    requires forall i :: 0 <= i < |es| ==> |es[i]| == EntrySize
    ensures |r| == RootEntryCount * EntrySize
  {
    seq(RootEntryCount * EntrySize, k requires 0 <= k < RootEntryCount * EntrySize =>
      if k / EntrySize < |es| then es[k / EntrySize][k % EntrySize] else 0)
  }

  lemma Slot(i: nat, j: nat)
    requires j < EntrySize
    ensures (EntrySize * i + j) / EntrySize == i && (EntrySize * i + j) % EntrySize == j
  {
    DivUnique(EntrySize * i + j, EntrySize, i, j);
  }

  /** Entry `i` occupies bytes `32 i` to `32 i + 31` when it fits; past the
      last entry the area is zero; entries beyond the 224th leave no trace. */
  lemma RootAreaLayout(es: seq<seq<byte>>)
    requires forall i :: 0 <= i < |es| ==> |es[i]| == EntrySize
    ensures forall i, j :: 0 <= i < |es| && i < RootEntryCount && 0 <= j < EntrySize ==>
              RootArea(es)[EntrySize * i + j] == es[i][j]
    ensures forall k :: EntrySize * |es| <= k < RootEntryCount * EntrySize ==> RootArea(es)[k] == 0
    ensures |es| > RootEntryCount ==> RootArea(es) == RootArea(es[..RootEntryCount])
  {
    var r := RootArea(es);
    forall i, j | 0 <= i < |es| && i < RootEntryCount && 0 <= j < EntrySize
      ensures r[EntrySize * i + j] == es[i][j]
    {
      Slot(i, j);
      MulLe(EntrySize, i, RootEntryCount - 1);
    }
    forall k | EntrySize * |es| <= k < RootEntryCount * EntrySize
      ensures r[k] == 0
    {
    }
    if |es| > RootEntryCount {
      var t := es[..RootEntryCount];
      forall k | 0 <= k < RootEntryCount * EntrySize
        ensures r[k] == RootArea(t)[k]
      {
        DivBelow(k, EntrySize, RootEntryCount);
      }
    }
  }
}

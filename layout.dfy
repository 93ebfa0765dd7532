/** Byte layouts of catalog/types.h.

    Every structure there is declared under `#pragma pack(1)`, so the offset
    of a field is the sum of the sizes of the fields declared before it.
    Each structure is given here as its list of field sizes, the offsets the
    decoder relies on are named constants, and a lemma per structure checks
    the constants against the packed field list.  Multi-byte fields are read
    little-endian (the host byte order this model assumes). */
module Layout {

  /** One unsigned byte, kept as an integer so that sums and positions need
      no conversions. */
  type byte = x: int | 0 <= x < 256

  /** Capacity of the in-memory image (`ImgDsk`). */
  const ImgSize := 0x80000
  /** Owner byte of a deleted directory slot (`USER_DELETED`). */
  const UserDeleted := 0xE5

  // ---------------------------------------------------------------
  // Packed structures as lists of field sizes
  // ---------------------------------------------------------------

  /** Offset of field `k` of a packed structure whose fields have the given sizes. */
  function FieldOffset(sizes: seq<nat>, k: nat): nat
    requires k <= |sizes|
  {
    if k == 0 then 0 else FieldOffset(sizes, k - 1) + sizes[k - 1]
  }

  /** Size of a packed structure: the offset just past its last field. */
  function PackedSize(sizes: seq<nat>): nat {
    FieldOffset(sizes, |sizes|)
  }

  /** CPCEMUEnt: debut[0x30], NbTracks, NbHeads, DataSize, Unused[0xCC]. */
  const DiskHeaderFields: seq<nat> := [0x30, 1, 1, 2, 0xCC]
  /** CPCEMUSect: C, H, R, N, Un1, SizeByte. */
  const SectDescFields: seq<nat> := [1, 1, 1, 1, 2, 2]
  /** CPCEMUTrack: ID[0x10], Track, Head, Unused, SectSize, NbSect, Gap3, OctRemp, Sect[29]. */
  const TrackInfoFields: seq<nat> := [0x10, 1, 1, 2, 1, 1, 1, 1, 29 * 8]
  /** StDirEntry: User, Nom[8], Ext[3], NumPage, Unused[2], NbPages, Blocks[16]. */
  const DirEntryFields: seq<nat> := [1, 8, 3, 1, 2, 1, 16]
  /** StAmsdos: User, Nom[8], Ext[3], Pad1[6], FileType, Adress, Pad2, Length,
      EntryAdress, Pad3[36], LengthForTAPE, AdressForTAPE, Pad4[2], Checksum, Pad5[59]. */
  const AmsdosFields: seq<nat> := [1, 8, 3, 6, 1, 2, 1, 2, 2, 36, 2, 2, 2, 2, 59]

  // Disk header (CPCEMUEnt)
  const DiskHeaderSize := 0x100
  const NbTracksOff := 0x30
  const NbHeadsOff := 0x31
  const DataSizeOff := 0x32

  // Sector descriptor (CPCEMUSect)
  const SectDescSize := 8
  const SectCOff := 0
  const SectHOff := 1
  const SectROff := 2
  const SectNOff := 3
  const SectSizeByteOff := 6

  // Track descriptor (CPCEMUTrack)
  const TrackInfoSize := 0x100
  const TrackNbSectOff := 0x15
  const TrackSectTableOff := 0x18

  // Directory entry (StDirEntry)
  const DirEntrySize := 32
  const DirUserOff := 0
  const DirNomOff := 1
  const DirExtOff := 9
  const DirNumPageOff := 12
  const DirUnusedOff := 13
  const DirNbPagesOff := 15
  const DirBlocksOff := 16
  const DirBlockCount := 16

  // Executable header (StAmsdos)
  const AmsdosSize := 129
  const AmsFileTypeOff := 0x12
  const AmsAdressOff := 0x13
  const AmsLengthOff := 0x16
  const AmsEntryAdressOff := 0x18
  const AmsLengthForTapeOff := 0x3E
  const AmsAdressForTapeOff := 0x40
  const AmsChecksumOff := 0x44

  /** The named offsets are exactly the packed offsets of the declared fields. */
  lemma PackedLayouts()
    ensures PackedSize(DiskHeaderFields) == DiskHeaderSize
    ensures FieldOffset(DiskHeaderFields, 1) == NbTracksOff
    ensures FieldOffset(DiskHeaderFields, 2) == NbHeadsOff
    ensures FieldOffset(DiskHeaderFields, 3) == DataSizeOff
    ensures PackedSize(SectDescFields) == SectDescSize
    ensures FieldOffset(SectDescFields, 0) == SectCOff
    ensures FieldOffset(SectDescFields, 1) == SectHOff
    ensures FieldOffset(SectDescFields, 2) == SectROff
    ensures FieldOffset(SectDescFields, 3) == SectNOff
    ensures FieldOffset(SectDescFields, 5) == SectSizeByteOff
    ensures PackedSize(TrackInfoFields) == TrackInfoSize
    ensures FieldOffset(TrackInfoFields, 5) == TrackNbSectOff
    ensures FieldOffset(TrackInfoFields, 8) == TrackSectTableOff
    ensures PackedSize(DirEntryFields) == DirEntrySize
    ensures FieldOffset(DirEntryFields, 1) == DirNomOff
    ensures FieldOffset(DirEntryFields, 2) == DirExtOff
    ensures FieldOffset(DirEntryFields, 3) == DirNumPageOff
    ensures FieldOffset(DirEntryFields, 4) == DirUnusedOff
    ensures FieldOffset(DirEntryFields, 5) == DirNbPagesOff
    ensures FieldOffset(DirEntryFields, 6) == DirBlocksOff
    ensures PackedSize(AmsdosFields) == AmsdosSize
    ensures FieldOffset(AmsdosFields, 4) == AmsFileTypeOff
    ensures FieldOffset(AmsdosFields, 5) == AmsAdressOff
    ensures FieldOffset(AmsdosFields, 7) == AmsLengthOff
    ensures FieldOffset(AmsdosFields, 8) == AmsEntryAdressOff
    ensures FieldOffset(AmsdosFields, 10) == AmsLengthForTapeOff
    ensures FieldOffset(AmsdosFields, 11) == AmsAdressForTapeOff
    ensures FieldOffset(AmsdosFields, 13) == AmsChecksumOff
  {
    assert FieldOffset(AmsdosFields, 5) == 0x13;
    assert FieldOffset(AmsdosFields, 10) == 0x3E;
    assert FieldOffset(AmsdosFields, 13) == 0x44;
  }

  // ---------------------------------------------------------------
  // Little-endian field decoders
  // ---------------------------------------------------------------

  /** An unsigned 16-bit field (`WORD`, `unsigned short`) stored low byte first. */
  function Word16(s: seq<byte>, off: nat): (w: nat)
    requires off + 2 <= |s|
    ensures w < 0x10000
    ensures w % 256 == s[off] && w / 256 == s[off + 1]
  {
    var lo: int, hi: int := s[off], s[off + 1];
    lo + 256 * hi
  }

  /** A signed 16-bit field (`short`) stored low byte first, two's complement. */
  function Int16(s: seq<byte>, off: nat): (v: int)
    requires off + 2 <= |s|
    ensures -0x8000 <= v < 0x8000
    ensures v % 0x10000 == Word16(s, off)
  {
    var w := Word16(s, off);
    if w >= 0x8000 then w - 0x10000 else w
  }

  function Zeros(n: nat): (z: seq<byte>)
    ensures |z| == n && forall i :: 0 <= i < n ==> z[i] == 0
  {
    seq(n, _ => 0)
  }

  // ---------------------------------------------------------------
  // Directory entry (StDirEntry), CP/M 2.2 layout
  // ---------------------------------------------------------------

  datatype DirEntry = DirEntry(
    user: byte,          // owner, or UserDeleted
    nom: seq<byte>,      // 8-byte name
    ext: seq<byte>,      // 3-byte extension
    numPage: byte,       // extent index
    unused: seq<byte>,   // 2 reserved bytes
    nbPages: byte,       // record count of this extent
    blocks: seq<byte>)   // 16 allocation-block indices
  {
    predicate WellSized() {
      |nom| == 8 && |ext| == 3 && |unused| == 2 && |blocks| == DirBlockCount
    }
  }

  /** The 32 bytes of an entry, fields at their packed offsets. */
  function EncodeDirEntry(e: DirEntry): (s: seq<byte>)
    requires e.WellSized()
    ensures |s| == DirEntrySize
    ensures s[DirUserOff] == e.user
    ensures s[DirNomOff..DirExtOff] == e.nom
    ensures s[DirExtOff..DirNumPageOff] == e.ext
    ensures s[DirNumPageOff] == e.numPage
    ensures s[DirUnusedOff..DirNbPagesOff] == e.unused
    ensures s[DirNbPagesOff] == e.nbPages
    ensures s[DirBlocksOff..] == e.blocks
  {
    [e.user] + e.nom + e.ext + [e.numPage] + e.unused + [e.nbPages] + e.blocks
  }

  /** Reading a directory entry out of 32 raw bytes loses nothing. */
  function DecodeDirEntry(s: seq<byte>): (e: DirEntry)
    requires |s| == DirEntrySize
    ensures e.WellSized()
    ensures EncodeDirEntry(e) == s
  {
    var e := DirEntry(s[DirUserOff], s[DirNomOff..DirExtOff], s[DirExtOff..DirNumPageOff],
                      s[DirNumPageOff], s[DirUnusedOff..DirNbPagesOff], s[DirNbPagesOff],
                      s[DirBlocksOff..]);
    assert EncodeDirEntry(e) == s by {
      assert s == [s[0]] + s[1..9] + s[9..12] + [s[12]] + s[13..15] + [s[15]] + s[16..];
    }
    e
  }

  /** Encoding then decoding an entry gives the entry back. */
  lemma DecodeEncodeDirEntry(e: DirEntry)
    requires e.WellSized()
    ensures DecodeDirEntry(EncodeDirEntry(e)) == e
  {
    var s := EncodeDirEntry(e);
    var d := DecodeDirEntry(s);
    assert d.nom == e.nom && d.ext == e.ext && d.unused == e.unused && d.blocks == e.blocks;
  }
}

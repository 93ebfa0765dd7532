/** Geometry of a DSK image: where a sector, a directory slot and an
    allocation block live, catalog/dsk.cpp lines 69-150.

    These are the specification functions of the reads `DSK` performs on its
    image; the methods of `Disk.Dsk` are proved to compute them.

    Only the first track descriptor (at 0x100, right after the disk header)
    is ever consulted: the source takes its pointer once and never advances
    it, so every track walked is sized with track 0's sector table.  The walk
    of `GetPosData` therefore has the closed form `PosData` below. */
module Geometry {
  import opened Layout

  predicate IsImage(img: seq<byte>) {
    |img| == ImgSize
  }

  /** Where the first track descriptor starts. */
  const FirstTrackPos := DiskHeaderSize

  /** Where descriptor `s` of the first track's sector table starts; it may
      lie past the 29 entries the structure declares, as in the source. */
  function SectBase(s: nat): nat {
    FirstTrackPos + TrackSectTableOff + SectDescSize * s
  }

  /** `NbSect` of the first track descriptor. */
  function NbSect(img: seq<byte>): byte
    requires IsImage(img)
  {
    img[FirstTrackPos + TrackNbSectOff]
  }

  /** Sector id `R` of descriptor `s`. */
  function SectR(img: seq<byte>, s: nat): byte
    requires IsImage(img) && s < 256
  {
    img[SectBase(s) + SectROff]
  }

  /** Size code `N` of descriptor `s`. */
  function SectN(img: seq<byte>, s: nat): byte
    requires IsImage(img) && s < 256
  {
    img[SectBase(s) + SectNOff]
  }

  /** Explicit byte length (`short SizeByte`) of descriptor `s`. */
  function SectSizeByte(img: seq<byte>, s: nat): int
    requires IsImage(img) && s < 256
  {
    Int16(img, SectBase(s) + SectSizeByteOff)
  }

  function Pow2(n: nat): (p: nat)
    ensures p >= 1
  {
    if n == 0 then 1 else 2 * Pow2(n - 1)
  }

  /** Bytes occupied by sector `s`: `SizeByte` when non-zero, else `128 << N`
      (computed without the 32-bit overflow the shift has for large N). */
  function SectorBytes(img: seq<byte>, s: nat): (n: int)
    requires IsImage(img) && s < 256
    ensures n != 0
    ensures SectSizeByte(img, s) != 0 ==> n == SectSizeByte(img, s)
    ensures SectSizeByte(img, s) == 0 ==> n >= 128 && n % 128 == 0
  {
    var sb := SectSizeByte(img, s);
    if sb != 0 then sb else 128 * Pow2(SectN(img, s))
  }

  /** `GetMinSect`: the sector id of the first sector of the first track. */
  function MinSect(img: seq<byte>): (m: byte)
    requires IsImage(img)
    ensures m == img[0x11A]
  {
    SectR(img, 0)
  }

  /** Total bytes of the sectors before ordinal `k` in the sector table. */
  function SizesBefore(img: seq<byte>, k: nat): int
    requires IsImage(img) && k <= NbSect(img)
  {
    if k == 0 then 0 else SizesBefore(img, k - 1) + SectorBytes(img, k - 1)
  }

  /** Bytes of all sectors of one track (every track is sized like track 0). */
  function TrackBytes(img: seq<byte>): int
    requires IsImage(img)
  {
    SizesBefore(img, NbSect(img))
  }

  /** The test that stops the walk on the target track: by sector id when
      `phys`, by ordinal otherwise. */
  predicate Matches(img: seq<byte>, s: nat, key: int, phys: bool)
    requires IsImage(img) && s < 256
  {
    if phys then SectR(img, s) == key else s == key
  }

  /** The first ordinal at or after `s` that matches, or `NbSect` if none. */
  function FirstMatchFrom(img: seq<byte>, s: nat, key: int, phys: bool): (m: nat)
    requires IsImage(img) && s <= NbSect(img)
    ensures s <= m <= NbSect(img)
    ensures forall q :: s <= q < m ==> !Matches(img, q, key, phys)
    ensures m < NbSect(img) ==> Matches(img, m, key, phys)
    decreases NbSect(img) - s
  {
    if s == NbSect(img) then s
    else if Matches(img, s, key, phys) then s
    else FirstMatchFrom(img, s + 1, key, phys)
  }

  function FirstMatch(img: seq<byte>, key: int, phys: bool): nat
    requires IsImage(img)
  {
    FirstMatchFrom(img, 0, key, phys)
  }

  /** By ordinal, the walk stops at the key itself when the track has it. */
  lemma FirstMatchOrdinal(img: seq<byte>, key: int)
    requires IsImage(img) && key >= 0
    ensures FirstMatch(img, key, false) == if key < NbSect(img) then key else NbSect(img)
  {
    if key < NbSect(img) {
      assert Matches(img, key, key, false);
    }
  }

  /** Closed form of `GetPosData(track, key, phys)`: the disk header, one
      track header per track walked, `track` whole tracks sized like track 0,
      then the sectors before the first match on the target track. */
  function PosData(img: seq<byte>, track: int, key: int, phys: bool): (pos: int)
    requires IsImage(img)
    ensures track < 0 ==> pos == FirstTrackPos
    ensures track >= 0 ==>
      pos == FirstTrackPos + TrackInfoSize + SizesBefore(img, FirstMatch(img, key, phys))
        + track * (TrackInfoSize + TrackBytes(img))
  {
    if track < 0 then FirstTrackPos
    else FirstTrackPos + (track + 1) * TrackInfoSize + track * TrackBytes(img)
         + SizesBefore(img, FirstMatch(img, key, phys))
  }

  /** Tracks reserved before the directory: 2 when sector ids start at 0x41,
      1 when they start at 0x01, none otherwise. */
  function ReservedTracks(minSect: int): nat {
    if minSect == 0x41 then 2 else if minSect == 0x01 then 1 else 0
  }

  // ---------------------------------------------------------------
  // Directory slots (GetInfoDirEntry)
  // ---------------------------------------------------------------

  const DirSlots := 64
  const SlotsPerSector := 16

  /** Where slot `n` starts: entry `n & 15` of physical sector
      `(n >> 4) + MinSect` on the first directory track. */
  function DirSlotPos(img: seq<byte>, n: nat): int
    requires IsImage(img) && n < DirSlots
  {
    var minSect := MinSect(img);
    (n % SlotsPerSector) * DirEntrySize
      + PosData(img, ReservedTracks(minSect), n / SlotsPerSector + minSect, true)
  }

  /** The 32 bytes of slot `n` lie inside the image. */
  predicate SlotReadable(img: seq<byte>, n: nat)
    requires IsImage(img) && n < DirSlots
  {
    0 <= DirSlotPos(img, n) && DirSlotPos(img, n) + DirEntrySize <= ImgSize
  }

  predicate DirReadable(img: seq<byte>)
    requires IsImage(img)
  {
    forall n :: 0 <= n < DirSlots ==> SlotReadable(img, n)
  }

  /** The entry held by slot `n`. */
  function DirEntryAt(img: seq<byte>, n: nat): (e: DirEntry)
    requires IsImage(img) && n < DirSlots && SlotReadable(img, n)
    ensures e.WellSized()
    ensures EncodeDirEntry(e) == img[DirSlotPos(img, n)..DirSlotPos(img, n) + DirEntrySize]
  {
    var p := DirSlotPos(img, n);
    DecodeDirEntry(img[p..p + DirEntrySize])
  }

  /** All 64 slots, in slot order. */
  function Directory(img: seq<byte>): (d: seq<DirEntry>)
    requires IsImage(img) && DirReadable(img)
    ensures |d| == DirSlots
    ensures forall n :: 0 <= n < DirSlots ==> d[n] == DirEntryAt(img, n)
  {
    seq(DirSlots, n requires 0 <= n < DirSlots => DirEntryAt(img, n))
  }

  // ---------------------------------------------------------------
  // Allocation blocks (ReadBloc)
  // ---------------------------------------------------------------

  const BlockSize := 1024
  const SectorSize := 512
  const SectorsPerTrack := 9
  const MaxBlock := 255

  /** 512 image bytes at sector id `sect + MinSect` of `track`, or zeros when
      that position leaves the image. */
  function SectorHalf(img: seq<byte>, track: int, sect: int): (r: seq<byte>)
    requires IsImage(img)
    ensures |r| == SectorSize
  {
    var pos := PosData(img, track, sect + MinSect(img), true);
    if 0 <= pos && pos + SectorSize <= ImgSize then img[pos..pos + SectorSize] else Zeros(SectorSize)
  }

  /** Track and in-track ordinal of the first sector of block `b`. */
  function FirstSectorOf(minSect: int, b: int): (ts: (int, int))
    requires 0 <= b
    ensures ts.0 >= 0 && 0 <= ts.1 < SectorsPerTrack
    ensures SectorsPerTrack * ts.0 + ts.1 == 2 * b + SectorsPerTrack * ReservedTracks(minSect)
  {
    ((2 * b) / SectorsPerTrack + ReservedTracks(minSect), (2 * b) % SectorsPerTrack)
  }

  /** The sector after (track, sect): the next ordinal, or the first sector
      of the next track past ordinal 8. */
  function NextSector(track: int, sect: int): (ts: (int, int))
    requires 0 <= sect < SectorsPerTrack
    ensures 0 <= ts.1 < SectorsPerTrack && ts.0 >= track
    ensures SectorsPerTrack * ts.0 + ts.1 == SectorsPerTrack * track + sect + 1
  {
    if sect + 1 > 8 then (track + 1, 0) else (track, sect + 1)
  }

  /** Block `b`: two consecutive sectors, or 1024 zeros outside 0..255. */
  function Block(img: seq<byte>, b: int): (r: seq<byte>)
    requires IsImage(img)
    ensures |r| == BlockSize
    ensures (b < 0 || b > MaxBlock) ==> r == Zeros(BlockSize)
  {
    if b < 0 || b > MaxBlock then Zeros(BlockSize)
    else
      var (t1, s1) := FirstSectorOf(MinSect(img), b);
      var (t2, s2) := NextSector(t1, s1);
      SectorHalf(img, t1, s1) + SectorHalf(img, t2, s2)
  }

  // ---------------------------------------------------------------
  // The standard 9 x 512 format
  // ---------------------------------------------------------------

  /** Track 0 holds 9 sectors of 512 bytes numbered MinSect, MinSect+1, ... */
  predicate StandardTrack(img: seq<byte>)
    requires IsImage(img)
  {
    && NbSect(img) == SectorsPerTrack
    && forall s :: 0 <= s < SectorsPerTrack ==>
         SectR(img, s) == MinSect(img) + s && SectorBytes(img, s) == SectorSize
  }

  /** Distance between the starts of two consecutive standard tracks. */
  const StdTrackPitch := TrackInfoSize + SectorsPerTrack * SectorSize

  lemma {:induction false} StandardSizesBefore(img: seq<byte>, k: nat)
    requires IsImage(img) && StandardTrack(img) && k <= SectorsPerTrack
    ensures SizesBefore(img, k) == SectorSize * k
  {
    if k > 0 {
      StandardSizesBefore(img, k - 1);
    }
  }

  lemma StandardFirstMatch(img: seq<byte>, k: nat)
    requires IsImage(img) && StandardTrack(img) && k < SectorsPerTrack
    ensures FirstMatch(img, MinSect(img) + k, true) == k
  {
    assert Matches(img, k, MinSect(img) + k, true);
  }

  /** On a standard track, sector `MinSect + k` of track `t` starts at
      0x200 + t * 0x1300 + 512 * k. */
  lemma StandardPosData(img: seq<byte>, t: int, k: nat)
    requires IsImage(img) && StandardTrack(img) && t >= 0 && k < SectorsPerTrack
    ensures PosData(img, t, MinSect(img) + k, true) == 0x200 + t * StdTrackPitch + SectorSize * k
  {
    StandardFirstMatch(img, k);
    StandardSizesBefore(img, k);
    StandardSizesBefore(img, SectorsPerTrack);
  }

  /** Start of the `l`-th sector of the image, counting 9 per track. */
  function StdSectorPos(l: nat): nat {
    0x200 + (l / SectorsPerTrack) * StdTrackPitch + (l % SectorsPerTrack) * SectorSize
  }

  /** The `l`-th sector of a standard image, or zeros past its end. */
  function StdSector(img: seq<byte>, l: nat): (r: seq<byte>)
    requires IsImage(img)
    ensures |r| == SectorSize
  {
    var p := StdSectorPos(l);
    if p + SectorSize <= ImgSize then img[p..p + SectorSize] else Zeros(SectorSize)
  }

  lemma DivMod9(x: int, q: int, r: int)
    requires x == 9 * q + r && 0 <= r < 9
    ensures x / 9 == q && x % 9 == r
  {
  }

  /** On a standard image, sector ordinal `s` of track `t` is logical
      sector 9t + s. */
  lemma StandardHalf(img: seq<byte>, t: int, s: int, l: nat)
    requires IsImage(img) && StandardTrack(img) && t >= 0 && 0 <= s < SectorsPerTrack
    requires l == SectorsPerTrack * t + s
    ensures SectorHalf(img, t, s) == StdSector(img, l)
  {
    StandardPosData(img, t, s);
    DivMod9(l, t, s);
  }

  /** An in-range block is its first sector followed by the next one. */
  lemma BlockHalves(img: seq<byte>, b: int)
    requires IsImage(img) && 0 <= b <= MaxBlock
    ensures var ts1 := FirstSectorOf(MinSect(img), b);
      var ts2 := NextSector(ts1.0, ts1.1);
      && Block(img, b)[..SectorSize] == SectorHalf(img, ts1.0, ts1.1)
      && Block(img, b)[SectorSize..] == SectorHalf(img, ts2.0, ts2.1)
  {
  }

  lemma StandardBlockFirstHalf(img: seq<byte>, b: int, l: nat)
    requires IsImage(img) && StandardTrack(img) && 0 <= b <= MaxBlock
    requires l == 2 * b + SectorsPerTrack * ReservedTracks(MinSect(img))
    ensures Block(img, b)[..SectorSize] == StdSector(img, l)
  {
    var ts1 := FirstSectorOf(MinSect(img), b);
    BlockHalves(img, b);
    StandardHalf(img, ts1.0, ts1.1, l);
  }

  lemma StandardBlockSecondHalf(img: seq<byte>, b: int, l: nat)
    requires IsImage(img) && StandardTrack(img) && 0 <= b <= MaxBlock
    requires l == 2 * b + SectorsPerTrack * ReservedTracks(MinSect(img))
    ensures Block(img, b)[SectorSize..] == StdSector(img, l + 1)
  {
    var ts1 := FirstSectorOf(MinSect(img), b);
    var ts2 := NextSector(ts1.0, ts1.1);
    BlockHalves(img, b);
    StandardHalf(img, ts2.0, ts2.1, l + 1);
  }

  /** On a standard image, block `b` is the logical sectors 2b and 2b+1
      counted from the first track after the reserved ones: the second half
      rolls over to the next track exactly when the first is the ninth. */
  lemma StandardBlock(img: seq<byte>, b: int, l: nat)
    requires IsImage(img) && StandardTrack(img) && 0 <= b <= MaxBlock
    requires l == 2 * b + SectorsPerTrack * ReservedTracks(MinSect(img))
    ensures Block(img, b) == StdSector(img, l) + StdSector(img, l + 1)
  {
    StandardBlockFirstHalf(img, b, l);
    StandardBlockSecondHalf(img, b, l);
    assert Block(img, b) == Block(img, b)[..SectorSize] + Block(img, b)[SectorSize..];
  }

  /** On a standard image the directory is the first four sectors after the
      reserved tracks, 16 slots of 32 bytes per sector. */
  lemma StandardDirSlot(img: seq<byte>, n: nat)
    requires IsImage(img) && StandardTrack(img) && n < DirSlots
    ensures DirSlotPos(img, n)
      == StdSectorPos(SectorsPerTrack * ReservedTracks(MinSect(img)) + n / SlotsPerSector)
         + (n % SlotsPerSector) * DirEntrySize
    ensures SlotReadable(img, n)
  {
    var res := ReservedTracks(MinSect(img));
    StandardPosData(img, res, n / SlotsPerSector);
    DivMod9(SectorsPerTrack * res + n / SlotsPerSector, res, n / SlotsPerSector);
  }

  /** Every standard image meets the directory precondition. */
  lemma StandardDirReadable(img: seq<byte>)
    requires IsImage(img) && StandardTrack(img)
    ensures DirReadable(img)
  {
    forall n | 0 <= n < DirSlots ensures SlotReadable(img, n) {
      StandardDirSlot(img, n);
    }
  }
}

/** The `DSK` class of catalog/dsk.h and catalog/dsk.cpp: one 0x80000-byte
    image buffer and the operations that read it.

    Each method follows the source's loops and is proved to compute the
    specification function of its module (`Geometry.PosData`,
    `Geometry.Block`, `FreeSpace.UsedSet`, `Catalogue.TableText`, ...),
    whose properties are proved there.  Results the source returns through
    static buffers are returned here as fresh values. */
module Disk {
  import opened Layout
  import opened Amsdos
  import opened Geometry
  import opened FreeSpace
  import opened Text
  import opened Catalogue

  // ---------------------------------------------------------------
  // Container signatures (CheckDsk)
  // ---------------------------------------------------------------

  const SignatureLength := 8
  /** The standard and the extended DSK container signatures. */
  const StandardSignature: seq<byte> := [0x4D, 0x56, 0x20, 0x2D, 0x20, 0x43, 0x50, 0x43]  // "MV - CPC"
  const ExtendedSignature: seq<byte> := [0x45, 0x58, 0x54, 0x45, 0x4E, 0x44, 0x45, 0x44]  // "EXTENDED"

  /** `strncmp(a, b, n) == 0`: the strings agree up to `n` characters or up
      to a common terminating NUL, whichever comes first. */
  function StrNEqual(a: seq<byte>, b: seq<byte>, n: nat): (equal: bool)
    requires n <= |a| && n <= |b|
    ensures a[..n] == b[..n] ==> equal
    ensures equal && n > 0 ==> a[0] == b[0]
  {
    n == 0 || (a[0] == b[0] && (a[0] == 0 || StrNEqual(a[1..], b[1..], n - 1)))
  }

  /** Against a pattern with no NUL among its first `n` bytes, `strncmp`
      equality is plain equality of the first `n` bytes. */
  lemma {:induction false} StrNEqualNoNul(a: seq<byte>, b: seq<byte>, n: nat)
    requires n <= |a| && n <= |b|
    requires forall k :: 0 <= k < n ==> b[k] != 0
    ensures StrNEqual(a, b, n) <==> a[..n] == b[..n]
  {
    if n > 0 {
      StrNEqualNoNul(a[1..], b[1..], n - 1);
      assert a[..n] == [a[0]] + a[1..][..n - 1];
      assert b[..n] == [b[0]] + b[1..][..n - 1];
    }
  }

  /** The image starts with one of the two container signatures. */
  predicate HasSignature(img: seq<byte>)
    requires IsImage(img)
  {
    img[..SignatureLength] == StandardSignature || img[..SignatureLength] == ExtendedSignature
  }

  /** The image after `ReadDsk` reads `file` over `before`: the file's
      bytes, then whatever the image held past them. */
  function Loaded(before: seq<byte>, file: seq<byte>): (after: seq<byte>)
    requires |before| == ImgSize && |file| <= ImgSize
    ensures |after| == ImgSize
    ensures forall k :: 0 <= k < |file| ==> after[k] == file[k]
    ensures forall k :: |file| <= k < ImgSize ==> after[k] == before[k]
  {
    file + before[|file|..]
  }

  /** Read into a freshly constructed image, a file is followed by zeros. */
  lemma LoadedIntoBlank(file: seq<byte>)
    requires |file| <= ImgSize
    ensures Loaded(Zeros(ImgSize), file) == file + Zeros(ImgSize - |file|)
  {
  }

  /** A 1024-byte buffer whose halves hold the two sectors of block `b` is
      that block. */
  lemma BlockOfHalves(img: seq<byte>, b: int, t1: int, s1: int, t2: int, s2: int, whole: seq<byte>)
    requires IsImage(img) && 0 <= b <= MaxBlock
    requires (t1, s1) == FirstSectorOf(MinSect(img), b)
    requires (t2, s2) == (if s1 + 1 > 8 then (t1 + 1, 0) else (t1, s1 + 1))
    requires |whole| == BlockSize
    requires whole[..SectorSize] == SectorHalf(img, t1, s1)
    requires whole[SectorSize..SectorSize + SectorSize] == SectorHalf(img, t2, s2)
    ensures whole == Block(img, b)
  {
    assert whole == whole[..SectorSize] + whole[SectorSize..SectorSize + SectorSize];
  }

  /** The inner loop of `FillBitmap` for one live entry: marks its first
      NbBlocs block indices, counting those not marked before. */
  method MarkBlocks(bitmap: array<bool>, e: DirEntry, ghost marked: set<int>)
    returns (added: int, ghost marked': set<int>)
    requires bitmap.Length == BitmapSize && BlocksInEntry(e) && Live(e)
    requires forall k :: 0 <= k < BitmapSize ==> (bitmap[k] <==> k in marked)
    modifies bitmap
    ensures marked' == marked + EntryBlocks(e)
    ensures forall k :: 0 <= k < BitmapSize ==> (bitmap[k] <==> k in marked')
    ensures |marked| + added == |marked'|
  {
    marked' := marked;
    added := 0;
    var nbBlocs := (e.nbPages + 7) / 8;
    for j := 0 to nbBlocs
      invariant forall k :: 0 <= k < BitmapSize ==> (bitmap[k] <==> k in marked')
      invariant marked' == marked + BlocksPrefix(e, j)
      invariant |marked| + added == |marked'|
    {
      var bloc := e.blocks[j];
      if bloc < BitmapSize && !bitmap[bloc] {
        bitmap[bloc] := true;
        marked' := marked' + {bloc};
        added := added + 1;
      }
      assert BlocksPrefix(e, j + 1) == BlocksPrefix(e, j) + {e.blocks[j] as int};
    }
  }

  /** One pass of `FillBitmap`'s outer loop: slot `i` is marked when it
      is live and skipped otherwise. */
  method MarkEntry(bitmap: array<bool>, e: DirEntry, ghost dir: seq<DirEntry>, ghost i: nat,
                   ghost marked: set<int>)
    returns (added: int, ghost marked': set<int>)
    requires bitmap.Length == BitmapSize && AllBlocksInEntry(dir) && i < |dir| && e == dir[i]
    requires forall k :: 0 <= k < BitmapSize ==> (bitmap[k] <==> k in marked)
    requires marked == UsedSet(dir[..i])
    modifies bitmap
    ensures marked' == UsedSet(dir[..i + 1])
    ensures forall k :: 0 <= k < BitmapSize ==> (bitmap[k] <==> k in marked')
    ensures |marked| + added == |marked'|
  {
    assert dir[..i + 1][..i] == dir[..i];
    assert AllBlocksInEntry(dir[..i + 1]);
    if e.user != UserDeleted {
      added, marked' := MarkBlocks(bitmap, e, marked);
    } else {
      added, marked' := 0, marked;
    }
  }

  /** The name-sanitising loop: keep the low 7 bits of each of the 12
      characters and replace a non-printable one by '?'. */
  method ShowName(e: DirEntry) returns (name: string)
    requires e.WellSized()
    ensures name == DisplayName(e)
  {
    var raw := e.nom + [0x2E] + e.ext;
    name := [];
    for j := 0 to 12
      invariant name == DisplayName(e)[..j]
    {
      var c := raw[j] % 128;
      name := name + [if 0x20 <= c <= 0x7E then c as char else '?'];
    }
  }

  /** The extent-chain loop: add the record counts of slot `i` and of the
      following slots while they hold a non-zero extent number, counting
      only those with slot `i`'s owner. */
  method ChainTotal(tab: seq<DirEntry>, i: nat) returns (t: nat)
    requires |tab| == DirSlots && i < DirSlots
    ensures t == ChainPages(tab, i)
  {
    var p := 0;
    t := 0;
    while true
      invariant i + p < ChainEnd(tab, i)
      invariant t == UserPages(tab, tab[i].user, i, i + p)
      decreases DirSlots - (i + p)
    {
      if tab[i + p].user == tab[i].user {
        t := t + tab[i + p].nbPages;
      }
      p := p + 1;
      if !(i + p < DirSlots && tab[i + p].numPage != 0) {
        break;
      }
    }
  }

  /** Track and ordinal of block `b`'s first sector: two sectors per
      block and nine per track, after the tracks `minSect` reserves. */
  method FirstSector(b: int, minSect: byte) returns (track: int, sect: int)
    requires 0 <= b
    ensures (track, sect) == FirstSectorOf(minSect, b)
  {
    track := (2 * b) / SectorsPerTrack;
    sect := (2 * b) % SectorsPerTrack;
    if minSect == 0x41 {
      track := track + 2;
    } else if minSect == 0x01 {
      track := track + 1;
    }
  }

  /** A little-endian word of a buffer. */
  method ReadWord(buf: array<byte>, off: nat) returns (w: int)
    requires off + 2 <= buf.Length
    ensures w == Word16(buf[..], off)
  {
    var lo: int, hi: int := buf[off], buf[off + 1];
    w := lo + 256 * hi;
  }

  /** The Load and Exec columns for a first block read into `buf`: the
      header's two address words in hexadecimal when `CheckAmsdos` accepts
      the block, placeholders otherwise. */
  method AddressColumns(buf: array<byte>) returns (load: string, exec: string)
    requires buf.Length == BlockSize
    ensures (load, exec) == BlockAddresses(buf[..])
  {
    load, exec := "-", "-";
    var isHeader := CheckAmsdos(buf);
    if isHeader {
      var adress := ReadWord(buf, AmsAdressOff);
      var entryAdress := ReadWord(buf, AmsEntryAdressOff);
      load := AddressText(adress);
      exec := AddressText(entryAdress);
    }
  }

  class Dsk {
    /** `ImgDsk`. */
    const img: array<byte>

    predicate Valid()
      reads this
    {
      img.Length == ImgSize
    }

    /** `DSK()`: the whole image is zeroed. */
    constructor ()
      ensures Valid() && fresh(img)
      ensures img[..] == Zeros(ImgSize)
    {
      img := new byte[ImgSize](_ => 0);
    }

    /** `ReadDsk`, with the file given as its bytes: a file larger than the
        image is refused and leaves it untouched; otherwise its bytes replace
        the start of the image and the rest is kept. */
    method ReadDsk(file: seq<byte>) returns (ok: bool)
      requires Valid()
      modifies img
      ensures ok <==> |file| <= ImgSize
      ensures ok ==> img[..] == Loaded(old(img[..]), file)
      ensures !ok ==> img[..] == old(img[..])
    {
      if |file| > ImgSize {
        return false;
      }
      var i := 0;
      while i < |file|
        invariant 0 <= i <= |file|
        invariant img[..i] == file[..i]
        invariant img[i..] == old(img[i..])
      {
        img[i] := file[i];
        i := i + 1;
        assert img[..i] == img[..i - 1] + [file[i - 1]];
        assert file[..i] == file[..i - 1] + [file[i - 1]];
      }
      assert img[..] == img[..|file|] + img[|file|..];
      ok := true;
    }

    /** `CheckDsk`. */
    method CheckDsk() returns (ok: bool)
      requires Valid()
      ensures ok <==> HasSignature(img[..])
    {
      var head := img[..SignatureLength];
      StrNEqualNoNul(head, StandardSignature, SignatureLength);
      StrNEqualNoNul(head, ExtendedSignature, SignatureLength);
      ok := StrNEqual(head, StandardSignature, SignatureLength)
         || StrNEqual(head, ExtendedSignature, SignatureLength);
    }

    /** `GetMinSect`. */
    method GetMinSect() returns (m: byte)
      requires Valid()
      ensures m == MinSect(img[..])
    {
      m := img[SectBase(0) + SectROff];
    }

    /** Reads `SizeByte` and `N` of descriptor `s` and returns the sector's
        byte count. */
    method SectorLength(s: nat) returns (size: int)
      requires Valid() && s < 256
      ensures size == SectorBytes(img[..], s)
    {
      var base := SectBase(s);
      var lo: int, hi: int := img[base + SectSizeByteOff], img[base + SectSizeByteOff + 1];
      var w := lo + 256 * hi;
      var sizeByte := if w >= 0x8000 then w - 0x10000 else w;
      if sizeByte != 0 {
        size := sizeByte;
      } else {
        size := 128 * Pow2(img[base + SectNOff]);
      }
    }

    /** The inner loop of `GetPosData` over the sectors of one track that
        starts at `start`: past the track header, then past every sector,
        or on the target track only past those before the first match. */
    method WalkTrack(start: int, onTarget: bool, sect: int, phys: bool) returns (pos: int)
      requires Valid()
      ensures pos == start + TrackInfoSize +
        if onTarget then SizesBefore(img[..], FirstMatch(img[..], sect, phys)) else TrackBytes(img[..])
    {
      ghost var I := img[..];
      var nbSect := img[FirstTrackPos + TrackNbSectOff];
      pos := start + TrackInfoSize;
      var s := 0;
      while s < nbSect
        invariant 0 <= s <= nbSect
        invariant pos == start + TrackInfoSize + SizesBefore(I, s)
        invariant onTarget ==> forall q :: 0 <= q < s ==> !Matches(I, q, sect, phys)
      {
        if onTarget {
          var r := img[SectBase(s) + SectROff];
          if (r == sect && phys) || (s == sect && !phys) {
            assert Matches(I, s, sect, phys);
            break;
          }
        }
        var size := SectorLength(s);
        pos := pos + size;
        s := s + 1;
      }
      if onTarget {
        assert FirstMatch(I, sect, phys) == s;
      }
    }

    /** `GetPosData`: the nested walk, with the track descriptor pointer
        fixed on track 0 as in the source. */
    method GetPosData(track: int, sect: int, phys: bool) returns (pos: int)
      requires Valid()
      ensures pos == PosData(img[..], track, sect, phys)
    {
      ghost var step := TrackInfoSize + TrackBytes(img[..]);
      pos := FirstTrackPos;
      var t := 0;
      while t <= track
        invariant 0 <= t && (track >= 0 ==> t <= track + 1)
        invariant t <= track ==> pos == FirstTrackPos + t * step
        invariant t > track ==> pos == PosData(img[..], track, sect, phys)
        decreases track + 1 - t
      {
        pos := WalkTrack(pos, t == track, sect, phys);
        t := t + 1;
      }
    }

    /** `GetInfoDirEntry`: slot `n` read from the first directory track. */
    method GetInfoDirEntry(n: nat) returns (e: DirEntry)
      requires Valid() && n < DirSlots && SlotReadable(img[..], n)
      ensures e == DirEntryAt(img[..], n)
    {
      var minSect := GetMinSect();
      var s := n / SlotsPerSector + minSect;
      var t := if minSect == 0x41 then 2 else 0;
      if minSect == 1 {
        t := 1;
      }
      var pos := GetPosData(t, s, true);
      var off := (n % SlotsPerSector) * DirEntrySize + pos;
      e := DecodeDirEntry(img[off..off + DirEntrySize]);
    }

    /** Copies one 512-byte sector at `pos` into `buf` at `at`, or zeros
        when the sector would leave the image. */
    method CopySector(buf: array<byte>, at: nat, pos: int)
      requires Valid() && buf != img && at + SectorSize <= buf.Length
      modifies buf
      ensures buf[at..at + SectorSize] ==
        if 0 <= pos && pos + SectorSize <= ImgSize then img[pos..pos + SectorSize] else Zeros(SectorSize)
      ensures forall k :: 0 <= k < buf.Length && !(at <= k < at + SectorSize) ==> buf[k] == old(buf[k])
    {
      if 0 <= pos && pos + SectorSize <= ImgSize {
        forall k | 0 <= k < SectorSize {
          buf[at + k] := img[pos + k];
        }
      } else {
        forall k | 0 <= k < SectorSize {
          buf[at + k] := 0;
        }
      }
    }

    /** One half of `ReadBloc`: locates sector `sect` of `track` and copies
        it (or zeros) into `buf` at `at`. */
    method ReadHalf(buf: array<byte>, at: nat, track: int, sect: int, minSect: byte)
      requires Valid() && buf != img && at + SectorSize <= buf.Length
      requires minSect == MinSect(img[..])
      modifies buf
      ensures buf[at..at + SectorSize] == SectorHalf(img[..], track, sect)
      ensures forall k :: 0 <= k < buf.Length && !(at <= k < at + SectorSize) ==> buf[k] == old(buf[k])
    {
      var pos := GetPosData(track, sect + minSect, true);
      CopySector(buf, at, pos);
    }

    /** `ReadBloc`: block `b` as a fresh 1024-byte buffer. */
    method ReadBloc(b: int) returns (buf: array<byte>)
      requires Valid()
      ensures fresh(buf) && buf[..] == Block(img[..], b)
    {
      buf := new byte[BlockSize](_ => 0);
      if b < 0 || b > MaxBlock {
        return;
      }
      var minSect := GetMinSect();
      var track, sect := FirstSector(b, minSect);
      ghost var (t1, s1) := (track, sect);
      ReadHalf(buf, 0, track, sect, minSect);
      ghost var first := buf[..SectorSize];
      sect := sect + 1;
      if sect > 8 {
        track := track + 1;
        sect := 0;
      }
      ReadHalf(buf, SectorSize, track, sect, minSect);
      assert buf[..SectorSize] == first;
      BlockOfHalves(img[..], b, t1, s1, track, sect, buf[..]);
    }

    /** `FillBitmap`: marks each referenced block in a 256-flag bitmap and
        counts it the first time. */
    method FillBitmap() returns (used: int)
      requires Valid() && DirReadable(img[..]) && AllBlocksInEntry(Directory(img[..]))
      ensures used == |UsedSet(Directory(img[..]))|
    {
      ghost var dir := Directory(img[..]);
      var bitmap := new bool[BitmapSize](_ => false);
      ghost var marked: set<int> := {};
      used := 0;
      for i := 0 to DirSlots
        invariant forall k :: 0 <= k < BitmapSize ==> (bitmap[k] <==> k in marked)
        invariant marked == UsedSet(dir[..i])
        invariant used == |marked|
      {
        var e := GetInfoDirEntry(i);
        var added;
        added, marked := MarkEntry(bitmap, e, dir, i, marked);
        used := used + added;
      }
      assert dir[..DirSlots] == dir;
    }

    /** `GetFreeSpace`. */
    method GetFreeSpace() returns (free: int)
      requires Valid() && DirReadable(img[..]) && AllBlocksInEntry(Directory(img[..]))
      ensures free == FreeKB(Directory(img[..]))
    {
      var used := FillBitmap();
      free := TotalKB - used;
    }

    /** `TabDir`: the 64 slots copied out of the image. */
    method ReadDirectory() returns (tab: array<DirEntry>)
      requires Valid() && DirReadable(img[..])
      ensures fresh(tab) && tab[..] == Directory(img[..])
    {
      ghost var dir := Directory(img[..]);
      tab := new DirEntry[DirSlots](_ => BlankEntry);
      for i := 0 to DirSlots
        invariant tab[..i] == dir[..i]
      {
        var e := GetInfoDirEntry(i);
        tab[i] := e;
        assert tab[..i + 1] == tab[..i] + [e];
      }
    }

    /** The Load and Exec columns of an entry: read its first block and
        look for an executable header there. */
    method HeaderColumns(e: DirEntry) returns (load: string, exec: string)
      requires Valid() && e.WellSized()
      ensures (load, exec) == HeaderAddresses(img[..], e)
    {
      load, exec := "-", "-";
      if e.blocks[0] != 0 {
        var firstBlock := ReadBloc(e.blocks[0]);
        load, exec := AddressColumns(firstBlock);
      }
    }

    /** The row for slot `i`, as both builders compute it. */
    method MakeRow(tab: seq<DirEntry>, i: nat) returns (row: FileRow)
      requires Valid() && |tab| == DirSlots && AllWellSized(tab) && i < DirSlots
      ensures row == RowFor(img[..], tab, i)
    {
      var name := ShowName(tab[i]);
      var t := ChainTotal(tab, i);
      var size := SizeText((t + 7) / 8);
      var load, exec := HeaderColumns(tab[i]);
      row := FileRow(name, size, load, exec, tab[i].user);
    }

    /** The line slot `i` contributes: its row's text when it is listed,
        nothing otherwise. */
    method RowLine(style: ListingStyle, tab: array<DirEntry>, i: nat) returns (line: string)
      requires Valid() && tab.Length == DirSlots && AllWellSized(tab[..]) && i < DirSlots
      ensures line == if Listed(tab[i]) then RowText(style, RowFor(img[..], tab[..], i)) else ""
    {
      line := "";
      if tab[i].user != UserDeleted && tab[i].numPage == 0 {
        var row := MakeRow(tab[..], i);
        line := RowText(style, row);
      }
    }

    /** The lines of the listed slots' rows in the given style. */
    method ListRows(style: ListingStyle) returns (body: string)
      requires Valid() && DirReadable(img[..])
      ensures body == Body(style, Rows(img[..]))
    {
      var tab := ReadDirectory();
      ghost var dir := tab[..];
      assert AllWellSized(dir);
      body := "";
      for i := 0 to DirSlots
        invariant tab[..] == dir
        invariant body == Body(style, RowsOf(img[..], dir, ListedUpTo(dir, i)))
      {
        BodyStep(style, img[..], dir, i);
        var line := RowLine(style, tab, i);
        body := body + line;
      }
    }

    /** `ReadDskDir`: the table listing. */
    method ReadDskDir() returns (catalogue: string)
      requires Valid() && DirReadable(img[..]) && AllBlocksInEntry(Directory(img[..]))
      ensures catalogue == TableText(img[..])
    {
      catalogue := TableTop + TableHeading + TableRule;
      var body := ListRows(Boxed);
      catalogue := catalogue + body;
      var free := GetFreeSpace();
      catalogue := catalogue + TableFooterRule + FreeLine(free) + TableBottom;
    }

    /** `ReadDskDirSimple`: the column listing. */
    method ReadDskDirSimple() returns (catalogue: string)
      requires Valid() && DirReadable(img[..]) && AllBlocksInEntry(Directory(img[..]))
      ensures catalogue == SimpleText(img[..])
    {
      catalogue := ListRows(Columns);
      var free := GetFreeSpace();
      catalogue := catalogue + "\n" + IntToString(free) + "K free\n";
    }
  }
}

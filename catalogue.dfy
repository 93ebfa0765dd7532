/** What the two catalogue listings show, catalog/dsk.cpp lines 214-361.

    A slot is listed when it is not deleted and holds extent 0.  Its row
    shows the sanitised 8.3 name, the size of the whole extent chain, the
    load and entry addresses of an executable header found in its first
    block, and the owner.  `ReadDskDir` lays the rows out in a box-drawn
    table, `ReadDskDirSimple` in printf columns; both end with the free
    space.  The methods of `Disk.Dsk` are proved to produce these texts. */
module Catalogue {
  import opened Layout
  import opened Amsdos
  import opened Geometry
  import opened FreeSpace
  import opened Text

  /** The row filter: not deleted and the first extent of its file. */
  predicate Listed(e: DirEntry) {
    Live(e) && e.numPage == 0
  }

  predicate AllWellSized(dir: seq<DirEntry>) {
    forall j :: 0 <= j < |dir| ==> dir[j].WellSized()
  }

  // ---------------------------------------------------------------
  // Names
  // ---------------------------------------------------------------

  /** `isprint` in the C locale, on a 7-bit code. */
  predicate Printable(c: int) {
    0x20 <= c <= 0x7E
  }

  /** A name byte as shown: its low 7 bits when printable, else '?'. */
  function ShownChar(b: byte): (c: char)
    ensures Printable(c as int)
  {
    var m := b % 128;
    if Printable(m) then m as char else '?'
  }

  /** The 12 raw bytes of `Nom`: name, a dot, extension. */
  function RawName(e: DirEntry): (raw: seq<byte>)
    requires e.WellSized()
    ensures |raw| == 12
  {
    e.nom + ['.' as int] + e.ext
  }

  /** The name column: 12 printable characters with the dot at index 8. */
  function DisplayName(e: DirEntry): (name: string)
    requires e.WellSized()
    ensures |name| == 12 && name[8] == '.'
    ensures forall j :: 0 <= j < 12 ==> Printable(name[j] as int)
    ensures forall j :: 0 <= j < 8 ==> name[j] == ShownChar(e.nom[j])
    ensures forall j :: 0 <= j < 3 ==> name[9 + j] == ShownChar(e.ext[j])
  {
    var raw := RawName(e);
    seq(12, j requires 0 <= j < 12 => ShownChar(raw[j]))
  }

  /** Printable 7-bit name bytes are shown unchanged; every other byte
      (control codes, DEL, and bytes whose low 7 bits are not printable)
      becomes '?'; the high bit is dropped. */
  lemma DisplayNameChars(e: DirEntry, j: nat)
    requires e.WellSized() && j < 12 && j != 8
    ensures var b := if j < 8 then e.nom[j] else e.ext[j - 9];
      var c := DisplayName(e)[j];
      (Printable(b % 128) ==> c as int == b % 128) &&
      (!Printable(b % 128) ==> c == '?')
  {
  }

  // ---------------------------------------------------------------
  // Extent chains and sizes
  // ---------------------------------------------------------------

  /** The first slot at or after `k` that starts a new file (extent 0),
      or the end of the directory. */
  function ChainEndFrom(dir: seq<DirEntry>, k: nat): (m: nat)
    requires k <= |dir|
    ensures k <= m <= |dir|
    ensures m < |dir| ==> dir[m].numPage == 0
    ensures forall j :: k <= j < m ==> dir[j].numPage != 0
    decreases |dir| - k
  {
    if k == |dir| || dir[k].numPage == 0 then k else ChainEndFrom(dir, k + 1)
  }

  /** The slots `i .. ChainEnd(dir, i) - 1` form slot `i`'s chain: it goes
      on while the next slot holds a non-zero extent number, checking the
      end of the directory first. */
  function ChainEnd(dir: seq<DirEntry>, i: nat): (k: nat)
    requires i < |dir|
    ensures i < k <= |dir|
  {
    ChainEndFrom(dir, i + 1)
  }

  /** Record counts of the slots in `[lo, hi)` owned by user `u`. */
  function UserPages(dir: seq<DirEntry>, u: byte, lo: nat, hi: nat): nat
    requires lo <= hi <= |dir|
    decreases hi - lo
  {
    if hi == lo then 0
    else UserPages(dir, u, lo, hi - 1) + (if dir[hi - 1].user == u then dir[hi - 1].nbPages else 0)
  }

  lemma {:induction false} UserPagesBound(dir: seq<DirEntry>, u: byte, lo: nat, hi: nat)
    requires lo <= hi <= |dir|
    ensures UserPages(dir, u, lo, hi) <= 255 * (hi - lo)
    decreases hi - lo
  {
    if hi > lo {
      UserPagesBound(dir, u, lo, hi - 1);
    }
  }

  /** Records summed for slot `i`: its chain's slots with the same owner. */
  function ChainPages(dir: seq<DirEntry>, i: nat): nat
    requires i < |dir|
  {
    UserPages(dir, dir[i].user, i, ChainEnd(dir, i))
  }

  /** The size in kilobytes shown for slot `i`: `(t + 7) >> 3`. */
  function SizeKB(dir: seq<DirEntry>, i: nat): nat
    requires i < |dir|
  {
    CeilEighth(ChainPages(dir, i))
  }

  /** Over 64 slots the shown size never exceeds 2040 K. */
  lemma SizeKBBound(dir: seq<DirEntry>, i: nat)
    requires |dir| == DirSlots && i < |dir|
    ensures SizeKB(dir, i) <= 2040
  {
    UserPagesBound(dir, dir[i].user, i, ChainEnd(dir, i));
  }

  /** Where a chain stops depends on extent numbers alone: owners, names and
      block lists of the slots play no part. */
  lemma {:induction false} ChainEndFromExtentsOnly(dir: seq<DirEntry>, dir': seq<DirEntry>, k: nat)
    requires |dir| == |dir'| && k <= |dir|
    requires forall j :: 0 <= j < |dir| ==> dir[j].numPage == dir'[j].numPage
    ensures ChainEndFrom(dir, k) == ChainEndFrom(dir', k)
    decreases |dir| - k
  {
    if k < |dir| && dir[k].numPage != 0 {
      ChainEndFromExtentsOnly(dir, dir', k + 1);
    }
  }

  /** A file whose first extent holds 128 records and whose next extent holds
      10 more, with a new file (or the end) right after, shows 18 K; had the
      second extent another owner, it would still belong to the chain but add
      nothing, and the file would show 16 K. */
  lemma TwoExtentChain(dir: seq<DirEntry>, i: nat)
    requires i + 1 < |dir|
    requires dir[i].nbPages == 128 && dir[i + 1].numPage == 1 && dir[i + 1].nbPages == 10
    requires i + 2 == |dir| || dir[i + 2].numPage == 0
    ensures ChainEnd(dir, i) == i + 2
    ensures dir[i + 1].user == dir[i].user ==> SizeKB(dir, i) == 18
    ensures dir[i + 1].user != dir[i].user ==> SizeKB(dir, i) == 16
  {
    assert ChainEndFrom(dir, i + 2) == i + 2;
    var u := dir[i].user;
    assert UserPages(dir, u, i, i + 1) == 128;
    assert UserPages(dir, u, i, i + 2) == 128 + if dir[i + 1].user == u then 10 else 0;
  }

  // ---------------------------------------------------------------
  // Load and entry addresses
  // ---------------------------------------------------------------

  /** The Load and Exec columns for an entry: the header words at 0x13 and
      0x18 of its first block when that block index is non-zero and the
      block passes `CheckAmsdos`, placeholders otherwise. */
  function HeaderAddresses(img: seq<byte>, e: DirEntry): (addr: (string, string))
    requires IsImage(img) && e.WellSized()
    ensures addr.0 == "-" <==> addr.1 == "-"
    ensures e.blocks[0] == 0 ==> addr == ("-", "-")
  {
    if e.blocks[0] != 0 then BlockAddresses(Block(img, e.blocks[0])) else ("-", "-")
  }

  /** The two columns read from a first block already in memory. */
  function BlockAddresses(blk: seq<byte>): (addr: (string, string))
    requires |blk| == BlockSize
    ensures addr.0 == "-" <==> !HeaderValid(blk)
    ensures addr.1 == "-" <==> !HeaderValid(blk)
    ensures HeaderValid(blk) ==> |addr.0| == 5 && addr.0[0] == '&' && |addr.1| == 5 && addr.1[0] == '&'
  {
    if HeaderValid(blk) then
      (AddressText(Word16(blk, AmsAdressOff)), AddressText(Word16(blk, AmsEntryAdressOff)))
    else ("-", "-")
  }

  /** Both columns are placeholders together, exactly when there is no
      header; otherwise each is `&` and four hex digits that read back as
      the header word. */
  lemma HeaderAddressesMeaning(img: seq<byte>, e: DirEntry)
    requires IsImage(img) && e.WellSized()
    ensures var addr := HeaderAddresses(img, e); var blk := Block(img, e.blocks[0]);
      var found := e.blocks[0] != 0 && HeaderValid(blk);
      (addr.0 == "-" <==> !found) && (addr.1 == "-" <==> !found) &&
      (found ==> |addr.0| == 5 && addr.0[0] == '&' && ParseHex(addr.0[1..]) == Word16(blk, AmsAdressOff)) &&
      (found ==> |addr.1| == 5 && addr.1[0] == '&' && ParseHex(addr.1[1..]) == Word16(blk, AmsEntryAdressOff))
  {
    var blk := Block(img, e.blocks[0]);
    if e.blocks[0] != 0 && HeaderValid(blk) {
      AddressTextRoundTrip(Word16(blk, AmsAdressOff));
      AddressTextRoundTrip(Word16(blk, AmsEntryAdressOff));
    }
  }

  // ---------------------------------------------------------------
  // Rows
  // ---------------------------------------------------------------

  datatype FileRow = FileRow(name: string, size: string, load: string, exec: string, user: byte)

  /** The row shown for slot `i`. */
  function RowFor(img: seq<byte>, dir: seq<DirEntry>, i: nat): (row: FileRow)
    requires IsImage(img) && AllWellSized(dir) && i < |dir|
    ensures |row.name| == 12 && row.name[8] == '.'
    ensures |row.size| >= 3 && row.size[|row.size| - 2..] == " K"
    ensures row.user == dir[i].user
    ensures (row.load, row.exec) == HeaderAddresses(img, dir[i])
  {
    var addr := HeaderAddresses(img, dir[i]);
    FileRow(DisplayName(dir[i]), SizeText(SizeKB(dir, i)), addr.0, addr.1, dir[i].user)
  }

  /** Listed slots among the first `n`, in slot order. */
  function ListedUpTo(dir: seq<DirEntry>, n: nat): (slots: seq<nat>)
    requires n <= |dir|
    ensures forall k :: 0 <= k < |slots| ==> slots[k] < n && Listed(dir[slots[k]])
    ensures forall k, l :: 0 <= k < l < |slots| ==> slots[k] < slots[l]
    ensures forall j :: 0 <= j < n && Listed(dir[j]) ==> j in slots
  {
    if n == 0 then []
    else if Listed(dir[n - 1]) then ListedUpTo(dir, n - 1) + [n - 1]
    else ListedUpTo(dir, n - 1)
  }

  /** The slots that get a row, in increasing slot order. */
  function ListedSlots(dir: seq<DirEntry>): seq<nat> {
    ListedUpTo(dir, |dir|)
  }

  /** A slot gets a row exactly when it is listed. */
  lemma ListedSlotsIff(dir: seq<DirEntry>, j: nat)
    requires j < |dir|
    ensures j in ListedSlots(dir) <==> Listed(dir[j])
  {
    var slots := ListedSlots(dir);
    if j in slots {
      var k :| 0 <= k < |slots| && slots[k] == j;
    }
  }

  /** The rows of the given slots, in the order given. */
  function RowsOf(img: seq<byte>, dir: seq<DirEntry>, slots: seq<nat>): (rows: seq<FileRow>)
    requires IsImage(img) && AllWellSized(dir)
    requires forall k :: 0 <= k < |slots| ==> slots[k] < |dir|
    ensures |rows| == |slots|
  {
    seq(|slots|, k requires 0 <= k < |slots| => RowFor(img, dir, slots[k]))
  }

  /** Adding a slot adds its row at the end. */
  lemma RowsOfSnoc(img: seq<byte>, dir: seq<DirEntry>, slots: seq<nat>, i: nat)
    requires IsImage(img) && AllWellSized(dir) && i < |dir|
    requires forall k :: 0 <= k < |slots| ==> slots[k] < |dir|
    ensures RowsOf(img, dir, slots + [i]) == RowsOf(img, dir, slots) + [RowFor(img, dir, i)]
  {
  }

  /** One row per listed slot, in slot order. */
  function Rows(img: seq<byte>): (rows: seq<FileRow>)
    requires IsImage(img) && DirReadable(img)
    ensures |rows| == |ListedSlots(Directory(img))|
  {
    var dir := Directory(img);
    RowsOf(img, dir, ListedSlots(dir))
  }

  // ---------------------------------------------------------------
  // The table listing (ReadDskDir)
  // ---------------------------------------------------------------

  /** The border and heading lines, kept as opaque text. */
  const Bar := "│"
  const TableTop := "┌──────────────┬────────┬──────────┬──────────┬────────┐\n"
  const TableHeading := "│     File     │  Size  │   Load   │   Exec   │  User  │\n"
  const TableRule := "├──────────────┼────────┼──────────┼──────────┼────────┤\n"
  const TableFooterRule := "├──────────────────────────────────────────────────────┤\n"
  const TableBottom := "└──────────────────────────────────────────────────────┘\n"

  /** One table line: five cells of widths 12, 6, 8, 8 and 6. */
  function TableRowText(r: FileRow): (line: string)
    ensures |line| == |TableTop| == 57
    ensures line[0] == '│' && line[56] == '\n'
  {
    Bar + " " + FormatCell(r.name, 12, 'l') + " " + Bar + " " + FormatCell(r.size, 6, 'r')
      + " " + Bar + " " + FormatCell(r.load, 8, 'c') + " " + Bar + " " + FormatCell(r.exec, 8, 'c')
      + " " + Bar + " " + FormatCell(IntToString(r.user), 6, 'c') + " " + Bar + "\n"
  }

  /** Every table line is 57 characters wide, like the borders, and its name
      cell holds the 12-character name unchanged. */
  lemma TableRowLayout(r: FileRow)
    requires |r.name| == 12
    ensures |TableRowText(r)| == |TableTop| == 57
    ensures TableRowText(r)[2..14] == r.name
  {
    var t := TableRowText(r);
    FormatCellTruncates(r.name, 12, 'l');
    assert t[2..14] == FormatCell(r.name, 12, 'l');
  }

  /** The closing line: the free space, centred in 54 columns. */
  function FreeLine(free: int): (line: string)
    ensures |line| == |TableTop| == 57
    ensures line[0] == line[55] == '│' && line[56] == '\n'
  {
    Bar + FormatCell(IntToString(free) + "K free", 54, 'c') + Bar + "\n"
  }

  /** The whole table listing of an image: six frame lines and one line per
      listed slot, every one 57 characters wide. */
  function TableText(img: seq<byte>): (text: string)
    requires IsImage(img) && DirReadable(img) && AllBlocksInEntry(Directory(img))
    ensures |text| == 57 * (6 + |ListedSlots(Directory(img))|)
  {
    BoxedBodyLength(Rows(img));
    TableTop + TableHeading + TableRule + Body(Boxed, Rows(img))
      + TableFooterRule + FreeLine(FreeKB(Directory(img))) + TableBottom
  }

  // ---------------------------------------------------------------
  // The simple listing (ReadDskDirSimple)
  // ---------------------------------------------------------------

  /** `"%-12s %6s  %-8s %-8s User %d\n"`. */
  function SimpleRowText(r: FileRow): (line: string)
    ensures |line| > 0 && line[|line| - 1] == '\n'
    ensures |r.name| <= 12 && |r.size| <= 6 && |r.load| <= 8 && |r.exec| <= 8 ==>
      |line| == 45 + |IntToString(r.user)| && line[38..44] == " User "
  {
    PadRight(r.name, 12) + " " + PadLeft(r.size, 6) + "  " + PadRight(r.load, 8) + " "
      + PadRight(r.exec, 8) + " User " + IntToString(r.user) + "\n"
  }

  /** A row the catalogue builds never needs more than 99 characters, so
      the 100-byte line buffer of the simple listing never cuts it. */
  lemma SimpleRowFits(img: seq<byte>, dir: seq<DirEntry>, i: nat)
    requires IsImage(img) && AllWellSized(dir) && |dir| == DirSlots && i < |dir|
    ensures |SimpleRowText(RowFor(img, dir, i))| < 100
  {
    SizeKBBound(dir, i);
    DecimalLength(SizeKB(dir, i), 4);
    DecimalLength(dir[i].user, 3);
  }

  /** The whole simple listing of an image: the rows' lines, a blank line,
      then a last line that reads back as the free space followed by
      "K free". */
  function SimpleText(img: seq<byte>): (text: string)
    requires IsImage(img) && DirReadable(img) && AllBlocksInEntry(Directory(img))
    ensures FreeTailReadsBack(Body(Columns, Rows(img)), text, FreeKB(Directory(img)))
  {
    var body := Body(Columns, Rows(img));
    var free := FreeKB(Directory(img));
    FreeTail(body, free);
    body + "\n" + IntToString(free) + "K free\n"
  }

  /** `text` is `body`, a newline, then a line that reads back as `free`
      followed by "K free". */
  predicate FreeTailReadsBack(body: string, text: string, free: int) {
    var n := |text| - 7;
    |body| + 2 <= n && text[..|body|] == body && text[|body|] == '\n' && text[n..] == "K free\n" &&
    (forall i :: |body| + 2 <= i < n ==> IsDigit(text[i])) &&
    (text[|body| + 1] == '-' || IsDigit(text[|body| + 1])) &&
    ParseInt(text[|body| + 1..n]) == free
  }

  lemma FreeTail(body: string, free: int)
    ensures FreeTailReadsBack(body, body + "\n" + IntToString(free) + "K free\n", free)
  {
    var s := IntToString(free);
    var text := body + "\n" + s + "K free\n";
    IntToStringRoundTrip(free);
    assert text[|body| + 1..|text| - 7] == s;
  }

  // ---------------------------------------------------------------
  // The rows of a listing, built slot by slot
  // ---------------------------------------------------------------

  /** The two listings: the box-drawn table and the printf columns. */
  datatype ListingStyle = Boxed | Columns

  function RowText(style: ListingStyle, r: FileRow): string {
    match style
    case Boxed => TableRowText(r)
    case Columns => SimpleRowText(r)
  }

  /** The rows' lines, one after the other. */
  function Body(style: ListingStyle, rows: seq<FileRow>): string {
    if |rows| == 0 then "" else Body(style, rows[..|rows| - 1]) + RowText(style, rows[|rows| - 1])
  }

  /** Every table row is one 57-character line. */
  lemma {:induction false} BoxedBodyLength(rows: seq<FileRow>)
    ensures |Body(Boxed, rows)| == 57 * |rows|
  {
    if |rows| > 0 {
      BoxedBodyLength(rows[..|rows| - 1]);
    }
  }

  /** Appending a row appends its line. */
  lemma BodySnoc(style: ListingStyle, rows: seq<FileRow>, r: FileRow)
    ensures Body(style, rows + [r]) == Body(style, rows) + RowText(style, r)
  {
    assert (rows + [r])[..|rows|] == rows;
  }

  /** Visiting slot `i` after the slots before it appends its line when it
      is listed and nothing otherwise: the builders' loop step. */
  lemma BodyStep(style: ListingStyle, img: seq<byte>, dir: seq<DirEntry>, i: nat)
    requires IsImage(img) && AllWellSized(dir) && i < |dir|
    ensures Body(style, RowsOf(img, dir, ListedUpTo(dir, i + 1))) ==
      Body(style, RowsOf(img, dir, ListedUpTo(dir, i)))
        + (if Listed(dir[i]) then RowText(style, RowFor(img, dir, i)) else "")
  {
    var before := ListedUpTo(dir, i);
    var prefix := RowsOf(img, dir, before);
    if Listed(dir[i]) {
      assert ListedUpTo(dir, i + 1) == before + [i];
      RowsOfSnoc(img, dir, before, i);
      BodySnoc(style, prefix, RowFor(img, dir, i));
    } else {
      assert ListedUpTo(dir, i + 1) == before;
      assert Body(style, prefix) + "" == Body(style, prefix);
    }
  }

  // ---------------------------------------------------------------
  // An image with nothing after the disk header
  // ---------------------------------------------------------------

  /** Every byte after the 0x100-byte disk header is zero, as right after
      the constructor when only a container signature has been written. */
  predicate BlankBody(img: seq<byte>)
    requires IsImage(img)
  {
    forall k :: DiskHeaderSize <= k < ImgSize ==> img[k] == 0
  }

  const BlankEntry := DirEntry(0, Zeros(8), Zeros(3), 0, Zeros(2), 0, Zeros(DirBlockCount))
  const BlankRow := FileRow("????????.???", "0 K", "-", "-", 0)

  /** With a blank body, sector ids and sector counts read 0, every slot
      lies in the 512 bytes after the first track header, and all 64 hold
      owner 0 and extent 0. */
  lemma BlankDirectory(img: seq<byte>)
    requires IsImage(img) && BlankBody(img)
    ensures DirReadable(img)
    ensures Directory(img) == seq(DirSlots, _ => BlankEntry)
  {
    assert MinSect(img) == 0 && NbSect(img) == 0;
    forall n | 0 <= n < DirSlots
      ensures SlotReadable(img, n) && DirEntryAt(img, n) == BlankEntry
    {
      assert PosData(img, 0, n / SlotsPerSector, true) == 0x200;
      var p := DirSlotPos(img, n);
      assert 0x200 <= p <= 0x200 + 15 * DirEntrySize;
      var slice := img[p..p + DirEntrySize];
      assert slice == EncodeDirEntry(BlankEntry);
      DecodeEncodeDirEntry(BlankEntry);
      DecodeEncodeDirEntry(DirEntryAt(img, n));
    }
  }

  lemma {:induction false} AllListedUpTo(dir: seq<DirEntry>, n: nat)
    requires n <= |dir|
    requires forall j :: 0 <= j < |dir| ==> Listed(dir[j])
    ensures ListedUpTo(dir, n) == seq(n, k => k)
  {
    if n > 0 {
      AllListedUpTo(dir, n - 1);
      var r: seq<nat> := seq(n, k => k);
      assert r == r[..n - 1] + [n - 1];
      assert r[..n - 1] == seq(n - 1, k => k);
    }
  }

  /** With a blank body no block is in use. */
  lemma BlankFree(img: seq<byte>)
    requires IsImage(img) && BlankBody(img)
    ensures DirReadable(img) && AllBlocksInEntry(Directory(img))
    ensures FreeKB(Directory(img)) == TotalKB
  {
    BlankDirectory(img);
    var dir := Directory(img);
    forall b ensures b !in UsedSet(dir) {
      UsedSetMembers(dir, b);
    }
    assert UsedSet(dir) == {};
  }

  /** Every slot of the blank directory shows as a nameless 0 K file of
      user 0 without addresses. */
  lemma BlankSlotRow(img: seq<byte>, dir: seq<DirEntry>, k: nat)
    requires IsImage(img) && dir == seq(DirSlots, _ => BlankEntry) && k < DirSlots
    ensures RowFor(img, dir, k) == BlankRow
  {
    assert ChainEnd(dir, k) == k + 1;
    assert UserPages(dir, 0, k, k + 1) == UserPages(dir, 0, k, k) + 0;
    assert DisplayName(BlankEntry) == BlankRow.name;
    assert SizeText(0) == BlankRow.size;
  }

  /** A blank body lists all 64 slots, in slot order, and leaves all 178 K
      free. */
  lemma BlankListing(img: seq<byte>)
    requires IsImage(img) && BlankBody(img)
    ensures DirReadable(img) && AllBlocksInEntry(Directory(img))
    ensures FreeKB(Directory(img)) == TotalKB
    ensures Rows(img) == seq(DirSlots, _ => BlankRow)
  {
    BlankFree(img);
    BlankDirectory(img);
    var dir := Directory(img);
    AllListedUpTo(dir, DirSlots);
    var slots := ListedSlots(dir);
    assert |slots| == DirSlots;
    var rows := Rows(img);
    assert |rows| == DirSlots;
    forall k | 0 <= k < DirSlots ensures rows[k] == BlankRow {
      assert slots[k] == k;
      BlankSlotRow(img, dir, k);
    }
  }
}

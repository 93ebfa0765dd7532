/** Free-space accounting, catalog/dsk.cpp lines 152-179.

    `FillBitmap` marks in a 256-flag bitmap every block index listed by a
    live directory entry (only the first ceil(NbPages / 8) of its 16 block
    bytes) and counts each index the first time it is marked.  The count is
    therefore the number of distinct referenced indices, which is what
    `UsedSet` collects; `GetFreeSpace` reports 178 minus that count. */
module FreeSpace {
  import opened Layout

  /** Allocation units of the supported format, net of the directory tracks. */
  const TotalKB := 178
  /** Flags in the usage bitmap, one per possible block index. */
  const BitmapSize := 256

  predicate Live(e: DirEntry) {
    e.user != UserDeleted
  }

  /** `(t + 7) >> 3`, that is ceil(t / 8). */
  function CeilEighth(t: nat): (r: nat)
    ensures 8 * r >= t && 8 * r < t + 8
  {
    (t + 7) / 8
  }

  /** Number of block bytes an entry's record count says are in use. */
  function NbBlocs(e: DirEntry): nat {
    CeilEighth(e.nbPages)
  }

  /** A live entry's record count never sends the bitmap loop past the 16
      block bytes of the entry (it would read outside the structure). */
  predicate BlocksInEntry(e: DirEntry) {
    e.WellSized() && (Live(e) ==> e.nbPages <= 128)
  }

  predicate AllBlocksInEntry(dir: seq<DirEntry>) {
    forall i :: 0 <= i < |dir| ==> BlocksInEntry(dir[i])
  }

  /** The indices held by the first `k` block bytes of an entry. */
  function BlocksPrefix(e: DirEntry, k: nat): set<int>
    requires e.WellSized() && k <= DirBlockCount
  {
    set j | 0 <= j < k :: e.blocks[j] as int
  }

  /** The blocks a live entry references. */
  function EntryBlocks(e: DirEntry): set<int>
    requires BlocksInEntry(e)
  {
    if Live(e) then BlocksPrefix(e, NbBlocs(e)) else {}
  }

  /** Indices referenced by the live entries of `dir`, each once. */
  function UsedSet(dir: seq<DirEntry>): (used: set<int>)
    requires AllBlocksInEntry(dir)
    ensures forall i :: 0 <= i < |dir| ==> EntryBlocks(dir[i]) <= used
  {
    if |dir| == 0 then {}
    else UsedSet(dir[..|dir| - 1]) + EntryBlocks(dir[|dir| - 1])
  }

  /** A block counts as used exactly when some live slot lists it among its
      first NbBlocs block bytes. */
  lemma {:induction false} UsedSetMembers(dir: seq<DirEntry>, b: int)
    requires AllBlocksInEntry(dir)
    ensures b in UsedSet(dir) <==>
      exists i, j :: 0 <= i < |dir| && Live(dir[i]) && 0 <= j < NbBlocs(dir[i]) && dir[i].blocks[j] == b
  {
    if |dir| > 0 {
      var n := |dir| - 1;
      var init := dir[..n];
      assert AllBlocksInEntry(init);
      UsedSetMembers(init, b);
      if b in UsedSet(dir) {
        if b in UsedSet(init) {
          var i, j :| 0 <= i < |init| && Live(init[i]) && 0 <= j < NbBlocs(init[i]) && init[i].blocks[j] == b;
          assert dir[i] == init[i];
        } else {
          var j :| 0 <= j < NbBlocs(dir[n]) && dir[n].blocks[j] == b;
          assert Live(dir[n]);
        }
      }
      if exists i, j :: 0 <= i < |dir| && Live(dir[i]) && 0 <= j < NbBlocs(dir[i]) && dir[i].blocks[j] == b {
        var i, j :| 0 <= i < |dir| && Live(dir[i]) && 0 <= j < NbBlocs(dir[i]) && dir[i].blocks[j] == b;
        if i < n {
          assert init[i] == dir[i];
        } else {
          assert b in BlocksPrefix(dir[n], NbBlocs(dir[n]));
        }
      }
    }
  }

  /** A deleted slot is ignored whatever its other bytes hold. */
  lemma DeletedSlotIgnored(dir: seq<DirEntry>, i: nat, e: DirEntry)
    requires AllBlocksInEntry(dir) && i < |dir| && !Live(dir[i])
    requires BlocksInEntry(e) && !Live(e)
    ensures AllBlocksInEntry(dir[i := e])
    ensures UsedSet(dir[i := e]) == UsedSet(dir)
  {
    var dir' := dir[i := e];
    forall b ensures b in UsedSet(dir') <==> b in UsedSet(dir) {
      UsedSetMembers(dir, b);
      UsedSetMembers(dir', b);
      if b in UsedSet(dir') {
        var k, j :| 0 <= k < |dir'| && Live(dir'[k]) && 0 <= j < NbBlocs(dir'[k]) && dir'[k].blocks[j] == b;
        assert dir[k] == dir'[k];
      }
      if b in UsedSet(dir) {
        var k, j :| 0 <= k < |dir| && Live(dir[k]) && 0 <= j < NbBlocs(dir[k]) && dir[k].blocks[j] == b;
        assert dir[k] == dir'[k];
      }
    }
  }

  lemma {:induction false} CardBelow(s: set<int>, n: nat)
    requires forall x :: x in s ==> 0 <= x < n
    ensures |s| <= n
  {
    if n == 0 {
      assert forall x :: x !in s;
      assert s == {};
    } else {
      var rest := s - {n - 1};
      CardBelow(rest, n - 1);
      assert s <= rest + {n - 1};
      assert |s| <= |rest + {n - 1}| <= |rest| + 1;
    }
  }

  /** Every used index is a block byte, so at most 256 blocks are counted. */
  lemma UsedSetBound(dir: seq<DirEntry>)
    requires AllBlocksInEntry(dir)
    ensures forall b :: b in UsedSet(dir) ==> 0 <= b < BitmapSize
    ensures |UsedSet(dir)| <= BitmapSize
  {
    forall b | b in UsedSet(dir) ensures 0 <= b < BitmapSize {
      UsedSetMembers(dir, b);
    }
    CardBelow(UsedSet(dir), BitmapSize);
  }

  /** `GetFreeSpace`: 178 minus the used count, without clamping. */
  function FreeKB(dir: seq<DirEntry>): (free: int)
    requires AllBlocksInEntry(dir)
    ensures free + |UsedSet(dir)| == TotalKB
    ensures TotalKB - BitmapSize <= free <= TotalKB
  {
    UsedSetBound(dir);
    TotalKB - |UsedSet(dir)|
  }
}

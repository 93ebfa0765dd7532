/** Executable-header (AMSDOS) detection and byte-order normalisation,
    catalog/dsk.cpp lines 20-61.

    A header is never declared: `CheckAmsdos` infers it from a checksum.
    The sum of the first 67 bytes is compared with the little-endian word
    stored at 0x43/0x44, and a zero sum is refused.  `StAmsdosEndian`
    exchanges the two bytes of the six WORD fields of the packed 129-byte
    `StAmsdos` structure. */
module Amsdos {
  import opened Layout

  /** Number of header bytes covered by the checksum. */
  const ChecksumSpan := 67
  /** Where `CheckAmsdos` reads the stored checksum (bytes 0x43 and 0x44). */
  const StoredChecksumOff := 0x43
  /** Shortest buffer `CheckAmsdos` may be given: it reads up to byte 0x44. */
  const MinHeaderBuffer := 0x45

  /** Sum of bytes, accumulated from the front as the source's loop does. */
  function Sum(s: seq<byte>): nat {
    if |s| == 0 then 0 else Sum(s[..|s| - 1]) + s[|s| - 1]
  }

  lemma {:induction false} SumBound(s: seq<byte>)
    ensures Sum(s) <= 255 * |s|
  {
    if |s| > 0 {
      SumBound(s[..|s| - 1]);
    }
  }

  /** Changing one byte changes the sum by exactly the difference. */
  lemma {:induction false} SumUpdate(s: seq<byte>, k: nat, v: byte)
    requires k < |s|
    ensures Sum(s[k := v]) == Sum(s) - s[k] + v
  {
    var n := |s| - 1;
    if k < n {
      assert s[k := v][..n] == s[..n][k := v];
      SumUpdate(s[..n], k, v);
    } else {
      assert s[k := v][..n] == s[..n];
    }
  }

  /** The 16-bit checksum stored in the buffer, low byte at 0x43. */
  function StoredChecksum(buf: seq<byte>): nat
    requires |buf| >= MinHeaderBuffer
  {
    Word16(buf, StoredChecksumOff)
  }

  /** The checksum the header bytes produce. */
  function ComputedChecksum(buf: seq<byte>): nat
    requires |buf| >= MinHeaderBuffer
  {
    Sum(buf[..ChecksumSpan])
  }

  /** The source's test, with its cast of the sum to `unsigned short`
      written out as a reduction modulo 0x10000. */
  predicate HeaderValid(buf: seq<byte>): (valid: bool)
    requires |buf| >= MinHeaderBuffer
    ensures valid ==> StoredChecksum(buf) != 0
  {
    SumBound(buf[..ChecksumSpan]);
    StoredChecksum(buf) == ComputedChecksum(buf) % 0x10000 && ComputedChecksum(buf) != 0
  }

  /** The cast is lossless (the sum is at most 67 * 255 < 65536), so a header
      is present exactly when the stored word equals the sum and the sum is
      not zero. */
  lemma CheckAmsdosIff(buf: seq<byte>)
    requires |buf| >= MinHeaderBuffer
    ensures HeaderValid(buf) <==>
      StoredChecksum(buf) == ComputedChecksum(buf) && ComputedChecksum(buf) != 0
  {
    SumBound(buf[..ChecksumSpan]);
  }

  /** `CheckAmsdos`: a null buffer has no header; otherwise the checksum loop
      over the first 67 bytes decides. */
  method CheckAmsdos(buf: array?<byte>) returns (ok: bool)
    requires buf != null ==> buf.Length >= MinHeaderBuffer
    ensures ok <==> buf != null && HeaderValid(buf[..])
  {
    if buf == null {
      return false;
    }
    var lo: int, hi: int := buf[0x43], buf[0x44];
    var checksumFile := lo + hi * 256;
    var checksum: int := 0;
    var i := 0;
    while i < ChecksumSpan
      invariant 0 <= i <= ChecksumSpan
      invariant checksum == Sum(buf[..i])
    {
      assert buf[..i + 1][..i] == buf[..i];
      checksum := checksum + buf[i];
      i := i + 1;
    }
    assert buf[..][..ChecksumSpan] == buf[..ChecksumSpan];
    ok := checksumFile == checksum % 0x10000 && checksum != 0;
  }

  /** Writing the sum of 67 bytes little-endian right after them yields a
      buffer that passes, whatever follows. */
  lemma SealedHeaderValid(prefix: seq<byte>, rest: seq<byte>)
    requires |prefix| == ChecksumSpan && Sum(prefix) != 0
    ensures Sum(prefix) < 0x10000
    ensures var c := Sum(prefix);
      var buf := prefix + [c % 256, c / 256] + rest;
      HeaderValid(buf) && StoredChecksum(buf) == c
  {
    SumBound(prefix);
    var c := Sum(prefix);
    var buf := prefix + [c % 256, c / 256] + rest;
    assert buf[..ChecksumSpan] == prefix;
  }

  /** Corrupting either stored checksum byte always makes the header absent. */
  lemma CorruptStoredChecksumRejected(buf: seq<byte>, k: nat, v: byte)
    requires |buf| >= MinHeaderBuffer && HeaderValid(buf)
    requires k == 0x43 || k == 0x44
    requires v != buf[k]
    ensures !HeaderValid(buf[k := v])
  {
    var b := buf[k := v];
    assert b[..ChecksumSpan] == buf[..ChecksumSpan];
    assert StoredChecksum(b) != StoredChecksum(buf);
  }

  /** Changing any one of the 67 summed bytes also makes the header absent:
      the sum moves by less than 256 and never wraps. */
  lemma CorruptBodyRejected(buf: seq<byte>, k: nat, v: byte)
    requires |buf| >= MinHeaderBuffer && HeaderValid(buf)
    requires k < ChecksumSpan && v != buf[k]
    ensures !HeaderValid(buf[k := v])
  {
    var b := buf[k := v];
    assert b[..ChecksumSpan] == buf[..ChecksumSpan][k := v];
    SumUpdate(buf[..ChecksumSpan], k, v);
    SumBound(buf[..ChecksumSpan]);
    SumBound(b[..ChecksumSpan]);
    assert StoredChecksum(b) == StoredChecksum(buf);
  }

  // ---------------------------------------------------------------
  // StAmsdosEndian
  // ---------------------------------------------------------------

  /** The six WORD fields of `StAmsdos`, by offset. */
  const WordFields: seq<nat> := [AmsAdressOff, AmsLengthOff, AmsEntryAdressOff,
                                 AmsLengthForTapeOff, AmsAdressForTapeOff, AmsChecksumOff]

  predicate IsWordField(off: int) {
    off in WordFields
  }

  /** The byte a swapped header takes at position `i`. */
  function SwapPartner(i: int): int {
    if IsWordField(i) then i + 1 else if IsWordField(i - 1) then i - 1 else i
  }

  /** `(w >> 8) | (w << 8)` stored back into a 16-bit WORD: `w >> 8` is
      `w / 256`, `w << 8` truncated to 16 bits is `w * 256 % 0x10000`, and
      the two share no set bit, so the `|` adds them. */
  function Swap16(w: nat): (r: nat)
    requires w < 0x10000
    ensures r < 0x10000
  {
    w / 256 + w * 256 % 0x10000
  }

  /** The shift-and-or exchanges the two bytes of the word. */
  lemma Swap16Exchanges(lo: byte, hi: byte)
    ensures Swap16(lo + 256 * hi) == hi + 256 * lo
  {
    var w := lo + 256 * hi;
    assert w / 256 == hi;
    assert w * 256 == lo * 256 + hi * 0x10000;
    assert w * 256 % 0x10000 == lo * 256;
  }

  /** The header with every WORD field byte-swapped. */
  function EndianSwapped(h: seq<byte>): (r: seq<byte>)
    requires |h| == AmsdosSize
    ensures |r| == AmsdosSize
    ensures forall i :: 0 <= i < AmsdosSize && !IsWordField(i) && !IsWordField(i - 1) ==> r[i] == h[i]
    ensures forall k :: 0 <= k < |WordFields| ==>
      Word16(r, WordFields[k]) == Swap16(Word16(h, WordFields[k]))
  {
    var r := seq(AmsdosSize, i requires 0 <= i < AmsdosSize => h[SwapPartner(i)]);
    forall k | 0 <= k < |WordFields|
      ensures Word16(r, WordFields[k]) == Swap16(Word16(h, WordFields[k]))
    {
      var f := WordFields[k];
      Swap16Exchanges(h[f], h[f + 1]);
    }
    r
  }

  /** Swapping twice restores all 129 bytes. */
  lemma EndianSwapInvolution(h: seq<byte>)
    requires |h| == AmsdosSize
    ensures EndianSwapped(EndianSwapped(h)) == h
  {
    var r := EndianSwapped(EndianSwapped(h));
    forall i | 0 <= i < AmsdosSize ensures r[i] == h[i] {
      assert SwapPartner(SwapPartner(i)) == i;
    }
  }

  /** Exchanges the two bytes of the WORD at `off`, in place. */
  method SwapWord(a: array<byte>, off: nat)
    requires off + 2 <= a.Length
    modifies a
    ensures a[off] == old(a[off + 1]) && a[off + 1] == old(a[off])
    ensures forall i :: 0 <= i < a.Length && i != off && i != off + 1 ==> a[i] == old(a[i])
  {
    var lo: int, hi: int := a[off], a[off + 1];
    var w := lo + 256 * hi;
    Swap16Exchanges(a[off], a[off + 1]);
    var s := Swap16(w);
    a[off], a[off + 1] := s % 256, s / 256;
  }

  /** `StAmsdosEndian`: copy the header, then swap each WORD field of the copy. */
  method StAmsdosEndian(h: seq<byte>) returns (r: seq<byte>)
    requires |h| == AmsdosSize
    ensures r == EndianSwapped(h)
  {
    var a := new byte[AmsdosSize](i requires 0 <= i < AmsdosSize => h[i]);
    SwapWord(a, AmsAdressOff);
    SwapWord(a, AmsLengthOff);
    SwapWord(a, AmsEntryAdressOff);
    SwapWord(a, AmsLengthForTapeOff);
    SwapWord(a, AmsAdressForTapeOff);
    SwapWord(a, AmsChecksumOff);
    r := a[..];
    forall i | 0 <= i < AmsdosSize ensures r[i] == EndianSwapped(h)[i] {
    }
  }
}

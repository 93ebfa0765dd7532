/** The format test at the start of `ViewBasic` in src/ViewFile.cpp: a
    BASIC file is shown as tokenised BASIC or as ASCII text, decided from
    its first four bytes and its size alone.

    A tokenised program starts with a line record: a little-endian record
    length, then a little-endian line number.  An ASCII listing starts with
    the line number written in digits. */
module ViewFile {
  import opened Layout

  /** Bytes the test looks at. */
  const ProbeLength := 4
  /** Line numbers at or above this are not taken for a tokenised line. */
  const LineNumberLimit := 65000

  const DigitZero: byte := 0x30
  const DigitNine: byte := 0x39

  predicate StartsWithDigit(buf: seq<byte>)
    requires |buf| >= 1
  {
    DigitZero <= buf[0] <= DigitNine
  }

  /** The first record's length and line number are plausible: the length
      is above 4 and below the file size, the line number above 0 and below
      65000. */
  predicate LooksTokenised(buf: seq<byte>, size: int)
    requires |buf| >= ProbeLength
  {
    var length := Word16(buf, 0);
    var lineNum := Word16(buf, 2);
    4 < length < size && 0 < lineNum < LineNumberLimit
  }

  /** `IsBasic` as `ViewBasic` leaves it: tokenised by default, ASCII when
      the file has at least four bytes and either starts with a digit or
      does not look tokenised.  `size` is `TailleFic`, `buf` the start of
      `BufFile`. */
  function IsTokenised(buf: seq<byte>, size: int): (basic: bool)
    requires size >= ProbeLength ==> |buf| >= ProbeLength
    ensures size < ProbeLength ==> basic
    ensures size >= ProbeLength ==> (basic <==> !StartsWithDigit(buf) && LooksTokenised(buf, size))
  {
    if size >= ProbeLength then
      if StartsWithDigit(buf) then false
      else if !LooksTokenised(buf, size) then false
      else true
    else true
  }

  /** A file of fewer than four bytes is always taken for tokenised BASIC. */
  lemma ShortFileTokenised(buf: seq<byte>, size: int)
    requires size < ProbeLength
    ensures IsTokenised(buf, size)
  {
  }

  /** A file of four bytes or more starting with a digit is ASCII, whatever
      its other bytes. */
  lemma DigitFirstIsAscii(buf: seq<byte>, size: int)
    requires size >= ProbeLength && |buf| >= ProbeLength
    requires '0' as int <= buf[0] <= '9' as int
    ensures !IsTokenised(buf, size)
  {
  }

  /** For a file of four bytes or more, the test in terms of the raw bytes:
      tokenised exactly when the first byte is not a digit, the word of
      bytes 0-1 lies strictly between 4 and the size, and the word of bytes
      2-3 strictly between 0 and 65000. */
  lemma TokenisedIff(buf: seq<byte>, size: int)
    requires size >= ProbeLength && |buf| >= ProbeLength
    ensures IsTokenised(buf, size) <==>
      && !('0' as int <= buf[0] <= '9' as int)
      && 4 < buf[0] as int + 256 * buf[1] as int < size
      && 0 < buf[2] as int + 256 * buf[3] as int < 65000
  {
  }

  /** Only the first four bytes and the size take part in the decision. */
  lemma OnlyProbeMatters(buf1: seq<byte>, buf2: seq<byte>, size: int)
    requires |buf1| >= ProbeLength && |buf2| >= ProbeLength
    requires buf1[..ProbeLength] == buf2[..ProbeLength]
    ensures IsTokenised(buf1, size) == IsTokenised(buf2, size)
  {
    assert forall k :: 0 <= k < ProbeLength ==> buf1[k] == buf2[k] by {
      forall k | 0 <= k < ProbeLength ensures buf1[k] == buf2[k] {
        assert buf1[..ProbeLength][k] == buf2[..ProbeLength][k];
      }
    }
  }

  /** A record length at most 4 (too short to hold its own header and a
      token) makes the file ASCII, whatever the line number. */
  lemma ShortRecordIsAscii(buf: seq<byte>, size: int)
    requires size >= ProbeLength && |buf| >= ProbeLength
    requires buf[0] as int + 256 * buf[1] as int <= 4
    ensures !IsTokenised(buf, size)
  {
  }
}

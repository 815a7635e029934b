/**
 * The classic little-endian TIFF layout read by tiffsnip (TIFF Revision 6.0,
 * Section 2): the 8-byte header, the 12-byte directory entry and the
 * directory itself (a 2-byte entry count, the entries, a 4-byte next offset).
 * Each record has a decoder over the file's bytes and an encoder that is its
 * inverse.
 */
module TiffFormat {
  import opened LittleEndian

  /** Byte-order mark "II" of a little-endian file. */
  const LittleEndianMark: u16 := 0x4949
  /** Version number of classic TIFF. */
  const ClassicVersion: u16 := 42
  /** Tag of the StripOffsets field. */
  const TagStripOffsets: u16 := 273
  /** Tag of the TileOffsets field (TIFF 6.0, Section 15). */
  const TagTileOffsets: u16 := 324

  const HeaderSize: nat := 8
  const EntrySize: nat := 12

  /** The `Header` record: byte order, magic number, first directory offset. */
  datatype Header = Header(byteOrder: u16, magic: u16, offset: u32)

  /** The `IFD` record: one 12-byte directory entry. */
  datatype Entry = Entry(tag: u16, fieldType: u16, count: u32, value: u32)

  /** A decoded directory: its entries in file order and the next offset. */
  datatype Directory = Directory(entries: seq<Entry>, next: u32)

  /** Why a directory could not be decoded. */
  datatype Fault =
    | NoCount                  // the file ends before the entry count does
    | NegativeCount(raw: u16)  // the count, read as a signed short, is below zero
    | Truncated(count: nat)    // the count was read; the entries or the link run past the end

  datatype Result<T> = Ok(value: T) | Err(fault: Fault)

  // ----- Header -------------------------------------------------------------

  function DecodeHeader(s: seq<byte>): (h: Header)
    requires HeaderSize <= |s|
  {
    Header(U16(s, 0), U16(s, 2), U32(s, 4))
  }

  function EncodeHeader(h: Header): (b: seq<byte>)
    ensures |b| == HeaderSize
  {
    LE16(h.byteOrder) + LE16(h.magic) + LE32(h.offset)
  }

  /** A header the program goes on with: "II" byte order and version 42. */
  predicate Accepted(h: Header)
  {
    h.byteOrder == LittleEndianMark && h.magic == ClassicVersion
  }

  /** Decoding the bytes of an encoded header gives the header back. */
  lemma DecodeEncodeHeader(h: Header, rest: seq<byte>)
    ensures DecodeHeader(EncodeHeader(h) + rest) == h
  {
  }

  /** A decoded header accounts for exactly the file's first eight bytes. */
  lemma EncodeDecodeHeader(s: seq<byte>)
    requires HeaderSize <= |s|
    ensures EncodeHeader(DecodeHeader(s)) == s[..HeaderSize]
  {
    LE16OfU16(s, 0);
    LE16OfU16(s, 2);
    LE32OfU32(s, 4);
    assert s[..HeaderSize] == s[0..2] + s[2..4] + s[4..8];
  }

  // ----- Directory entry ----------------------------------------------------

  function DecodeEntry(s: seq<byte>, o: nat): (e: Entry)
    requires o + EntrySize <= |s|
  {
    Entry(U16(s, o), U16(s, o + 2), U32(s, o + 4), U32(s, o + 8))
  }

  function EncodeEntry(e: Entry): (b: seq<byte>)
    ensures |b| == EntrySize
  {
    LE16(e.tag) + LE16(e.fieldType) + LE32(e.count) + LE32(e.value)
  }

  /** An entry whose bytes are those EncodeEntry writes decodes to that entry. */
  lemma DecodeEncodeEntry(s: seq<byte>, o: nat, e: Entry)
    requires o + EntrySize <= |s| && s[o..o + EntrySize] == EncodeEntry(e)
    ensures DecodeEntry(s, o) == e
  {
  }

  /** A decoded entry accounts for exactly the twelve bytes it was read from. */
  lemma EncodeDecodeEntry(s: seq<byte>, o: nat)
    requires o + EntrySize <= |s|
    ensures EncodeEntry(DecodeEntry(s, o)) == s[o..o + EntrySize]
  {
    LE16OfU16(s, o);
    LE16OfU16(s, o + 2);
    LE32OfU32(s, o + 4);
    LE32OfU32(s, o + 8);
    assert s[o..o + 12] == s[o..o + 2] + s[o + 2..o + 4] + s[o + 4..o + 8] + s[o + 8..o + 12];
  }

  // ----- Directory ----------------------------------------------------------

  /** The count field is a C `short int`: two's complement over 16 bits. */
  function AsShort(raw: u16): (c: int)
    ensures -0x8000 <= c < 0x8000
    ensures c % 0x1_0000 == raw
  {
    if raw < 0x8000 then raw else raw - 0x1_0000
  }

  /** Bytes taken by a directory of `n` entries: count, entries, next offset. */
  function Span(n: nat): (size: nat)
  {
    2 + EntrySize * n + 4
  }

  /** Offset of entry `i` of the directory at `o`. */
  function EntryOffset(o: nat, i: nat): (at: nat)
  {
    o + 2 + EntrySize * i
  }

  /**
   * The directory at offset `o`: the signed entry count, the entries one
   * after the other and the next offset right after the last one. A file
   * that ends too early and a negative count are faults.
   */
  function DecodeIfd(s: seq<byte>, o: nat): (r: Result<Directory>)
  {
    if |s| < o + 2 then Err(NoCount)
    else
      var n := AsShort(U16(s, o));
      if n < 0 then Err(NegativeCount(U16(s, o)))
      else if |s| < o + Span(n) then Err(Truncated(n))
      else
        Ok(Directory(DecodeEntries(s, o + 2, n), U32(s, EntryOffset(o, n))))
  }

  /** The `n` entries stored one after another from `o`. */
  function DecodeEntries(s: seq<byte>, o: nat, n: nat): (es: seq<Entry>)
    requires o + EntrySize * n <= |s|
    ensures |es| == n
    decreases n
  {
    if n == 0 then [] else [DecodeEntry(s, o)] + DecodeEntries(s, o + EntrySize, n - 1)
  }

  /** Entry `i` of those decoded from `o` is the one at twelve times `i` further. */
  lemma {:induction false} DecodeEntriesAt(s: seq<byte>, o: nat, n: nat, i: nat)
    requires o + EntrySize * n <= |s| && i < n
    ensures DecodeEntries(s, o, n)[i] == DecodeEntry(s, o + EntrySize * i)
    decreases n
  {
    if i != 0 {
      DecodeEntriesAt(s, o + EntrySize, n - 1, i - 1);
    }
  }

  /**
   * Where the fields of a decoded directory at `o` with `n` entries sit: the
   * count at `o`, entry `i` at `o + 2 + 12i` and the next offset right after
   * the last entry, at `o + 2 + 12n`.
   */
  lemma IfdLayout(s: seq<byte>, o: nat)
    requires DecodeIfd(s, o).Ok?
    ensures var d := DecodeIfd(s, o).value;
      && o + Span(|d.entries|) <= |s|
      && |d.entries| == U16(s, o)
      && (forall i :: 0 <= i < |d.entries| ==> d.entries[i] == DecodeEntry(s, EntryOffset(o, i)))
      && d.next == U32(s, EntryOffset(o, |d.entries|))
  {
    var d := DecodeIfd(s, o).value;
    forall i | 0 <= i < |d.entries|
      ensures d.entries[i] == DecodeEntry(s, EntryOffset(o, i))
    {
      DecodeEntriesAt(s, o + 2, |d.entries|, i);
    }
  }

  /** The bytes of directory `d`: count, entries and next offset. */
  function EncodeIfd(d: Directory): (b: seq<byte>)
    requires |d.entries| < 0x8000
    ensures |b| == Span(|d.entries|)
  {
    LE16(|d.entries|) + EncodeEntries(d.entries) + LE32(d.next)
  }

  function EncodeEntries(es: seq<Entry>): (b: seq<byte>)
    ensures |b| == EntrySize * |es|
  {
    if es == [] then [] else EncodeEntry(es[0]) + EncodeEntries(es[1..])
  }

  /** Entries whose bytes are those EncodeEntries writes decode to those entries. */
  lemma {:induction false} DecodeEncodeEntries(s: seq<byte>, o: nat, es: seq<Entry>)
    requires o + EntrySize * |es| <= |s| && s[o..o + EntrySize * |es|] == EncodeEntries(es)
    ensures DecodeEntries(s, o, |es|) == es
    decreases |es|
  {
    if es != [] {
      var b := EncodeEntries(es);
      assert b == EncodeEntry(es[0]) + EncodeEntries(es[1..]);
      Window(s, o, b, 0, EntrySize);
      Window(s, o, b, EntrySize, |b|);
      DecodeEncodeEntry(s, o, es[0]);
      DecodeEncodeEntries(s, o + EntrySize, es[1..]);
    }
  }

  /** Encoding then decoding a directory, wherever it is placed, gives it back. */
  lemma DecodeEncodeIfd(pre: seq<byte>, d: Directory, post: seq<byte>)
    requires |d.entries| < 0x8000
    ensures DecodeIfd(pre + EncodeIfd(d) + post, |pre|) == Ok(d)
  {
    var b := EncodeIfd(d);
    var s := pre + b + post;
    var o, n := |pre|, |d.entries|;
    assert s[o..o + |b|] == b;
    Window(s, o, b, 0, 2);
    Window(s, o, b, 2, 2 + EntrySize * n);
    Window(s, o, b, 2 + EntrySize * n, |b|);
    U16OfLE16(s, o, n);
    U32OfLE32(s, EntryOffset(o, n), d.next);
    DecodeEncodeEntries(s, o + 2, d.entries);
  }

  /**
   * A directory decoded at `o` occupies exactly `Span(n)` bytes from `o`, and
   * those bytes are its encoding: nothing outside them is read.
   */
  lemma EncodeDecodeIfd(s: seq<byte>, o: nat)
    requires DecodeIfd(s, o).Ok?
    ensures var d := DecodeIfd(s, o).value;
      && |d.entries| < 0x8000
      && o + Span(|d.entries|) <= |s|
      && EncodeIfd(d) == s[o..o + Span(|d.entries|)]
  {
    var n := AsShort(U16(s, o));
    assert n == U16(s, o);
    var last := EntryOffset(o, n);
    var d := Directory(DecodeEntries(s, o + 2, n), U32(s, last));
    assert DecodeIfd(s, o) == Ok(d);
    LE16OfU16(s, o);
    LE32OfU32(s, last);
    EncodeDecodeEntries(s, o + 2, n);
    Split(s, o, o + 2, last + 4);
    Split(s, o + 2, last, last + 4);
    assert EncodeIfd(d) == s[o..o + 2] + s[o + 2..last] + s[last..last + 4];
  }

  /**
   * A directory depends on the bytes of its span and on no others: a file
   * that agrees with `s` there decodes to the same directory at `o`.
   */
  lemma DecodeIfdLocal(s: seq<byte>, t: seq<byte>, o: nat)
    requires DecodeIfd(s, o).Ok?
    requires var n := |DecodeIfd(s, o).value.entries|;
      o + Span(n) <= |t| && t[o..o + Span(n)] == s[o..o + Span(n)]
    ensures DecodeIfd(t, o) == DecodeIfd(s, o)
  {
    var d := DecodeIfd(s, o).value;
    var e := o + Span(|d.entries|);
    EncodeDecodeIfd(s, o);
    assert t == t[..o] + t[o..e] + t[e..];
    DecodeEncodeIfd(t[..o], d, t[e..]);
  }

  /** Entries decoded one after another from `o` encode back to their bytes. */
  lemma {:induction false} EncodeDecodeEntries(s: seq<byte>, o: nat, n: nat)
    requires o + EntrySize * n <= |s|
    ensures EncodeEntries(DecodeEntries(s, o, n)) == s[o..o + EntrySize * n]
    decreases n
  {
    if n != 0 {
      var head, tail := DecodeEntry(s, o), DecodeEntries(s, o + EntrySize, n - 1);
      var mid, end := o + EntrySize, o + EntrySize * n;
      assert mid + EntrySize * (n - 1) == end;
      EncodeDecodeEntry(s, o);
      EncodeDecodeEntries(s, mid, n - 1);
      EncodeEntriesCons(s, o, mid, end, head, tail);
      assert DecodeEntries(s, o, n) == [head] + tail;
    }
  }

  /** An entry encoded at `o` followed by a list encoded at `mid` is the list's encoding. */
  lemma EncodeEntriesCons(s: seq<byte>, o: nat, mid: nat, end: nat, e: Entry, es: seq<Entry>)
    requires o <= mid <= end <= |s|
    requires EncodeEntry(e) == s[o..mid] && EncodeEntries(es) == s[mid..end]
    ensures EncodeEntries([e] + es) == s[o..end]
  {
  }

  /** Some entry carries tag `t`. */
  predicate HasTag(es: seq<Entry>, t: u16)
  {
    exists i :: 0 <= i < |es| && es[i].tag == t
  }

  // ----- Slices -----------------------------------------------------------

  /** Slicing a sequence at `j` and gluing the halves back changes nothing. */
  lemma Split<T>(s: seq<T>, i: nat, j: nat, k: nat)
    requires i <= j <= k <= |s|
    ensures s[i..k] == s[i..j] + s[j..k]
  {
  }

  /** A window `b` of `s` at `o` has `b[i..j]` at `o + i`. */
  lemma Window<T>(s: seq<T>, o: nat, b: seq<T>, i: nat, j: nat)
    requires o + |b| <= |s| && s[o..o + |b|] == b && i <= j <= |b|
    ensures s[o + i..o + j] == b[i..j]
  {
    forall k | 0 <= k < j - i
      ensures s[o + i..o + j][k] == b[i..j][k]
    {
      assert s[o + i + k] == s[o..o + |b|][i + k];
    }
  }
}

/**
 * The program tiffsnip: `ScanIfd` decodes one image file directory and notes
 * whether it holds a StripOffsets or a TileOffsets entry; `Snip` checks the
 * header and `FollowChain` walks the directory chain page by page, stopping
 * at the end of the chain or right after the page chosen for deletion.
 *
 * The file is an array of bytes that no method here declares it modifies:
 * the walk only reads it, the page chosen for deletion included.
 */
module TiffSnip {
  import opened LittleEndian
  import opened TiffFormat

  // ----- scan_ifd -----------------------------------------------------------

  /**
   * What `scan_ifd` establishes about one directory: the directory itself
   * and its two flags, which start at 1 and drop to 0 once an entry with the
   * StripOffsets (resp. TileOffsets) tag is seen.
   */
  datatype Scan = Scan(dir: Directory, stripsFound: int, tilesFound: int)

  /**
   * Decodes the directory at `offset`, moving a cursor over the file as the
   * reads do, and returns the directory with its flags. `delete` selects a
   * branch that does nothing, so the result does not depend on it.
   */
  method ScanIfd(file: array<byte>, offset: nat, delete: bool) returns (r: Result<Scan>)
    ensures DecodeIfd(file[..], offset).Err? ==> r == Err(DecodeIfd(file[..], offset).fault)
    ensures DecodeIfd(file[..], offset).Ok? ==> r.Ok? && r.value.dir == DecodeIfd(file[..], offset).value
    ensures r.Ok? ==> r.value.stripsFound in {0, 1} && r.value.tilesFound in {0, 1}
    ensures r.Ok? ==> (r.value.stripsFound == 0 <==> HasTag(r.value.dir.entries, TagStripOffsets))
    ensures r.Ok? ==> (r.value.tilesFound == 0 <==> HasTag(r.value.dir.entries, TagTileOffsets))
  {
    var pos := offset;
    if file.Length < pos + 2 {
      return Err(NoCount);
    }
    var raw := U16(file[..], pos);
    var count := AsShort(raw);
    pos := pos + 2;
    var tilesFound, stripsFound := 1, 1;
    if count < 0 {
      return Err(NegativeCount(raw));
    }
    if file.Length < offset + Span(count) {
      return Err(Truncated(count));
    }
    // one read fills the whole entry array
    var ifds := DecodeEntries(file[..], pos, count);
    pos := pos + EntrySize * count;
    for i := 0 to count
      invariant stripsFound in {0, 1} && tilesFound in {0, 1}
      invariant stripsFound == 0 <==> exists j :: 0 <= j < i && ifds[j].tag == TagStripOffsets
      invariant tilesFound == 0 <==> exists j :: 0 <= j < i && ifds[j].tag == TagTileOffsets
    {
      if ifds[i].tag == TagStripOffsets {
        stripsFound := 0;
      }
      if ifds[i].tag == TagTileOffsets {
        tilesFound := 0;
      }
    }
    var nextOffset := U32(file[..], pos);
    r := Ok(Scan(Directory(ifds, nextOffset), stripsFound, tilesFound));
  }

  // ----- main ---------------------------------------------------------------

  /** One page the walk visited: its ordinal, its directory's offset, the
   *  `delete` argument it was scanned with, and the directory. */
  datatype Page = Page(ordinal: nat, offset: nat, delete: bool, dir: Directory)

  /** Why the program stopped. */
  datatype Stop =
    | ShortHeader                     // the file is shorter than a header
    | BadByteOrder(mark: u16)         // not "II": main returns 1
    | BadMagic(version: u16)          // not 42: main returns 1
    | EndOfChain                      // a next offset of 0: main returns 0
    | Deleted                         // the page to delete was scanned: main returns 0
    | DeletedTruncated(offset: nat, count: nat)  // the same, entries cut short: main returns 0
    | BadDirectory(offset: nat, fault: Fault)  // a directory could not be decoded
    | Cycle                           // more pages than bytes: some directory repeats

  /** The pages visited, in order, and why the walk stopped. */
  datatype Run = Run(pages: seq<Page>, stop: Stop)

  /** The pages `pages` followed by the run `rest`. */
  function Then(pages: seq<Page>, rest: Run): (r: Run)
  {
    Run(pages + rest.pages, rest.stop)
  }

  /** Where a walk may be, having visited `pageCount` pages of a file of `size` bytes. */
  predicate InWalk(size: nat, pageCount: nat, toDelete: int)
  {
    && (toDelete >= 1 ==> pageCount < toDelete)
    && (toDelete < 1 ==> pageCount <= size + 1)
  }

  /**
   * What bounds the walk: the page to delete when there is one (the walk
   * stops after it), otherwise the file's size plus one, since a chain of
   * more directories than the file has bytes must revisit one.
   */
  function WalkMeasure(size: nat, pageCount: nat, toDelete: int): (m: int)
  {
    if toDelete >= 1 then toDelete - pageCount else size + 1 - pageCount
  }

  /**
   * The rest of the walk, `pageCount` pages having been visited and `next`
   * being the offset to follow: stop at 0, else enter the next page.
   */
  function Walk(s: seq<byte>, next: nat, pageCount: nat, toDelete: int): (r: Run)
    requires InWalk(|s|, pageCount, toDelete)
    decreases WalkMeasure(|s|, pageCount, toDelete), 2
  {
    if next == 0 then Run([], EndOfChain) else Enter(s, next, pageCount, toDelete)
  }

  /**
   * Page `pageCount + 1`, at the nonzero offset `next`: with no page to
   * delete, a walk already past more pages than the file has bytes stops.
   */
  function Enter(s: seq<byte>, next: nat, pageCount: nat, toDelete: int): (r: Run)
    requires InWalk(|s|, pageCount, toDelete)
    decreases WalkMeasure(|s|, pageCount, toDelete), 1
  {
    if toDelete < 1 && pageCount == |s| + 1 then Run([], Cycle) else Visit(s, next, pageCount, toDelete)
  }

  /**
   * Decode page `pageCount + 1` at `next`: stop right after the page to
   * delete, whose link is never used, so that a page whose count was read is
   * that page even when its entries or link run past the end of the file;
   * stop at any other fault, else follow the link.
   */
  function Visit(s: seq<byte>, next: nat, pageCount: nat, toDelete: int): (r: Run)
    requires InWalk(|s|, pageCount, toDelete) && !(toDelete < 1 && pageCount == |s| + 1)
    decreases WalkMeasure(|s|, pageCount, toDelete), 0
  {
    var ordinal := pageCount + 1;
    match DecodeIfd(s, next)
    case Err(f) =>
      if ordinal == toDelete && f.Truncated? then Run([], DeletedTruncated(next, f.count))
      else Run([], BadDirectory(next, f))
    case Ok(d) =>
      var page := Page(ordinal, next, ordinal == toDelete, d);
      if ordinal == toDelete then Run([page], Deleted)
      else Then([page], Walk(s, d.next, ordinal, toDelete))
  }

  /** One step of the walk past a page that is not the one to delete. */
  lemma WalkStep(s: seq<byte>, next: nat, pageCount: nat, toDelete: int, pages: seq<Page>, d: Directory)
    requires InWalk(|s|, pageCount, toDelete) && next != 0 && !(toDelete < 1 && pageCount == |s| + 1)
    requires DecodeIfd(s, next) == Ok(d) && pageCount + 1 != toDelete
    ensures InWalk(|s|, pageCount + 1, toDelete)
    ensures Then(pages, Walk(s, next, pageCount, toDelete))
         == Then(pages + [Page(pageCount + 1, next, false, d)], Walk(s, d.next, pageCount + 1, toDelete))
  {
    assert Walk(s, next, pageCount, toDelete) == Visit(s, next, pageCount, toDelete);
    var rest := Walk(s, d.next, pageCount + 1, toDelete);
    assert pages + ([Page(pageCount + 1, next, false, d)] + rest.pages)
        == pages + [Page(pageCount + 1, next, false, d)] + rest.pages;
  }

  /** The whole run on file `s`: header checks, then the walk from page 1. */
  function Execute(s: seq<byte>, toDelete: int): (r: Run)
  {
    if |s| < HeaderSize then Run([], ShortHeader)
    else
      var h := DecodeHeader(s);
      if h.byteOrder != LittleEndianMark then Run([], BadByteOrder(h.byteOrder))
      else if h.magic != ClassicVersion then Run([], BadMagic(h.magic))
      else Walk(s, h.offset, 0, toDelete)
  }

  /**
   * `main`: read and check the header, then follow the chain from the
   * header's offset. The file is only read. `status` is the value `main`
   * returns: 1 for a rejected header, 0 once the loop ends; -1 stands for
   * the stops where the source has no defined result (a file too short for
   * the header, a directory before the page to delete whose link cannot be
   * read, a count that cannot be read or is negative, an endless chain).
   */
  method Snip(file: array<byte>, toDelete: int) returns (r: Run, status: int)
    ensures r == Execute(file[..], toDelete)
    ensures status == 1 <==> HeaderSize <= file.Length && !Accepted(DecodeHeader(file[..]))
    ensures status == 0 <==> r.stop.EndOfChain? || r.stop.Deleted? || r.stop.DeletedTruncated?
    ensures status == -1 || status == 0 || status == 1
  {
    if file.Length < HeaderSize {
      return Run([], ShortHeader), -1;
    }
    var header := DecodeHeader(file[..]);
    if header.byteOrder != LittleEndianMark {
      return Run([], BadByteOrder(header.byteOrder)), 1;
    }
    if header.magic != ClassicVersion {
      return Run([], BadMagic(header.magic)), 1;
    }
    r := FollowChain(file, header.offset, toDelete);
    status := if r.stop.EndOfChain? || r.stop.Deleted? || r.stop.DeletedTruncated? then 0 else -1;
  }

  /**
   * The loop of `main`: from offset `first`, scan page after page, numbering
   * them from 1 and passing `delete` for the page whose number is
   * `toDelete`, until a zero link or right after that page.
   */
  method FollowChain(file: array<byte>, first: nat, toDelete: int) returns (r: Run)
    ensures r == Walk(file[..], first, 0, toDelete)
  {
    ghost var s := file[..];
    ghost var whole := Walk(s, first, 0, toDelete);
    var nextOffset: nat := first;
    var pageCount: nat := 0;
    var pages: seq<Page> := [];
    while nextOffset > 0
      invariant file[..] == s
      invariant InWalk(|s|, pageCount, toDelete)
      invariant whole == Then(pages, Walk(s, nextOffset, pageCount, toDelete))
      decreases WalkMeasure(|s|, pageCount, toDelete)
    {
      ghost var rest := Walk(s, nextOffset, pageCount, toDelete);
      if toDelete < 1 && pageCount == file.Length + 1 {
        assert rest == Run([], Cycle);
        return Run(pages, Cycle);
      }
      assert rest == Visit(s, nextOffset, pageCount, toDelete);
      pageCount := pageCount + 1;
      var delete := pageCount == toDelete;
      var scan := ScanIfd(file, nextOffset, delete);
      if scan.Err? {
        if delete && scan.fault.Truncated? {
          assert rest == Run([], DeletedTruncated(nextOffset, scan.fault.count));
          return Run(pages, DeletedTruncated(nextOffset, scan.fault.count));
        }
        assert rest == Run([], BadDirectory(nextOffset, scan.fault));
        return Run(pages, BadDirectory(nextOffset, scan.fault));
      }
      var page := Page(pageCount, nextOffset, delete, scan.value.dir);
      if delete {
        assert rest == Run([page], Deleted);
      } else {
        WalkStep(s, nextOffset, pageCount - 1, toDelete, pages, scan.value.dir);
      }
      pages := pages + [page];
      nextOffset := scan.value.dir.next;
      if delete {
        return Run(pages, Deleted);
      }
    }
    assert Walk(s, nextOffset, pageCount, toDelete) == Run([], EndOfChain);
    return Run(pages, EndOfChain);
  }
}

/**
 * What a run of tiffsnip does, stated over `Execute` (which `Snip` is proved
 * to compute): the header gate, the order in which pages are visited, when
 * the walk stops, which page gets `delete`, and why a walk that runs past
 * the file's size is caught in a cycle.
 */
module TiffSnipProperties {
  import opened LittleEndian
  import opened TiffFormat
  import opened TiffSnip

  // ----- Header gate --------------------------------------------------------

  /**
   * The run stops on the header exactly when the file has a header that is
   * not "II" or not version 42 (where `Snip` returns status 1), and then no
   * directory has been read.
   */
  lemma HeaderGate(s: seq<byte>, toDelete: int)
    ensures var r := Execute(s, toDelete);
      && ((r.stop.BadByteOrder? || r.stop.BadMagic?) <==> HeaderSize <= |s| && !Accepted(DecodeHeader(s)))
      && (r.stop.BadByteOrder? || r.stop.BadMagic? ==> r.pages == [])
      && (r.stop.BadByteOrder? ==> U16(s, 0) != LittleEndianMark)
      && (r.stop.BadMagic? ==> U16(s, 0) == LittleEndianMark && U16(s, 2) != ClassicVersion)
  {
    if HeaderSize <= |s| && Accepted(DecodeHeader(s)) {
      WalkStop(s, DecodeHeader(s).offset, 0, toDelete);
    }
  }

  // ----- The walk -----------------------------------------------------------

  /** Page `i` of `pages` is the directory that page `i - 1` links to. */
  predicate Linked(pages: seq<Page>)
  {
    forall i :: 0 < i < |pages| ==> pages[i].offset == pages[i - 1].dir.next
  }

  /**
   * The pages of a walk from `next` with `pageCount` pages behind it: they
   * are numbered on from `pageCount`, the first is at `next`, each next one
   * is where the previous one links to, and each is the directory decoded at
   * its nonzero offset.
   */
  lemma {:induction false} WalkPages(s: seq<byte>, next: nat, pageCount: nat, toDelete: int)
    requires InWalk(|s|, pageCount, toDelete)
    ensures var r := Walk(s, next, pageCount, toDelete);
      && (forall i :: 0 <= i < |r.pages| ==> r.pages[i].ordinal == pageCount + 1 + i)
      && (r.pages != [] ==> r.pages[0].offset == next)
      && Linked(r.pages)
      && (forall i :: 0 <= i < |r.pages| ==>
            r.pages[i].offset != 0 && DecodeIfd(s, r.pages[i].offset) == Ok(r.pages[i].dir))
    decreases WalkMeasure(|s|, pageCount, toDelete)
  {
    if next != 0 && !(toDelete < 1 && pageCount == |s| + 1) {
      assert Walk(s, next, pageCount, toDelete) == Visit(s, next, pageCount, toDelete);
      if DecodeIfd(s, next).Ok? {
        var d := DecodeIfd(s, next).value;
        if pageCount + 1 != toDelete {
          WalkPages(s, d.next, pageCount + 1, toDelete);
          var rest := Walk(s, d.next, pageCount + 1, toDelete);
          var page := Page(pageCount + 1, next, false, d);
          assert Walk(s, next, pageCount, toDelete).pages == [page] + rest.pages;
        }
      }
    }
  }

  /**
   * In a walk, `delete` is set on the page numbered `toDelete` and no other;
   * only the last page can carry that number, and it does exactly when the
   * walk stopped for deletion; the walk never goes past that page.
   */
  lemma {:induction false} WalkDelete(s: seq<byte>, next: nat, pageCount: nat, toDelete: int)
    requires InWalk(|s|, pageCount, toDelete)
    ensures var r := Walk(s, next, pageCount, toDelete);
      && (forall i :: 0 <= i < |r.pages| ==> (r.pages[i].delete <==> r.pages[i].ordinal == toDelete))
      && (forall i :: 0 <= i < |r.pages| - 1 ==> r.pages[i].ordinal != toDelete)
      && (r.stop.Deleted? <==> r.pages != [] && r.pages[|r.pages| - 1].ordinal == toDelete)
      && (toDelete >= 1 ==> pageCount + |r.pages| <= toDelete)
    decreases WalkMeasure(|s|, pageCount, toDelete)
  {
    if next != 0 && !(toDelete < 1 && pageCount == |s| + 1) {
      assert Walk(s, next, pageCount, toDelete) == Visit(s, next, pageCount, toDelete);
      if DecodeIfd(s, next).Ok? {
        var d := DecodeIfd(s, next).value;
        if pageCount + 1 != toDelete {
          WalkDelete(s, d.next, pageCount + 1, toDelete);
          WalkPages(s, d.next, pageCount + 1, toDelete);
          var rest := Walk(s, d.next, pageCount + 1, toDelete);
          var page := Page(pageCount + 1, next, false, d);
          assert Walk(s, next, pageCount, toDelete).pages == [page] + rest.pages;
        }
      }
    }
  }

  /**
   * A walk stops only at a zero link (unless the page before it was the one
   * to delete), right after the page to delete, at the directory its last
   * nonzero link points to when that directory cannot be decoded, or after
   * more pages than the file has bytes. The page to delete counts as scanned
   * once its entry count is read: only a count that is missing or negative
   * makes it a bad directory.
   */
  lemma {:induction false} WalkStop(s: seq<byte>, next: nat, pageCount: nat, toDelete: int)
    requires InWalk(|s|, pageCount, toDelete)
    ensures var r := Walk(s, next, pageCount, toDelete);
      && (r.stop.EndOfChain? <==>
            (if r.pages == [] then next else r.pages[|r.pages| - 1].dir.next) == 0 && !r.stop.Deleted?)
      && (r.stop.Cycle? ==> toDelete < 1 && pageCount + |r.pages| == |s| + 1)
      && (r.stop.BadDirectory? ==>
            && r.stop.offset == (if r.pages == [] then next else r.pages[|r.pages| - 1].dir.next)
            && r.stop.offset != 0
            && DecodeIfd(s, r.stop.offset) == Err(r.stop.fault)
            && (pageCount + |r.pages| + 1 == toDelete ==> r.stop.fault.NoCount? || r.stop.fault.NegativeCount?))
      && (r.stop.DeletedTruncated? ==>
            && r.stop.offset == (if r.pages == [] then next else r.pages[|r.pages| - 1].dir.next)
            && r.stop.offset != 0
            && DecodeIfd(s, r.stop.offset) == Err(Truncated(r.stop.count))
            && pageCount + |r.pages| + 1 == toDelete)
      && (r.stop.EndOfChain? || r.stop.Deleted? || r.stop.DeletedTruncated? || r.stop.BadDirectory? || r.stop.Cycle?)
    decreases WalkMeasure(|s|, pageCount, toDelete)
  {
    if next != 0 && !(toDelete < 1 && pageCount == |s| + 1) {
      assert Walk(s, next, pageCount, toDelete) == Visit(s, next, pageCount, toDelete);
      if DecodeIfd(s, next).Ok? {
        var d := DecodeIfd(s, next).value;
        if pageCount + 1 != toDelete {
          WalkStop(s, d.next, pageCount + 1, toDelete);
          var rest := Walk(s, d.next, pageCount + 1, toDelete);
          var page := Page(pageCount + 1, next, false, d);
          assert Walk(s, next, pageCount, toDelete).pages == [page] + rest.pages;
        }
      }
    }
  }

  /** The walk of a whole run: pages 1, 2, … in chain order from the header's offset. */
  lemma ChainOrder(s: seq<byte>, toDelete: int)
    requires HeaderSize <= |s| && Accepted(DecodeHeader(s))
    ensures var r := Execute(s, toDelete);
      && (forall i :: 0 <= i < |r.pages| ==> r.pages[i].ordinal == i + 1)
      && (r.pages != [] ==> r.pages[0].offset == U32(s, 4))
      && Linked(r.pages)
      && (forall i :: 0 <= i < |r.pages| ==>
            r.pages[i].offset != 0 && DecodeIfd(s, r.pages[i].offset) == Ok(r.pages[i].dir))
  {
    WalkPages(s, DecodeHeader(s).offset, 0, toDelete);
  }

  /**
   * The walk ends (and `Snip` returns status 0) exactly when it reaches a
   * zero link or scans the page to delete: a zero first offset visits no page,
   * and the page to delete is scanned once its entry count is read, even if
   * its entries or link run past the end of the file. A directory that
   * cannot be decoded is the one the chain links to next.
   */
  lemma Termination(s: seq<byte>, toDelete: int)
    requires HeaderSize <= |s| && Accepted(DecodeHeader(s))
    ensures var r := Execute(s, toDelete);
      && (r.stop.EndOfChain? <==>
            (if r.pages == [] then U32(s, 4) else r.pages[|r.pages| - 1].dir.next) == 0 && !r.stop.Deleted?)
      && (r.stop.Deleted? <==> r.pages != [] && r.pages[|r.pages| - 1].ordinal == toDelete)
      && (r.stop.BadDirectory? ==>
            && r.stop.offset == (if r.pages == [] then U32(s, 4) else r.pages[|r.pages| - 1].dir.next)
            && r.stop.offset != 0
            && DecodeIfd(s, r.stop.offset) == Err(r.stop.fault)
            && (|r.pages| + 1 == toDelete ==> r.stop.fault.NoCount? || r.stop.fault.NegativeCount?))
      && (r.stop.DeletedTruncated? ==>
            && r.stop.offset == (if r.pages == [] then U32(s, 4) else r.pages[|r.pages| - 1].dir.next)
            && r.stop.offset != 0
            && DecodeIfd(s, r.stop.offset) == Err(Truncated(r.stop.count))
            && |r.pages| + 1 == toDelete)
      && (r.stop.EndOfChain? || r.stop.Deleted? || r.stop.DeletedTruncated? || r.stop.BadDirectory? || r.stop.Cycle?)
      && (toDelete >= 1 ==> |r.pages| <= toDelete && !r.stop.Cycle?)
  {
    WalkStop(s, DecodeHeader(s).offset, 0, toDelete);
    WalkDelete(s, DecodeHeader(s).offset, 0, toDelete);
  }

  /**
   * `delete` is passed as true for at most one page, the one numbered
   * `toDelete`, and for one exactly when the walk stopped there: never when
   * `toDelete` is not positive or the chain ends before that page. A page to
   * delete whose entries run past the end of the file is not among the
   * pages; its stop carries its number's place instead.
   */
  lemma DeleteAtMostOnce(s: seq<byte>, toDelete: int)
    ensures var r := Execute(s, toDelete);
      && (forall i :: 0 <= i < |r.pages| ==> (r.pages[i].delete <==> r.pages[i].ordinal == toDelete))
      && (forall i, j :: 0 <= i < |r.pages| && 0 <= j < |r.pages| && r.pages[i].delete && r.pages[j].delete ==> i == j)
      && ((exists i :: 0 <= i < |r.pages| && r.pages[i].delete) <==> r.stop.Deleted?)
      && (r.stop.Deleted? ==> 1 <= toDelete == |r.pages| && r.pages[toDelete - 1].delete)
      && (toDelete < 1 ==> forall i :: 0 <= i < |r.pages| ==> !r.pages[i].delete)
      && (r.stop.DeletedTruncated? ==> 1 <= toDelete == |r.pages| + 1)
      && (r.stop.EndOfChain? ==> |r.pages| < toDelete || toDelete < 1)
  {
    if HeaderSize <= |s| && Accepted(DecodeHeader(s)) {
      WalkPages(s, DecodeHeader(s).offset, 0, toDelete);
      WalkDelete(s, DecodeHeader(s).offset, 0, toDelete);
      WalkStop(s, DecodeHeader(s).offset, 0, toDelete);
      var r := Execute(s, toDelete);
      forall i | 0 <= i < |r.pages| ensures r.pages[i].ordinal == i + 1 { }
    }
  }

  // ----- Cycles -------------------------------------------------------------

  /**
   * A walk that stops for a cycle has visited some directory twice: after
   * that the chain repeats, so the loop in `main`, with no page to delete,
   * would never end.
   */
  lemma CycleRevisits(s: seq<byte>, toDelete: int)
    requires Execute(s, toDelete).stop.Cycle?
    ensures var r := Execute(s, toDelete);
      toDelete < 1 && exists i, j :: 0 <= i < j < |r.pages| && r.pages[i].offset == r.pages[j].offset
  {
    var r := Execute(s, toDelete);
    assert HeaderSize <= |s| && Accepted(DecodeHeader(s));
    WalkPages(s, DecodeHeader(s).offset, 0, toDelete);
    WalkStop(s, DecodeHeader(s).offset, 0, toDelete);
    var offsets := seq(|r.pages|, i requires 0 <= i < |r.pages| => r.pages[i].offset);
    forall i | 0 <= i < |offsets|
      ensures offsets[i] < |s|
    {
      assert DecodeIfd(s, r.pages[i].offset).Ok?;
    }
    var i, j := Pigeonhole(offsets, |s|);
    assert r.pages[i].offset == offsets[i];
  }

  /** More than `n` numbers below `n` cannot all differ. */
  lemma {:induction false} Pigeonhole(xs: seq<nat>, n: nat) returns (i: nat, j: nat)
    requires n < |xs|
    requires forall k :: 0 <= k < |xs| ==> xs[k] < n
    ensures i < j < |xs| && xs[i] == xs[j]
    decreases n
  {
    var x := xs[0];
    if n == 0 {
      assert false;
    }
    if k :| 0 < k < |xs| && xs[k] == x {
      return 0, k;
    }
    // Every later element differs from x; rename n - 1 to x among them so
    // that all stay below n - 1 and still differ exactly where they did.
    var ys := seq(|xs| - 1, k requires 0 <= k < |xs| - 1 => if xs[k + 1] == n - 1 then x else xs[k + 1]);
    forall k | 0 <= k < |ys|
      ensures ys[k] < n - 1
    {
      assert xs[k + 1] != x && xs[k + 1] < n;
      if xs[k + 1] == n - 1 {
        assert x != n - 1 && x < n;
      }
    }
    var a, b := Pigeonhole(ys, n - 1);
    assert xs[a + 1] != x && xs[b + 1] != x;
    return a + 1, b + 1;
  }
}

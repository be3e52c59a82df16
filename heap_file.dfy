/**
 * HeapFile: a table stored as a flat run of equal-size pages. What is
 * modelled is the page arithmetic (how many pages, where page k starts, which
 * bytes a page read returns) and the tuple iterator that walks the pages one
 * after the other.
 */
module HeapFiles {
  import opened JavaLang
  import opened Fields

  newtype byte = x: int | 0 <= x < 256

  /**
   * `numPages()`: `(int) f.length() / pageSize`. The cast binds tighter than
   * the division, so the file length is first cut to 32 bits.
   */
  function NumPages(fileLength: nat, pageSize: int): (n: int)
    requires pageSize > 0
    ensures fileLength <= INT_MAX ==> n == fileLength / pageSize
    ensures fileLength <= INT_MAX ==> n * pageSize <= fileLength < (n + 1) * pageSize
  {
    JavaDiv(ToInt32(fileLength), pageSize)
  }

  /** A file of 2^31 bytes or more can report a negative page count. */
  lemma NumPagesOfHugeFile()
    ensures NumPages(0x8000_0000, 4096) == -0x8_0000
  {
  }

  /** Where `readPage` seeks to: `pageNumber * pageSize`, in `int` arithmetic. */
  function PageOffset(pgNo: int, pageSize: int): (offset: int)
    ensures IsInt32(pgNo * pageSize) ==> offset == pgNo * pageSize
  {
    ToInt32(pgNo * pageSize)
  }

  /**
   * The bytes `readPage` hands to the page constructor: a zeroed buffer of
   * `pageSize` bytes, overwritten by what the file holds from the page's
   * offset on. Seeking to a negative offset fails (the exception is printed
   * and null is returned).
   */
  function ReadPageData(file: seq<byte>, pgNo: int, pageSize: int): (r: Option<seq<byte>>)
    requires pageSize > 0
    ensures r.Some? <==> PageOffset(pgNo, pageSize) >= 0
    ensures r.Some? ==> |r.value| == pageSize
  {
    var location := PageOffset(pgNo, pageSize);
    if location < 0 then None
    else
      var available := if location >= |file| then [] else file[location .. if location + pageSize <= |file| then location + pageSize else |file|];
      Some(available + seq(pageSize - |available|, _ => 0 as byte))
  }

  /** Page k of a file (k < numPages) is exactly the pageSize bytes at offset k * pageSize. */
  lemma ReadPageReadsItsSlice(file: seq<byte>, k: int, pageSize: int)
    requires pageSize > 0 && |file| <= INT_MAX
    requires 0 <= k < NumPages(|file|, pageSize)
    ensures (k + 1) * pageSize <= |file|
    ensures ReadPageData(file, k, pageSize) == Some(file[k * pageSize .. (k + 1) * pageSize])
  {
    var n := NumPages(|file|, pageSize);
    assert (k + 1) * pageSize <= n * pageSize;
    assert 0 <= k * pageSize <= |file|;
    assert PageOffset(k, pageSize) == k * pageSize;
    var location := k * pageSize;
    assert location + pageSize == (k + 1) * pageSize;
    assert location < |file|;
    var available := file[location .. location + pageSize];
    assert |available| == pageSize;
    assert available + seq(pageSize - |available|, _ => 0 as byte) == available;
  }

  // ---------------------------------------------------------------------
  // The tuple iterator, over a snapshot of the tuples of every page.
  // ---------------------------------------------------------------------

  /** What `getPageTuples(pgNo)` collects; a page past the end of the file reads as an empty page. */
  function PageTuples(pages: seq<seq<Tuple>>, pgNo: int): seq<Tuple>
  {
    if 0 <= pgNo < |pages| then pages[pgNo] else []
  }

  /** `hasNext` on an open iterator: tuples left on this page, or a non-empty next page. */
  predicate HasMore(pages: seq<seq<Tuple>>, cursor: nat, current: seq<Tuple>)
  {
    current != [] || (cursor + 1 < |pages| && PageTuples(pages, cursor + 1) != [])
  }

  /** The iterator's state after `next`, and what `next` gave. */
  datatype Step = Step(cursor: nat, current: seq<Tuple>, result: Result<Tuple>)

  /**
   * `next` on an open iterator: the page's next tuple; on an exhausted page,
   * move on exactly one page and give its first tuple. Whatever has no tuple
   * left throws NoSuchElementException.
   */
  function NextStep(pages: seq<seq<Tuple>>, cursor: nat, current: seq<Tuple>): Step
  {
    if current != [] then Step(cursor, current[1..], Ok(current[0]))
    else if cursor + 1 < |pages| then
      var nextPage := PageTuples(pages, cursor + 1);
      if nextPage != [] then Step(cursor + 1, nextPage[1..], Ok(nextPage[0]))
      else Step(cursor + 1, [], Err(NoSuchElement))
    else Step(cursor, current, Err(NoSuchElement))
  }

  /** All tuples of a run of pages, page after page. */
  function Flatten(pages: seq<seq<Tuple>>): seq<Tuple>
    decreases |pages|
  {
    if pages == [] then [] else pages[0] + Flatten(pages[1..])
  }

  /** The pages after the cursor. */
  function Later(pages: seq<seq<Tuple>>, cursor: nat): seq<seq<Tuple>>
  {
    if cursor + 1 < |pages| then pages[cursor + 1..] else []
  }

  /** Every tuple not yet returned: the rest of this page, then every later page. */
  function Remaining(pages: seq<seq<Tuple>>, cursor: nat, current: seq<Tuple>): seq<Tuple>
  {
    current + Flatten(Later(pages, cursor))
  }

  predicate NoEmptyPage(pages: seq<seq<Tuple>>)
  {
    forall k :: 0 <= k < |pages| ==> pages[k] != []
  }

  /** Right after `open`, nothing of the file has been returned yet. */
  lemma OpenLeavesEverything(pages: seq<seq<Tuple>>)
    ensures Remaining(pages, 0, PageTuples(pages, 0)) == Flatten(pages)
  {
    if pages != [] {
      assert Later(pages, 0) == pages[1..];
    }
  }

  /** With no empty page, `hasNext` holds exactly while tuples remain. */
  lemma HasMoreIffRemaining(pages: seq<seq<Tuple>>, cursor: nat, current: seq<Tuple>)
    requires NoEmptyPage(pages)
    ensures HasMore(pages, cursor, current) <==> Remaining(pages, cursor, current) != []
  {
    if cursor + 1 < |pages| {
      assert Later(pages, cursor)[0] == pages[cursor + 1];
    }
  }

  /** Whenever `hasNext` holds, `next` returns the first remaining tuple and consumes exactly it. */
  lemma NextConsumesOne(pages: seq<seq<Tuple>>, cursor: nat, current: seq<Tuple>)
    requires HasMore(pages, cursor, current)
    ensures var s := NextStep(pages, cursor, current);
            var rem := Remaining(pages, cursor, current);
            rem != [] && s.result == Ok(rem[0]) && Remaining(pages, s.cursor, s.current) == rem[1..]
  {
    var s := NextStep(pages, cursor, current);
    if current == [] {
      var later := Later(pages, cursor);
      assert later == [pages[cursor + 1]] + Later(pages, cursor + 1);
      assert Flatten(later) == pages[cursor + 1] + Flatten(Later(pages, cursor + 1));
    }
  }

  /**
   * The tuples a client gets by calling `next` while `hasNext` holds
   * (as a sequential scan does).
   */
  function Drain(pages: seq<seq<Tuple>>, cursor: nat, current: seq<Tuple>): seq<Tuple>
    decreases |Remaining(pages, cursor, current)|
  {
    if !HasMore(pages, cursor, current) then []
    else
      var s := NextStep(pages, cursor, current);
      NextConsumesOne(pages, cursor, current);
      [s.result.value] + Drain(pages, s.cursor, s.current)
  }

  lemma {:induction false} DrainIsRemaining(pages: seq<seq<Tuple>>, cursor: nat, current: seq<Tuple>)
    requires NoEmptyPage(pages)
    ensures Drain(pages, cursor, current) == Remaining(pages, cursor, current)
    decreases |Remaining(pages, cursor, current)|
  {
    HasMoreIffRemaining(pages, cursor, current);
    if HasMore(pages, cursor, current) {
      var s := NextStep(pages, cursor, current);
      NextConsumesOne(pages, cursor, current);
      DrainIsRemaining(pages, s.cursor, s.current);
      var rem := Remaining(pages, cursor, current);
      assert rem == [rem[0]] + rem[1..];
    }
  }

  /**
   * With no empty page, a full scan from `open` (or from `rewind`, which is
   * close-then-open) returns every page's tuples, in page order.
   */
  lemma FullScanYieldsAllPages(pages: seq<seq<Tuple>>)
    requires NoEmptyPage(pages)
    ensures Drain(pages, 0, PageTuples(pages, 0)) == Flatten(pages)
  {
    DrainIsRemaining(pages, 0, PageTuples(pages, 0));
    OpenLeavesEverything(pages);
  }

  /**
   * `hasNext` looks only one page ahead: an empty page in the middle of the
   * file ends the scan early, and the pages after it are never returned.
   */
  lemma EmptyPageEndsScan(t: Tuple, u: Tuple)
    ensures var pages := [[t], [], [u]];
            Drain(pages, 0, PageTuples(pages, 0)) == [t] && Flatten(pages) == [t, u]
  {
    var pages := [[t], [], [u]];
    var s := NextStep(pages, 0, [t]);
    assert s == Step(0, [], Ok(t));
    assert !HasMore(pages, 0, []);
    assert Flatten(pages[2..]) == [u];
    assert Flatten(pages[1..]) == [u];
  }

  /** `HeapFileIterator`: a page cursor plus the tuples of the current page not yet returned. */
  class HeapFileIterator {
    /** The tuples of each page of the file, as `getPage` hands them out. */
    const pages: seq<seq<Tuple>>
    /** Whether `tupleIterator` is non-null: set by `open`, cleared by `close`. */
    var isOpen: bool
    var pageCursor: nat
    /** The tuples `tupleIterator` has still to give. */
    var current: seq<Tuple>

    constructor (pages: seq<seq<Tuple>>)
      ensures this.pages == pages
      ensures !isOpen && pageCursor == 0 && current == []
    {
      this.pages := pages;
      isOpen := false;
      pageCursor := 0;
      current := [];
    }

    /** `open`: cursor on page 0, holding page 0's tuples. */
    method Open()
      modifies this
      ensures isOpen && pageCursor == 0 && current == PageTuples(pages, 0)
      ensures Remaining(pages, pageCursor, current) == Flatten(pages)
    {
      pageCursor := 0;
      current := GetPageTuples(0);
      isOpen := true;
      OpenLeavesEverything(pages);
    }

    /** `hasNext`: false before `open` and after `close`. */
    method HasNext() returns (b: bool)
      ensures b <==> isOpen && HasMore(pages, pageCursor, current)
      ensures isOpen && NoEmptyPage(pages) ==> (b <==> Remaining(pages, pageCursor, current) != [])
    {
      if !isOpen {
        return false;
      }
      if NoEmptyPage(pages) {
        HasMoreIffRemaining(pages, pageCursor, current);
      }
      if current != [] {
        return true;
      }
      if pageCursor + 1 < |pages| {
        var next := GetPageTuples(pageCursor + 1);
        if |next| > 0 {
          return true;
        }
      }
      b := false;
    }

    /**
     * `next`: NoSuchElementException before `open` or after `close`;
     * otherwise one step of `NextStep`.
     */
    method Next() returns (r: Result<Tuple>)
      modifies this
      ensures !old(isOpen) ==> r == Err(NoSuchElement) && pageCursor == old(pageCursor) && current == old(current)
      ensures old(isOpen) ==> var s := NextStep(pages, old(pageCursor), old(current));
                              r == s.result && pageCursor == s.cursor && current == s.current
      ensures isOpen == old(isOpen)
      ensures old(isOpen) && old(HasMore(pages, pageCursor, current)) ==>
                r.Ok? && [r.value] + Remaining(pages, pageCursor, current) == old(Remaining(pages, pageCursor, current))
    {
      if !isOpen {
        return Err(NoSuchElement);
      }
      if HasMore(pages, pageCursor, current) {
        NextConsumesOne(pages, pageCursor, current);
      }
      if current != [] {
        r := Ok(current[0]);
        current := current[1..];
        return;
      } else if pageCursor + 1 < |pages| {
        pageCursor := pageCursor + 1;
        current := GetPageTuples(pageCursor);
      }
      if current == [] {
        return Err(NoSuchElement);
      }
      r := Ok(current[0]);
      current := current[1..];
    }

    /** `getPageTuples(pgNo)`: copies the page's tuples, in the page iterator's order, into a list. */
    method GetPageTuples(pgNo: int) returns (ret: seq<Tuple>)
      ensures ret == PageTuples(pages, pgNo)
    {
      var page := PageTuples(pages, pgNo);
      ret := [];
      var i := 0;
      while i < |page|
        invariant 0 <= i <= |page|
        invariant ret == page[..i]
      {
        ret := ret + [page[i]];
        i := i + 1;
      }
    }

    /** `rewind`: `close` then `open`, so the same tuples are returned again. */
    method Rewind()
      modifies this
      ensures isOpen && pageCursor == 0 && current == PageTuples(pages, 0)
      ensures Remaining(pages, pageCursor, current) == Flatten(pages)
    {
      Close();
      Open();
    }

    /** `close`: cursor back to 0, no tuple iterator. */
    method Close()
      modifies this
      ensures !isOpen && pageCursor == 0
    {
      pageCursor := 0;
      isOpen := false;
      current := [];
    }
  }
}

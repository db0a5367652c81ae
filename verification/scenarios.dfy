/**
 * Concrete runs of the buffer: the construction, growth, housekeeping, write, insert and
 * delete examples of the repository's test suite, and one concrete run of a typed write
 * as written. Each method computes its run with the model's operations and states the
 * outcome the example expects; the general lemmas of `Flexy` carry the proofs.
 */
module Scenarios {
  import opened Wrappers
  import opened Pages
  import opened Flexy
  import Reader

  const NoOptions := Options(None, None, None, None)

  /** A buffer of page size `ps` with every other setting left out. */
  function PagedOptions(ps: nat): Options {
    Options(None, Some(ps), None, None)
  }

  /** The three construction examples: defaults, a page size, and a page size with a page floor. */
  method Construct() returns (plain: FlexyBuffer, paged: FlexyBuffer, floored: FlexyBuffer)
    ensures Capacity(plain) == 4096
    ensures plain.cfg.maxSize == 10485760 && plain.cfg.houseKeepMs == 5000
    ensures Capacity(paged) == 1024
    ensures Capacity(floored) == 5120
    ensures plain.size == 0 && plain.position == 0
  {
    plain := New(NoOptions);
    paged := New(PagedOptions(1024));
    floored := New(Options(Some(5), Some(1024), None, None));
  }

  /** Growing an empty 100-byte-page buffer by 90 keeps one page; growing by 90 again takes a second. */
  method GrowTwice() returns (first: FlexyBuffer, second: FlexyBuffer)
    ensures first.size == 90 && Capacity(first) == 100
    ensures second.size == 180 && Capacity(second) == 200
  {
    var b := New(PagedOptions(100));
    assert Limit(b.cfg) >= 180 by {
      CeilBounds(b.cfg.maxSize, 100);
    }
    CeilOfPages(1, 100);
    assert Ceil(90, 100) == 1 && Ceil(180, 100) == 2;
    first := GrowSize(b, 90).value;
    SetSizeCapacity(b, 90);
    second := GrowSize(first, 90).value;
    SetSizeCapacity(first, 180);
  }

  /** Growing to 150 bytes takes two 100-byte pages; housekeeping gives back all but the floor page. */
  method GrowThenHouseKeep() returns (grown: FlexyBuffer, kept: FlexyBuffer)
    ensures Capacity(grown) == 200
    ensures Capacity(kept) == 100 && kept.size == 0 && kept.position == 0
  {
    var b := New(PagedOptions(100));
    assert Limit(b.cfg) >= 150 by {
      CeilBounds(b.cfg.maxSize, 100);
    }
    CeilOfPages(1, 100);
    assert Ceil(150, 100) == 2;
    grown := GrowSize(b, 150).value;
    SetSizeCapacity(b, 150);
    kept := HouseKeep(grown);
    HouseKeepFloor(grown);
  }

  /** Writes `d` at the start of an empty buffer; the content is then `d`. */
  method WriteFresh(b: FlexyBuffer, d: seq<bv8>) returns (w: FlexyBuffer)
    requires Valid(b) && b.size == 0 && b.position == 0
    requires |d| <= Limit(b.cfg)
    ensures Valid(w) && w.cfg == b.cfg
    ensures ToBuffer(w) == d && w.position == |d|
  {
    w := WriteBytes(b, d).value.buf;
    WriteBytesContent(b, d);
  }

  /** Writing five bytes into a default buffer: the first five bytes of the store are those bytes. */
  method WriteFive() returns (w: FlexyBuffer)
    ensures Valid(w) && w.size == 5 && w.store[..5] == [1, 2, 3, 4, 5]
  {
    var b := New(NoOptions);
    CeilBounds(b.cfg.maxSize, b.cfg.pageSize);
    w := WriteFresh(b, [1, 2, 3, 4, 5]);
  }

  /** Cutting `before + after` at `|before|` gives back the two parts. */
  lemma CutJoin(before: seq<bv8>, after: seq<bv8>)
    ensures (before + after)[..|before|] == before
    ensures (before + after)[|before|..] == after
  {
    SameBytes((before + after)[..|before|], before);
    SameBytes((before + after)[|before|..], after);
  }

  /** Inserts `d` between the `before` and `after` parts of the content. */
  method InsertBetween(b: FlexyBuffer, before: seq<bv8>, after: seq<bv8>, d: seq<bv8>) returns (w: FlexyBuffer)
    requires Valid(b)
    requires ToBuffer(b) == before + after
    requires b.size + |d| <= Limit(b.cfg)
    ensures Valid(w) && w.cfg == b.cfg
    ensures w.size == b.size + |d| && w.position == |before| + |d|
    ensures ToBuffer(w) == before + d + after
  {
    var moved := MoveTo(b, |before|);
    w := InsertBytes(moved, d).value.buf;
    InsertBytesContent(moved, d);
    CutJoin(before, after);
  }

  /**
   * The insert example on 5-byte pages: insert inside the content, near its end and at
   * its end, checking the size and content after each step.
   */
  method InsertExample() returns (a: FlexyBuffer, b: FlexyBuffer, c: FlexyBuffer)
    ensures Valid(a) && a.size == 8 && ToBuffer(a) == [1, 2, 6, 7, 8, 3, 4, 5]
    ensures Valid(b) && b.size == 11 && ToBuffer(b) == [1, 2, 6, 7, 8, 3, 9, 10, 11, 4, 5]
    ensures Valid(c) && c.size == 14 && ToBuffer(c) == [1, 2, 6, 7, 8, 3, 9, 10, 11, 4, 5, 12, 13, 14]
  {
    var e := New(PagedOptions(5));
    CeilBounds(e.cfg.maxSize, 5);
    var w := WriteFresh(e, [1, 2] + [3, 4, 5]);
    a := InsertBetween(w, [1, 2], [3, 4, 5], [6, 7, 8]);
    assert [1, 2] + [6, 7, 8] + [3, 4, 5] == [1, 2, 6, 7, 8, 3] + [4, 5];
    b := InsertBetween(a, [1, 2, 6, 7, 8, 3], [4, 5], [9, 10, 11]);
    assert [1, 2, 6, 7, 8, 3] + [9, 10, 11] + [4, 5] == [1, 2, 6, 7, 8, 3, 9, 10, 11, 4, 5] + [];
    c := InsertBetween(b, [1, 2, 6, 7, 8, 3, 9, 10, 11, 4, 5], [], [12, 13, 14]);
  }

  /** Deletes up to `k` bytes between the `before` and `after` parts; `gone` is what goes. */
  method DeleteBetween(b: FlexyBuffer, before: seq<bv8>, gone: seq<bv8>, after: seq<bv8>, k: nat)
    returns (w: FlexyBuffer, count: nat)
    requires Valid(b)
    requires ToBuffer(b) == before + gone + after
    requires |gone| == Min(k, |gone| + |after|)
    ensures Valid(w) && w.cfg == b.cfg
    ensures count == |gone|
    ensures w.size == b.size - count && w.position == |before|
    ensures ToBuffer(w) == before + after
  {
    var moved := MoveTo(b, |before|);
    var e := Delete(moved, k).value;
    w, count := e.buf, e.count;
    DeleteContent(moved, k);
    CutJoin(before, gone + after);
    CutJoin(gone, after);
    assert before + gone + after == before + (gone + after);
  }

  /**
   * The delete example on a default buffer holding 1..14: delete two bytes inside the
   * content, four near its end (only two are there), and four at its end (none are).
   */
  method DeleteExample() returns (a: FlexyBuffer, b: FlexyBuffer, c: FlexyBuffer)
    ensures Valid(a) && a.size == 12 && ToBuffer(a) == [1, 2, 5, 6, 7, 8, 9, 10, 11, 12, 13, 14]
    ensures Valid(b) && b.size == 10 && ToBuffer(b) == [1, 2, 5, 6, 7, 8, 9, 10, 11, 12]
    ensures Valid(c) && c.size == 10 && ToBuffer(c) == ToBuffer(b)
  {
    var e := New(NoOptions);
    CeilBounds(e.cfg.maxSize, e.cfg.pageSize);
    var w := WriteFresh(e, [1, 2] + [3, 4] + [5, 6, 7, 8, 9, 10, 11, 12, 13, 14]);
    var n;
    a, n := DeleteBetween(w, [1, 2], [3, 4], [5, 6, 7, 8, 9, 10, 11, 12, 13, 14], 2);
    assert [1, 2] + [5, 6, 7, 8, 9, 10, 11, 12, 13, 14] == [1, 2, 5, 6, 7, 8, 9, 10, 11, 12] + [13, 14] + [];
    b, n := DeleteBetween(a, [1, 2, 5, 6, 7, 8, 9, 10, 11, 12], [13, 14], [], 4);
    assert [1, 2, 5, 6, 7, 8, 9, 10, 11, 12] + [] + [] == [1, 2, 5, 6, 7, 8, 9, 10, 11, 12];
    c, n := DeleteBetween(b, [1, 2, 5, 6, 7, 8, 9, 10, 11, 12], [], [], 4);
  }

  /**
   * A typed write as written, on 5-byte pages after one byte has been written: the
   * cursor lands at 3 in a content of 2 bytes and the call returns 2. The intended write
   * leaves the cursor at 2 and returns 1.
   */
  method TypedWriteAfterOneByte() returns (asWritten: Edit, intended: Edit)
    ensures asWritten.buf.size == 2 && asWritten.buf.position == 3 && asWritten.count == 2
    ensures !Valid(asWritten.buf)
    ensures intended.buf.size == 2 && intended.buf.position == 2 && intended.count == 1
    ensures Valid(intended.buf)
  {
    var e := New(PagedOptions(5));
    CeilBounds(e.cfg.maxSize, 5);
    var one := WriteFresh(e, [1]);
    asWritten := WriteNumberAsWritten(one, Reader.UInt8, [2]).value;
    WriteNumberAsWrittenBreaksInvariant(one, Reader.UInt8, [2]);
    intended := WriteNumber(one, Reader.UInt8, [2]).value;
  }
}

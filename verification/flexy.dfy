/**
 * `FlexyBuffer`: a growable byte buffer with a cursor. The backing store is allocated
 * in whole pages, grows on demand up to a page-rounded limit, and shrinks back to its
 * floor of `minPages` pages on housekeeping. The logical `size` is the number of valid
 * bytes; the store's length is the capacity. All reads go through the `Reader` cursor
 * with `size` as the readable end.
 */
module Flexy {
  import opened Wrappers
  import opened Errors
  import opened Pages
  import Reader

  const DefaultPageSize: nat := 4096
  const DefaultHouseKeepMs: nat := 5000
  const DefaultMaxSize: nat := 1024 * 1024 * 10

  /** The constructor's optional settings; `None` is an omitted setting. */
  datatype Options = Options(
    minPages: Option<int>,
    pageSize: Option<nat>,
    maxLength: Option<nat>,
    houseKeepMs: Option<nat>)

  datatype Config = Config(pageSize: nat, minPages: nat, maxSize: nat, houseKeepMs: nat)

  predicate ConfigOk(cfg: Config) {
    cfg.pageSize > 0 && cfg.minPages >= 1 && cfg.maxSize > 0
  }

  /** Number of pages the size limit allows. */
  function MaxPages(cfg: Config): nat
    requires cfg.pageSize > 0
  {
    Ceil(cfg.maxSize, cfg.pageSize)
  }

  /** The largest logical size a buffer can reach: the limit rounded up to whole pages. */
  function Limit(cfg: Config): nat
    requires cfg.pageSize > 0
  {
    cfg.pageSize * MaxPages(cfg)
  }

  datatype FlexyBuffer = FlexyBuffer(cfg: Config, store: seq<bv8>, size: nat, position: nat)

  /** A buffer together with the count an operation returns. */
  datatype Edit = Edit(buf: FlexyBuffer, count: nat)

  /** A buffer together with the bytes a read handed out. */
  datatype Got = Got(buf: FlexyBuffer, data: seq<bv8>)

  /**
   * The state invariant: the cursor lies inside the logical content, the content inside
   * the store, the store is a whole number of pages between the floor of `minPages`
   * pages and the page-rounded limit, and the content respects the limit.
   */
  predicate Valid(b: FlexyBuffer) {
    && ConfigOk(b.cfg)
    && b.position <= b.size <= |b.store|
    && |b.store| % b.cfg.pageSize == 0
    && b.cfg.pageSize * b.cfg.minPages <= |b.store|
    && |b.store| <= b.cfg.pageSize * Max(b.cfg.minPages, MaxPages(b.cfg))
    && b.size <= Limit(b.cfg)
  }

  /**
   * Stand-in for the bytes of a fresh uninitialised allocation. The model fills them with
   * zeros; no contract says anything about bytes at or past `size`.
   */
  function Fresh(n: nat): (r: seq<bv8>)
    ensures |r| == n
  {
    seq(n, _ => 0)
  }

  /** A JavaScript `x || d` on an optional count: an omitted setting or 0 gives the default. */
  function OrDefault(o: Option<nat>, d: nat): nat {
    if o.Some? && o.value != 0 then o.value else d
  }

  /** The settings after the constructor's defaults and the clamp of `minPages` to at least 1. */
  function Configure(o: Options): (cfg: Config)
    ensures ConfigOk(cfg)
    ensures o.pageSize.Some? && o.pageSize.value > 0 ==> cfg.pageSize == o.pageSize.value
    ensures o.pageSize.None? || o.pageSize == Some(0) ==> cfg.pageSize == DefaultPageSize
    ensures o.minPages.Some? && o.minPages.value >= 1 ==> cfg.minPages == o.minPages.value
    ensures o.minPages.None? || o.minPages.value <= 0 ==> cfg.minPages == 1
    ensures o.maxLength.Some? && o.maxLength.value > 0 ==> cfg.maxSize == o.maxLength.value
    ensures o.maxLength.None? || o.maxLength == Some(0) ==> cfg.maxSize == DefaultMaxSize
    ensures o.houseKeepMs.Some? && o.houseKeepMs.value > 0 ==> cfg.houseKeepMs == o.houseKeepMs.value
    ensures o.houseKeepMs.None? || o.houseKeepMs == Some(0) ==> cfg.houseKeepMs == DefaultHouseKeepMs
  {
    var minPages := if o.minPages.Some? && o.minPages.value != 0 then o.minPages.value else 1;
    Config(
      OrDefault(o.pageSize, DefaultPageSize),
      Max(minPages, 1),
      OrDefault(o.maxLength, DefaultMaxSize),
      OrDefault(o.houseKeepMs, DefaultHouseKeepMs))
  }

  /** The constructor: an empty buffer whose store is exactly the floor of `minPages` pages. */
  function New(o: Options): (b: FlexyBuffer)
    ensures Valid(b)
    ensures b.cfg == Configure(o)
    ensures b.size == 0 && b.position == 0
    ensures |b.store| == b.cfg.pageSize * b.cfg.minPages
  {
    var cfg := Configure(o);
    CeilOfPages(cfg.minPages, cfg.pageSize);
    MulMono(cfg.minPages, Max(cfg.minPages, MaxPages(cfg)), cfg.pageSize);
    FlexyBuffer(cfg, Fresh(cfg.pageSize * cfg.minPages), 0, 0)
  }

  /** `capacity`: the length of the backing store. */
  function Capacity(b: FlexyBuffer): (n: nat)
    ensures Valid(b) ==> b.size <= n && n % b.cfg.pageSize == 0 && n >= b.cfg.pageSize * b.cfg.minPages
  {
    |b.store|
  }

  /** `eof`: the cursor has reached the end of the logical content. */
  function Eof(b: FlexyBuffer): bool {
    b.position >= b.size
  }

  /** `toBuffer()`: exactly the logical content, never the unused capacity behind it. */
  function ToBuffer(b: FlexyBuffer): (r: seq<bv8>)
    requires b.size <= |b.store|
    ensures |r| == b.size
    ensures r <= b.store
  {
    b.store[..b.size]
  }

  /**
   * `setSize(n)`: fails with the limit error when `n` needs more pages than the limit
   * allows; otherwise reallocates to `Ceil(n)` pages when the store is too small (copying
   * the whole old store) and sets the size, pulling the cursor back to `n` if it lay past it.
   */
  function SetSize(b: FlexyBuffer, n: nat): (r: Result<FlexyBuffer, Error>)
    requires ConfigOk(b.cfg)
    ensures r.Failure? <==> n > Limit(b.cfg)
    ensures r.Failure? ==> r.error == LimitExceeded
    ensures r.Success? ==> && r.value.cfg == b.cfg
                           && r.value.size == n
                           && r.value.position == Min(b.position, n)
                           && b.store <= r.value.store
    ensures r.Success? && n <= |b.store| ==> r.value.store == b.store
  {
    var ps := b.cfg.pageSize;
    var newPages := Ceil(n, ps);
    CeilAtMost(n, ps, MaxPages(b.cfg));
    if newPages > MaxPages(b.cfg) then Failure(LimitExceeded)
    else
      var curPages := Ceil(|b.store|, ps);
      CeilAtMost(|b.store|, ps, newPages);
      CeilBounds(|b.store|, ps);
      CeilMono(n, |b.store|, ps);
      var store := if newPages > curPages then b.store + Fresh(ps * newPages - |b.store|) else b.store;
      Success(b.(store := store, size := n, position := Min(b.position, n)))
  }

  /** After a successful `setSize(n)` on a page-aligned store, the capacity is the larger of the old one and `Ceil(n)` pages. */
  lemma SetSizeCapacity(b: FlexyBuffer, n: nat)
    requires ConfigOk(b.cfg)
    requires |b.store| % b.cfg.pageSize == 0
    requires SetSize(b, n).Success?
    ensures |SetSize(b, n).value.store| == Max(|b.store|, b.cfg.pageSize * Ceil(n, b.cfg.pageSize))
    ensures |SetSize(b, n).value.store| > |b.store| <==> n > |b.store|
  {
    var ps := b.cfg.pageSize;
    AlignedCeil(|b.store|, ps);
    CeilBounds(n, ps);
    if Ceil(n, ps) > Ceil(|b.store|, ps) {
      MulLess(Ceil(|b.store|, ps), Ceil(n, ps), ps);
      CeilAtMost(n, ps, Ceil(|b.store|, ps));
    } else {
      MulMono(Ceil(n, ps), Ceil(|b.store|, ps), ps);
    }
  }

  /** `setSize` keeps the state invariant. */
  lemma SetSizeValid(b: FlexyBuffer, n: nat)
    requires Valid(b)
    ensures SetSize(b, n).Success? ==> Valid(SetSize(b, n).value)
  {
    var ps := b.cfg.pageSize;
    if SetSize(b, n).Success? {
      var r := SetSize(b, n).value;
      SetSizeCapacity(b, n);
      CeilBounds(n, ps);
      CeilAtMost(n, ps, MaxPages(b.cfg));
      MulMono(Ceil(n, ps), Max(b.cfg.minPages, MaxPages(b.cfg)), ps);
      if |r.store| != |b.store| {
        CeilOfPages(Ceil(n, ps), ps);
      }
    }
  }

  /** `growSize(len)`: `setSize(size + len)`; the cursor stays where it is. */
  function GrowSize(b: FlexyBuffer, len: nat): (r: Result<FlexyBuffer, Error>)
    requires Valid(b)
    ensures r.Failure? <==> b.size + len > Limit(b.cfg)
    ensures r.Failure? ==> r.error == LimitExceeded
    ensures r.Success? ==> && Valid(r.value)
                           && r.value.cfg == b.cfg
                           && r.value.size == b.size + len
                           && r.value.position == b.position
                           && b.store <= r.value.store
  {
    SetSizeValid(b, b.size + len);
    SetSize(b, b.size + len)
  }

  /**
   * `_ensureSize(len)`: grows the logical size by however far a `len`-byte write at the
   * cursor would run past it, and by nothing when it fits.
   */
  function EnsureSize(b: FlexyBuffer, len: nat): (r: Result<FlexyBuffer, Error>)
    requires Valid(b)
    ensures r.Failure? <==> b.position + len > Limit(b.cfg)
    ensures r.Failure? ==> r.error == LimitExceeded
    ensures r.Success? ==> && Valid(r.value)
                           && r.value.cfg == b.cfg
                           && r.value.size == Max(b.size, b.position + len)
                           && r.value.position == b.position
                           && b.store <= r.value.store
  {
    var n := b.position + len - b.size;
    if n > 0 then GrowSize(b, n) else Success(b)
  }

  /** `s` with the bytes at `[at, at + |d|)` replaced by `d`. */
  function Overwrite(s: seq<bv8>, at: nat, d: seq<bv8>): (r: seq<bv8>)
    requires at + |d| <= |s|
    ensures |r| == |s|
    ensures r[..at] == s[..at]
    ensures r[at .. at + |d|] == d
    ensures r[at + |d| ..] == s[at + |d| ..]
  {
    var r := seq(|s|, i requires 0 <= i < |s| => if at <= i < at + |d| then d[i - at] else s[i]);
    assert r[..at] == s[..at];
    assert r[at .. at + |d|] == d;
    assert r[at + |d| ..] == s[at + |d| ..];
    r
  }

  /** One byte of an overwritten store. */
  lemma OverwriteAt(s: seq<bv8>, at: nat, d: seq<bv8>, i: nat)
    requires at + |d| <= |s|
    requires i < |s|
    ensures Overwrite(s, at, d)[i] == if at <= i < at + |d| then d[i - at] else s[i]
  {
  }

  /**
   * `writeBytes(d)`: makes room for `d` at the cursor, copies it there and moves the
   * cursor past it; returns `|d|`.
   */
  function WriteBytes(b: FlexyBuffer, d: seq<bv8>): (r: Result<Edit, Error>)
    requires Valid(b)
    ensures r.Failure? <==> b.position + |d| > Limit(b.cfg)
    ensures r.Failure? ==> r.error == LimitExceeded
    ensures r.Success? ==> && Valid(r.value.buf)
                           && r.value.buf.cfg == b.cfg
                           && r.value.count == |d|
                           && r.value.buf.size == Max(b.size, b.position + |d|)
                           && r.value.buf.position == b.position + |d|
                           && r.value.buf.store[..b.position] == b.store[..b.position]
                           && r.value.buf.store[b.position .. b.position + |d|] == d
  {
    var g :- EnsureSize(b, |d|);
    var w := g.(store := Overwrite(g.store, g.position, d), position := g.position + |d|);
    assert w.store[..b.position] == g.store[..b.position];
    assert w.store[b.position .. b.position + |d|] == d;
    Success(Edit(w, |d|))
  }

  /** `writeString(str)` on the already-encoded bytes of `str`: an empty string writes nothing. */
  function WriteString(b: FlexyBuffer, encoded: seq<bv8>): (r: Result<Edit, Error>)
    requires Valid(b)
    ensures r.Failure? <==> b.position + |encoded| > Limit(b.cfg)
    ensures r.Success? ==> Valid(r.value.buf) && r.value.count == |encoded|
    ensures |encoded| == 0 ==> r == Success(Edit(b, 0))
  {
    if |encoded| == 0 then Success(Edit(b, 0))
    else
      var g :- EnsureSize(b, |encoded|);
      Success(Edit(g.(store := Overwrite(g.store, g.position, encoded),
                      position := g.position + |encoded|), |encoded|))
  }

  /** `len` copies of `v`. */
  function Repeat(v: bv8, len: nat): (r: seq<bv8>)
    ensures |r| == len
  {
    seq(len, _ => v)
  }

  /**
   * `fill(value = 0, len = 1)`: makes room for `len` bytes at the cursor, sets them all
   * to `value` and moves the cursor past them.
   */
  function Fill(b: FlexyBuffer, value: Option<bv8>, len: Option<nat>): (r: Result<FlexyBuffer, Error>)
    requires Valid(b)
    ensures r.Failure? <==> b.position + len.GetOr(1) > Limit(b.cfg)
    ensures r.Failure? ==> r.error == LimitExceeded
    ensures r.Success? ==> && Valid(r.value)
                           && r.value.size == Max(b.size, b.position + len.GetOr(1))
                           && r.value.position == b.position + len.GetOr(1)
                           && r.value.store[..b.position] == b.store[..b.position]
    ensures r.Success? ==> forall i | b.position <= i < b.position + len.GetOr(1) ::
                             r.value.store[i] == value.GetOr(0)
  {
    var v := value.GetOr(0);
    var n := len.GetOr(1);
    var g :- EnsureSize(b, n);
    var f := g.(store := Overwrite(g.store, g.position, Repeat(v, n)), position := g.position + n);
    assert f.store[..b.position] == g.store[..b.position];
    Success(f)
  }

  /** The number of bytes `copyWithin(target, start)` moves in a region of `len` bytes. */
  function CopyCount(len: nat, target: nat, start: nat): nat {
    if target <= len && start <= len then Min(len - start, len - target) else 0
  }

  /**
   * `copyWithin(target, start)` of a typed array: an overlap-safe move of the bytes from
   * `start` to the end of the region onto `target`, cut off at the end of the region.
   */
  function CopyWithin(s: seq<bv8>, target: nat, start: nat): (r: seq<bv8>)
    ensures |r| == |s|
  {
    var k := CopyCount(|s|, target, start);
    seq(|s|, i requires 0 <= i < |s| => if target <= i < target + k then s[start + (i - target)] else s[i])
  }

  /** One byte after `copyWithin`: bytes in the target window come from the source window, all others stay. */
  lemma CopyWithinAt(s: seq<bv8>, target: nat, start: nat, i: nat)
    requires i < |s|
    ensures CopyWithin(s, target, start)[i] ==
              if target <= i < target + CopyCount(|s|, target, start)
              then s[start + (i - target)] else s[i]
  {
  }

  /**
   * `insertBytes(d)`: grows the size by `|d|` (the code's `Math.min(size - position, 0)`
   * is 0 for every cursor inside the content), shifts the tail from the cursor right by
   * `|d|`, then writes `d` at the cursor. Returns that growth.
   */
  function InsertBytes(b: FlexyBuffer, d: seq<bv8>): (r: Result<Edit, Error>)
    requires Valid(b)
    ensures r.Failure? <==> b.size + |d| > Limit(b.cfg)
    ensures r.Failure? ==> r.error == LimitExceeded
    ensures r.Success? ==> && Valid(r.value.buf)
                           && r.value.buf.cfg == b.cfg
                           && r.value.count == |d|
                           && r.value.buf.size == b.size + |d|
                           && r.value.buf.position == b.position + |d|
  {
    var actual: int := |d| - Min(b.size - b.position, 0);
    var grown :- if actual > 0 then GrowSize(b, actual) else Success(b);
    Success(Edit(WriteBytes(OpenGap(grown, |d|), d).value.buf, actual))
  }

  /** The shift inside `insertBytes`: when the cursor is inside the content, the store from the cursor on moves right by `n`. */
  function OpenGap(g: FlexyBuffer, n: nat): (r: FlexyBuffer)
    ensures Valid(g) ==> Valid(r)
    ensures r == g.(store := r.store)
  {
    if g.position < g.size
    then g.(store := CopyWithin(g.store, g.position + n, g.position))
    else g
  }

  /**
   * `delete(count)`: removes up to `count` bytes at the cursor by shifting the rest of the
   * store left and shrinking the size; the cursor and the capacity stay. Returns how many
   * bytes went.
   */
  function Delete(b: FlexyBuffer, count: nat): (r: Result<Edit, Error>)
    requires Valid(b)
    ensures r.Success?
    ensures r.value.count == Min(count, b.size - b.position)
    ensures && Valid(r.value.buf)
            && r.value.buf.cfg == b.cfg
            && r.value.buf.size == b.size - r.value.count
            && r.value.buf.position == b.position
            && |r.value.buf.store| == |b.store|
    ensures r.value.count == 0 ==> r.value.buf == b
  {
    var actual := Min(count, Max(b.size - b.position, 0));
    if actual == 0 then Success(Edit(b, 0))
    else
      var shifted := b.(store := CopyWithin(b.store, b.position, b.position + actual));
      SetSizeValid(shifted, b.size - actual);
      Success(Edit(SetSize(shifted, b.size - actual).value, actual))
  }

  /**
   * `_houseKeep()`: empties the buffer and, when the store holds more pages than needed
   * (at least `minPages`), replaces it with a fresh one of that many pages.
   */
  function HouseKeep(b: FlexyBuffer): (r: FlexyBuffer)
    requires ConfigOk(b.cfg)
    ensures r.cfg == b.cfg && r.size == 0 && r.position == 0
    ensures |r.store| <= |b.store|
  {
    var ps := b.cfg.pageSize;
    var z := SetSize(b, 0).value;
    var curPages := Ceil(|z.store|, ps);
    var needPages := Max(b.cfg.minPages, Ceil(z.size, ps));
    if needPages < curPages then
      CeilBounds(|b.store|, ps);
      MulLess(needPages, curPages, ps);
      z.(store := Fresh(ps * needPages))
    else z
  }

  /** Housekeeping a valid buffer leaves a valid, empty buffer whose store is exactly the floor. */
  lemma HouseKeepFloor(b: FlexyBuffer)
    requires Valid(b)
    ensures Valid(HouseKeep(b))
    ensures |HouseKeep(b).store| == b.cfg.pageSize * b.cfg.minPages
  {
    var ps := b.cfg.pageSize;
    var z := SetSize(b, 0).value;
    assert z.store == b.store;
    DivUnique(ps - 1, ps, 0, ps - 1);
    assert Ceil(0, ps) == 0;
    AlignedAtLeast(|b.store|, ps, b.cfg.minPages);
    CeilOfPages(b.cfg.minPages, ps);
    MulMono(b.cfg.minPages, Max(b.cfg.minPages, MaxPages(b.cfg)), ps);
  }

  /** `reset(shrink)`: empties the buffer; with `shrink` also shrinks the store to its floor. */
  function Reset(b: FlexyBuffer, shrink: bool): (r: FlexyBuffer)
    requires ConfigOk(b.cfg)
    ensures r.cfg == b.cfg && r.size == 0 && r.position == 0
    ensures !shrink ==> r.store == b.store
    ensures Valid(b) ==> Valid(r)
    ensures shrink && Valid(b) ==> |r.store| == b.cfg.pageSize * b.cfg.minPages
  {
    var emptied := b.(size := 0, position := 0);
    if shrink then
      assert Valid(emptied) ==> Valid(HouseKeep(emptied))
                                && |HouseKeep(emptied).store| == b.cfg.pageSize * b.cfg.minPages by {
        if Valid(emptied) {
          HouseKeepFloor(emptied);
        }
      }
      HouseKeep(emptied)
    else emptied
  }

  // ---------------------------------------------------------------------------
  // Reads, lent to the reader with the logical size as the readable end
  // ---------------------------------------------------------------------------

  /** The reader's view of a buffer: the store, readable up to `size`, not up to the capacity. */
  function View(b: FlexyBuffer): Reader.Cursor {
    Reader.Cursor(b.store, b.size, b.position)
  }

  /** Carries a reader result back into the buffer: only the cursor can have moved. */
  function Lift(b: FlexyBuffer, r: Result<Reader.Read, Error>): Result<Got, Error> {
    match r
    case Failure(e) => Failure(e)
    case Success(rd) => Success(Got(b.(position := rd.cursor.position), rd.data))
  }

  /** A fixed-width read on the buffer: bounded by the logical size, whatever the capacity. */
  function ReadNumber(b: FlexyBuffer, kind: Reader.NumKind): (r: Result<Got, Error>)
    requires Valid(b)
    ensures r.Failure? <==> b.position + Reader.Width(kind) > b.size
    ensures r.Failure? ==> r.error == OutOfBounds
    ensures r.Success? ==> && Valid(r.value.buf)
                           && r.value.buf == b.(position := b.position + Reader.Width(kind))
                           && r.value.data == ToBuffer(b)[b.position .. b.position + Reader.Width(kind)]
  {
    Lift(b, Reader.ReadNumber(View(b), kind))
  }

  /** `readBytes(len?)` on the buffer: the slice always lies inside the logical content. */
  function ReadBytes(b: FlexyBuffer, len: Option<nat>): (r: Result<Got, Error>)
    requires Valid(b)
    ensures len.Some? && len.value > 0 ==> (r.Failure? <==> b.position + len.value > b.size)
    ensures r.Failure? ==> r.error == OutOfBounds && len.Some? && len.value > 0
    ensures len == Some(0) ==> r == Success(Got(b, []))
    ensures len.None? ==> r.Success? && r.value.buf.position == b.size
                          && r.value.data == ToBuffer(b)[b.position..]
    ensures r.Success? ==> && Valid(r.value.buf)
                           && r.value.buf.store == b.store && r.value.buf.size == b.size
                           && b.position <= r.value.buf.position
                           && r.value.data == ToBuffer(b)[b.position .. r.value.buf.position]
    ensures r.Success? && len.Some? ==> r.value.buf.position == b.position + len.value
  {
    Lift(b, Reader.ReadBytes(View(b), len))
  }

  /** `readString(len)` on the buffer's already-encoded bytes. */
  function ReadString(b: FlexyBuffer, len: int): (r: Result<Got, Error>)
    requires Valid(b)
    ensures len < 0 ==> r == Success(Got(b, []))
    ensures len >= 0 ==> (r.Failure? <==> b.position + len > b.size)
    ensures r.Failure? ==> r.error == OutOfBounds
    ensures len >= 0 && r.Success? ==> && Valid(r.value.buf)
                                       && r.value.buf == b.(position := b.position + len)
                                       && r.value.data == ToBuffer(b)[b.position .. b.position + len]
  {
    Lift(b, Reader.ReadString(View(b), len))
  }

  /** `moveTo(pos)` on the buffer: the cursor is clamped into the logical content. */
  function MoveTo(b: FlexyBuffer, pos: int): (r: FlexyBuffer)
    ensures r == b.(position := if pos < 0 then 0 else Min(pos, b.size))
    ensures Valid(b) ==> Valid(r)
  {
    b.(position := Reader.MoveTo(View(b), pos).position)
  }

  /** `moveBy(n)` on the buffer. */
  function MoveBy(b: FlexyBuffer, n: int): (r: FlexyBuffer)
    ensures r == MoveTo(b, b.position + n)
    ensures Valid(b) ==> Valid(r)
  {
    b.(position := Reader.MoveBy(View(b), n).position)
  }

  /** `eof` holds exactly when not even one byte can be read. */
  lemma EofIffNothingToRead(b: FlexyBuffer)
    requires Valid(b)
    ensures Eof(b) <==> ReadNumber(b, Reader.UInt8).Failure?
    ensures Eof(b) <==> ReadBytes(b, None) == Success(Got(b, []))
  {
    if Eof(b) {
      assert ToBuffer(b)[b.position..] == [];
    }
  }

  // ---------------------------------------------------------------------------
  // Typed writes
  // ---------------------------------------------------------------------------

  /**
   * A typed write (`writeInt8`, `writeUInt16BE`, ...) of a value the platform has already
   * encoded into `enc`: makes room for the width at the cursor, stores the bytes and
   * moves the cursor past them, returning the width. This is the intended behaviour;
   * see `WriteNumberAsWritten` for the code as written.
   */
  function WriteNumber(b: FlexyBuffer, kind: Reader.NumKind, enc: seq<bv8>): (r: Result<Edit, Error>)
    requires Valid(b)
    requires |enc| == Reader.Width(kind)
    ensures r.Failure? <==> b.position + Reader.Width(kind) > Limit(b.cfg)
    ensures r.Failure? ==> r.error == LimitExceeded
    ensures r.Success? ==> && Valid(r.value.buf)
                           && r.value.count == Reader.Width(kind)
                           && r.value.buf.size == Max(b.size, b.position + Reader.Width(kind))
                           && r.value.buf.position == b.position + Reader.Width(kind)
  {
    var w := Reader.Width(kind);
    var g :- EnsureSize(b, w);
    Success(Edit(g.(store := Overwrite(g.store, g.position, enc), position := g.position + w), w))
  }

  /**
   * Every typed write except `writeInt8` as written: the cursor is advanced by the value
   * the platform's `Buffer.writeX(value, offset)` returns, which is `offset` plus the
   * number of bytes written, and that value is also returned.
   */
  function WriteNumberAsWritten(b: FlexyBuffer, kind: Reader.NumKind, enc: seq<bv8>): (r: Result<Edit, Error>)
    requires Valid(b)
    requires kind != Reader.Int8
    requires |enc| == Reader.Width(kind)
    ensures r.Failure? <==> b.position + Reader.Width(kind) > Limit(b.cfg)
    ensures r.Success? ==> && r.value.count == b.position + Reader.Width(kind)
                           && r.value.buf.position == 2 * b.position + Reader.Width(kind)
                           && r.value.buf.size == Max(b.size, b.position + Reader.Width(kind))
  {
    var w := Reader.Width(kind);
    var g :- EnsureSize(b, w);
    var actual := g.position + w;
    Success(Edit(g.(store := Overwrite(g.store, g.position, enc), position := g.position + actual), actual))
  }

  // ---------------------------------------------------------------------------
  // Properties relating the operations to reference meanings and to each other
  // ---------------------------------------------------------------------------

  /** Reference meaning of writing `d` at `at` into content `s`: `d` replaces what it covers and extends `s` if it runs past the end. */
  function Overwritten(s: seq<bv8>, at: nat, d: seq<bv8>): seq<bv8>
    requires at <= |s|
  {
    s[..at] + d + (if at + |d| < |s| then s[at + |d|..] else [])
  }

  /** `writeBytes` changes the logical content exactly as `Overwritten` says. */
  lemma WriteBytesContent(b: FlexyBuffer, d: seq<bv8>)
    requires Valid(b)
    requires WriteBytes(b, d).Success?
    ensures ToBuffer(WriteBytes(b, d).value.buf) == Overwritten(ToBuffer(b), b.position, d)
  {
    var p := b.position;
    var g := EnsureSize(b, |d|).value;
    var r := WriteBytes(b, d).value.buf;
    assert r.store == Overwrite(g.store, p, d);
    var lhs := ToBuffer(r);
    var rhs := Overwritten(ToBuffer(b), p, d);
    assert |lhs| == |rhs|;
    forall i | 0 <= i < |lhs|
      ensures lhs[i] == rhs[i]
    {
      OverwriteAt(g.store, p, d, i);
      if i < p {
        assert g.store[i] == b.store[i];
      } else if i >= p + |d| {
        assert g.store[i] == b.store[i];
      }
    }
    SameBytes(lhs, rhs);
  }

  /** `writeString` of already-encoded bytes is `writeBytes` of them. */
  lemma WriteStringIsWriteBytes(b: FlexyBuffer, encoded: seq<bv8>)
    requires Valid(b)
    ensures WriteString(b, encoded) == WriteBytes(b, encoded)
  {
    if |encoded| == 0 {
      assert Overwrite(b.store, b.position, encoded) == b.store;
    }
  }

  /** `fill(v, len)` is `writeBytes` of `len` copies of `v`. */
  lemma FillIsWriteBytes(b: FlexyBuffer, v: bv8, len: nat)
    requires Valid(b)
    ensures Fill(b, Some(v), Some(len)).Success? <==> WriteBytes(b, Repeat(v, len)).Success?
    ensures Fill(b, Some(v), Some(len)).Success? ==>
              Fill(b, Some(v), Some(len)).value == WriteBytes(b, Repeat(v, len)).value.buf
  {
  }

  /** The intended typed write is `writeBytes` of the encoded value. */
  lemma WriteNumberIsWriteBytes(b: FlexyBuffer, kind: Reader.NumKind, enc: seq<bv8>)
    requires Valid(b)
    requires |enc| == Reader.Width(kind)
    ensures WriteNumber(b, kind, enc) == WriteBytes(b, enc)
  {
  }

  /** Round trip: a typed write followed by stepping back and reading the same width returns the written bytes. */
  lemma WriteThenReadNumber(b: FlexyBuffer, kind: Reader.NumKind, enc: seq<bv8>)
    requires Valid(b)
    requires |enc| == Reader.Width(kind)
    requires WriteNumber(b, kind, enc).Success?
    ensures var w := WriteNumber(b, kind, enc).value.buf;
            ReadNumber(MoveBy(w, -(Reader.Width(kind) as int)), kind) == Success(Got(w, enc))
  {
    var w := WriteNumber(b, kind, enc).value.buf;
    var width := Reader.Width(kind);
    WriteNumberIsWriteBytes(b, kind, enc);
    var back := MoveBy(w, -(width as int));
    assert back == w.(position := b.position);
    assert ToBuffer(back)[b.position .. b.position + width] == w.store[b.position .. b.position + width];
  }

  /**
   * As written, a typed write away from the start of the buffer leaves the cursor
   * `position` bytes further on than the bytes it wrote, and returns more than the width.
   */
  lemma WriteNumberAsWrittenOvershoots(b: FlexyBuffer, kind: Reader.NumKind, enc: seq<bv8>)
    requires Valid(b)
    requires kind != Reader.Int8
    requires |enc| == Reader.Width(kind)
    requires b.position > 0
    requires WriteNumber(b, kind, enc).Success?
    ensures WriteNumberAsWritten(b, kind, enc).Success?
    ensures WriteNumberAsWritten(b, kind, enc).value.buf.position
            == WriteNumber(b, kind, enc).value.buf.position + b.position
    ensures WriteNumberAsWritten(b, kind, enc).value.count > Reader.Width(kind)
  {
  }

  /** As written, appending a typed value at a non-zero position puts the cursor past the end of the content. */
  lemma WriteNumberAsWrittenBreaksInvariant(b: FlexyBuffer, kind: Reader.NumKind, enc: seq<bv8>)
    requires Valid(b)
    requires kind != Reader.Int8
    requires |enc| == Reader.Width(kind)
    requires 0 < b.position == b.size
    requires b.size + Reader.Width(kind) <= Limit(b.cfg)
    ensures WriteNumberAsWritten(b, kind, enc).Success?
    ensures !Valid(WriteNumberAsWritten(b, kind, enc).value.buf)
  {
  }

  /** Two byte strings that agree at every index are equal. */
  lemma SameBytes(a: seq<bv8>, b: seq<bv8>)
    requires |a| == |b|
    requires forall i | 0 <= i < |a| :: a[i] == b[i]
    ensures a == b
  {
  }

  /**
   * One byte of the store after the shift and the write of `insertBytes`: `g` extends the
   * store `s` whose content is `size` bytes, and `total` is the size after the growth.
   */
  lemma ShiftThenOverwriteAt(s: seq<bv8>, g: seq<bv8>, size: nat, total: nat, p: nat, d: seq<bv8>, i: nat)
    requires p <= size <= |s|
    requires s <= g
    requires total == size + |d| <= |g|
    requires i < total
    ensures var shifted := if p < total then CopyWithin(g, p + |d|, p) else g;
            Overwrite(shifted, p, d)[i] ==
              if i < p then s[i] else if i < p + |d| then d[i - p] else s[i - |d|]
  {
    var n := |d|;
    var shifted := if p < total then CopyWithin(g, p + n, p) else g;
    OverwriteAt(shifted, p, d, i);
    if i < p {
      assert g[i] == s[i];
      if p < total {
        CopyWithinBelow(g, p + n, p, i);
      }
    } else if i >= p + n {
      assert g[i - n] == s[i - n];
      CopyWithinShifted(g, p, n, i);
    }
  }

  /** `copyWithin` leaves the bytes below its target alone. */
  lemma CopyWithinBelow(s: seq<bv8>, target: nat, start: nat, i: nat)
    requires i < target && i < |s|
    ensures CopyWithin(s, target, start)[i] == s[i]
  {
    CopyWithinAt(s, target, start, i);
  }

  /** Moving the tail from `p` right by `n` puts the byte from `i - n` at `i`. */
  lemma CopyWithinShifted(s: seq<bv8>, p: nat, n: nat, i: nat)
    requires p + n <= i < |s|
    ensures CopyWithin(s, p + n, p)[i] == s[i - n]
  {
    CopyWithinAt(s, p + n, p, i);
  }

  /**
   * `insertBytes` on a valid buffer grows by exactly `|d|` (to `grown`), opens the gap
   * (giving `g`) and overwrites the gap with `d`, without any further growth.
   */
  lemma InsertBytesSteps(b: FlexyBuffer, d: seq<bv8>) returns (grown: FlexyBuffer, g: FlexyBuffer)
    requires Valid(b)
    requires InsertBytes(b, d).Success?
    ensures grown.position == b.position
    ensures grown.size == b.size + |d| <= |grown.store|
    ensures b.store <= grown.store
    ensures g == grown.(store := g.store)
    ensures g.store == if grown.position < grown.size
                       then CopyWithin(grown.store, grown.position + |d|, grown.position)
                       else grown.store
    ensures InsertBytes(b, d).value.buf
            == g.(store := Overwrite(g.store, g.position, d), position := g.position + |d|)
  {
    assert Min(b.size - b.position, 0) == 0;
    grown := if |d| > 0 then GrowSize(b, |d|).value else b;
    g := OpenGap(grown, |d|);
    OpenGapStore(grown, |d|);
    WriteInsideContent(g, d);
  }

  /** The store `OpenGap` leaves behind. */
  lemma OpenGapStore(g: FlexyBuffer, n: nat)
    ensures OpenGap(g, n).store ==
              if g.position < g.size then CopyWithin(g.store, g.position + n, g.position) else g.store
  {
  }

  /** A write that ends inside the content needs no growth and only overwrites the store. */
  lemma WriteInsideContent(b: FlexyBuffer, d: seq<bv8>)
    requires Valid(b)
    requires b.position + |d| <= b.size
    ensures WriteBytes(b, d).Success?
    ensures WriteBytes(b, d).value.buf == b.(store := Overwrite(b.store, b.position, d),
                                             position := b.position + |d|)
  {
    assert EnsureSize(b, |d|) == Success(b);
  }

  /** `insertBytes(d)` puts `d` at the cursor and keeps everything after it, shifted by `|d|`. */
  lemma InsertBytesContent(b: FlexyBuffer, d: seq<bv8>)
    requires Valid(b)
    requires InsertBytes(b, d).Success?
    ensures var c := ToBuffer(b);
            ToBuffer(InsertBytes(b, d).value.buf) == c[..b.position] + d + c[b.position..]
  {
    var grown, g := InsertBytesSteps(b, d);
    SplicedContent(b, grown, g, InsertBytes(b, d).value.buf, d);
  }

  /**
   * The content after the two steps of `insertBytes`: `grown` is `b` grown by `|d|`, `g`
   * is `grown` with the gap opened, and `w` is `g` with `d` written into the gap.
   */
  lemma SplicedContent(b: FlexyBuffer, grown: FlexyBuffer, g: FlexyBuffer, w: FlexyBuffer, d: seq<bv8>)
    requires b.position <= b.size <= |b.store|
    requires b.store <= grown.store
    requires grown.position == b.position
    requires grown.size == b.size + |d| <= |grown.store|
    requires g == grown.(store := g.store)
    requires g.store == if grown.position < grown.size
                        then CopyWithin(grown.store, grown.position + |d|, grown.position)
                        else grown.store
    requires w == g.(store := Overwrite(g.store, g.position, d), position := g.position + |d|)
    ensures ToBuffer(w) == ToBuffer(b)[..b.position] + d + ToBuffer(b)[b.position..]
  {
    var p := grown.position;
    var c := ToBuffer(b);
    var lhs := ToBuffer(w);
    var rhs := c[..p] + d + c[p..];
    forall i | 0 <= i < |lhs|
      ensures lhs[i] == rhs[i]
    {
      ShiftThenOverwriteAt(b.store, grown.store, b.size, grown.size, p, d, i);
      CutAt(c, p, d, i);
    }
    SameBytes(lhs, rhs);
  }

  /** One byte of `c[..p] + d + c[p..]`. */
  lemma CutAt(c: seq<bv8>, p: nat, d: seq<bv8>, i: nat)
    requires p <= |c|
    requires i < |c| + |d|
    ensures (c[..p] + d + c[p..])[i] ==
              if i < p then c[i] else if i < p + |d| then d[i - p] else c[i - |d|]
  {
  }

  /** Inserting nothing changes nothing and returns 0. */
  lemma InsertNothing(b: FlexyBuffer)
    requires Valid(b)
    ensures InsertBytes(b, []) == Success(Edit(b, 0))
  {
    var p := b.position;
    if p < b.size {
      var moved := CopyWithin(b.store, p, p);
      forall i | 0 <= i < |moved|
        ensures moved[i] == b.store[i]
      {
        CopyWithinAt(b.store, p, p, i);
      }
      assert moved == b.store;
    }
    assert Overwrite(b.store, p, []) == b.store;
  }

  /** `delete(k)` removes the bytes `[position, position + count)` from the content and keeps the rest in order. */
  lemma DeleteContent(b: FlexyBuffer, k: nat)
    requires Valid(b)
    ensures var c := ToBuffer(b);
            var e := Delete(b, k).value;
            ToBuffer(e.buf) == c[..b.position] + c[b.position + e.count..]
  {
    var p := b.position;
    var a := Delete(b, k).value.count;
    var c := ToBuffer(b);
    if a > 0 {
      var moved := CopyWithin(b.store, p, p + a);
      var e := Delete(b, k).value.buf;
      assert e.store == moved;
      var lhs := ToBuffer(e);
      var rhs := c[..p] + c[p + a..];
      assert |lhs| == |rhs|;
      forall i | 0 <= i < |lhs|
        ensures lhs[i] == rhs[i]
      {
        CopyWithinAt(b.store, p, p + a, i);
        if i >= p {
          assert CopyCount(|b.store|, p, p + a) == |b.store| - p - a;
        }
      }
      SameBytes(lhs, rhs);
    } else {
      assert c[p + a..] == c[p..];
    }
  }

  /** Deleting, from the same position, the bytes just inserted restores the content, size and cursor. */
  lemma DeleteUndoesInsert(b: FlexyBuffer, d: seq<bv8>)
    requires Valid(b)
    requires InsertBytes(b, d).Success?
    ensures var back := MoveTo(InsertBytes(b, d).value.buf, b.position);
            var e := Delete(back, |d|).value;
            && e.count == |d|
            && e.buf.size == b.size
            && e.buf.position == b.position
            && ToBuffer(e.buf) == ToBuffer(b)
  {
    var p := b.position;
    var ins := InsertBytes(b, d).value.buf;
    InsertBytesContent(b, d);
    var back := MoveTo(ins, p);
    assert back.position == p;
    DeleteContent(back, |d|);
    var c := ToBuffer(b);
    CutSplice(c[..p], d, c[p..]);
    assert c[..p] + c[p..] == c;
  }

  /** Cutting the middle part `d` out of `x + d + y` leaves `x + y`. */
  lemma CutSplice(x: seq<bv8>, d: seq<bv8>, y: seq<bv8>)
    ensures var s := x + d + y; s[..|x|] + s[|x| + |d|..] == x + y
  {
    var s := x + d + y;
    SameBytes(s[..|x|] + s[|x| + |d|..], x + y);
  }
}

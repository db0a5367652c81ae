/**
 * The read cursor of `BufferReader`: a byte region, the number of bytes that may be
 * read (`size`) and the read position. A plain reader reads its whole region
 * (`size == |bytes|`); the growable buffer lends its backing store with `size` set to
 * its logical length, so every read here is bounded by that length and never by the
 * store's capacity.
 */
module Reader {
  import opened Wrappers
  import opened Errors

  /** The fixed-width accessors: signed and unsigned integers and floats, in both byte orders. */
  datatype NumKind =
    | Int8 | UInt8
    | Int16BE | UInt16BE | Int16LE | UInt16LE
    | Int32BE | UInt32BE | Int32LE | UInt32LE
    | BigInt64BE | BigUInt64BE | BigInt64LE | BigUInt64LE
    | FloatBE | FloatLE | DoubleBE | DoubleLE

  /** Number of bytes an accessor consumes. */
  function Width(k: NumKind): (w: nat)
    ensures w == 1 || w == 2 || w == 4 || w == 8
    ensures w == 1 <==> k == Int8 || k == UInt8
  {
    match k
    case Int8 | UInt8 => 1
    case Int16BE | UInt16BE | Int16LE | UInt16LE => 2
    case Int32BE | UInt32BE | Int32LE | UInt32LE | FloatBE | FloatLE => 4
    case BigInt64BE | BigUInt64BE | BigInt64LE | BigUInt64LE | DoubleBE | DoubleLE => 8
  }

  datatype Cursor = Cursor(bytes: seq<bv8>, size: nat, position: nat)

  /** The cursor never passes the readable end, and the readable end lies inside the region. */
  predicate Valid(c: Cursor) {
    c.position <= c.size <= |c.bytes|
  }

  /** The bytes and the cursor after a successful read. */
  datatype Read = Read(cursor: Cursor, data: seq<bv8>)

  /** A reader over a whole region, positioned at its start. */
  function Open(bytes: seq<bv8>): (c: Cursor)
    ensures Valid(c)
    ensures c.bytes == bytes && c.size == |bytes| && c.position == 0
  {
    Cursor(bytes, |bytes|, 0)
  }

  /** `_checkReadable`: fails when the last byte of a `w`-byte read would lie at or past `size`. */
  function CheckReadable(c: Cursor, w: int): (r: Outcome<Error>)
    ensures r.Fail? <==> c.position + w > c.size
    ensures r.Fail? ==> r.error == OutOfBounds
  {
    if c.position + w - 1 >= c.size then Fail(OutOfBounds) else Pass
  }

  /** A fixed-width read: the raw bytes handed to the platform decoder, and the advanced cursor. */
  function ReadNumber(c: Cursor, kind: NumKind): (r: Result<Read, Error>)
    requires Valid(c)
    ensures r.Failure? <==> c.position + Width(kind) > c.size
    ensures r.Failure? ==> r.error == OutOfBounds
    ensures r.Success? ==> && Valid(r.value.cursor)
                           && r.value.cursor.bytes == c.bytes
                           && r.value.cursor.size == c.size
                           && r.value.cursor.position == c.position + Width(kind)
                           && |r.value.data| == Width(kind)
                           && r.value.data == c.bytes[c.position .. r.value.cursor.position]
  {
    match CheckReadable(c, Width(kind))
    case Fail(e) => Failure(e)
    case Pass =>
      var next := c.position + Width(kind);
      Success(Read(c.(position := next), c.bytes[c.position .. next]))
  }

  /**
   * `readBytes(len?)`: with a positive `len` a bounds-checked slice of `len` bytes; with
   * `len` left out the rest up to `size`; with `len == 0` (a falsy length) an empty slice
   * and no check.
   */
  function ReadBytes(c: Cursor, len: Option<nat>): (r: Result<Read, Error>)
    requires Valid(c)
    ensures len.Some? && len.value > 0 ==>
              (r.Failure? <==> c.position + len.value > c.size)
    ensures r.Failure? ==> len.Some? && len.value > 0 && r.error == OutOfBounds
    ensures r.Success? ==> && Valid(r.value.cursor)
                           && r.value.cursor.bytes == c.bytes
                           && r.value.cursor.size == c.size
                           && c.position <= r.value.cursor.position
                           && r.value.data == c.bytes[c.position .. r.value.cursor.position]
    ensures r.Success? && len.Some? ==> r.value.cursor.position == c.position + len.value
    ensures len.None? ==> r.Success? && r.value.cursor.position == c.size
    ensures len == Some(0) ==> r == Success(Read(c, []))
  {
    if len.Some? && len.value != 0 && CheckReadable(c, len.value).Fail? then
      Failure(OutOfBounds)
    else
      var end := if len.Some? then c.position + len.value else c.size;
      assert end == c.position ==> c.(position := end) == c && c.bytes[c.position .. end] == [];
      Success(Read(c.(position := end), c.bytes[c.position .. end]))
  }

  /**
   * `readString(len)` on already-encoded bytes: a negative `len` reads nothing and leaves
   * the cursor alone; otherwise the `len` bytes are bounds-checked and consumed.
   */
  function ReadString(c: Cursor, len: int): (r: Result<Read, Error>)
    requires Valid(c)
    ensures len < 0 ==> r == Success(Read(c, []))
    ensures len >= 0 ==> (r.Failure? <==> c.position + len > c.size)
    ensures r.Failure? ==> r.error == OutOfBounds
    ensures len >= 0 && r.Success? ==> && Valid(r.value.cursor)
                                       && r.value.cursor.position == c.position + len
                                       && r.value.data == c.bytes[c.position .. c.position + len]
  {
    if len < 0 then Success(Read(c, []))
    else
      match CheckReadable(c, len)
      case Fail(e) => Failure(e)
      case Pass =>
        var next := c.position + len;
        Success(Read(c.(position := next), c.bytes[c.position .. next]))
  }

  /** `moveTo(pos)`: the cursor goes to `pos` clamped into `[0, size]`. */
  function MoveTo(c: Cursor, pos: int): (r: Cursor)
    ensures r.bytes == c.bytes && r.size == c.size
    ensures 0 <= r.position <= c.size
    ensures 0 <= pos <= c.size ==> r.position == pos
    ensures pos > c.size ==> r.position == c.size
    ensures pos < 0 ==> r.position == 0
  {
    var upper := if pos > c.size then c.size else pos;
    var clamped := if upper < 0 then 0 else upper;
    c.(position := clamped)
  }

  /** `moveBy(n)`: a relative move, clamped the same way. */
  function MoveBy(c: Cursor, n: int): (r: Cursor)
    ensures Valid(c) ==> Valid(r)
    ensures r == MoveTo(c, c.position + n)
  {
    MoveTo(c, c.position + n)
  }

  /** Moving twice to the same place is moving once; a move never leaves a valid cursor invalid. */
  lemma MoveToIdempotent(c: Cursor, pos: int)
    requires Valid(c)
    ensures Valid(MoveTo(c, pos))
    ensures MoveTo(MoveTo(c, pos), pos) == MoveTo(c, pos)
  {
  }

  /** A move that stays inside `[0, size]` is undone by the opposite move. */
  lemma MoveByInverse(c: Cursor, n: int)
    requires Valid(c)
    requires 0 <= c.position + n <= c.size
    ensures MoveBy(MoveBy(c, n), -n) == c
  {
  }

  /** A fixed-width read is the bounds-checked `readBytes` of its width. */
  lemma ReadNumberIsReadBytes(c: Cursor, kind: NumKind)
    requires Valid(c)
    ensures ReadNumber(c, kind) == ReadBytes(c, Some(Width(kind)))
  {
  }

  /** A successful read only moves the cursor; stepping back restores it. */
  lemma ReadNumberThenBack(c: Cursor, kind: NumKind)
    requires Valid(c)
    requires ReadNumber(c, kind).Success?
    ensures MoveBy(ReadNumber(c, kind).value.cursor, -(Width(kind) as int)) == c
  {
  }

  /**
   * With a non-negative length, `readString` and `readBytes` agree; in particular a
   * zero-length string at the end of the region succeeds, because the check
   * `position - 1 >= size` cannot hold for a cursor inside its region.
   */
  lemma ReadStringIsReadBytes(c: Cursor, len: nat)
    requires Valid(c)
    ensures ReadString(c, len) == ReadBytes(c, Some(len))
  {
  }

  /** Reading `a` bytes and then `b` bytes is reading `a + b` bytes at once. */
  lemma ReadBytesSplit(c: Cursor, a: nat, b: nat)
    requires Valid(c)
    ensures var first := ReadBytes(c, Some(a));
            ReadBytes(c, Some(a + b)).Success? <==>
              first.Success? && ReadBytes(first.value.cursor, Some(b)).Success?
    ensures var first := ReadBytes(c, Some(a));
            ReadBytes(c, Some(a + b)).Success? ==>
              var second := ReadBytes(first.value.cursor, Some(b));
              ReadBytes(c, Some(a + b)).value == Read(second.value.cursor, first.value.data + second.value.data)
  {
    var p := c.position;
    if p + a + b <= c.size {
      assert c.bytes[p .. p + a + b] == c.bytes[p .. p + a] + c.bytes[p + a .. p + a + b];
    }
  }
}

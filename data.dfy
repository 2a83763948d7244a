/**
 * The input file decoder (data.hpp). A data file is an 8-byte tag, padded
 * with NULs, followed by little-endian 64-bit fields (an id, the number of
 * points, the number of dimensions and, for a query file, the neighbour
 * count `k`) and the points' coordinates as 32-bit floats, point after
 * point. The file is a sequence of bytes; a float is kept as its 32-bit
 * pattern, since nothing here computes with it.
 */
module Data {
  import opened Common

  newtype byte = x: int | 0 <= x < 256

  /** `sizeof(uint64_t)` and `sizeof(float)`. */
  const U64Size: nat := 8
  const F32Size: nat := 4

  /** What `file_type` is compared with to decide whether `k` is present (data.hpp:114). */
  const QueryTag: string := "QUERY"

  function Pow256(n: nat): (r: nat)
    ensures r >= 1
  {
    if n == 0 then 1 else 256 * Pow256(n - 1)
  }

  /** The unsigned value of `bs` read least significant byte first; it fits in `|bs|` bytes. */
  function LittleEndian(bs: seq<byte>): (r: nat)
    ensures r < Pow256(|bs|)
  {
    if bs == [] then 0 else bs[0] as nat + 256 * LittleEndian(bs[1..])
  }

  /** The `n` bytes that store `x` least significant first. */
  function ToLittleEndian(x: nat, n: nat): (r: seq<byte>)
    requires x < Pow256(n)
    ensures |r| == n
  {
    if n == 0 then []
    else
      assert x / 256 < Pow256(n - 1);
      [(x % 256) as byte] + ToLittleEndian(x / 256, n - 1)
  }

  /** Reading back what was stored gives the value. */
  lemma {:induction false} LittleEndianOfBytes(x: nat, n: nat)
    requires x < Pow256(n)
    ensures LittleEndian(ToLittleEndian(x, n)) == x
  {
    if n > 0 {
      var bs := ToLittleEndian(x, n);
      assert bs[1..] == ToLittleEndian(x / 256, n - 1);
      LittleEndianOfBytes(x / 256, n - 1);
    }
  }

  /** Storing what was read gives the bytes. */
  lemma {:induction false} BytesOfLittleEndian(bs: seq<byte>)
    ensures ToLittleEndian(LittleEndian(bs), |bs|) == bs
  {
    if bs != [] {
      var v := LittleEndian(bs);
      assert v % 256 == bs[0] as nat;
      assert v / 256 == LittleEndian(bs[1..]);
      BytesOfLittleEndian(bs[1..]);
    }
  }

  /**
   * The `width`-byte field at offset `off`, when the file is long enough to
   * hold it. Past the end of the file the source reads unmapped memory and
   * its behaviour is undefined; the model reports `None` there.
   */
  function Field(mem: seq<byte>, off: nat, width: nat): (r: Option<nat>)
    ensures r.Some? <==> off + width <= |mem|
    ensures r.Some? ==> r.value < Pow256(width)
  {
    if off + width <= |mem| then
      Some(LittleEndian(mem[off..off + width]))
    else None
  }

  /**
   * `Reader` (data.hpp:21-34): a cursor into the mapped file. The mapping
   * starts on a page boundary, so the alignment of the cursor's address
   * to `sizeof(T)` is the alignment of its offset.
   */
  class Reader {
    const mem: seq<byte>
    var ptr: nat

    constructor (mem: seq<byte>, start: nat)
      ensures this.mem == mem && ptr == start
    {
      this.mem := mem;
      ptr := start;
    }

    /**
     * `Reader::operator>>` (data.hpp:25-30) for a `uint64_t` or a
     * `float`: the cursor must be aligned to the width; the field at the
     * cursor is read and the cursor moves past it.
     */
    method Read(width: nat) returns (v: Option<nat>)
      modifies this`ptr
      requires width == U64Size || width == F32Size
      requires ptr % width == 0
      ensures v == Field(mem, old(ptr), width)
      ensures ptr == old(ptr) + width
    {
      v := Field(mem, ptr, width);
      ptr := ptr + width;
    }
  }

  /** A cursor aligned to a width stays aligned when it moves past a field of that width. */
  lemma StepAligned(p: nat, width: nat)
    requires (width == U64Size || width == F32Size) && p % width == 0
    ensures (p + width) % width == 0
  {
    if width == U64Size {
      assert (p + 8) % 8 == p % 8;
    } else {
      assert (p + 4) % 4 == p % 4;
    }
  }

  /** `pre` in front of the sequence `o` holds, if any. */
  function Glue<T>(pre: seq<T>, o: Option<seq<T>>): Option<seq<T>>
  {
    match o
    case None => None
    case Some(s) => Some(pre + s)
  }

  lemma GlueAssoc<T>(a: seq<T>, b: seq<T>, o: Option<seq<T>>)
    ensures Glue(a, Glue(b, o)) == Glue(a + b, o)
  {
    match o
    case None =>
    case Some(s) => assert a + (b + s) == a + b + s;
  }

  lemma GlueEmpty<T>(o: Option<seq<T>>)
    ensures Glue([], o) == o
  {
    match o
    case None =>
    case Some(s) => assert [] + s == s;
  }

  /** Every value is a 32-bit pattern. */
  predicate Words32(ws: seq<nat>)
  {
    forall i :: 0 <= i < |ws| ==> ws[i] < Pow256(F32Size)
  }

  /** The `d` consecutive 32-bit words from `off`: one point's coordinates. */
  function Words(mem: seq<byte>, off: nat, d: nat): (r: Option<seq<nat>>)
    ensures r.Some? ==> |r.value| == d && Words32(r.value)
    decreases d
  {
    if d == 0 then Some([])
    else
      match Field(mem, off, F32Size)
      case None => None
      case Some(w) => Glue([w], Words(mem, off + F32Size, d - 1))
  }

  /** `n` points of `d` coordinates each, from `off`, point after point. */
  function Rows(mem: seq<byte>, off: nat, n: nat, d: nat): (r: Option<seq<seq<nat>>>)
    ensures r.Some? ==> |r.value| == n && forall i :: 0 <= i < n ==> |r.value[i]| == d && Words32(r.value[i])
    decreases n
  {
    if n == 0 then Some([])
    else
      match Words(mem, off, d)
      case None => None
      case Some(row) => Glue([row], Rows(mem, off + F32Size * d, n - 1, d))
  }

  /** A point's words are there exactly when the file holds its `4 * d` bytes. */
  lemma {:induction false} WordsDefined(mem: seq<byte>, off: nat, d: nat)
    ensures Words(mem, off, d).Some? <==> d == 0 || off + F32Size * d <= |mem|
    decreases d
  {
    if d > 0 {
      WordsDefined(mem, off + F32Size, d - 1);
    }
  }

  /**
   * `n` points of `d` coordinates are there exactly when the file holds
   * their `4 * n * d` bytes; no byte is read when `n` or `d` is zero.
   */
  lemma {:induction false} RowsDefined(mem: seq<byte>, off: nat, n: nat, d: nat)
    ensures Rows(mem, off, n, d).Some? <==> n == 0 || d == 0 || off + F32Size * (n * d) <= |mem|
    decreases n
  {
    if n > 0 {
      WordsDefined(mem, off, d);
      RowsDefined(mem, off + F32Size * d, n - 1, d);
      assert n * d == (n - 1) * d + d;
      if d > 0 {
        assert (n - 1) * d >= 0;
      }
    }
  }

  /** Coordinate `j` of a point is the `j`-th word from where the point starts. */
  lemma {:induction false} WordsElement(mem: seq<byte>, off: nat, d: nat, j: nat)
    requires Words(mem, off, d).Some? && j < d
    ensures off + F32Size * j + F32Size <= |mem|
    ensures Words(mem, off, d).value[j] == Field(mem, off + F32Size * j, F32Size).value
    decreases d
  {
    if j > 0 {
      WordsElement(mem, off + F32Size, d - 1, j - 1);
    }
  }

  /** The coordinates are stored point-major: coordinate `j` of point `i` is word `i * d + j`. */
  lemma {:induction false} RowsElement(mem: seq<byte>, off: nat, n: nat, d: nat, i: nat, j: nat)
    requires Rows(mem, off, n, d).Some? && i < n && j < d
    ensures off + F32Size * (i * d + j) + F32Size <= |mem|
    ensures Rows(mem, off, n, d).value[i][j] == Field(mem, off + F32Size * (i * d + j), F32Size).value
    decreases n
  {
    if i == 0 {
      WordsElement(mem, off, d, j);
    } else {
      var next := off + F32Size * d;
      var rest := Rows(mem, next, n - 1, d);
      assert rest.Some? && Rows(mem, off, n, d).value == [Words(mem, off, d).value] + rest.value;
      RowsElement(mem, next, n - 1, d, i - 1, j);
      var p := (i - 1) * d + j;
      Shift(i, d, j);
      assert next + F32Size * p == off + F32Size * (i * d + j);
    }
  }

  lemma Shift(i: nat, d: nat, j: nat)
    requires i >= 1
    ensures F32Size * d + F32Size * ((i - 1) * d + j) == F32Size * (i * d + j)
  {
    assert i * d == (i - 1) * d + d;
  }

  /**
   * `strnlen(s, max)`: the length of the prefix of `s` before its first
   * NUL, looking at no more than `max` bytes. Past the end of the file
   * the mapping reads as zeros, so the scan also stops there.
   */
  function StrnLen(s: seq<byte>, max: nat): (n: nat)
    ensures n <= max && n <= |s|
    ensures forall i :: 0 <= i < n ==> s[i] != 0
    ensures n < max && n < |s| ==> s[n] == 0
  {
    if max == 0 || s == [] || s[0] == 0 then 0
    else
      var m := StrnLen(s[1..], max - 1);
      assert forall i :: 1 <= i < 1 + m ==> s[i] == s[1..][i - 1];
      1 + m
  }

  /** The length before the first NUL is the one `strnlen` finds. */
  lemma {:induction false} StrnLenIs(bs: seq<byte>, max: nat, n: nat)
    requires n <= max && n <= |bs| && forall i :: 0 <= i < n ==> bs[i] != 0
    requires n < max && n < |bs| ==> bs[n] == 0
    ensures StrnLen(bs, max) == n
    decreases n
  {
    if n > 0 {
      assert forall i :: 0 <= i < n - 1 ==> bs[1..][i] == bs[i + 1];
      StrnLenIs(bs[1..], max - 1, n - 1);
    }
  }

  /** `string file_type(file_mem, n)` (data.hpp:109-110): the tag's bytes as characters. */
  function Tag(mem: seq<byte>): (s: string)
    ensures |s| <= 8 && |s| <= |mem|
    ensures forall i :: 0 <= i < |s| ==> s[i] as int == mem[i] as int != 0
    ensures |s| < 8 && |s| < |mem| ==> mem[|s|] == 0
  {
    var n := StrnLen(mem, 8);
    seq(n, i requires 0 <= i < n => (mem[i] as int) as char)
  }

  /** The content of a file (data.hpp:91-98); each coordinate is a float's 32-bit pattern. */
  datatype Data = Data(fileType: string, id: nat, nCoors: nat, nDims: nat, k: nat, coors: seq<seq<nat>>)

  /**
   * What `parse_data` makes of a file, field by field at fixed offsets: the
   * tag from the first 8 bytes; `id`, `n_coors` and `n_dims` at 8, 16 and
   * 24; `k` at 32 for a query file, where the coordinates then start at
   * 40, and otherwise `k` is 0 and the coordinates start at 32.
   */
  function Decode(mem: seq<byte>): (r: Option<Data>)
    ensures r.Some? ==> |r.value.fileType| <= 8 && |r.value.coors| == r.value.nCoors
    ensures r.Some? && r.value.fileType != QueryTag ==> r.value.k == 0
  {
    var tag := Tag(mem);
    var query := tag == QueryTag;
    var id := Field(mem, 8, U64Size);
    var n := Field(mem, 16, U64Size);
    var dims := Field(mem, 24, U64Size);
    var k := if query then Field(mem, 32, U64Size) else Some(0);
    var coorsAt := if query then 40 else 32;
    if id.None? || n.None? || dims.None? || k.None? then None
    else
      match Rows(mem, coorsAt, n.value, dims.value)
      case None => None
      case Some(c) => Some(Data(tag, id.value, n.value, dims.value, k.value, c))
  }

  /** Where the cursor is after `i` points of `d` floats from `off`. */
  /** Reading points from `off`: nothing when the first is missing, else the first and then the rest. */
  lemma RowsFirst(mem: seq<byte>, off: nat, n: nat, d: nat)
    requires n >= 1
    ensures Words(mem, off, d).None? ==> Rows(mem, off, n, d) == None
    ensures Words(mem, off, d).Some? ==>
      Rows(mem, off, n, d) == Glue([Words(mem, off, d).value], Rows(mem, off + F32Size * d, n - 1, d))
  {
  }

  function Advance(off: nat, i: nat, d: nat): nat
  {
    if i == 0 then off else Advance(off, i - 1, d) + F32Size * d
  }

  lemma {:induction false} AdvanceIs(off: nat, i: nat, d: nat)
    ensures Advance(off, i, d) == off + F32Size * (i * d)
  {
    if i > 0 {
      AdvanceIs(off, i - 1, d);
      assert i * d == (i - 1) * d + d;
    }
  }

  /** A shifted start is one point further along. */
  lemma AdvanceShift(off: nat, i: nat, d: nat)
    ensures Advance(off + F32Size * d, i, d) == Advance(off, i + 1, d)
  {
    AdvanceIs(off + F32Size * d, i, d);
    AdvanceIs(off, i + 1, d);
    assert (i + 1) * d == i * d + d;
  }

  /** The points read so far followed by one more, when both are there. */
  function Snoc(o: Option<seq<seq<nat>>>, w: Option<seq<nat>>): Option<seq<seq<nat>>>
  {
    match o
    case None => None
    case Some(rows) =>
      match w
      case None => None
      case Some(row) => Some(rows + [row])
  }

  lemma GlueSnoc(pre: seq<seq<nat>>, o: Option<seq<seq<nat>>>, w: Option<seq<nat>>)
    ensures Glue(pre, Snoc(o, w)) == Snoc(Glue(pre, o), w)
  {
    match o
    case None =>
    case Some(s) =>
      match w
      case None =>
      case Some(row) => assert pre + (s + [row]) == (pre + s) + [row];
  }

  /** Reading `i + 1` points is reading `i` of them and then the point after them. */
  lemma {:induction false} RowsSnoc(mem: seq<byte>, off: nat, i: nat, d: nat)
    ensures Rows(mem, off, i + 1, d) == Snoc(Rows(mem, off, i, d), Words(mem, Advance(off, i, d), d))
    decreases i
  {
    var next := off + F32Size * d;
    if i == 0 {
      RowsOne(mem, off, d);
    } else {
      RowsFirst(mem, off, i + 1, d);
      RowsSnoc(mem, next, i - 1, d);
      AdvanceShift(off, i - 1, d);
      RowsFirst(mem, off, i, d);
      SnocStep(Rows(mem, off, i + 1, d), Rows(mem, off, i, d), Rows(mem, next, i, d), Rows(mem, next, i - 1, d),
               Words(mem, off, d), Words(mem, Advance(off, i, d), d));
    }
  }

  /** The step of `RowsSnoc`: a first point in front commutes with one more point at the end. */
  lemma SnocStep(longer: Option<seq<seq<nat>>>, shorter: Option<seq<seq<nat>>>,
                 tailLonger: Option<seq<seq<nat>>>, tailShorter: Option<seq<seq<nat>>>,
                 first: Option<seq<nat>>, last: Option<seq<nat>>)
    requires first.None? ==> longer == None && shorter == None
    requires first.Some? ==> longer == Glue([first.value], tailLonger) && shorter == Glue([first.value], tailShorter)
    requires tailLonger == Snoc(tailShorter, last)
    ensures longer == Snoc(shorter, last)
  {
    if first.Some? {
      GlueSnoc([first.value], tailShorter, last);
    }
  }

  /** Reading one point is reading its words. */
  lemma RowsOne(mem: seq<byte>, off: nat, d: nat)
    ensures Rows(mem, off, 1, d) == Snoc(Some([]), Words(mem, off, d))
  {
    RowsFirst(mem, off, 1, d);
    assert Rows(mem, off + F32Size * d, 0, d) == Some([]);
    match Words(mem, off, d)
    case None =>
    case Some(w) => assert [w] + [] == [] + [w];
  }

  /** Once a point is missing, reading further points gives nothing either. */
  lemma {:induction false} RowsNoneStays(mem: seq<byte>, off: nat, i: nat, n: nat, d: nat)
    requires i <= n && Rows(mem, off, i, d) == None
    ensures Rows(mem, off, n, d) == None
    decreases n - i
  {
    if i < n {
      RowsSnoc(mem, off, i, d);
      RowsNoneStays(mem, off, i + 1, n, d);
    }
  }

  /**
   * `parse_coors` (data.hpp:65-77): `n_coors` points of `n_dims` floats
   * each, read through the cursor, which then sits past the `4 * n * d`
   * bytes read.
   */
  method ParseCoors(reader: Reader, nCoors: nat, nDims: nat) returns (r: Option<seq<seq<nat>>>)
    modifies reader
    requires reader.ptr % F32Size == 0
    ensures r == Rows(reader.mem, old(reader.ptr), nCoors, nDims)
    ensures r.Some? ==> reader.ptr == old(reader.ptr) + F32Size * (nCoors * nDims)
  {
    ghost var mem, off0 := reader.mem, reader.ptr;
    var coors: seq<seq<nat>> := [];
    for i := 0 to nCoors
      invariant reader.mem == mem && reader.ptr % F32Size == 0
      invariant reader.ptr == Advance(off0, i, nDims)
      invariant Rows(mem, off0, i, nDims) == Some(coors)
    {
      var coor := ParsePoint(reader, nDims);
      RowsSnoc(mem, off0, i, nDims);
      if coor.None? {
        RowsNoneStays(mem, off0, i + 1, nCoors, nDims);
        return None;
      }
      coors := coors + [coor.value];
    }
    AdvanceIs(off0, nCoors, nDims);
    return Some(coors);
  }

  /**
   * The inner loop of `parse_coors` (data.hpp:68-73): one point's `n_dims`
   * floats, read one after another.
   */
  method ParsePoint(reader: Reader, nDims: nat) returns (r: Option<seq<nat>>)
    modifies reader
    requires reader.ptr % F32Size == 0
    ensures r == Words(reader.mem, old(reader.ptr), nDims)
    ensures reader.ptr % F32Size == 0
    ensures r.Some? ==> reader.ptr == old(reader.ptr) + F32Size * nDims
  {
    ghost var mem, rowAt := reader.mem, reader.ptr;
    var coor: seq<nat> := [];
    GlueEmpty(Words(mem, rowAt, nDims));
    for j := 0 to nDims
      invariant reader.ptr % F32Size == 0
      invariant reader.ptr == rowAt + F32Size * j
      invariant Words(mem, rowAt, nDims) == Glue(coor, Words(mem, reader.ptr, nDims - j))
    {
      ghost var at := reader.ptr;
      var f := reader.Read(F32Size);
      StepAligned(at, F32Size);
      if f.None? {
        return None;
      }
      GlueAssoc(coor, [f.value], Words(mem, reader.ptr, nDims - j - 1));
      coor := coor + [f.value];
    }
    assert coor + [] == coor;
    return Some(coor);
  }

  /**
   * The decoding part of `parse_data` (data.hpp:109-116) on the mapped
   * file's bytes: the tag, then a cursor from offset 8 reading `id`,
   * `n_coors`, `n_dims`, `k` for a query file, and the coordinates.
   * It decodes exactly what the fixed layout says.
   */
  method ParseData(mem: seq<byte>) returns (r: Option<Data>)
    ensures r == Decode(mem)
  {
    var fileType := Tag(mem);
    var reader := new Reader(mem, 8);
    var id := reader.Read(U64Size);
    var nCoors := reader.Read(U64Size);
    var nDims := reader.Read(U64Size);
    var k: Option<nat> := Some(0);
    if fileType == QueryTag {
      k := reader.Read(U64Size);
    }
    if id.None? || nCoors.None? || nDims.None? || k.None? {
      return None;
    }
    var coors := ParseCoors(reader, nCoors.value, nDims.value);
    if coors.None? {
      return None;
    }
    return Some(Data(fileType, id.value, nCoors.value, nDims.value, k.value, coors.value));
  }

  /** At most 8 characters, none of them NUL, each fitting in a byte. */
  predicate TagText(s: string)
  {
    |s| <= 8 && forall i :: 0 <= i < |s| ==> 0 < s[i] as int < 256
  }

  /** What a file can carry: fields that fit in 64 bits, `n_coors` points of `n_dims` 32-bit words. */
  predicate Encodable(d: Data)
  {
    && TagText(d.fileType)
    && d.id < Pow256(U64Size) && d.nCoors < Pow256(U64Size) && d.nDims < Pow256(U64Size) && d.k < Pow256(U64Size)
    && (d.fileType != QueryTag ==> d.k == 0)
    && |d.coors| == d.nCoors
    && forall i :: 0 <= i < |d.coors| ==> |d.coors[i]| == d.nDims && Words32(d.coors[i])
  }

  /** The tag padded with NULs to 8 bytes. */
  function TagBytes(s: string): (r: seq<byte>)
    requires TagText(s)
    ensures |r| == 8
  {
    seq(8, i requires 0 <= i < 8 => if i < |s| then (s[i] as int) as byte else 0)
  }

  function EncodeWords(ws: seq<nat>): (r: seq<byte>)
    requires Words32(ws)
    ensures |r| == F32Size * |ws|
  {
    if ws == [] then [] else ToLittleEndian(ws[0], F32Size) + EncodeWords(ws[1..])
  }

  function EncodeRows(rows: seq<seq<nat>>): seq<byte>
    requires forall i :: 0 <= i < |rows| ==> Words32(rows[i])
  {
    if rows == [] then [] else EncodeWords(rows[0]) + EncodeRows(rows[1..])
  }

  /** `k` is stored only in a query file. */
  function KBytes(d: Data): (r: seq<byte>)
    requires Encodable(d)
    ensures |r| == if d.fileType == QueryTag then U64Size else 0
  {
    if d.fileType == QueryTag then ToLittleEndian(d.k, U64Size) else []
  }

  /** The file that holds `d`, laid out as `parse_data` reads it. */
  function Encode(d: Data): seq<byte>
    requires Encodable(d)
  {
    TagBytes(d.fileType)
      + (ToLittleEndian(d.id, U64Size)
      + (ToLittleEndian(d.nCoors, U64Size)
      + (ToLittleEndian(d.nDims, U64Size)
      + (KBytes(d) + EncodeRows(d.coors)))))
  }

  lemma FieldOf(mem: seq<byte>, off: nat, x: nat, width: nat)
    requires x < Pow256(width) && off + width <= |mem| && mem[off..off + width] == ToLittleEndian(x, width)
    ensures Field(mem, off, width) == Some(x)
  {
    LittleEndianOfBytes(x, width);
  }

  /** Bytes that hold `a + b` from `off` hold `a` from `off` and `b` right after it. */
  lemma SliceSplit(mem: seq<byte>, off: nat, a: seq<byte>, b: seq<byte>)
    requires off + |a| + |b| <= |mem| && mem[off..off + |a| + |b|] == a + b
    ensures mem[off..off + |a|] == a
    ensures mem[off + |a|..off + |a| + |b|] == b
  {
    var whole := mem[off..off + |a| + |b|];
    forall i | 0 <= i < |a|
      ensures mem[off + i] == a[i]
    {
      assert mem[off + i] == whole[i];
    }
    forall i | 0 <= i < |b|
      ensures mem[off + |a| + i] == b[i]
    {
      assert mem[off + |a| + i] == whole[|a| + i];
    }
  }

  /** Bytes from `off` that are `a + rest` hold `a` at `off` and `rest` after it. */
  lemma Step(mem: seq<byte>, off: nat, a: seq<byte>, rest: seq<byte>)
    requires off <= |mem| && mem[off..] == a + rest
    ensures off + |a| <= |mem| && mem[off..off + |a|] == a && mem[off + |a|..] == rest
  {
    forall i | 0 <= i < |a|
      ensures mem[off + i] == a[i]
    {
      assert mem[off + i] == mem[off..][i];
    }
    forall i | 0 <= i < |rest|
      ensures mem[off + |a| + i] == rest[i]
    {
      assert mem[off + |a| + i] == mem[off..][|a| + i];
    }
  }

  /** The words of a stored point read back as the point. */
  lemma {:induction false} WordsOfEncoding(mem: seq<byte>, off: nat, ws: seq<nat>)
    requires Words32(ws) && off + F32Size * |ws| <= |mem|
    requires mem[off..off + F32Size * |ws|] == EncodeWords(ws)
    ensures Words(mem, off, |ws|) == Some(ws)
    decreases |ws|
  {
    if ws != [] {
      var rest := ws[1..];
      var first := ToLittleEndian(ws[0], F32Size);
      SliceSplit(mem, off, first, EncodeWords(rest));
      FieldOf(mem, off, ws[0], F32Size);
      WordsOfEncoding(mem, off + F32Size, rest);
      assert [ws[0]] + rest == ws;
    }
  }

  /** Stored points read back as the points. */
  lemma {:induction false} RowsOfEncoding(mem: seq<byte>, off: nat, rows: seq<seq<nat>>, d: nat)
    requires forall i :: 0 <= i < |rows| ==> |rows[i]| == d && Words32(rows[i])
    requires off <= |mem| && mem[off..] == EncodeRows(rows)
    ensures Rows(mem, off, |rows|, d) == Some(rows)
    decreases |rows|
  {
    if rows != [] {
      var rest := rows[1..];
      RowsHead(mem, off, rows, d);
      RowsOfEncoding(mem, off + F32Size * d, rest, d);
      assert [rows[0]] + rest == rows;
    }
  }

  /** The first stored point is read first, and the rest are stored after it. */
  lemma RowsHead(mem: seq<byte>, off: nat, rows: seq<seq<nat>>, d: nat)
    requires rows != [] && forall i :: 0 <= i < |rows| ==> |rows[i]| == d && Words32(rows[i])
    requires off <= |mem| && mem[off..] == EncodeRows(rows)
    ensures off + F32Size * d <= |mem| && mem[off + F32Size * d..] == EncodeRows(rows[1..])
    ensures forall i :: 0 <= i < |rows[1..]| ==> |rows[1..][i]| == d && Words32(rows[1..][i])
    ensures Rows(mem, off, |rows|, d) == Glue([rows[0]], Rows(mem, off + F32Size * d, |rows| - 1, d))
  {
    var rest := rows[1..];
    Step(mem, off, EncodeWords(rows[0]), EncodeRows(rest));
    RowsStep(mem, off, |rows|, d, rows[0]);
    forall i | 0 <= i < |rest| ensures |rest[i]| == d && Words32(rest[i]) {
      assert rest[i] == rows[i + 1];
    }
  }

  /** A stored first point is read first, and the rest are read after it. */
  lemma RowsStep(mem: seq<byte>, off: nat, n: nat, d: nat, row: seq<nat>)
    requires n >= 1 && |row| == d && Words32(row)
    requires off + F32Size * d <= |mem| && mem[off..off + F32Size * d] == EncodeWords(row)
    ensures Rows(mem, off, n, d) == Glue([row], Rows(mem, off + F32Size * d, n - 1, d))
  {
    WordsOfEncoding(mem, off, row);
  }

  /** The tag stored in the first 8 bytes reads back as the tag. */
  lemma TagOfEncoding(mem: seq<byte>, s: string)
    requires TagText(s) && |mem| >= 8 && mem[..8] == TagBytes(s)
    ensures Tag(mem) == s
  {
    assert forall i :: 0 <= i < 8 ==> mem[i] == TagBytes(s)[i];
    StrnLenIs(mem, 8, |s|);
  }

  /** Decoding a file written from `d` gives back `d`. */
  lemma DecodeEncode(d: Data)
    requires Encodable(d)
    ensures Decode(Encode(d)) == Some(d)
  {
    var e := Encode(d);
    var query := d.fileType == QueryTag;
    var body := EncodeRows(d.coors);
    var kb := KBytes(d);
    var dimsAt := ToLittleEndian(d.nDims, U64Size) + (kb + body);
    var coorsAt := ToLittleEndian(d.nCoors, U64Size) + dimsAt;
    var idAt := ToLittleEndian(d.id, U64Size) + coorsAt;
    assert e[0..] == e;
    Step(e, 0, TagBytes(d.fileType), idAt);
    TagOfEncoding(e, d.fileType);
    Step(e, 8, ToLittleEndian(d.id, U64Size), coorsAt);
    FieldOf(e, 8, d.id, U64Size);
    Step(e, 16, ToLittleEndian(d.nCoors, U64Size), dimsAt);
    FieldOf(e, 16, d.nCoors, U64Size);
    Step(e, 24, ToLittleEndian(d.nDims, U64Size), kb + body);
    FieldOf(e, 24, d.nDims, U64Size);
    Step(e, 32, kb, body);
    if query {
      FieldOf(e, 32, d.k, U64Size);
    }
    RowsOfEncoding(e, 32 + |kb|, d.coors, d.nDims);
  }

  /** Everything the decoder accepts is a record a file can carry. */
  lemma DecodeEncodable(mem: seq<byte>)
    requires Decode(mem).Some?
    ensures Encodable(Decode(mem).value)
  {
  }
}

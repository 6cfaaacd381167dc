/**
 What a resource looks like in a file: two 64-bit sizes in little-endian order, then the elements.
 An element is the bytes of its object representation, `width` of them.
 */
module ResourceImage {
  import opened Machine

  type Byte = b: int | 0 <= b < 256
  type Bytes = seq<Byte>
  type Cell = seq<Byte>

  const SIZE_BYTES: nat := 8
  const DATA_OFFSET: nat := 16

  // ---- size_t as bytes ----

  function Power256(k: nat): nat { if k == 0 then 1 else 256 * Power256(k - 1) }

  function Encode(n: nat, k: nat): (bytes: Bytes)
    ensures |bytes| == k
  {
    if k == 0 then [] else [n % 256] + Encode(n / 256, k - 1)
  }

  function Decode(bytes: Bytes): nat {
    if bytes == [] then 0 else bytes[0] + 256 * Decode(bytes[1..])
  }

  lemma {:induction false} DecodeUndoesEncode(n: nat, k: nat)
    requires n < Power256(k)
    ensures Decode(Encode(n, k)) == n
  {
    if k > 0 {
      DecodeUndoesEncode(n / 256, k - 1);
      assert Encode(n, k)[1..] == Encode(n / 256, k - 1);
    }
  }

  lemma SizeTFits(n: nat)
    requires n < SIZE_T
    ensures n < Power256(SIZE_BYTES)
  {
    assert Power256(8) == 256 * (256 * (256 * (256 * Power256(4))));
    assert Power256(4) == 256 * (256 * (256 * (256 * Power256(0))));
  }

  // ---- Parts of equal width, laid end to end ----

  predicate Uniform<T>(cells: seq<seq<T>>, width: nat) {
    forall i :: 0 <= i < |cells| ==> |cells[i]| == width
  }

  function Flat<T>(cells: seq<seq<T>>): seq<T> {
    if cells == [] then [] else cells[0] + Flat(cells[1..])
  }

  lemma EmptyFlat<T>()
    ensures Flat<T>([]) == []
  {
  }

  lemma {:induction false} FlatLength<T>(cells: seq<seq<T>>, width: nat)
    requires Uniform(cells, width)
    ensures |Flat(cells)| == |cells| * width
  {
    if cells != [] {
      FlatLength(cells[1..], width);
      assert |cells| * width == width + |cells[1..]| * width by { assert |cells| == 1 + |cells[1..]|; }
    }
  }

  lemma OrderTimes(a: nat, b: nat, n: nat)
    requires a <= b
    ensures a * n <= b * n
    ensures a < b ==> a * n + n <= b * n
  {
    assert b * n == a * n + (b - a) * n;
    if a < b { assert (b - a) * n == n + (b - a - 1) * n; }
  }

  lemma SliceRange(n: nat, i: nat, width: nat)
    requires i < n
    ensures i * width + width <= n * width
  {
    assert (i + 1) * width <= n * width;
  }

  lemma {:induction false} FlatSnoc<T>(cells: seq<seq<T>>, last: seq<T>)
    ensures Flat(cells + [last]) == Flat(cells) + last
  {
    if cells == [] {
      assert cells + [last] == [last] && [last][1..] == [];
    } else {
      assert (cells + [last])[1..] == cells[1..] + [last];
      FlatSnoc(cells[1..], last);
    }
  }

  /** Part `i` occupies the places from `i * width` on. */
  lemma {:induction false} FlatAt<T>(cells: seq<seq<T>>, width: nat, i: nat)
    requires Uniform(cells, width) && i < |cells|
    ensures |Flat(cells)| == |cells| * width && i * width + width <= |cells| * width
    ensures Flat(cells)[i * width..i * width + width] == cells[i]
  {
    FlatLength(cells, width);
    SliceRange(|cells|, i, width);
    if i > 0 {
      FlatAt(cells[1..], width, i - 1);
      FlatLength(cells[1..], width);
      assert i * width == width + (i - 1) * width;
      assert Flat(cells)[i * width..i * width + width] == Flat(cells[1..])[(i - 1) * width..(i - 1) * width + width];
    } else {
      assert 0 * width == 0;
      assert Flat(cells)[0..width] == cells[0];
    }
  }

  // ---- The image of a resource ----

  /** A resource as a value; the names are those of the source, where M counts the rows of a matrix. */
  datatype Resource = Resource(M: nat, N: nat, cells: seq<Cell>)

  predicate WellFormed(r: Resource, width: nat) {
    && 0 < width && r.M < SIZE_T && r.N < SIZE_T
    && |r.cells| == r.M * r.N && Uniform(r.cells, width)
  }

  function Image(r: Resource): Bytes {
    Encode(r.M, SIZE_BYTES) + Encode(r.N, SIZE_BYTES) + Flat(r.cells)
  }

  function HeaderM(file: Bytes): nat
    requires |file| >= DATA_OFFSET
  {
    Decode(file[..SIZE_BYTES])
  }

  function HeaderN(file: Bytes): nat
    requires |file| >= DATA_OFFSET
  {
    Decode(file[SIZE_BYTES..DATA_OFFSET])
  }

  /** Header and elements can be told apart again. */
  lemma ImageParts(r: Resource, width: nat)
    requires WellFormed(r, width)
    ensures var file := Image(r);
      && |file| == DATA_OFFSET + |r.cells| * width
      && HeaderM(file) == r.M && HeaderN(file) == r.N && file[DATA_OFFSET..] == Flat(r.cells)
  {
    var file := Image(r);
    FlatLength(r.cells, width);
    assert file[..SIZE_BYTES] == Encode(r.M, SIZE_BYTES);
    assert file[SIZE_BYTES..DATA_OFFSET] == Encode(r.N, SIZE_BYTES);
    assert file[DATA_OFFSET..] == Flat(r.cells);
    SizeTFits(r.M);
    SizeTFits(r.N);
    DecodeUndoesEncode(r.M, SIZE_BYTES);
    DecodeUndoesEncode(r.N, SIZE_BYTES);
  }

  /** The 64-bit number at an offset of a file, least significant byte first. */
  function NumberAt(file: Bytes, at: nat): int
    requires at + 8 <= |file|
  {
    var b := (i: nat) requires i < 8 => file[at + i] as int;
    b(0) + 0x100 * b(1) + 0x1_0000 * b(2) + 0x100_0000 * b(3)
    + 0x1_0000_0000 * b(4) + 0x100_0000_0000 * b(5) + 0x1_0000_0000_0000 * b(6) + 0x100_0000_0000_0000 * b(7)
  }

  lemma DecodeStep(b: Bytes, k: nat)
    requires k < |b|
    ensures Decode(b[k..]) == b[k] + 256 * Decode(b[k + 1..])
  {
    assert b[k..][1..] == b[k + 1..];
  }

  lemma DecodeFour(b: Bytes, k: nat)
    requires k + 4 <= |b|
    ensures Decode(b[k..]) ==
      b[k] + 0x100 * (b[k + 1] as int) + 0x1_0000 * (b[k + 2] as int) + 0x100_0000 * (b[k + 3] as int)
      + 0x1_0000_0000 * Decode(b[k + 4..])
  {
    hide Decode;
    DecodeStep(b, k);
    DecodeStep(b, k + 1);
    DecodeStep(b, k + 2);
    DecodeStep(b, k + 3);
  }

  lemma DecodeIsNumber(file: Bytes, at: nat)
    requires at + 8 <= |file|
    ensures Decode(file[at..at + 8]) == NumberAt(file, at)
  {
    var b := file[at..at + 8];
    assert b[0..] == b && b[8..] == [];
    assert forall i :: 0 <= i < 8 ==> b[i] == file[at + i];
    NothingDecoded();
    hide Decode;
    DecodeFour(b, 0);
    DecodeFour(b, 4);
  }

  lemma NothingDecoded()
    ensures Decode([]) == 0
  {
  }

  /** The file format: M, N, and then the elements, element `i` from byte `16 + i * width` on. */
  lemma FileFormat(r: Resource, width: nat, i: nat)
    requires WellFormed(r, width) && i < |r.cells|
    ensures var file := Image(r);
      && |file| == 16 + |r.cells| * width && i * width + width <= |r.cells| * width
      && NumberAt(file, 0) == r.M && NumberAt(file, 8) == r.N
      && file[16 + i * width..16 + i * width + width] == r.cells[i]
  {
    hide Image, HeaderM, HeaderN, NumberAt, Flat, WellFormed, Uniform, Decode, Encode;
    var file := Image(r);
    ImageParts(r, width);
    HeaderFormat(file);
    CellAt(r, width, i);
    SliceInside(file, 16, i * width, i * width + width);
  }

  lemma CellAt(r: Resource, width: nat, i: nat)
    requires WellFormed(r, width) && i < |r.cells|
    ensures |Flat(r.cells)| == |r.cells| * width && i * width + width <= |r.cells| * width
    ensures Flat(r.cells)[i * width..i * width + width] == r.cells[i]
  {
    FlatAt(r.cells, width, i);
  }

  lemma SliceInside<T>(s: seq<T>, from: nat, a: nat, b: nat)
    requires from <= |s| && a <= b <= |s| - from
    ensures s[from..][a..b] == s[from + a..from + b]
  {
  }

  /** What is read as the sizes of a file. */
  lemma HeaderFormat(file: Bytes)
    requires |file| >= 16
    ensures HeaderM(file) == NumberAt(file, 0) && HeaderN(file) == NumberAt(file, 8)
  {
    DecodeIsNumber(file, 0);
    DecodeIsNumber(file, 8);
    assert file[..8] == file[0..8];
  }

  /** Different resources of one element type have different images. */
  lemma ImageIsInjective(a: Resource, b: Resource, width: nat)
    requires WellFormed(a, width) && WellFormed(b, width) && Image(a) == Image(b)
    ensures a == b
  {
    ImageParts(a, width);
    ImageParts(b, width);
    forall i | 0 <= i < |a.cells| ensures a.cells[i] == b.cells[i] {
      FlatAt(a.cells, width, i);
      FlatAt(b.cells, width, i);
    }
  }
}

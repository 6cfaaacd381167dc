/** A two-dimensional container resource: dimensions that are set once, checksum, and row-major data. */
module Resources {
  import opened Machine
  import opened Wrappers
  import opened ResourceImage

  predicate Rectangular(matrix: seq<seq<Cell>>) {
    forall i :: 0 <= i < |matrix| ==> |matrix[i]| == |matrix[0]|
  }

  function Columns(matrix: seq<seq<Cell>>): nat { if matrix == [] then 0 else |matrix[0]| }

  predicate CellsOf(matrix: seq<seq<Cell>>, width: nat) {
    forall i :: 0 <= i < |matrix| ==> Uniform(matrix[i], width)
  }

  /** `resize` of a vector: cut off, or filled up with zero elements. */
  function Resized(cells: seq<Cell>, n: nat, width: nat): (r: seq<Cell>)
    ensures |r| == n
    ensures forall i :: 0 <= i < n ==> r[i] == if i < |cells| then cells[i] else seq(width, _ => 0)
    ensures Uniform(cells, width) ==> Uniform(r, width)
  {
    if n <= |cells| then cells[..n] else cells + seq(n - |cells|, _ => seq(width, _ => 0))
  }

  /** Row `i`, column `j` of a matrix with `N` columns stays below the element count. */
  lemma CellIndex(M: nat, N: nat, i: nat, j: nat)
    requires i < M && j < N
    ensures i * N + j < M * N
    ensures i * N + N == (i + 1) * N
  {
    assert (i + 1) * N <= M * N;
  }

  /** Row-major layout: element `(i, j)` sits at `i * N + j`. */
  lemma RowMajor(matrix: seq<seq<Cell>>, i: nat, j: nat)
    requires Rectangular(matrix) && i < |matrix| && j < Columns(matrix)
    ensures var N := Columns(matrix);
      |Flat(matrix)| == |matrix| * N && i * N + j < |Flat(matrix)| && Flat(matrix)[i * N + j] == matrix[i][j]
  {
    var N := Columns(matrix);
    FlatAt(matrix, N, i);
    CellIndex(|matrix|, N, i, j);
    assert Flat(matrix)[i * N..i * N + N][j] == matrix[i][j];
  }

  class ContainerResource2D {
    const width: nat                  // sizeof(T)
    const crc: Bytes -> int           // the checksum of the data, as an int
    var M_: nat
    var N_: nat
    var checkSum_: int
    var dirty_: bool
    var data_: seq<Cell>

    ghost function View(): Resource
      reads this
    {
      Resource(M_, N_, data_)
    }

    ghost predicate Valid()
      reads this
    {
      WellFormed(View(), width)
    }

    constructor (width: nat, crc: Bytes -> int)
      requires 0 < width
      ensures this.width == width && this.crc == crc && Valid()
      ensures View() == Resource(0, 0, []) && checkSum_ == -1 && dirty_
    {
      this.width, this.crc := width, crc;
      M_, N_, checkSum_, dirty_, data_ := 0, 0, -1, true, [];
    }

    /** A dimension that has been set cannot be changed. */
    method SetColumnSize(size: nat) returns (ok: bool)
      modifies this`M_
      ensures ok <==> old(M_) == 0 || old(M_) == size
      ensures M_ == if ok then size else old(M_)
    {
      if M_ != 0 && M_ != size {
        return false;
      }
      M_ := size;
      return true;
    }

    method SetRowSize(size: nat) returns (ok: bool)
      modifies this`N_
      ensures ok <==> old(N_) == 0 || old(N_) == size
      ensures N_ == if ok then size else old(N_)
    {
      if N_ != 0 && N_ != size {
        return false;
      }
      N_ := size;
      return true;
    }

    /** The bytes that `Checksum` covers, and that are written to a file. */
    ghost function DataBytes(): Bytes
      reads this
    {
      Flat(data_)
    }

    method Checksum() returns (check: int)
      ensures check == crc(DataBytes())
    {
      check := crc(Flat(data_));
    }

    /** Tells whether the data has another checksum than at the last call, and remembers it. */
    method UpdateChecksum() returns (changed: bool)
      modifies this`checkSum_, this`dirty_
      ensures changed <==> crc(DataBytes()) != old(checkSum_)
      ensures checkSum_ == crc(DataBytes()) && dirty_ == changed
    {
      var check := Checksum();
      if check == checkSum_ {
        dirty_ := false;
        return false;
      }
      checkSum_ := check;
      dirty_ := true;
      return true;
    }

    /**
     Loads a matrix.  A container without rows keeps its row size when the matrix has no rows
     either; a matrix that does not fit the dimensions is refused before any element is stored.
     */
    method LoadInput(matrix: seq<seq<Cell>>) returns (ok: bool)
      requires Valid() && CellsOf(matrix, width)
      requires |matrix| < SIZE_T && Columns(matrix) < SIZE_T && |matrix| * Columns(matrix) < SIZE_T
      modifies this`M_, this`N_, this`data_
      ensures
        var fitsM, fitsN := old(M_) in {0, |matrix|}, matrix == [] || old(N_) in {0, |matrix[0]|};
        && (ok <==> fitsM && fitsN && Rectangular(matrix))
        && (fitsM && fitsN ==>
              Valid() && M_ == |matrix| && N_ == if matrix == [] then old(N_) else |matrix[0]|)
        && (ok ==> data_ == Flat(matrix))
        && (!fitsM ==> View() == old(View()))
        && (fitsM && !fitsN ==> View() == old(View()).(M := |matrix|))
    {
      hide Resized, Flat;
      EmptyFlat<Cell>();
      var columnsSet := SetColumnSize(|matrix|);
      if !columnsSet {
        return false;
      }
      if matrix != [] {
        var rowsSet := SetRowSize(|matrix[0]|);
        if !rowsSet {
          return false;
        }
      }
      data_ := Resized(data_, M_ * N_, width);
      var i := 0;
      assert matrix[..0] == [];
      for row := 0 to |matrix|
        invariant M_ == |matrix| && N_ == (if matrix == [] then old(N_) else |matrix[0]|)
        invariant |data_| == M_ * N_ && Uniform(data_, width)
        invariant i == row * N_ <= |data_| && data_[..i] == Flat(matrix[..row])
        invariant forall r :: 0 <= r < row ==> |matrix[r]| == N_
      {
        if N_ != |matrix[row]| {
          return false;
        }
        SliceRange(M_, row, N_);
        NextMultiple(row, N_);
        i := StoreRow(matrix, row, i);
      }
      assert matrix[..|matrix|] == matrix;
      assert data_[..i] == data_;
      ok := true;
    }

    /** The inner loop of `LoadInput`: `data_[i++] = col` for one row. */
    method StoreRow(matrix: seq<seq<Cell>>, row: nat, start: nat) returns (i: nat)
      requires row < |matrix| && Uniform(matrix[row], width) && Uniform(data_, width)
      requires start + |matrix[row]| <= |data_| && data_[..start] == Flat(matrix[..row])
      modifies this`data_
      ensures |data_| == |old(data_)| && Uniform(data_, width)
      ensures i == start + |matrix[row]| && data_[..i] == Flat(matrix[..row + 1])
    {
      i := start;
      for col := 0 to |matrix[row]|
        invariant |data_| == |old(data_)| && Uniform(data_, width)
        invariant i == start + col && data_[..i] == Flat(matrix[..row]) + matrix[row][..col]
      {
        ghost var before := data_[..i];
        data_ := data_[i := matrix[row][col]];
        assert data_[..i + 1] == before + [matrix[row][col]];
        assert matrix[row][..col + 1] == matrix[row][..col] + [matrix[row][col]];
        i := i + 1;
      }
      assert matrix[row][..|matrix[row]|] == matrix[row];
      assert matrix[..row + 1] == matrix[..row] + [matrix[row]];
      FlatSnoc(matrix[..row], matrix[row]);
    }

    method GetData(i: nat, j: nat) returns (r: Result<Cell>)
      requires Valid()
      ensures i >= M_ || j >= N_ ==> r.Throw?
      ensures i < M_ && j < N_ ==> i * N_ + j < |data_| && r == Ok(data_[i * N_ + j])
    {
      if i >= M_ || j >= N_ {
        return Throw("invalid_argument");
      }
      CellIndex(M_, N_, i, j);
      r := Ok(data_[i * N_ + j]);
    }

    /**
     `Assign`: copies elements from a buffer, row by row, with `int` indices; what the buffer does
     not reach stays as `resize` left it.  A buffer that is not refused has to be in range, or the
     source's behaviour is undefined.
     */
    method Assign(buff: Bytes) returns (ok: bool)
      requires 0 < width && Uniform(data_, width)
      requires IsAssignable(buff, width, M_, N_) ==> InRange(M_, N_, |buff| / width)
      modifies this`data_
      ensures ok <==> |buff| > 0 && |buff| % width == 0 && M_ != 0 && N_ != 0
      ensures ok ==> |data_| == M_ * N_ % 0x1_0000_0000_0000_0000 && Uniform(data_, width)
      ensures ok ==>
        var n := |buff| / width;
        Copied(data_, buff, width, n) && data_[n..] == Resized(old(data_), Room(M_, N_), width)[n..]
      ensures !ok ==> data_ == old(data_)
    {
      if |buff| < 1 || |buff| % width != 0 || M_ == 0 || N_ == 0 {
        return false;
      }
      var n := |buff| / width;
      WholeElements(|buff|, width);
      data_ := Resized(data_, Room(M_, N_), width);
      CopyElements(buff, n);
      ok := true;
    }

    /** The loop of `Assign`. */
    method CopyElements(buff: Bytes, n: nat)
      requires 0 < width && 0 < N_ && InRange(M_, N_, n)
      requires |buff| == n * width && |data_| == Room(M_, N_) && Uniform(data_, width)
      modifies this`data_
      ensures |data_| == Room(M_, N_) && Uniform(data_, width)
      ensures Copied(data_, buff, width, n) && data_[n..] == old(data_)[n..]
    {
      assert n <= |data_| && AtIndex(N_, 0, -1, 0) && Copied(data_, buff, width, 0);
      hide Room, InRange, AtIndex, Copied;
      var x: int := 0;
      var y: int := -1;
      for i := 0 to n
        invariant |data_| == Room(M_, N_) && Uniform(data_, width)
        invariant AtIndex(N_, x, y, i) && x <= INT_MAX && y <= INT_MAX
        invariant Copied(data_, buff, width, i) && data_[n..] == old(data_)[n..]
      {
        StaysInRange(M_, N_, n, x, y, i);
        if i % N_ == 0 {
          x := 0;
          y := y + 1;
        }
        var index := y * N_ + x;
        assert index == i;
        SliceRange(n, i, width);
        var cell := buff[i * width..i * width + width];
        CopyOne(data_, buff, width, i, cell);
        data_ := data_[index := cell];
        x := x + 1;
      }
    }
  }

  /** What `Assign` does not refuse. */
  predicate IsAssignable(buff: Bytes, width: nat, M: nat, N: nat)
    requires 0 < width
  {
    |buff| >= 1 && |buff| % width == 0 && M != 0 && N != 0
  }

  /** `GetColumnSize() * GetRowSize()`, a product of two `size_t`. */
  function Room(M: nat, N: nat): nat { M * N % SIZE_T }

  /** `n` elements fit the data, `x` counts to the end of a row, and `y` counts the rows, all within their types. */
  predicate InRange(M: nat, N: nat, n: nat) {
    n <= Room(M, N) && (n <= INT_MAX || N <= INT_MAX) && n <= (INT_MAX + 1) * N
  }

  /** Where `x` and `y` stand when the loop comes to index `i`: `x` may have run to the end of its row. */
  predicate AtIndex(N: nat, x: int, y: int, i: nat) {
    (i == 0 && y == -1 && x == 0) || (y >= 0 && 0 < x <= N && i == y * N + x)
  }

  /** The test `i % N == 0` starts a new row exactly when one is due. */
  lemma NextIndex(M: nat, N: nat, x: int, y: int, i: nat)
    requires 0 < N && AtIndex(N, x, y, i) && i < M * N
    ensures var x', y' := if i % N == 0 then 0 else x, if i % N == 0 then y + 1 else y;
      0 <= x' < N && 0 <= y' < M && i == y' * N + x' && AtIndex(N, x' + 1, y', i + 1)
  {
    var q, r := if x == N || i == 0 then y + 1 else y, if x == N || i == 0 then 0 else x;
    assert i == q * N + r by {
      if x == N { assert (y + 1) * N == y * N + N; }
    }
    MultipleMod(q, N, r, i);
    if q >= M {
      OrderTimes(M, q, N);
    }
  }

  /** Neither index ever leaves `int`. */
  lemma StaysInRange(M: nat, N: nat, n: nat, x: int, y: int, i: nat)
    requires 0 < N && AtIndex(N, x, y, i) && i < n && InRange(M, N, n)
    ensures var x', y' := if i % N == 0 then 0 else x, if i % N == 0 then y + 1 else y;
      && 0 <= x' < INT_MAX && 0 <= y' <= INT_MAX && i == y' * N + x'
      && AtIndex(N, x' + 1, y', i + 1)
  {
    NextIndex(INT_MAX + 1, N, x, y, i);
    var x', y' := if i % N == 0 then 0 else x, if i % N == 0 then y + 1 else y;
    assert y' * N >= 0;
  }

  /** The first `n` elements are those of the buffer. */
  predicate Copied(cells: seq<Cell>, buff: Bytes, width: nat, n: nat) {
    n <= |cells| && forall i :: 0 <= i < n ==> ElementIs(cells[i], buff, width, i)
  }

  predicate ElementIs(cell: Cell, buff: Bytes, width: nat, i: nat) {
    i * width + width <= |buff| && cell == buff[i * width..i * width + width]
  }

  lemma CopyOne(cells: seq<Cell>, buff: Bytes, width: nat, n: nat, cell: Cell)
    requires Copied(cells, buff, width, n) && n < |cells| && ElementIs(cell, buff, width, n)
    ensures Copied(cells[n := cell], buff, width, n + 1)
  {
  }

  lemma NextMultiple(row: nat, N: nat)
    ensures row * N + N == (row + 1) * N
  {
  }

  lemma WholeElements(n: nat, width: nat)
    requires 0 < width && n % width == 0
    ensures n == n / width * width
  {
  }

  lemma MultipleMod(q: nat, N: nat, r: nat, i: nat)
    requires r < N && i == q * N + r
    ensures i % N == r
  {
    var p, s := i / N, i % N;
    assert i == p * N + s;
    OrderTimes(if p < q then p else q, if p < q then q else p, N);
  }
}

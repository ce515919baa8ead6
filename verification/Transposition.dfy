/** The columnar transposition cipher of `crates/rdlp-crypto/src/transposition.rs`. */
module Transposition {
  import opened Bits

  // ---- The column order -----------------------------------------------------------------------------------

  /** The stable order of columns: by code point, equal characters from left to right. */
  predicate Before(key: string, a: nat, b: nat)
    requires a < |key| && b < |key|
  {
    key[a] < key[b] || (key[a] == key[b] && a < b)
  }

  ghost predicate Ordered(key: string, cols: seq<nat>) {
    && (forall k :: 0 <= k < |cols| ==> cols[k] < |key|)
    && (forall j, k :: 0 <= j < k < |cols| ==> Before(key, cols[j], cols[k]))
  }

  /** Every column of the key once, in the stable order. */
  ghost predicate IsColumnOrder(key: string, cols: seq<nat>) {
    && Ordered(key, cols)
    && (forall c: nat :: c < |key| ==> c in cols)
  }

  /** Puts column `c` behind the columns whose character is at most its own. */
  function Insert(key: string, cols: seq<nat>, c: nat): seq<nat>
    requires c < |key| && forall k :: 0 <= k < |cols| ==> cols[k] < |key|
  {
    if cols == [] || key[c] < key[cols[0]] then [c] + cols else [cols[0]] + Insert(key, cols[1..], c)
  }

  lemma {:induction false} InsertMembers(key: string, cols: seq<nat>, c: nat)
    requires c < |key| && forall k :: 0 <= k < |cols| ==> cols[k] < |key|
    ensures forall x: nat :: x in Insert(key, cols, c) <==> x == c || x in cols
    ensures |Insert(key, cols, c)| == |cols| + 1
  {
    if cols != [] && key[c] >= key[cols[0]] {
      InsertMembers(key, cols[1..], c);
      assert cols == [cols[0]] + cols[1..];
    }
  }

  lemma PrependOrdered(key: string, a: nat, cols: seq<nat>)
    requires a < |key| && Ordered(key, cols) && forall x: nat :: x in cols ==> x < |key| && Before(key, a, x)
    ensures Ordered(key, [a] + cols)
  {
    var all := [a] + cols;
    forall j, k | 0 <= j < k < |all| ensures all[k] < |key| && all[j] < |key| && Before(key, all[j], all[k]) {
      assert all[k] == cols[k - 1] && all[k] in cols;
      if j > 0 {
        assert all[j] == cols[j - 1];
      }
    }
  }

  lemma {:induction false} InsertOrdered(key: string, cols: seq<nat>, c: nat)
    requires c < |key| && Ordered(key, cols) && forall x :: x in cols ==> x < c
    ensures Ordered(key, Insert(key, cols, c))
  {
    hide Before;
    if cols == [] {
      SingleOrdered(key, c);
    } else if key[c] < key[cols[0]] {
      AheadOfAll(key, cols, c);
      PrependOrdered(key, c, cols);
    } else {
      var rest := cols[1..];
      TailOrdered(key, cols);
      InsertOrdered(key, rest, c);
      InsertMembers(key, rest, c);
      assert cols[0] in cols;
      NotAhead(key, cols, c);
      PrependOrdered(key, cols[0], Insert(key, rest, c));
    }
  }

  lemma SingleOrdered(key: string, c: nat)
    requires c < |key|
    ensures Ordered(key, [c])
  {
  }

  lemma AheadOfAll(key: string, cols: seq<nat>, c: nat)
    requires c < |key| && Ordered(key, cols) && cols != [] && key[c] < key[cols[0]]
    ensures forall x: nat :: x in cols ==> x < |key| && Before(key, c, x)
  {
    forall x: nat | x in cols ensures x < |key| && Before(key, c, x) {
      var k :| 0 <= k < |cols| && cols[k] == x;
      assert k == 0 || Before(key, cols[0], cols[k]);
    }
  }

  /** The first column stands before the others. */
  lemma TailOrdered(key: string, cols: seq<nat>)
    requires Ordered(key, cols) && cols != []
    ensures Ordered(key, cols[1..]) && cols[0] < |key|
    ensures forall x: nat :: x in cols[1..] ==> x in cols && x < |key| && Before(key, cols[0], x)
  {
    var rest := cols[1..];
    assert forall k :: 0 <= k < |rest| ==> rest[k] == cols[k + 1];
    forall x: nat | x in rest ensures x in cols && x < |key| && Before(key, cols[0], x) {
      var k :| 0 <= k < |rest| && rest[k] == x;
      assert Before(key, cols[0], cols[k + 1]);
    }
  }

  lemma NotAhead(key: string, cols: seq<nat>, c: nat)
    requires c < |key| && cols != [] && cols[0] < |key| && cols[0] < c && key[c] >= key[cols[0]]
    ensures Before(key, cols[0], c)
  {
  }

  /** The first `m` columns in order, by stable insertion. */
  function SortedFirst(key: string, m: nat): (cols: seq<nat>)
    requires m <= |key|
    ensures Ordered(key, cols) && |cols| == m
    ensures forall x: nat :: x in cols <==> x < m
  {
    if m == 0 then [] else
      var cols := SortedFirst(key, m - 1);
      InsertMembers(key, cols, m - 1);
      InsertOrdered(key, cols, m - 1);
      Insert(key, cols, m - 1)
  }

  function SortedColumns(key: string): (cols: seq<nat>)
    ensures IsColumnOrder(key, cols) && |cols| == |key|
    ensures forall j, k :: 0 <= j < k < |cols| ==>
      && cols[j] < |key| && cols[k] < |key|
      && key[cols[j]] <= key[cols[k]] && (key[cols[j]] == key[cols[k]] ==> cols[j] < cols[k])
  {
    SortedFirst(key, |key|)
  }

  lemma {:induction false} OrdersAgree(key: string, p: seq<nat>, q: seq<nat>, m: nat)
    requires IsColumnOrder(key, p) && IsColumnOrder(key, q) && m <= |p| && m <= |q|
    ensures p[..m] == q[..m]
  {
    if m > 0 {
      OrdersAgree(key, p, q, m - 1);
      if Before(key, p[m - 1], q[m - 1]) {
        NotBehind(key, p, q, m - 1);
      } else if p[m - 1] != q[m - 1] {
        NotBehind(key, q, p, m - 1);
      }
      assert p[..m] == p[..m - 1] + [p[m - 1]] && q[..m] == q[..m - 1] + [q[m - 1]];
    }
  }

  lemma OrderedDistinct(key: string, p: seq<nat>, j: nat, k: nat)
    requires Ordered(key, p) && j < k < |p|
    ensures p[j] != p[k]
  {
    assert Before(key, p[j], p[k]);
  }

  /** Where two column orders first differ, neither may have the earlier column. */
  lemma NotBehind(key: string, p: seq<nat>, q: seq<nat>, m: nat)
    requires IsColumnOrder(key, p) && IsColumnOrder(key, q) && m < |p| && m < |q| && p[..m] == q[..m]
    ensures !Before(key, p[m], q[m])
  {
    forall k | 0 <= k < m ensures q[k] != p[m] {
      OrderedDistinct(key, p, k, m);
      assert q[..m][k] == p[..m][k];
    }
    assert p[m] in q;
    var k :| 0 <= k < |q| && q[k] == p[m];
    if m < k {
      assert Before(key, q[m], q[k]);
    }
  }

  /** The column order is unique, so every stable sort by character finds this one. */
  lemma ColumnOrderIsUnique(key: string, cols: seq<nat>)
    requires IsColumnOrder(key, cols) && |cols| == |key|
    ensures cols == SortedColumns(key)
  {
    OrdersAgree(key, cols, SortedColumns(key), |key|);
    assert cols[..|key|] == cols && SortedColumns(key)[..|key|] == SortedColumns(key);
  }

  lemma ColumnsDiffer(key: string, j: nat, k: nat)
    requires j < |key| && k < |key| && SortedColumns(key)[j] == SortedColumns(key)[k]
    ensures j == k
  {
    var cols := SortedColumns(key);
    if j < k {
      OrderedDistinct(key, cols, j, k);
    } else if k < j {
      OrderedDistinct(key, cols, k, j);
    }
  }

  function IndexOf(cols: seq<nat>, x: nat): (k: nat)
    requires x in cols
    ensures k < |cols| && cols[k] == x
  {
    if cols[0] == x then 0 else 1 + IndexOf(cols[1..], x)
  }

  // ---- Rows and columns laid end to end -------------------------------------------------------------------

  type Cells = (nat, nat) -> char

  function Block(f: Cells, b: nat, w: nat): (s: seq<char>)
    ensures |s| == w && forall i :: 0 <= i < w ==> s[i] == f(b, i)
  {
    seq(w, i requires 0 <= i < w => f(b, i))
  }

  /** `count` blocks of `w` characters, one behind the other. */
  function Blocks(f: Cells, count: nat, w: nat): seq<char> {
    if count == 0 then [] else Blocks(f, count - 1, w) + Block(f, count - 1, w)
  }

  lemma {:induction false} BlocksLength(f: Cells, count: nat, w: nat)
    ensures |Blocks(f, count, w)| == count * w
  {
    if count > 0 {
      BlocksLength(f, count - 1, w);
      Distribute(count, 1, w);
    } else {
      assert 0 * w == 0;
    }
  }

  lemma {:induction false} BlocksAt(f: Cells, count: nat, w: nat, b: nat, i: nat)
    requires b < count && i < w
    ensures 0 <= b * w + i < |Blocks(f, count, w)| == count * w
    ensures Blocks(f, count, w)[b * w + i] == f(b, i)
  {
    BlocksLength(f, count, w);
    BlocksLength(f, count - 1, w);
    if b < count - 1 {
      BlocksAt(f, count - 1, w, b, i);
    }
  }

  ghost predicate AgreeAt(s: seq<char>, t: seq<char>, w: nat, b: nat, i: nat) {
    0 <= b * w + i < |s| && b * w + i < |t| && s[b * w + i] == t[b * w + i]
  }

  /** Texts cut into blocks of `w` are equal when they agree block by block. */
  lemma SameBlocks(s: seq<char>, t: seq<char>, count: nat, w: nat)
    requires |s| == |t| == count * w
    requires forall b: nat, i: nat :: b < count && i < w ==> AgreeAt(s, t, w, b, i)
    ensures s == t
  {
    if w == 0 {
      assert count * w == 0;
    } else {
      forall p | 0 <= p < |s| ensures s[p] == t[p] {
        var b, i := p / w, p % w;
        QuotientBelow(p, w, count);
        assert AgreeAt(s, t, w, b, i);
        assert p == b * w + i;
      }
    }
  }

  // ---- The text, padded -----------------------------------------------------------------------------------

  function RowCount(length: nat, n: nat): nat
    requires n > 0
  {
    (length + n - 1) / n
  }

  lemma RowsCover(length: nat, n: nat)
    requires n > 0
    ensures length <= RowCount(length, n) * n < length + n
  {
    var q, r := (length + n - 1) / n, (length + n - 1) % n;
    assert length + n - 1 == q * n + r;
  }

  lemma RowsOfFull(rows: nat, n: nat)
    requires n > 0
    ensures RowCount(rows * n, n) == rows
  {
    MulMonotone(0, rows, n);
    DivUnique(rows * n + n - 1, n, rows, n - 1);
  }

  /** The character at a position, a space behind the end. */
  function PadAt(src: seq<char>, p: int): char {
    if 0 <= p < |src| then src[p] else ' '
  }

  /** The text followed by spaces up to a multiple of `n`. */
  function Padded(src: seq<char>, n: nat): seq<char>
    requires n > 0
  {
    RowsCover(|src|, n);
    src + seq(RowCount(|src|, n) * n - |src|, i => ' ')
  }

  lemma PaddedAt(src: seq<char>, n: nat, p: nat)
    requires n > 0 && p < RowCount(|src|, n) * n
    ensures |Padded(src, n)| == RowCount(|src|, n) * n && Padded(src, n)[p] == PadAt(src, p)
  {
  }

  lemma FullRowsExactly(length: nat, n: nat)
    requires n > 0
    ensures RowCount(length, n) * n == length <==> length % n == 0
  {
    hide RowCount;
    var q, rows := length / n, RowCount(length, n);
    assert length == q * n + length % n;
    if length % n == 0 {
      RowsOfFull(q, n);
    } else if rows * n == length {
      DivUnique(length, n, rows, 0);
    }
  }

  /** What padding is: the text, and then spaces for less than a whole row. */
  ghost predicate SpacesBehind(src: seq<char>, padded: seq<char>, n: nat) {
    && |src| <= |padded| < |src| + n && |padded| % n == 0
    && padded[..|src|] == src
    && forall p :: |src| <= p < |padded| ==> padded[p] == ' '
  }

  lemma PaddedWithSpaces(src: seq<char>, n: nat)
    requires n > 0
    ensures SpacesBehind(src, Padded(src, n), n)
  {
    RowsCover(|src|, n);
    DivUnique(RowCount(|src|, n) * n, n, RowCount(|src|, n), 0);
  }

  /** Only a whole number of rows needs no padding. */
  lemma PaddedExactly(src: seq<char>, n: nat)
    requires n > 0
    ensures Padded(src, n) == src <==> |src| % n == 0
  {
    hide RowCount;
    FullRowsExactly(|src|, n);
    RowsCover(|src|, n);
    var length := RowCount(|src|, n) * n;
    assert |Padded(src, n)| == length;
    if length == |src| {
      assert Padded(src, n) == src;
    }
  }

  // ---- The cipher as a function ---------------------------------------------------------------------------

  /** Column `c` in sorted order, row `r`. */
  function TransposedCells(src: seq<char>, key: string): Cells {
    (c: nat, r: nat) => if c < |key| then PadAt(src, r * |key| + SortedColumns(key)[c]) else ' '
  }

  /** Row `r`, column `x`. */
  function UntransposedCells(src: seq<char>, key: string): Cells
    requires key != ""
  {
    (r: nat, x: nat) =>
      if x < |key| then PadAt(src, IndexOf(SortedColumns(key), x) * RowCount(|src|, |key|) + r) else ' '
  }

  /** The columns of the padded text in sorted order, each from top to bottom. */
  function Transposed(src: seq<char>, key: string): seq<char> {
    if key == "" then src else Blocks(TransposedCells(src, key), |key|, RowCount(|src|, |key|))
  }

  /** The rows of the grid whose columns in sorted order, end to end, are the padded text. */
  function Untransposed(src: seq<char>, key: string): seq<char> {
    if key == "" then src else Blocks(UntransposedCells(src, key), RowCount(|src|, |key|), |key|)
  }

  lemma Shapes(src: seq<char>, key: string)
    requires key != ""
    ensures var rows := RowCount(|src|, |key|);
      && |Transposed(src, key)| == |Untransposed(src, key)| == |Padded(src, |key|)| == rows * |key|
      && RowCount(rows * |key|, |key|) == rows
  {
    var rows := RowCount(|src|, |key|);
    BlocksLength(TransposedCells(src, key), |key|, rows);
    BlocksLength(UntransposedCells(src, key), rows, |key|);
    RowsCover(|src|, |key|);
    RowsOfFull(rows, |key|);
    assert |key| * rows == rows * |key|;
  }

  lemma TransposedAt(src: seq<char>, key: string, c: nat, r: nat)
    requires key != "" && c < |key| && r < RowCount(|src|, |key|)
    ensures PadAt(Transposed(src, key), c * RowCount(|src|, |key|) + r)
         == PadAt(src, r * |key| + SortedColumns(key)[c])
  {
    hide Blocks, SortedColumns, RowCount;
    BlocksAt(TransposedCells(src, key), |key|, RowCount(|src|, |key|), c, r);
  }

  lemma UntransposedAt(src: seq<char>, key: string, c: nat, r: nat)
    requires c < |key| && r < RowCount(|src|, |key|)
    ensures PadAt(Untransposed(src, key), r * |key| + SortedColumns(key)[c])
         == PadAt(src, c * RowCount(|src|, |key|) + r)
  {
    hide Blocks, SortedColumns, RowCount, IndexOf;
    var x := SortedColumns(key)[c];
    ColumnsDiffer(key, c, IndexOf(SortedColumns(key), x));
    BlocksAt(UntransposedCells(src, key), RowCount(|src|, |key|), |key|, r, x);
  }

  // ---- The round trips ------------------------------------------------------------------------------------

  lemma Position(b: nat, i: nat, count: nat, w: nat)
    requires b < count && i < w
    ensures 0 <= b * w + i < count * w
  {
    MulMonotone(b + 1, count, w);
    MulMonotone(0, b, w);
    Distribute(b, 1, w);
  }

  lemma UntransposeUndoesAt(src: seq<char>, key: string, r: nat, x: nat)
    requires x < |key| && r < RowCount(|src|, |key|)
    ensures AgreeAt(Untransposed(Transposed(src, key), key), Padded(src, |key|), |key|, r, x)
  {
    var n, rows, t := |key|, RowCount(|src|, |key|), Transposed(src, key);
    Shapes(src, key);
    Shapes(t, key);
    Position(r, x, rows, n);
    var c := IndexOf(SortedColumns(key), x);
    UntransposedAt(t, key, c, r);
    TransposedAt(src, key, c, r);
    PaddedAt(src, n, r * n + x);
  }

  /** Untransposing a transposed text gives the text, padded. */
  lemma UntransposeUndoes(src: seq<char>, key: string)
    requires key != ""
    ensures Untransposed(Transposed(src, key), key) == Padded(src, |key|)
    ensures SpacesBehind(src, Untransposed(Transposed(src, key), key), |key|)
  {
    PaddedWithSpaces(src, |key|);
    var n, rows, t := |key|, RowCount(|src|, |key|), Transposed(src, key);
    Shapes(src, key);
    Shapes(t, key);
    forall r: nat, x: nat | r < rows && x < n
      ensures AgreeAt(Untransposed(t, key), Padded(src, n), n, r, x)
    {
      UntransposeUndoesAt(src, key, r, x);
    }
    SameBlocks(Untransposed(t, key), Padded(src, n), rows, n);
  }

  lemma TransposeUndoesAt(src: seq<char>, key: string, c: nat, r: nat)
    requires c < |key| && r < RowCount(|src|, |key|)
    ensures AgreeAt(Transposed(Untransposed(src, key), key), Padded(src, |key|), RowCount(|src|, |key|), c, r)
  {
    var n, rows, u := |key|, RowCount(|src|, |key|), Untransposed(src, key);
    Shapes(src, key);
    Shapes(u, key);
    Position(c, r, n, rows);
    assert n * rows == rows * n;
    TransposedAt(u, key, c, r);
    UntransposedAt(src, key, c, r);
    PaddedAt(src, n, c * rows + r);
  }

  /** Transposing an untransposed text gives the text, padded. */
  lemma TransposeUndoes(src: seq<char>, key: string)
    requires key != ""
    ensures Transposed(Untransposed(src, key), key) == Padded(src, |key|)
    ensures SpacesBehind(src, Transposed(Untransposed(src, key), key), |key|)
  {
    PaddedWithSpaces(src, |key|);
    var n, rows, u := |key|, RowCount(|src|, |key|), Untransposed(src, key);
    Shapes(src, key);
    Shapes(u, key);
    assert n * rows == rows * n;
    forall c: nat, r: nat | c < n && r < rows
      ensures AgreeAt(Transposed(u, key), Padded(src, n), rows, c, r)
    {
      TransposeUndoesAt(src, key, c, r);
    }
    SameBlocks(Transposed(u, key), Padded(src, n), n, rows);
  }

  /** Either round trip returns the text itself exactly when it fills its rows, or the key is empty. */
  lemma RoundTripsExactly(src: seq<char>, key: string)
    ensures Untransposed(Transposed(src, key), key) == src <==> key == "" || |src| % |key| == 0
    ensures Transposed(Untransposed(src, key), key) == src <==> key == "" || |src| % |key| == 0
  {
    if key != "" {
      UntransposeUndoes(src, key);
      TransposeUndoes(src, key);
      PaddedExactly(src, |key|);
    }
  }

  // ---- The loops over the grid ----------------------------------------------------------------------------

  ghost predicate Blank(grid: array2<char>)
    reads grid
  {
    forall i, j :: 0 <= i < grid.Length0 && 0 <= j < grid.Length1 ==> grid[i, j] == ' '
  }

  /** The text laid out row by row. */
  ghost predicate FilledByRow(grid: array2<char>, src: seq<char>)
    reads grid
  {
    forall i, j :: 0 <= i < grid.Length0 && 0 <= j < grid.Length1 ==> grid[i, j] == PadAt(src, i * grid.Length1 + j)
  }

  /** The text laid out column by column, the columns in the order `cols`. */
  ghost predicate FilledByColumn(grid: array2<char>, src: seq<char>, cols: seq<nat>)
    requires |cols| == grid.Length1 && forall k :: 0 <= k < |cols| ==> cols[k] < grid.Length1
    reads grid
  {
    forall i, k :: 0 <= i < grid.Length0 && 0 <= k < |cols| ==> grid[i, cols[k]] == PadAt(src, k * grid.Length0 + i)
  }

  function Min(a: int, b: int): int {
    if a < b then a else b
  }

  method FillRow(grid: array2<char>, src: seq<char>, r: nat, start: nat) returns (next: nat)
    requires r < grid.Length0 && start <= |src|
    requires forall j :: 0 <= j < grid.Length1 ==> grid[r, j] == ' '
    modifies grid
    ensures next == Min(|src|, start + grid.Length1)
    ensures forall j :: 0 <= j < grid.Length1 ==>
      grid[r, j] == if start + j < |src| then src[start + j] else ' '
    ensures forall i, j :: 0 <= i < grid.Length0 && 0 <= j < grid.Length1 && i != r ==>
      grid[i, j] == old(grid[i, j])
  {
    next := start;
    var c := 0;
    while c < grid.Length1
      invariant 0 <= c <= grid.Length1 && next == start + c <= |src|
      invariant forall j :: 0 <= j < c ==> grid[r, j] == src[start + j]
      invariant forall j :: c <= j < grid.Length1 ==> grid[r, j] == ' '
      invariant forall i, j :: 0 <= i < grid.Length0 && 0 <= j < grid.Length1 && i != r ==>
        grid[i, j] == old(grid[i, j])
    {
      if next == |src| {
        break;
      }
      grid[r, c] := src[next];
      next := next + 1;
      c := c + 1;
    }
  }

  method FillRows(grid: array2<char>, src: seq<char>)
    requires Blank(grid)
    modifies grid
    ensures FilledByRow(grid, src)
  {
    var n := grid.Length1;
    var next, r := 0, 0;
    while r < grid.Length0
      invariant 0 <= r <= grid.Length0
      invariant next == Min(|src|, r * n)
      invariant forall i, j :: 0 <= i < r && 0 <= j < n ==> grid[i, j] == PadAt(src, i * n + j)
      invariant forall i, j :: r <= i < grid.Length0 && 0 <= j < n ==> grid[i, j] == ' '
    {
      MulMonotone(0, r, n);
      ghost var start := next;
      next := FillRow(grid, src, r, next);
      assert forall j :: 0 <= j < n ==> grid[r, j] == PadAt(src, r * n + j);
      Distribute(r, 1, n);
      r := r + 1;
    }
  }

  method FillColumn(grid: array2<char>, src: seq<char>, col: nat, start: nat) returns (next: nat)
    requires col < grid.Length1 && start <= |src|
    requires forall i :: 0 <= i < grid.Length0 ==> grid[i, col] == ' '
    modifies grid
    ensures next == Min(|src|, start + grid.Length0)
    ensures forall i :: 0 <= i < grid.Length0 ==>
      grid[i, col] == if start + i < |src| then src[start + i] else ' '
    ensures forall i, j :: 0 <= i < grid.Length0 && 0 <= j < grid.Length1 && j != col ==>
      grid[i, j] == old(grid[i, j])
  {
    next := start;
    var r := 0;
    while r < grid.Length0
      invariant 0 <= r <= grid.Length0 && next == start + r <= |src|
      invariant forall i :: 0 <= i < r ==> grid[i, col] == src[start + i]
      invariant forall i :: r <= i < grid.Length0 ==> grid[i, col] == ' '
      invariant forall i, j :: 0 <= i < grid.Length0 && 0 <= j < grid.Length1 && j != col ==>
        grid[i, j] == old(grid[i, j])
    {
      if next == |src| {
        break;
      }
      grid[r, col] := src[next];
      next := next + 1;
      r := r + 1;
    }
  }

  method FillColumns(grid: array2<char>, src: seq<char>, cols: seq<nat>)
    requires Blank(grid) && |cols| == grid.Length1
    requires forall k :: 0 <= k < |cols| ==> cols[k] < grid.Length1
    requires forall j, k :: 0 <= j < |cols| && 0 <= k < |cols| && cols[j] == cols[k] ==> j == k
    modifies grid
    ensures FilledByColumn(grid, src, cols)
  {
    var rows := grid.Length0;
    var next, k := 0, 0;
    while k < |cols|
      invariant 0 <= k <= |cols|
      invariant next == Min(|src|, k * rows)
      invariant forall i, c :: 0 <= i < rows && 0 <= c < k ==> grid[i, cols[c]] == PadAt(src, c * rows + i)
      invariant forall i, c :: 0 <= i < rows && k <= c < |cols| ==> grid[i, cols[c]] == ' '
    {
      MulMonotone(0, k, rows);
      next := FillColumn(grid, src, cols[k], next);
      assert forall i :: 0 <= i < rows ==> grid[i, cols[k]] == PadAt(src, k * rows + i);
      Distribute(k, 1, rows);
      k := k + 1;
    }
  }

  method ReadColumns(grid: array2<char>, cols: seq<nat>, ghost f: Cells) returns (result: seq<char>)
    requires |cols| == grid.Length1
    requires forall k :: 0 <= k < |cols| ==> cols[k] < grid.Length1
    requires forall k: nat, i: nat :: k < |cols| && i < grid.Length0 ==> grid[i, cols[k]] == f(k, i)
    ensures result == Blocks(f, |cols|, grid.Length0)
  {
    result := [];
    for k := 0 to |cols|
      invariant result == Blocks(f, k, grid.Length0)
    {
      for i := 0 to grid.Length0
        invariant result == Blocks(f, k, grid.Length0) + Block(f, k, i)
      {
        assert Block(f, k, i + 1) == Block(f, k, i) + [grid[i, cols[k]]];
        result := result + [grid[i, cols[k]]];
      }
    }
  }

  method ReadRows(grid: array2<char>, ghost f: Cells) returns (result: seq<char>)
    requires forall i: nat, j: nat :: i < grid.Length0 && j < grid.Length1 ==> grid[i, j] == f(i, j)
    ensures result == Blocks(f, grid.Length0, grid.Length1)
  {
    result := [];
    for i := 0 to grid.Length0
      invariant result == Blocks(f, i, grid.Length1)
    {
      for j := 0 to grid.Length1
        invariant result == Blocks(f, i, grid.Length1) + Block(f, i, j)
      {
        assert Block(f, i, j + 1) == Block(f, i, j) + [grid[i, j]];
        result := result + [grid[i, j]];
      }
    }
  }

  method ColumnarTranspose(src: seq<char>, key: string) returns (result: seq<char>)
    ensures result == Transposed(src, key)
  {
    hide SortedColumns, RowCount, Blocks, Before;
    var columnCount := |key|;
    if columnCount == 0 {
      return src;
    }
    var rowCount := RowCount(|src|, columnCount);
    var grid := new char[rowCount, columnCount]((i, j) => ' ');
    FillRows(grid, src);
    var cols := SortedColumns(key);
    result := ReadColumns(grid, cols, TransposedCells(src, key));
  }

  method ColumnarUntranspose(src: seq<char>, key: string) returns (result: seq<char>)
    ensures result == Untransposed(src, key)
  {
    hide SortedColumns, RowCount, Blocks, IndexOf, Before;
    var columnCount := |key|;
    if columnCount == 0 {
      return src;
    }
    var rowCount := RowCount(|src|, columnCount);
    var grid := new char[rowCount, columnCount]((i, j) => ' ');
    var cols := SortedColumns(key);
    forall j, k | 0 <= j < |cols| && 0 <= k < |cols| && cols[j] == cols[k] ensures j == k {
      ColumnsDiffer(key, j, k);
    }
    FillColumns(grid, src, cols);
    forall i: nat, j: nat | i < rowCount && j < columnCount ensures grid[i, j] == UntransposedCells(src, key)(i, j) {
      var k := IndexOf(cols, j);
      assert grid[i, cols[k]] == PadAt(src, k * rowCount + i);
    }
    result := ReadRows(grid, UntransposedCells(src, key));
  }
}

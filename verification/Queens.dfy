/** The backtracking searches of 算法/queen.cc (numbers) and 算法/Queen.cc (strings) for n queens. */
module Queens {
  import opened Basics

  // ----- placements: the column of the queen in each row

  ghost predicate Attacks(i: int, a: int, j: int, b: int) {
    i == j || a == b || i - j == a - b || i - j == b - a
  }

  predicate InRange(n: nat, cols: seq<nat>) {
    |cols| <= n && forall i :: 0 <= i < |cols| ==> cols[i] < n
  }

  ghost predicate Peaceful(cols: seq<nat>) {
    forall i, j :: 0 <= i < j < |cols| ==> !Attacks(i, cols[i], j, cols[j])
  }

  ghost predicate Placement(n: nat, cols: seq<nat>) {
    |cols| == n && InRange(n, cols) && Peaceful(cols)
  }

  /** A queen in column `c` of the next row is not attacked. */
  ghost predicate Safe(cols: seq<nat>, c: nat) {
    forall i :: 0 <= i < |cols| ==> !Attacks(i, cols[i], |cols|, c)
  }

  /** All placements that extend `cols`, in the order in which the searches meet them. */
  ghost function Extensions(n: nat, cols: seq<nat>): seq<seq<nat>>
    requires InRange(n, cols)
    decreases n - |cols|, n + 1
  {
    if |cols| == n then [cols] else ExtensionsFrom(n, cols, 0)
  }

  ghost function ExtensionsFrom(n: nat, cols: seq<nat>, c: nat): seq<seq<nat>>
    requires InRange(n, cols) && |cols| < n && c <= n
    decreases n - |cols|, n - c
  {
    if c == n then [] else
      (if Safe(cols, c) then Extensions(n, cols + [c]) else []) + ExtensionsFrom(n, cols, c + 1)
  }

  lemma {:induction false} ExtensionsAreAll(n: nat, cols: seq<nat>, q: seq<nat>)
    requires InRange(n, cols) && Peaceful(cols)
    ensures q in Extensions(n, cols) <==> Placement(n, q) && cols <= q
    decreases n - |cols|, n + 1
  {
    if |cols| == n {
      assert cols <= q && |q| == n ==> q == cols;
    } else {
      ExtensionsFromAreAll(n, cols, 0, q);
    }
  }

  lemma {:induction false} ExtensionsFromAreAll(n: nat, cols: seq<nat>, c: nat, q: seq<nat>)
    requires InRange(n, cols) && Peaceful(cols) && |cols| < n && c <= n
    ensures q in ExtensionsFrom(n, cols, c) <==> Placement(n, q) && cols <= q && q[|cols|] >= c
    decreases n - |cols|, n - c
  {
    if c < n {
      ExtensionsFromAreAll(n, cols, c + 1, q);
      var next := cols + [c];
      if Safe(cols, c) {
        assert Peaceful(next);
        ExtensionsAreAll(n, next, q);
        assert next <= q <==> cols <= q && |q| > |cols| && q[|cols|] == c;
      } else if |q| == n && cols <= q && q[|cols|] == c {
        var i :| 0 <= i < |cols| && Attacks(i, cols[i], |cols|, c);
        assert Attacks(i, q[i], |cols|, q[|cols|]);
      }
    }
  }

  /** At the first row in which they differ, `p` has its queen further to the left than `q`. */
  ghost predicate Before(p: seq<nat>, q: seq<nat>) {
    exists k :: DiffersAt(p, q, k)
  }

  predicate DiffersAt(p: seq<nat>, q: seq<nat>, k: nat) {
    k < |p| && k < |q| && p[..k] == q[..k] && p[k] < q[k]
  }

  ghost predicate Ascending(ps: seq<seq<nat>>) {
    forall i, j :: 0 <= i < j < |ps| ==> Before(ps[i], ps[j])
  }

  lemma {:induction false} AscendingSum(xs: seq<seq<nat>>, ys: seq<seq<nat>>)
    requires Ascending(xs) && Ascending(ys)
    requires forall x, y :: x in xs && y in ys ==> Before(x, y)
    ensures Ascending(xs + ys)
  {
    assert forall i :: 0 <= i < |xs| ==> xs[i] in xs;
    assert forall j :: 0 <= j < |ys| ==> ys[j] in ys;
  }

  /** Extensions with `c` in the next row come before those with a later column there. */
  lemma {:induction false} LaterExtensions(n: nat, cols: seq<nat>, c: nat, p: seq<nat>, q: seq<nat>)
    requires InRange(n, cols) && Peaceful(cols) && |cols| < n && c < n && Safe(cols, c)
    requires p in Extensions(n, cols + [c]) && q in ExtensionsFrom(n, cols, c + 1)
    ensures Before(p, q)
  {
    var next := cols + [c];
    assert Peaceful(next);
    ExtensionsAreAll(n, next, p);
    ExtensionsFromAreAll(n, cols, c + 1, q);
    assert p[..|cols|] == next[..|cols|] == cols && p[|cols|] == next[|cols|];
    assert DiffersAt(p, q, |cols|);
  }

  lemma {:induction false} ExtensionsAscend(n: nat, cols: seq<nat>)
    requires InRange(n, cols) && Peaceful(cols)
    ensures Ascending(Extensions(n, cols))
    decreases n - |cols|, n + 1
  {
    if |cols| < n {
      ExtensionsFromAscend(n, cols, 0);
    }
  }

  lemma {:induction false} ExtensionsFromAscend(n: nat, cols: seq<nat>, c: nat)
    requires InRange(n, cols) && Peaceful(cols) && |cols| < n && c <= n
    ensures Ascending(ExtensionsFrom(n, cols, c))
    decreases n - |cols|, n - c
  {
    if c < n {
      ExtensionsFromAscend(n, cols, c + 1);
      if Safe(cols, c) {
        assert Peaceful(cols + [c]);
        ExtensionsAscend(n, cols + [c]);
        var xs, ys := Extensions(n, cols + [c]), ExtensionsFrom(n, cols, c + 1);
        forall p, q | p in xs && q in ys
          ensures Before(p, q)
        {
          LaterExtensions(n, cols, c, p, q);
        }
        AscendingSum(xs, ys);
      }
    }
  }

  lemma {:induction false} ExtensionsDiffer(n: nat, cols: seq<nat>)
    requires InRange(n, cols) && Peaceful(cols)
    ensures NoRepeats(Extensions(n, cols))
  {
    ExtensionsAscend(n, cols);
    var ps := Extensions(n, cols);
    forall i, j | 0 <= i < j < |ps|
      ensures ps[i] != ps[j]
    {
      assert Before(ps[i], ps[j]);
    }
  }

  // ----- boards

  function Cell<T>(cols: seq<nat>, i: nat, j: nat, queen: T, empty: T): T {
    if i < |cols| && cols[i] == j then queen else empty
  }

  function Render<T>(n: nat, cols: seq<nat>, queen: T, empty: T): (b: seq<seq<T>>)
    ensures |b| == n && forall i :: 0 <= i < n ==> |b[i]| == n
    ensures forall i, j :: 0 <= i < n && 0 <= j < n ==> b[i][j] == Cell(cols, i, j, queen, empty)
  {
    seq(n, i requires 0 <= i < n => seq(n, j requires 0 <= j < n => Cell(cols, i, j, queen, empty)))
  }

  ghost function Renders<T>(n: nat, qs: seq<seq<nat>>, queen: T, empty: T): (bs: seq<seq<seq<T>>>)
    ensures |bs| == |qs|
  {
    seq(|qs|, k requires 0 <= k < |qs| => Render(n, qs[k], queen, empty))
  }

  lemma SameBoard<T>(n: nat, b: seq<seq<T>>, cols: seq<nat>, queen: T, empty: T)
    requires |b| == n && forall i :: 0 <= i < n ==> |b[i]| == n
    requires forall i, j :: 0 <= i < n && 0 <= j < n ==> b[i][j] == Cell(cols, i, j, queen, empty)
    ensures b == Render(n, cols, queen, empty)
  {
    var r := Render(n, cols, queen, empty);
    forall i | 0 <= i < n
      ensures b[i] == r[i]
    {
      assert forall j :: 0 <= j < n ==> b[i][j] == r[i][j];
    }
  }

  function SetCell<T>(b: seq<seq<T>>, row: nat, col: nat, v: T): seq<seq<T>>
    requires row < |b| && col < |b[row]|
  {
    b[row := b[row][col := v]]
  }

  /** Placing the next queen and taking it back. */
  lemma PlaceAndReset<T>(n: nat, cols: seq<nat>, c: nat, queen: T, empty: T)
    requires |cols| < n && c < n && queen != empty
    ensures var b := Render(n, cols, queen, empty); var placed := SetCell(b, |cols|, c, queen);
      placed == Render(n, cols + [c], queen, empty) && SetCell(placed, |cols|, c, empty) == b
  {
    var b := Render(n, cols, queen, empty);
    var placed := SetCell(b, |cols|, c, queen);
    SameBoard(n, placed, cols + [c], queen, empty);
    SameBoard(n, SetCell(placed, |cols|, c, empty), cols, queen, empty);
  }

  /** Bookkeeping of one round of the searches' loop. */
  lemma Advance<T>(n: nat, found: seq<seq<nat>>, here: seq<seq<nat>>, rest: seq<seq<nat>>, results: seq<seq<seq<T>>>, queen: T, empty: T)
    ensures found + (here + rest) == (found + here) + rest
    ensures results + Renders(n, found + here, queen, empty)
         == (results + Renders(n, found, queen, empty)) + Renders(n, here, queen, empty)
    ensures here == [] ==> found + here == found
  {
  }

  // ----- queen.cc

  class QueenSearch {
    var board: seq<seq<int>>
    var results: seq<seq<seq<int>>>

    constructor (n: nat)
      ensures board == Render(n, [], 1, 0) && results == []
    {
      board, results := seq(n, _ => seq(n, _ => 0)), [];
      new;
      SameBoard(n, board, [], 1, 0);
    }

    method IsPosValid(row: nat, col: nat, ghost n: nat, ghost cols: seq<nat>) returns (valid: bool)
      requires InRange(n, cols) && board == Render(n, cols, 1, 0) && row == |cols| < n && col < n
      ensures valid <==> Safe(cols, col)
    {
      for index := 0 to |board[row]| {
        if board[row][index] == 1 {
          return false;
        }
      }
      for index := 0 to row
        invariant forall i :: 0 <= i < index ==> cols[i] != col
      {
        if board[index][col] == 1 {
          assert Attacks(index, cols[index], row, col);
          return false;
        }
      }
      var index: int, jdex: int := row, col;
      while index >= 0 && jdex >= 0
        invariant index <= row && index - jdex == row - col
        invariant forall i :: index < i < row ==> i - row != cols[i] - col
        decreases index + 1
      {
        if board[index][jdex] == 1 {
          assert Attacks(index, cols[index], row, col);
          return false;
        }
        index, jdex := index - 1, jdex - 1;
      }
      assert forall i :: 0 <= i < row ==> i - row != cols[i] - col;
      index, jdex := row, col;
      while index >= 0 && jdex < |board[0]|
        invariant index <= row && jdex - col == row - index
        invariant forall i :: index < i < row ==> row - i != cols[i] - col
        decreases index + 1
      {
        if board[index][jdex] == 1 {
          assert Attacks(index, cols[index], row, col);
          return false;
        }
        index, jdex := index - 1, jdex + 1;
      }
      assert forall i :: 0 <= i < row ==> row - i != cols[i] - col;
      return true;
    }

    /** Appends every solution that extends the queens on the board, and restores the board. */
    method Backtrace(row: nat, ghost n: nat, ghost cols: seq<nat>)
      requires InRange(n, cols) && board == Render(n, cols, 1, 0) && row == |cols|
      modifies this
      ensures board == old(board)
      ensures results == old(results) + Renders(n, Extensions(n, cols), 1, 0)
      decreases n - row
    {
      if |board| == row {
        results := results + [board];
        return;
      }
      ghost var found: seq<seq<nat>> := [];
      for index := 0 to |board[row]|
        invariant board == old(board) && |board[row]| == n
        invariant results == old(results) + Renders(n, found, 1, 0)
        invariant Extensions(n, cols) == found + ExtensionsFrom(n, cols, index)
      {
        ghost var here := if Safe(cols, index) then Extensions(n, cols + [index]) else [];
        Advance(n, found, here, ExtensionsFrom(n, cols, index + 1), old(results), 1, 0);
        found := found + here;
        var valid := IsPosValid(row, index, n, cols);
        if !valid {
          continue;
        }
        PlaceAndReset(n, cols, index, 1, 0);
        board := board[row := board[row][index := 1]];
        Backtrace(row + 1, n, cols + [index]);
        board := board[row := board[row][index := 0]];
      }
    }

    /** The whole search, for any size of the board. */
    method Search(n: nat)
      modifies this
      ensures (forall b :: b in results <==> IsSolution(n, b, 1, 0)) && NoRepeats(results)
      ensures ReadInOrder(results, 1)
      ensures board == Render(n, [], 1, 0)
    {
      results := [];
      board := seq(n, _ => seq(n, _ => 0));
      SameBoard(n, board, [], 1, 0);
      Backtrace(0, n, []);
      assert results == Renders(n, Extensions(n, []), 1, 0);
      SearchIsComplete(n, results, 1, 0);
    }
  }

  // ----- Queen.cc

  class QueenStrings {
    var chessboard: seq<string>
    var results: seq<seq<string>>

    constructor (n: nat)
      ensures chessboard == Render(n, [], 'Q', '.') && results == []
    {
      chessboard, results := seq(n, _ => seq(n, _ => '.')), [];
      new;
      SameBoard(n, chessboard, [], 'Q', '.');
    }

    /** Reading a string one past its end yields the terminator. */
    function At(i: nat, j: nat): char
      requires i < |chessboard| && j <= |chessboard[i]|
      reads this
    {
      if j < |chessboard[i]| then chessboard[i][j] else '\0'
    }

    /** The free function's test; its last loop also reads the column after the last one. */
    method IsValid(row: nat, col: nat, ghost n: nat, ghost cols: seq<nat>) returns (valid: bool)
      requires InRange(n, cols) && chessboard == Render(n, cols, 'Q', '.') && row == |cols| < n && col < n
      ensures valid <==> Safe(cols, col)
    {
      valid := UpperLeftFree(row, col, n, cols);
      if !valid {
        return;
      }
      var index: int, jndex: int := row - 1, col + 1;
      while index >= 0 && jndex <= |chessboard|
        invariant -1 <= index < row && jndex - col == row - index
        invariant forall i :: index < i < row ==> row - i != cols[i] - col
        decreases index + 1
      {
        if At(index, jndex) == 'Q' {
          assert Attacks(index, cols[index], row, col);
          return false;
        }
        index, jndex := index - 1, jndex + 1;
      }
      assert forall i :: 0 <= i < row ==> row - i != cols[i] - col;
    }

    /** The test of the class Solution, which stays on the board. */
    method SolutionIsValid(row: nat, col: nat, n: nat, ghost cols: seq<nat>) returns (valid: bool)
      requires InRange(n, cols) && chessboard == Render(n, cols, 'Q', '.') && row == |cols| < n && col < n
      ensures valid <==> Safe(cols, col)
    {
      valid := UpperLeftFree(row, col, n, cols);
      if !valid {
        return;
      }
      var i: int, j: int := row - 1, col + 1;
      while i >= 0 && j < n
        invariant -1 <= i < row && j - col == row - i
        invariant forall k :: i < k < row ==> row - k != cols[k] - col
        decreases i + 1
      {
        if chessboard[i][j] == 'Q' {
          assert Attacks(i, cols[i], row, col);
          return false;
        }
        i, j := i - 1, j + 1;
      }
      assert forall k :: 0 <= k < row ==> row - k != cols[k] - col;
    }

    /** The two loops both tests begin with: the column, and the diagonal to the upper left. */
    method UpperLeftFree(row: nat, col: nat, ghost n: nat, ghost cols: seq<nat>) returns (free: bool)
      requires InRange(n, cols) && chessboard == Render(n, cols, 'Q', '.') && row == |cols| < n && col < n
      ensures free ==> forall i :: 0 <= i < row ==> cols[i] != col && i - row != cols[i] - col
      ensures !free ==> !Safe(cols, col)
    {
      for index := 0 to row
        invariant forall i :: 0 <= i < index ==> cols[i] != col
      {
        if chessboard[index][col] == 'Q' {
          assert Attacks(index, cols[index], row, col);
          return false;
        }
      }
      var index: int, jndex: int := row - 1, col - 1;
      while index >= 0 && jndex >= 0
        invariant -1 <= index < row && index - jndex == row - col
        invariant forall i :: index < i < row ==> i - row != cols[i] - col
        decreases index + 1
      {
        if chessboard[index][jndex] == 'Q' {
          assert Attacks(index, cols[index], row, col);
          return false;
        }
        index, jndex := index - 1, jndex - 1;
      }
      return true;
    }

    method BackTrace(row: nat, ghost n: nat, ghost cols: seq<nat>)
      requires InRange(n, cols) && chessboard == Render(n, cols, 'Q', '.') && row == |cols|
      modifies this
      ensures chessboard == old(chessboard)
      ensures results == old(results) + Renders(n, Extensions(n, cols), 'Q', '.')
      decreases n - row
    {
      if row == |chessboard| {
        results := results + [chessboard];
        return;
      }
      ghost var found: seq<seq<nat>> := [];
      for col := 0 to |chessboard|
        invariant chessboard == old(chessboard)
        invariant results == old(results) + Renders(n, found, 'Q', '.')
        invariant Extensions(n, cols) == found + ExtensionsFrom(n, cols, col)
      {
        ghost var here := if Safe(cols, col) then Extensions(n, cols + [col]) else [];
        Advance(n, found, here, ExtensionsFrom(n, cols, col + 1), old(results), 'Q', '.');
        found := found + here;
        var valid := IsValid(row, col, n, cols);
        if valid {
          PlaceAndReset(n, cols, col, 'Q', '.');
          chessboard := chessboard[row := chessboard[row][col := 'Q']];
          BackTrace(row + 1, n, cols + [col]);
          chessboard := chessboard[row := chessboard[row][col := '.']];
        }
      }
    }

    /** The whole search with the free functions, for any size of the board. */
    method Search(n: nat)
      modifies this
      ensures (forall b :: b in results <==> IsSolution(n, b, 'Q', '.')) && NoRepeats(results)
      ensures ReadInOrder(results, 'Q')
      ensures chessboard == Render(n, [], 'Q', '.')
    {
      results := [];
      chessboard := seq(n, _ => seq(n, _ => '.'));
      SameBoard(n, chessboard, [], 'Q', '.');
      BackTrace(0, n, []);
      assert results == Renders(n, Extensions(n, []), 'Q', '.');
      SearchIsComplete(n, results, 'Q', '.');
    }

    method Backtracking(n: nat, row: nat, ghost cols: seq<nat>)
      requires InRange(n, cols) && chessboard == Render(n, cols, 'Q', '.') && row == |cols|
      modifies this
      ensures chessboard == old(chessboard)
      ensures results == old(results) + Renders(n, Extensions(n, cols), 'Q', '.')
      decreases n - row
    {
      if row == n {
        results := results + [chessboard];
        return;
      }
      ghost var found: seq<seq<nat>> := [];
      for col := 0 to n
        invariant chessboard == old(chessboard)
        invariant results == old(results) + Renders(n, found, 'Q', '.')
        invariant Extensions(n, cols) == found + ExtensionsFrom(n, cols, col)
      {
        ghost var here := if Safe(cols, col) then Extensions(n, cols + [col]) else [];
        Advance(n, found, here, ExtensionsFrom(n, cols, col + 1), old(results), 'Q', '.');
        found := found + here;
        var valid := SolutionIsValid(row, col, n, cols);
        if valid {
          PlaceAndReset(n, cols, col, 'Q', '.');
          chessboard := chessboard[row := chessboard[row][col := 'Q']];
          Backtracking(n, row + 1, cols + [col]);
          chessboard := chessboard[row := chessboard[row][col := '.']];
        }
      }
    }

    method SolveNQueens(n: nat) returns (result: seq<seq<string>>)
      modifies this
      ensures (forall b :: b in result <==> IsSolution(n, b, 'Q', '.')) && NoRepeats(result)
      ensures ReadInOrder(result, 'Q')
    {
      results := [];
      chessboard := seq(n, _ => seq(n, _ => '.'));
      SameBoard(n, chessboard, [], 'Q', '.');
      Backtracking(n, 0, []);
      assert results == Renders(n, Extensions(n, []), 'Q', '.');
      SearchIsComplete(n, results, 'Q', '.');
      return results;
    }
  }

  // ----- what the searches enumerate, said of boards alone

  function RowQueens<T(==)>(row: seq<T>, queen: T): nat {
    if row == [] then 0 else (if row[0] == queen then 1 else 0) + RowQueens(row[1..], queen)
  }

  function BoardQueens<T(==)>(b: seq<seq<T>>, queen: T): nat {
    if b == [] then 0 else RowQueens(b[0], queen) + BoardQueens(b[1..], queen)
  }

  /** n queens on an n-by-n board, none attacking another. */
  ghost predicate IsSolution<T>(n: nat, b: seq<seq<T>>, queen: T, empty: T) {
    && |b| == n && (forall i :: 0 <= i < n ==> |b[i]| == n)
    && (forall i, j :: 0 <= i < n && 0 <= j < n ==> b[i][j] == queen || b[i][j] == empty)
    && BoardQueens(b, queen) == n
    && forall i, j, k, l | 0 <= i < n && 0 <= j < n && 0 <= k < n && 0 <= l < n && (i, j) != (k, l) ::
      b[i][j] == queen && b[k][l] == queen ==> !Attacks(i, j, k, l)
  }

  /** Row by row, the first queen that differs stands further to the left on the earlier board. */
  ghost predicate ReadInOrder<T>(bs: seq<seq<seq<T>>>, queen: T) {
    forall i, j :: 0 <= i < j < |bs| ==> ReadBefore(bs[i], bs[j], queen)
  }

  ghost predicate ReadBefore<T>(b: seq<seq<T>>, b': seq<seq<T>>, queen: T) {
    exists k, c, d :: QueensDiffer(b, b', queen, k, c, d)
  }

  predicate QueensDiffer<T(==)>(b: seq<seq<T>>, b': seq<seq<T>>, queen: T, k: nat, c: nat, d: nat) {
    && k < |b| && k < |b'| && b[..k] == b'[..k]
    && c < d && c < |b[k]| && d < |b'[k]| && b[k][c] == queen && b'[k][d] == queen
  }

  lemma {:induction false} DrawnInOrder<T>(n: nat, p: seq<nat>, q: seq<nat>, queen: T, empty: T)
    requires Placement(n, p) && Placement(n, q) && Before(p, q) && queen != empty
    ensures var b, b' := Render(n, p, queen, empty), Render(n, q, queen, empty);
      b != b' && ReadBefore(b, b', queen)
  {
    var b, b' := Render(n, p, queen, empty), Render(n, q, queen, empty);
    var k: nat :| DiffersAt(p, q, k);
    assert p[k] < n && q[k] < n;
    forall i | 0 <= i < k
      ensures b[i] == b'[i]
    {
      assert p[..k][i] == q[..k][i];
    }
    assert b[k][p[k]] == queen && b'[k][p[k]] == empty && b'[k][q[k]] == queen;
    assert QueensDiffer(b, b', queen, k, p[k], q[k]);
  }

  lemma {:induction false} RowQueensAt<T>(row: seq<T>, queen: T)
    requires forall j, k :: 0 <= j < k < |row| ==> row[j] != queen || row[k] != queen
    ensures RowQueens(row, queen) == if queen in row then 1 else 0
  {
    if row != [] {
      RowQueensAt(row[1..], queen);
    }
  }

  lemma {:induction false} OnePerRow<T>(b: seq<seq<T>>, queen: T)
    requires forall i :: 0 <= i < |b| ==> RowQueens(b[i], queen) == if queen in b[i] then 1 else 0
    ensures BoardQueens(b, queen) <= |b|
    ensures BoardQueens(b, queen) == |b| <==> forall i :: 0 <= i < |b| ==> queen in b[i]
  {
    if b != [] {
      OnePerRow(b[1..], queen);
      assert forall i :: 0 < i < |b| ==> b[i] == b[1..][i - 1];
    }
  }

  lemma {:induction false} PlacementIsSolution<T>(n: nat, q: seq<nat>, queen: T, empty: T)
    requires Placement(n, q) && queen != empty
    ensures IsSolution(n, Render(n, q, queen, empty), queen, empty)
  {
    var b := Render(n, q, queen, empty);
    forall i | 0 <= i < n
      ensures RowQueens(b[i], queen) == 1 && queen in b[i]
    {
      assert b[i][q[i]] == queen;
      RowQueensAt(b[i], queen);
    }
    OnePerRow(b, queen);
    forall i, j, k, l | 0 <= i < n && 0 <= j < n && 0 <= k < n && 0 <= l < n && (i, j) != (k, l) && b[i][j] == queen && b[k][l] == queen
      ensures !Attacks(i, j, k, l)
    {
      assert q[i] == j && q[k] == l;
    }
  }

  lemma {:induction false} SolutionIsPlacement<T>(n: nat, b: seq<seq<T>>, queen: T, empty: T) returns (q: seq<nat>)
    requires IsSolution(n, b, queen, empty) && queen != empty
    ensures Placement(n, q) && b == Render(n, q, queen, empty)
  {
    forall i | 0 <= i < n
      ensures RowQueens(b[i], queen) == if queen in b[i] then 1 else 0
    {
      RowQueensAt(b[i], queen);
    }
    OnePerRow(b, queen);
    q := seq(n, i requires 0 <= i < n => ColumnOf(b[i], queen));
    forall i, j | 0 <= i < n && 0 <= j < n
      ensures b[i][j] == Cell(q, i, j, queen, empty)
    {
      assert b[i][q[i]] == queen;
    }
    SameBoard(n, b, q, queen, empty);
  }

  ghost function ColumnOf<T>(row: seq<T>, queen: T): (j: nat)
    requires queen in row
    ensures j < |row| && row[j] == queen
  {
    var j :| 0 <= j < |row| && row[j] == queen; j
  }

  /** From an empty board the searches append every solution, nothing else, and each once. */
  lemma {:induction false} SearchIsComplete<T>(n: nat, results: seq<seq<seq<T>>>, queen: T, empty: T)
    requires queen != empty && results == Renders(n, Extensions(n, []), queen, empty)
    ensures forall b :: b in results <==> IsSolution(n, b, queen, empty)
    ensures NoRepeats(results) && ReadInOrder(results, queen)
  {
    var qs := Extensions(n, []);
    forall b
      ensures b in results <==> IsSolution(n, b, queen, empty)
    {
      if b in results {
        var k :| 0 <= k < |qs| && results[k] == b;
        ExtensionsAreAll(n, [], qs[k]);
        PlacementIsSolution(n, qs[k], queen, empty);
      }
      if IsSolution(n, b, queen, empty) {
        var q := SolutionIsPlacement(n, b, queen, empty);
        ExtensionsAreAll(n, [], q);
        var k :| 0 <= k < |qs| && qs[k] == q;
        assert results[k] == b;
      }
    }
    ExtensionsAscend(n, []);
    forall i, j | 0 <= i < j < |results|
      ensures results[i] != results[j] && ReadBefore(results[i], results[j], queen)
    {
      ExtensionsAreAll(n, [], qs[i]);
      ExtensionsAreAll(n, [], qs[j]);
      DrawnInOrder(n, qs[i], qs[j], queen, empty);
    }
  }
}

/**
 * `RotateMatrix` of AlgorithmArry.cs: a clockwise quarter turn of the
 * leading n-by-n block (n = number of rows), done in place by transposing
 * and then reversing each row.
 */
module Matrix {

  /**
   * Both phases only touch columns below `n`, so a matrix with at least as
   * many columns as rows is accepted; columns from `n` on are left as they
   * were. Cell `(i, j)` receives the old cell `(n - 1 - j, i)`.
   */
  method RotateMatrix(m: array2<int>)
    requires m.Length1 >= m.Length0
    modifies m
    ensures forall i, j :: 0 <= i < m.Length0 && 0 <= j < m.Length0 ==> m[i, j] == old(m[m.Length0 - 1 - j, i])
    ensures forall i, j :: 0 <= i < m.Length0 && m.Length0 <= j < m.Length1 ==> m[i, j] == old(m[i, j])
  {
    Transpose(m);
    ReverseRows(m);
  }

  /** The first phase: swap `(i, j)` and `(j, i)` for every `j >= i` of the leading square. */
  method Transpose(m: array2<int>)
    requires m.Length1 >= m.Length0
    modifies m
    ensures forall r, c :: 0 <= r < m.Length0 && 0 <= c < m.Length0 ==> m[r, c] == old(m[c, r])
    ensures forall r, c :: 0 <= r < m.Length0 && m.Length0 <= c < m.Length1 ==> m[r, c] == old(m[r, c])
  {
    var n := m.Length0;
    for i := 0 to n
      invariant forall r, c :: 0 <= r < n && 0 <= c < n ==> m[r, c] == if r < i || c < i then old(m[c, r]) else old(m[r, c])
      invariant forall r, c :: 0 <= r < n && n <= c < m.Length1 ==> m[r, c] == old(m[r, c])
    {
      for j := i to n
        invariant forall r, c :: 0 <= r < n && 0 <= c < n ==>
          m[r, c] == if r < i || c < i || (r == i && c < j) || (c == i && r < j) then old(m[c, r]) else old(m[r, c])
        invariant forall r, c :: 0 <= r < n && n <= c < m.Length1 ==> m[r, c] == old(m[r, c])
      {
        m[i, j], m[j, i] := m[j, i], m[i, j];
      }
    }
  }

  /** The second phase: reverse the first `n` cells of each row. */
  method ReverseRows(m: array2<int>)
    requires m.Length1 >= m.Length0
    modifies m
    ensures forall r, c :: 0 <= r < m.Length0 && 0 <= c < m.Length0 ==> m[r, c] == old(m[r, m.Length0 - 1 - c])
    ensures forall r, c :: 0 <= r < m.Length0 && m.Length0 <= c < m.Length1 ==> m[r, c] == old(m[r, c])
  {
    var n := m.Length0;
    for i := 0 to n
      invariant forall r, c :: 0 <= r < n && 0 <= c < n ==> m[r, c] == if r < i then old(m[r, n - 1 - c]) else old(m[r, c])
      invariant forall r, c :: 0 <= r < n && n <= c < m.Length1 ==> m[r, c] == old(m[r, c])
    {
      for j := 0 to n / 2
        invariant forall r, c :: 0 <= r < n && 0 <= c < n ==>
          m[r, c] == if r < i || (r == i && (c < j || n - j <= c)) then old(m[r, n - 1 - c]) else old(m[r, c])
        invariant forall r, c :: 0 <= r < n && n <= c < m.Length1 ==> m[r, c] == old(m[r, c])
      {
        m[i, j], m[i, n - j - 1] := m[i, n - j - 1], m[i, j];
      }
    }
  }

  /** The demo in AlgorithmArry.cs's Main: the 3-by-3 matrix 1..9 turns into 7 4 1 / 8 5 2 / 9 6 3. */
  method Scenario() returns (rows: seq<seq<int>>)
    ensures rows == [[7, 4, 1], [8, 5, 2], [9, 6, 3]]
  {
    var m := new int[3, 3];
    m[0, 0], m[0, 1], m[0, 2] := 1, 2, 3;
    m[1, 0], m[1, 1], m[1, 2] := 4, 5, 6;
    m[2, 0], m[2, 1], m[2, 2] := 7, 8, 9;
    RotateMatrix(m);
    rows := [[m[0, 0], m[0, 1], m[0, 2]], [m[1, 0], m[1, 1], m[1, 2]], [m[2, 0], m[2, 1], m[2, 2]]];
  }
}

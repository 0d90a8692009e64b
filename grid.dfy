/** The shared grid model: what a grid entry means, and the converters between
    the two encodings the project uses (0/1 integers and '#'/'.' characters). */
module Grid {

  datatype Option<T> = None | Some(value: T)

  /** What a grid position means to the generators and the solvers. */
  datatype Cell = Wall | Open

  /** A grid entry as the program holds it: the Kruskal generator and the
      solvers use ints (1 = wall, 0 = open), the carving generator and the
      renderers use one-character strings ('#' = wall, '.' = open).  A grid
      given to the converter may hold either kind. */
  datatype Raw = Num(n: int) | Chr(c: char)

  const WALL: char := '#'
  const OPEN: char := '.'

  /** The 0/1 reading used by the solvers: only 0 is open. */
  function CellOfBinary(v: int): Cell {
    if v == 0 then Open else Wall
  }

  /** The '#'/'.' reading: only '#' is a wall. */
  function CellOfAscii(ch: char): Cell {
    if ch == WALL then Wall else Open
  }

  ghost predicate IsBinary(m: seq<seq<int>>) {
    forall i, j :: 0 <= i < |m| && 0 <= j < |m[i]| ==> m[i][j] == 0 || m[i][j] == 1
  }

  ghost predicate IsAscii(a: seq<seq<char>>) {
    forall i, j :: 0 <= i < |a| && 0 <= j < |a[i]| ==> a[i][j] == WALL || a[i][j] == OPEN
  }

  /** Two grids of the same shape. */
  ghost predicate SameShape<S, T>(a: seq<seq<S>>, b: seq<seq<T>>) {
    |a| == |b| && forall i :: 0 <= i < |a| ==> |a[i]| == |b[i]|
  }

  /** One entry of maze_to_ascii: 1 and '#' become '#', everything else '.'. */
  function AsciiCell(v: Raw): (ch: char)
    ensures ch == WALL || ch == OPEN
    ensures ch == WALL <==> (v == Num(1) || v == Chr(WALL))
  {
    if v == Num(1) || v == Chr(WALL) then WALL else OPEN
  }

  /** maze_to_ascii as a pure map over a grid of either encoding. */
  function AsciiOf(m: seq<seq<Raw>>): (a: seq<seq<char>>)
    ensures SameShape(m, a) && IsAscii(a)
  {
    seq(|m|, i requires 0 <= i < |m| =>
      seq(|m[i]|, j requires 0 <= j < |m[i]| => AsciiCell(m[i][j])))
  }

  /** ascii_to_binary: '#' becomes 1, every other character 0. */
  function AsciiToBinary(a: seq<seq<char>>): (m: seq<seq<int>>)
    ensures SameShape(a, m) && IsBinary(m)
  {
    seq(|a|, i requires 0 <= i < |a| =>
      seq(|a[i]|, j requires 0 <= j < |a[i]| => if a[i][j] == WALL then 1 else 0))
  }

  /** A 0/1 grid handed to maze_to_ascii. */
  function Nums(m: seq<seq<int>>): (g: seq<seq<Raw>>)
    ensures SameShape(m, g)
  {
    seq(|m|, i requires 0 <= i < |m| =>
      seq(|m[i]|, j requires 0 <= j < |m[i]| => Num(m[i][j])))
  }

  /** A '#'/'.' grid handed to maze_to_ascii. */
  function Chars(a: seq<seq<char>>): (g: seq<seq<Raw>>)
    ensures SameShape(a, g)
  {
    seq(|a|, i requires 0 <= i < |a| =>
      seq(|a[i]|, j requires 0 <= j < |a[i]| => Chr(a[i][j])))
  }

  /** Encoding a '#'/'.' grid as 0/1 and rendering it again gives it back. */
  lemma AsciiRoundTrip(a: seq<seq<char>>)
    requires IsAscii(a)
    ensures AsciiOf(Nums(AsciiToBinary(a))) == a
  {
    var r := AsciiOf(Nums(AsciiToBinary(a)));
    forall i | 0 <= i < |a|
      ensures r[i] == a[i]
    {
      assert |r[i]| == |a[i]|;
      forall j | 0 <= j < |a[i]|
        ensures r[i][j] == a[i][j]
      {
        assert a[i][j] == WALL || a[i][j] == OPEN;
      }
    }
  }

  /** Rendering a 0/1 grid and encoding it again gives it back. */
  lemma BinaryRoundTrip(m: seq<seq<int>>)
    requires IsBinary(m)
    ensures AsciiToBinary(AsciiOf(Nums(m))) == m
  {
    var r := AsciiToBinary(AsciiOf(Nums(m)));
    forall i | 0 <= i < |m|
      ensures r[i] == m[i]
    {
      assert |r[i]| == |m[i]|;
      forall j | 0 <= j < |m[i]|
        ensures r[i][j] == m[i][j]
      {
        assert m[i][j] == 0 || m[i][j] == 1;
      }
    }
  }

  /** maze_to_ascii applied to its own output changes nothing. */
  lemma AsciiIdempotent(g: seq<seq<Raw>>)
    ensures AsciiOf(Chars(AsciiOf(g))) == AsciiOf(g)
  {
    var a := AsciiOf(g);
    var r := AsciiOf(Chars(a));
    forall i | 0 <= i < |a|
      ensures r[i] == a[i]
    {
      assert |r[i]| == |a[i]|;
    }
  }

  /** Rendering a 0/1 grid keeps every wall a wall and every opening open. */
  lemma AsciiKeepsTopology(m: seq<seq<int>>, i: int, j: int)
    requires IsBinary(m)
    requires 0 <= i < |m| && 0 <= j < |m[i]|
    ensures CellOfAscii(AsciiOf(Nums(m))[i][j]) == CellOfBinary(m[i][j])
  {
    assert m[i][j] == 0 || m[i][j] == 1;
  }

  /** Encoding any character grid as 0/1 keeps every wall a wall and every
      opening open (only '#' is a wall in both readings). */
  lemma BinaryKeepsTopology(a: seq<seq<char>>, i: int, j: int)
    requires 0 <= i < |a| && 0 <= j < |a[i]|
    ensures CellOfBinary(AsciiToBinary(a)[i][j]) == CellOfAscii(a[i][j])
  {
  }

  /** maze_to_ascii in maze_build.py: an append loop over rows and cells. */
  method MazeToAscii(m: seq<seq<Raw>>) returns (out: seq<seq<char>>)
    ensures out == AsciiOf(m)
  {
    out := [];
    var i := 0;
    while i < |m|
      invariant 0 <= i <= |m|
      invariant out == AsciiOf(m[..i])
    {
      var row := m[i];
      var asciiRow: seq<char> := [];
      var j := 0;
      while j < |row|
        invariant 0 <= j <= |row|
        invariant asciiRow == seq(j, k requires 0 <= k < j => AsciiCell(row[k]))
      {
        if row[j] == Num(1) || row[j] == Chr(WALL) {
          asciiRow := asciiRow + [WALL];
        } else {
          asciiRow := asciiRow + [OPEN];
        }
        j := j + 1;
      }
      assert m[..i + 1] == m[..i] + [row];
      out := out + [asciiRow];
      i := i + 1;
    }
    assert m[..i] == m;
  }
}

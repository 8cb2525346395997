/** The character form of a grid: the parser that reads the initial field from
    a character stream, skipping line breaks, and the renderer that writes a
    field as `height` lines of `width` characters. The stream is a sequence
    here; reading it and writing the lines out are not modelled. */
module FieldText {
  import opened Grid

  const Newline: char := '\n'

  /** The characters of `s` other than line breaks, in order: the cell
      characters the parser can take from `s`. */
  function Cells(s: seq<char>): (cells: seq<char>)
    ensures |cells| <= |s|
  {
    if s == [] then []
    else Cells(s[..|s| - 1]) + (if s[|s| - 1] == Newline then [] else [s[|s| - 1]])
  }

  /** No line break is ever taken as a cell. */
  lemma {:induction false} CellsHaveNoNewline(s: seq<char>)
    ensures Newline !in Cells(s)
  {
    if s != [] {
      CellsHaveNoNewline(s[..|s| - 1]);
    }
  }

  lemma {:induction false} CellsConcat(a: seq<char>, b: seq<char>)
    ensures Cells(a + b) == Cells(a) + Cells(b)
  {
    if b == [] {
      assert a + b == a;
    } else {
      var front, last := b[..|b| - 1], b[|b| - 1];
      var tail := if last == Newline then [] else [last];
      assert (a + b)[|a + b| - 1] == last;
      assert (a + b)[..|a + b| - 1] == a + front;
      assert Cells(a + b) == Cells(a + front) + tail;
      assert Cells(b) == Cells(front) + tail;
      CellsConcat(a, front);
    }
  }

  /** A stream prefix holding fewer cells than the whole stream is followed
      by at least one more character. */
  lemma CellsAhead(s: seq<char>, pos: nat, n: nat)
    requires pos <= |s| && |Cells(s[..pos])| == n < |Cells(s)|
    ensures pos < |s|
  {
    CellsSplit(s, pos);
  }

  /** A text without line breaks is all cells. */
  lemma {:induction false} CellsOfLine(s: seq<char>)
    requires Newline !in s
    ensures Cells(s) == s
  {
    if s != [] {
      assert Newline !in s[..|s| - 1];
      CellsOfLine(s[..|s| - 1]);
    }
  }

  /** Reading one more character of the stream adds it to the cells unless
      it is a line break. */
  lemma CellsStep(s: seq<char>, pos: nat)
    requires pos < |s|
    ensures Cells(s[..pos + 1]) == Cells(s[..pos]) + (if s[pos] == Newline then [] else [s[pos]])
  {
    assert s[..pos + 1][..pos] == s[..pos];
  }

  /** The cells of a stream are those of any prefix followed by those of the
      rest. */
  lemma CellsSplit(s: seq<char>, pos: nat)
    requires pos <= |s|
    ensures Cells(s) == Cells(s[..pos]) + Cells(s[pos..])
  {
    assert s == s[..pos] + s[pos..];
    CellsConcat(s[..pos], s[pos..]);
  }

  /** The cells of a stream prefix are a prefix of the stream's cells. */
  lemma CellsPrefix(s: seq<char>, pos: nat)
    requires pos <= |s|
    ensures |Cells(s[..pos])| <= |Cells(s)|
    ensures Cells(s)[..|Cells(s[..pos])|] == Cells(s[..pos])
    ensures Newline !in Cells(s[..pos])
  {
    CellsSplit(s, pos);
    CellsHaveNoNewline(s[..pos]);
  }

  /** Reads the next cell character of the stream from position `pos`:
      one character, then one more for as long as the last one read is a
      line break. Returns that character and the position after it. */
  method ReadCell(input: seq<char>, pos: nat) returns (c: char, next: nat)
    requires pos <= |input| && |Cells(input[..pos])| < |Cells(input)|
    ensures pos < next <= |input|
    ensures c != Newline
    ensures Cells(input[..next]) == Cells(input[..pos]) + [c]
  {
    ghost var before := Cells(input[..pos]);
    CellsAhead(input, pos, |before|);
    c := input[pos];
    CellsStep(input, pos);
    next := pos + 1;
    while c == Newline
      invariant pos < next <= |input|
      invariant Cells(input[..next]) == before + (if c == Newline then [] else [c])
      decreases |input| - next
    {
      CellsAhead(input, next, |before|);
      c := input[next];
      CellsStep(input, next);
      next := next + 1;
    }
  }

  /** Reads the initial field from `input`: row after row, each cell takes the
      next cell character of the stream. The result holds the first
      `height * width` cell characters of the stream, in row-major order,
      and never a line break. */
  method GetField(height: nat, width: nat, input: seq<char>) returns (field: array<char>)
    requires |Cells(input)| >= height * width
    ensures fresh(field)
    ensures field[..] == Cells(input)[..height * width]
    ensures Newline !in field[..]
  {
    var size := height * width;
    field := new char[size];
    var pos := 0;
    var y, row := 0, 0;
    while y < height
      invariant 0 <= y <= height && row == y * width && row <= size
      invariant 0 <= pos <= |input|
      invariant Cells(input[..pos]) == field[..row]
    {
      RowStep(height, width, y);
      var x := 0;
      while x < width
        invariant 0 <= x <= width && row + x <= size
        invariant 0 <= pos <= |input|
        invariant Cells(input[..pos]) == field[..row + x]
      {
        var c;
        c, pos := ReadCell(input, pos);
        field[row + x] := c;
        assert field[..row + x + 1] == field[..row + x] + [c];
        x := x + 1;
      }
      y, row := y + 1, row + width;
    }
    assert row == size;
    assert field[..] == field[..row];
    CellsPrefix(input, pos);
  }

  /** The first `k` lines of the rendering of `field`: each row's `width`
      characters followed by a line break. */
  function PrintRows(field: seq<char>, height: nat, width: nat, k: nat): (text: seq<char>)
    requires Shaped(field, height, width) && k <= height
    ensures |text| == k * (width + 1)
  {
    if k == 0 then []
    else
      RowStep(height, width, k - 1);
      PrintRows(field, height, width, k - 1) + field[(k - 1) * width .. k * width] + [Newline]
  }

  /** The rendering of `field`: `height` lines of `width` characters. */
  function PrintField(field: seq<char>, height: nat, width: nat): (text: seq<char>)
    requires Shaped(field, height, width)
    ensures |text| == height * (width + 1)
  {
    PrintRows(field, height, width, height)
  }

  lemma SliceOfFront(front: seq<char>, back: seq<char>, i: int, j: int)
    requires 0 <= i <= j <= |front|
    ensures (front + back)[i..j] == front[i..j]
  {
  }

  lemma SliceOfBack(front: seq<char>, back: seq<char>)
    ensures (front + back)[|front|..|front| + |back|] == back
  {
  }

  lemma {:induction false} PrintRowsLine(field: seq<char>, height: nat, width: nat, k: nat, y: int)
    requires Shaped(field, height, width) && 0 <= y < k <= height
    ensures (y + 1) * (width + 1) <= k * (width + 1) && (y + 1) * width <= height * width
    ensures PrintRows(field, height, width, k)[y * (width + 1) .. (y + 1) * (width + 1)]
         == field[y * width .. (y + 1) * width] + [Newline]
  {
    var n := width + 1;
    MulMonotone(0, y, n);
    MulMonotone(0, y, width);
    RowStep(k, n, y);
    RowStep(height, width, y);
    RowStep(height, width, k - 1);
    var prev := PrintRows(field, height, width, k - 1);
    var line := field[(k - 1) * width .. k * width] + [Newline];
    assert PrintRows(field, height, width, k) == prev + line;
    if y < k - 1 {
      PrintRowsLine(field, height, width, k - 1, y);
      RowStep(k - 1, n, y);
      SliceOfFront(prev, line, y * n, (y + 1) * n);
    } else {
      assert y * n == |prev| && (y + 1) * n == |prev| + |line|;
      SliceOfBack(prev, line);
    }
  }

  /** Line `y` of the rendering is row `y` of the field and a line break. */
  lemma PrintFieldLine(field: seq<char>, height: nat, width: nat, y: int)
    requires Shaped(field, height, width) && 0 <= y < height
    ensures (y + 1) * (width + 1) <= |PrintField(field, height, width)| && (y + 1) * width <= |field|
    ensures PrintField(field, height, width)[y * (width + 1) .. (y + 1) * (width + 1)]
         == field[y * width .. (y + 1) * width] + [Newline]
  {
    PrintRowsLine(field, height, width, height, y);
  }

  lemma PrefixSplit(s: seq<char>, lo: int, hi: int)
    requires 0 <= lo <= hi <= |s|
    ensures s[..lo] + s[lo..hi] == s[..hi]
  {
  }

  /** Appending a line and its line break to a text adds the line's
      characters to the cells. */
  lemma CellsAddLine(prev: seq<char>, line: seq<char>)
    requires Newline !in line
    ensures Cells(prev + line + [Newline]) == Cells(prev) + line
  {
    CellsConcat(prev + line, [Newline]);
    CellsConcat(prev, line);
    CellsOfLine(line);
    assert Cells([Newline]) == [];
  }

  lemma RowHasNoNewline(field: seq<char>, lo: int, hi: int)
    requires 0 <= lo <= hi <= |field| && Newline !in field
    ensures Newline !in field[lo..hi]
  {
    forall i | 0 <= i < hi - lo ensures field[lo..hi][i] != Newline {
      assert field[lo..hi][i] == field[lo + i];
    }
  }

  lemma {:induction false} PrintRowsCells(field: seq<char>, height: nat, width: nat, k: nat)
    requires Shaped(field, height, width) && k <= height && Newline !in field
    ensures k * width <= |field|
    ensures Cells(PrintRows(field, height, width, k)) == field[..k * width]
  {
    if k == 0 {
      assert field[..0] == [];
    } else {
      RowStep(height, width, k - 1);
      var lo, hi := (k - 1) * width, k * width;
      var prev := PrintRows(field, height, width, k - 1);
      PrintRowsCells(field, height, width, k - 1);
      RowHasNoNewline(field, lo, hi);
      CellsAddLine(prev, field[lo..hi]);
      PrefixSplit(field, lo, hi);
    }
  }

  /** Parsing the rendering of a field that holds no line break gives the
      field back: the rendering has exactly `height * width` cell
      characters, in row-major order. */
  lemma ParsePrinted(field: seq<char>, height: nat, width: nat)
    requires Shaped(field, height, width) && Newline !in field
    ensures Cells(PrintField(field, height, width)) == field
    ensures |Cells(PrintField(field, height, width))| >= height * width
    ensures Cells(PrintField(field, height, width))[..height * width] == field
  {
    PrintRowsCells(field, height, width, height);
    assert field[..height * width] == field;
  }
}

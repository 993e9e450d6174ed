/** The board logic of sudokugui.py that does not depend on the graphical
    toolkit: the parser of a puzzle given as text lines (SudokuBoard) and the
    game state with its win check (SudokuGame).  Boards here are 9-by-9 with
    3-by-3 squares. */
module SudokuGui {
  import opened Grid

  /** The reasons the parser rejects its input. */
  datatype SudokuError =
    | LineLength(line: string)         // a stripped line without exactly 9 characters
    | NotANumber(ch: char, line: string) // a character of a line that is not a digit
    | LineCount                        // the input does not have exactly 9 lines

  datatype Result<T> = Ok(value: T) | Err(error: SudokuError)

  /** A 9-by-9 board. */
  predicate IsBoard(g: seq<seq<int>>) {
    |g| == 9 && IsSquare(g)
  }

  // ---------------------------------------------------------------- parsing

  /** The ASCII characters strip() removes: space, tab, newline, vertical
      tab, form feed, carriage return, and the separators U+001C..U+001F. */
  predicate IsSpace(c: char)
    ensures IsSpace(c) ==> c as int < 128 && !IsDigit(c)
  {
    c == ' ' || '\t' <= c <= '\r' || '\U{1C}' <= c <= '\U{1F}'
  }

  /** The index of the first non-whitespace character of s at or after i,
      or |s|. */
  function StripStart(s: string, i: int): (a: int)
    requires 0 <= i <= |s|
    ensures i <= a <= |s|
    ensures forall k :: i <= k < a ==> IsSpace(s[k])
    ensures a < |s| ==> !IsSpace(s[a])
    decreases |s| - i
  {
    if i < |s| && IsSpace(s[i]) then StripStart(s, i + 1) else i
  }

  /** The end of s[a..z] once its trailing whitespace is removed. */
  function StripEnd(s: string, a: int, z: int): (e: int)
    requires 0 <= a <= z <= |s|
    ensures a <= e <= z
    ensures forall k :: e <= k < z ==> IsSpace(s[k])
    ensures a < e ==> !IsSpace(s[e - 1])
    decreases z - a
  {
    if a < z && IsSpace(s[z - 1]) then StripEnd(s, a, z - 1) else z
  }

  /** s without its leading and trailing whitespace. */
  function Strip(s: string): (r: string)
    ensures |r| <= |s|
    ensures r != [] ==> !IsSpace(r[0]) && !IsSpace(r[|r| - 1])
  {
    var a := StripStart(s, 0);
    s[a..StripEnd(s, a, |s|)]
  }

  /** Strip removes only whitespace, and only at the two ends. */
  lemma StripIsSlice(s: string)
    ensures exists a, z :: 0 <= a <= z <= |s| && Strip(s) == s[a..z] &&
              (forall k :: 0 <= k < a ==> IsSpace(s[k])) &&
              (forall k :: z <= k < |s| ==> IsSpace(s[k]))
  {
    var a := StripStart(s, 0);
    var z := StripEnd(s, a, |s|);
    assert Strip(s) == s[a..z];
  }

  /** Stripping twice is stripping once. */
  lemma StripIdempotent(s: string)
    ensures Strip(Strip(s)) == Strip(s)
  {
    var r := Strip(s);
    assert StripStart(r, 0) == 0;
    assert StripEnd(r, 0, |r|) == |r|;
  }

  /** The characters isdigit() accepts here: the ASCII digits. */
  predicate IsDigit(c: char)
    ensures IsDigit(c) <==> c in "0123456789"
  {
    '0' <= c <= '9'
  }

  /** The number a digit character stands for. */
  function DigitValue(c: char): (v: int)
    requires IsDigit(c)
    ensures 0 <= v <= 9
  {
    c as int - '0' as int
  }

  /** A stripped line the parser accepts: 9 digits. */
  predicate GoodLine(s: string)
    ensures GoodLine(s) <==> |s| == 9 && FirstNonDigit(s) == 9
  {
    |s| == 9 && forall k :: 0 <= k < |s| ==> IsDigit(s[k])
  }

  /** The position of the first character of s that is not a digit, or |s|. */
  function FirstNonDigit(s: string): (k: nat)
    ensures k <= |s|
    ensures forall k' :: 0 <= k' < k ==> IsDigit(s[k'])
    ensures k < |s| ==> !IsDigit(s[k])
  {
    if s == [] || !IsDigit(s[0]) then 0 else 1 + FirstNonDigit(s[1..])
  }

  /** The error the parser reports for a stripped line it does not accept:
      a wrong length first, otherwise the first character that is not a digit. */
  function LineError(s: string): (e: SudokuError)
    requires !GoodLine(s)
    ensures e.LineLength? <==> |s| != 9
    ensures e.LineLength? ==> e.line == s
    ensures e.NotANumber? ==>
              e.line == s && !IsDigit(e.ch) &&
              exists k :: 0 <= k < |s| && s[k] == e.ch && forall k' :: 0 <= k' < k ==> IsDigit(s[k'])
    ensures !e.LineCount?
  {
    if |s| != 9 then LineLength(s) else NotANumber(s[FirstNonDigit(s)], s)
  }

  /** Non-ASCII whitespace is an ordinary character here.  A line ending in
      a no-break space is reported for that character, where strip() would
      drop it and then report the length; a line starting with one is
      reported for its length, where strip() would drop it and then report
      the letter; and a line that strip() would accept is rejected. */
  lemma NoBreakSpaceKept()
    ensures !GoodLine(Strip("12345678\U{A0}")) &&
            LineError(Strip("12345678\U{A0}")) == NotANumber('\U{A0}', "12345678\U{A0}")
    ensures !GoodLine(Strip("\U{A0}1234567x8")) &&
            LineError(Strip("\U{A0}1234567x8")) == LineLength("\U{A0}1234567x8")
    ensures Strip("\U{A0}123456789")[1..] == "123456789" && !GoodLine(Strip("\U{A0}123456789"))
  {
    var s1, s2 := "12345678\U{A0}", "\U{A0}1234567x8";
    assert StripStart(s1, 0) == 0 && StripEnd(s1, 0, 9) == 9 && Strip(s1) == s1;
    assert FirstNonDigit(s1) == 8;
    assert StripStart(s2, 0) == 0 && StripEnd(s2, 0, 10) == 10 && Strip(s2) == s2;
    var s3 := "\U{A0}123456789";
    assert StripStart(s3, 0) == 0 && StripEnd(s3, 0, 10) == 10 && Strip(s3) == s3;
  }

  /** The first r lines are accepted once stripped. */
  predicate LinesGood(lines: seq<string>, r: int)
    requires 0 <= r <= |lines|
  {
    forall k :: 0 <= k < r ==> GoodLine(Strip(lines[k]))
  }

  /** The rows of board are the values of the digits of the first r lines. */
  predicate RowsRead(board: seq<seq<int>>, lines: seq<string>, r: int)
    requires 0 <= r <= |lines| && LinesGood(lines, r)
  {
    |board| == r &&
    forall k :: 0 <= k < r ==>
      |board[k]| == 9 && forall c :: 0 <= c < 9 ==> board[k][c] == DigitValue(Strip(lines[k])[c])
  }

  /** The index of the first line that, stripped, the parser rejects, or
      the number of lines when it accepts every line. */
  function FirstBadLine(lines: seq<string>): (k: nat)
    ensures k <= |lines| && LinesGood(lines, k)
    ensures k < |lines| ==> !GoodLine(Strip(lines[k]))
  {
    if lines == [] || !GoodLine(Strip(lines[0])) then 0
    else
      var k := 1 + FirstBadLine(lines[1..]);
      assert forall i :: 1 <= i < k ==> lines[i] == lines[1..][i - 1];
      k
  }

  /** A bad line after good ones is the first bad line. */
  lemma FirstBadLineUnique(lines: seq<string>, r: int)
    requires 0 <= r <= |lines| && LinesGood(lines, r)
    ensures r <= FirstBadLine(lines)
    ensures r < |lines| && !GoodLine(Strip(lines[r])) ==> FirstBadLine(lines) == r
  {
  }

  /** Reading one more accepted line extends the board by its row of digits. */
  lemma ReadStep(board: seq<seq<int>>, lines: seq<string>, r: int, row: seq<int>)
    requires 0 <= r < |lines| && LinesGood(lines, r) && RowsRead(board, lines, r)
    requires |Strip(lines[r])| == 9 && |row| == 9
    requires forall c :: 0 <= c < 9 ==> IsDigit(Strip(lines[r])[c]) && row[c] == DigitValue(Strip(lines[r])[c])
    ensures LinesGood(lines, r + 1) && RowsRead(board + [row], lines, r + 1)
  {
    assert GoodLine(Strip(lines[r]));
  }

  /** Turns the lines of a puzzle file into a board: every line, stripped,
      must be 9 digits, and there must be exactly 9 lines.  The first line
      that breaks the rule decides the error; the line count is checked only
      once every line has been read. */
  method CreateBoard(sudFile: seq<string>) returns (result: Result<seq<seq<int>>>)
    ensures FirstBadLine(sudFile) < |sudFile| ==>
              result == Err(LineError(Strip(sudFile[FirstBadLine(sudFile)])))
    ensures FirstBadLine(sudFile) == |sudFile| && |sudFile| != 9 ==> result == Err(LineCount)
    ensures FirstBadLine(sudFile) == |sudFile| == 9 ==>
              result.Ok? && IsBoard(result.value) && RowsRead(result.value, sudFile, 9)
    ensures result.Ok? ==> IsDigitBoard(result.value)
  {
    var board: seq<seq<int>> := [];
    var r := 0;
    while r < |sudFile|
      invariant 0 <= r <= |sudFile|
      invariant LinesGood(sudFile, r)
      invariant RowsRead(board, sudFile, r)
    {
      var line := Strip(sudFile[r]);
      if |line| != 9 {
        FirstBadLineUnique(sudFile, r);
        return Err(LineLength(line));
      }
      // the new row of the board, filled digit by digit
      var row: seq<int> := [];
      for c := 0 to |line|
        invariant |row| == c
        invariant forall c' :: 0 <= c' < c ==> IsDigit(line[c']) && row[c'] == DigitValue(line[c'])
      {
        var ch := line[c];
        if IsDigit(ch) {
          row := row + [DigitValue(ch)];
        } else {
          assert FirstNonDigit(line) == c;
          FirstBadLineUnique(sudFile, r);
          return Err(NotANumber(ch, line));
        }
      }
      ReadStep(board, sudFile, r, row);
      board := board + [row];
      r := r + 1;
    }
    FirstBadLineUnique(sudFile, r);
    if |board| != 9 {
      return Err(LineCount);
    }
    return Ok(board);
  }

  /** The board read from a sequence of lines is unique. */
  lemma RowsReadDetermined(b1: seq<seq<int>>, b2: seq<seq<int>>, lines: seq<string>, r: int)
    requires 0 <= r <= |lines| && LinesGood(lines, r)
    requires RowsRead(b1, lines, r) && RowsRead(b2, lines, r)
    ensures b1 == b2
  {
    forall k | 0 <= k < r ensures b1[k] == b2[k] {
      assert forall c :: 0 <= c < 9 ==> b1[k][c] == b2[k][c];
    }
  }

  /** A board whose cells are digits 0..9, the kind the parser produces. */
  predicate IsDigitBoard(g: seq<seq<int>>) {
    IsBoard(g) && forall p, q :: 0 <= p < 9 && 0 <= q < 9 ==> 0 <= g[p][q] <= 9
  }

  /** The character of a digit value. */
  function DigitChar(v: int): (c: char)
    requires 0 <= v <= 9
    ensures IsDigit(c) && DigitValue(c) == v
  {
    ('0' as int + v) as char
  }

  /** A board written out as a puzzle file: one line of 9 digits per row,
      each ended by a newline. */
  function BoardLines(g: seq<seq<int>>): (lines: seq<string>)
    requires IsDigitBoard(g)
    ensures |lines| == 9
  {
    seq(9, r requires 0 <= r < 9 =>
      seq(9, c requires 0 <= c < 9 => DigitChar(g[r][c])) + "\n")
  }

  /** A line of 9 digits and a newline strips to its digits. */
  lemma StripDigitLine(s: string)
    requires GoodLine(s)
    ensures Strip(s + "\n") == s
  {
    var t := s + "\n";
    assert StripStart(t, 0) == 0;
    assert StripEnd(t, 0, 9) == 9;
    assert StripEnd(t, 0, 10) == 9;
    assert t[0..9] == s;
  }

  /** Parsing a board written out as lines gives the board back. */
  lemma BoardLinesParse(g: seq<seq<int>>)
    requires IsDigitBoard(g)
    ensures FirstBadLine(BoardLines(g)) == 9 && RowsRead(g, BoardLines(g), 9)
  {
    var lines := BoardLines(g);
    forall r | 0 <= r < 9 ensures GoodLine(Strip(lines[r])) && forall c :: 0 <= c < 9 ==> g[r][c] == DigitValue(Strip(lines[r])[c])
    {
      var digits := seq(9, c requires 0 <= c < 9 => DigitChar(g[r][c]));
      assert lines[r] == digits + "\n";
      StripDigitLine(digits);
    }
    FirstBadLineUnique(lines, 9);
  }

  /** Conversely, a board parsed from 9 lines is a digit board, and writing
      it out gives lines that strip to the ones it was read from. */
  lemma ParsedBoardLines(g: seq<seq<int>>, lines: seq<string>)
    requires |lines| == 9 && LinesGood(lines, 9) && RowsRead(g, lines, 9)
    ensures IsDigitBoard(g)
    ensures forall r :: 0 <= r < 9 ==> Strip(BoardLines(g)[r]) == Strip(lines[r])
  {
    forall r | 0 <= r < 9 ensures Strip(BoardLines(g)[r]) == Strip(lines[r]) {
      var digits := seq(9, c requires 0 <= c < 9 => DigitChar(g[r][c]));
      assert BoardLines(g)[r] == digits + "\n";
      assert GoodLine(Strip(lines[r]));
      forall c | 0 <= c < 9 ensures digits[c] == Strip(lines[r])[c] {
        var ch := Strip(lines[r])[c];
        assert DigitChar(DigitValue(ch)) == ch;
      }
      assert digits == Strip(lines[r]);
      StripDigitLine(digits);
    }
  }

  /** CreateBoard reads back any digit board written out as lines. */
  method CreateBoardRoundTrip(g: seq<seq<int>>) returns (result: Result<seq<seq<int>>>)
    requires IsDigitBoard(g)
    ensures result == Ok(g)
  {
    BoardLinesParse(g);
    result := CreateBoard(BoardLines(g));
    RowsReadDetermined(result.value, g, BoardLines(g), 9);
  }

  // ------------------------------------------------------- rows and squares

  /** No value occurs twice in s. */
  ghost predicate Distinct(s: seq<int>) {
    forall a, b :: 0 <= a < b < |s| ==> s[a] != s[b]
  }

  /** Row r of g holds each digit 1..9 exactly once. */
  ghost predicate RowComplete(g: seq<seq<int>>, r: int)
    requires IsBoard(g) && 0 <= r < 9
  {
    && (forall c :: 0 <= c < 9 ==> 1 <= g[r][c] <= 9)
    && (forall c, c2 :: 0 <= c < c2 < 9 ==> g[r][c] != g[r][c2])
  }

  /** Column c of g holds each digit 1..9 exactly once. */
  ghost predicate ColumnComplete(g: seq<seq<int>>, c: int)
    requires IsBoard(g) && 0 <= c < 9
  {
    && (forall r :: 0 <= r < 9 ==> 1 <= g[r][c] <= 9)
    && (forall r, r2 :: 0 <= r < r2 < 9 ==> g[r][c] != g[r2][c])
  }

  /** A cell of the 3-by-3 square in square row sr and square column sc. */
  predicate InSquare(sr: int, sc: int, p: int, q: int) {
    3 * sr <= p < 3 * sr + 3 && 3 * sc <= q < 3 * sc + 3
  }

  /** The square (sr, sc) of g holds each digit 1..9 exactly once. */
  ghost predicate SquareComplete(g: seq<seq<int>>, sr: int, sc: int)
    requires IsBoard(g) && 0 <= sr < 3 && 0 <= sc < 3
  {
    && (forall p, q :: InSquare(sr, sc, p, q) ==> 1 <= g[p][q] <= 9)
    && (forall p, q, p2, q2 :: InSquare(sr, sc, p, q) && InSquare(sr, sc, p2, q2) && (p, q) != (p2, q2) ==>
          g[p][q] != g[p2][q2])
  }

  /** Every row, column and square of g holds each digit exactly once. */
  ghost predicate Complete(g: seq<seq<int>>)
    requires IsBoard(g)
  {
    && (forall r :: 0 <= r < 9 ==> RowComplete(g, r))
    && (forall c :: 0 <= c < 9 ==> ColumnComplete(g, c))
    && (forall sr, sc :: 0 <= sr < 3 && 0 <= sc < 3 ==> SquareComplete(g, sr, sc))
  }

  /** Column c of g, top to bottom. */
  function Column(g: seq<seq<int>>, c: int): (col: seq<int>)
    requires IsBoard(g) && 0 <= c < 9
    ensures |col| == 9 && forall r :: 0 <= r < 9 ==> col[r] == g[r][c]
  {
    seq(9, r requires 0 <= r < 9 => g[r][c])
  }

  /** The cells of square (sr, sc) of g, row by row. */
  function Square(g: seq<seq<int>>, sr: int, sc: int): (sq: seq<int>)
    requires IsBoard(g) && 0 <= sr < 3 && 0 <= sc < 3
    ensures |sq| == 9 && forall t :: 0 <= t < 9 ==> sq[t] == g[3 * sr + t / 3][3 * sc + t % 3]
  {
    seq(9, t requires 0 <= t < 9 => g[3 * sr + t / 3][3 * sc + t % 3])
  }

  // ------------------------------------------------------------ pigeonholes

  /** A sequence has at most as many distinct values as elements, and exactly
      as many when no value repeats. */
  lemma {:induction false} DistinctCard(s: seq<int>)
    ensures |set x | x in s| <= |s|
    ensures |set x | x in s| == |s| <==> Distinct(s)
  {
    if s != [] {
      var t := s[1..];
      DistinctCard(t);
      assert (set x | x in s) == {s[0]} + (set x | x in t);
      if s[0] in t {
        assert (set x | x in s) == (set x | x in t);
        var k :| 0 <= k < |t| && t[k] == s[0];
        assert s[0] == s[k + 1];
      } else {
        assert |set x | x in s| == 1 + |set x | x in t|;
        if Distinct(t) {
          forall a, b | 0 <= a < b < |s| ensures s[a] != s[b] {
            if a > 0 {
              assert s[a] == t[a - 1] && s[b] == t[b - 1];
            } else {
              assert s[b] == t[b - 1];
            }
          }
        }
        if Distinct(s) {
          forall a, b | 0 <= a < b < |t| ensures t[a] != t[b] {
            assert t[a] == s[a + 1] && t[b] == s[b + 1];
          }
        }
      }
    }
  }

  /** The integers lo, lo + 1, ..., hi - 1, in order. */
  function Range(lo: int, hi: int): (s: seq<int>)
    requires lo <= hi
    ensures |s| == hi - lo && forall k :: 0 <= k < |s| ==> s[k] == lo + k
  {
    seq(hi - lo, k => lo + k)
  }

  /** The set {lo, ..., hi - 1} has hi - lo elements. */
  lemma RangeCard(lo: int, hi: int)
    requires lo <= hi
    ensures |set x | x in Range(lo, hi)| == hi - lo
  {
    DistinctCard(Range(lo, hi));
  }

  /** A subset as large as its superset is the superset. */
  lemma SubsetOfSameCard(a: set<int>, b: set<int>)
    requires a <= b && |a| == |b|
    ensures a == b
  {
    assert a * b == a;
    assert |b - a| == 0;
    assert b - a == {};
  }

  /** The set {1, ..., 9} of range(1, 10) holds exactly the digits 1..9. */
  lemma DigitsOfRange()
    ensures forall x :: x in Range(1, 10) <==> 1 <= x <= 9
  {
    forall x | 1 <= x <= 9 ensures x in Range(1, 10) {
      assert Range(1, 10)[x - 1] == x;
    }
  }

  /** The values of a block form the set {1, ..., 9} exactly when each value
      is a digit 1..9 and each digit 1..9 is a value. */
  lemma DigitSetMeaning(block: seq<int>)
    ensures (set x | x in block) == (set x | x in Range(1, 10)) <==>
            (forall k :: 0 <= k < |block| ==> 1 <= block[k] <= 9) && (forall d :: 1 <= d <= 9 ==> d in block)
  {
    var values, digits := set x | x in block, set x | x in Range(1, 10);
    DigitsOfRange();
    if values == digits {
      forall k | 0 <= k < |block| ensures 1 <= block[k] <= 9 {
        assert block[k] in values;
      }
      forall d | 1 <= d <= 9 ensures d in block {
        assert d in values;
      }
    }
  }

  /** Nine numbers form the set {1, ..., 9} exactly when each is a digit 1..9
      and no two are equal. */
  lemma DigitSetIffPermutation(block: seq<int>)
    ensures |block| == 9 ==>
              ((set x | x in block) == (set x | x in Range(1, 10)) <==>
               (forall k :: 0 <= k < 9 ==> 1 <= block[k] <= 9) && Distinct(block))
  {
    if |block| == 9 {
      var values, digits := set x | x in block, set x | x in Range(1, 10);
      DistinctCard(block);
      RangeCard(1, 10);
      DigitsOfRange();
      if values == digits {
        forall k | 0 <= k < 9 ensures 1 <= block[k] <= 9 {
          assert block[k] in values;
        }
      }
      if (forall k :: 0 <= k < 9 ==> 1 <= block[k] <= 9) && Distinct(block) {
        SubsetOfSameCard(values, digits);
      }
    }
  }

  /** Cell (p, q) of square (sr, sc) is element (p - 3 sr) * 3 + (q - 3 sc)
      of the square read row by row. */
  lemma SquareIndex(sr: int, sc: int, p: int, q: int)
    requires InSquare(sr, sc, p, q)
    ensures var t := (p - 3 * sr) * 3 + (q - 3 * sc);
            0 <= t < 9 && 3 * sr + t / 3 == p && 3 * sc + t % 3 == q
  {
  }

  /** Element t of the square read row by row is a cell of the square, and
      different elements are different cells. */
  lemma SquareCell(sr: int, sc: int, t: int, t2: int)
    requires 0 <= t < 9 && 0 <= t2 < 9
    ensures InSquare(sr, sc, 3 * sr + t / 3, 3 * sc + t % 3)
    ensures t != t2 ==> (3 * sr + t / 3, 3 * sc + t % 3) != (3 * sr + t2 / 3, 3 * sc + t2 % 3)
  {
  }

  /** Square (sr, sc) as a sequence is a permutation of 1..9 exactly when the
      square, cell by cell, is complete. */
  lemma SquareSeqComplete(g: seq<seq<int>>, sr: int, sc: int)
    requires IsBoard(g) && 0 <= sr < 3 && 0 <= sc < 3
    ensures (forall t :: 0 <= t < 9 ==> 1 <= Square(g, sr, sc)[t] <= 9) && Distinct(Square(g, sr, sc))
            <==> SquareComplete(g, sr, sc)
  {
    if (forall t :: 0 <= t < 9 ==> 1 <= Square(g, sr, sc)[t] <= 9) && Distinct(Square(g, sr, sc)) {
      SquareFromSeq(g, sr, sc);
    }
    if SquareComplete(g, sr, sc) {
      SeqFromSquare(g, sr, sc);
    }
  }

  /** The sequence direction: a square whose sequence is a permutation of
      1..9 is complete cell by cell. */
  lemma SquareFromSeq(g: seq<seq<int>>, sr: int, sc: int)
    requires IsBoard(g) && 0 <= sr < 3 && 0 <= sc < 3
    requires (forall t :: 0 <= t < 9 ==> 1 <= Square(g, sr, sc)[t] <= 9) && Distinct(Square(g, sr, sc))
    ensures SquareComplete(g, sr, sc)
  {
    var sq := Square(g, sr, sc);
    forall p, q | InSquare(sr, sc, p, q) ensures 1 <= g[p][q] <= 9 {
      SquareIndex(sr, sc, p, q);
      assert sq[(p - 3 * sr) * 3 + (q - 3 * sc)] == g[p][q];
    }
    forall p, q, p2, q2 | InSquare(sr, sc, p, q) && InSquare(sr, sc, p2, q2) && (p, q) != (p2, q2)
      ensures g[p][q] != g[p2][q2]
    {
      var t, t2 := (p - 3 * sr) * 3 + (q - 3 * sc), (p2 - 3 * sr) * 3 + (q2 - 3 * sc);
      SquareIndex(sr, sc, p, q);
      SquareIndex(sr, sc, p2, q2);
      assert sq[t] == g[p][q] && sq[t2] == g[p2][q2];
      if t < t2 {
        assert sq[t] != sq[t2];
      } else {
        assert t2 < t;
        assert sq[t2] != sq[t];
      }
    }
  }

  /** The cell direction: a square complete cell by cell reads as a
      permutation of 1..9. */
  lemma SeqFromSquare(g: seq<seq<int>>, sr: int, sc: int)
    requires IsBoard(g) && 0 <= sr < 3 && 0 <= sc < 3
    requires SquareComplete(g, sr, sc)
    ensures (forall t :: 0 <= t < 9 ==> 1 <= Square(g, sr, sc)[t] <= 9) && Distinct(Square(g, sr, sc))
  {
    var sq := Square(g, sr, sc);
    forall t | 0 <= t < 9 ensures 1 <= sq[t] <= 9 {
      SquareCell(sr, sc, t, t);
    }
    forall t, t2 | 0 <= t < t2 < 9 ensures sq[t] != sq[t2] {
      SquareCell(sr, sc, t, t2);
      SquareCell(sr, sc, t2, t);
    }
  }

  /** A board is complete in every row, column and square exactly when all its
      cells are digits 1..9 without a conflict among peers (rows, columns,
      3-by-3 blocks). */
  lemma CompleteIffSolution(g: seq<seq<int>>)
    requires IsBoard(g)
    ensures Complete(g) <==> IsSolution(g, 3)
  {
    if Complete(g) {
      forall p, q | 0 <= p < 9 && 0 <= q < 9 ensures 1 <= g[p][q] <= 9 {
        assert RowComplete(g, p);
      }
      forall p, q, p2, q2 |
        0 <= p < 9 && 0 <= q < 9 && 0 <= p2 < 9 && 0 <= q2 < 9 && Peers(3, p, q, p2, q2) && g[p][q] != 0
        ensures g[p][q] != g[p2][q2]
      {
        if p == p2 {
          assert RowComplete(g, p);
          if q < q2 { assert g[p][q] != g[p][q2]; } else { assert g[p][q2] != g[p][q]; }
        } else if q == q2 {
          assert ColumnComplete(g, q);
          if p < p2 { assert g[p][q] != g[p2][q]; } else { assert g[p2][q] != g[p][q]; }
        } else {
          assert SquareComplete(g, p / 3, q / 3);
          assert InSquare(p / 3, q / 3, p, q) && InSquare(p / 3, q / 3, p2, q2);
        }
      }
    }
    if IsSolution(g, 3) {
      forall r | 0 <= r < 9 ensures RowComplete(g, r) {
        forall c, c2 | 0 <= c < c2 < 9 ensures g[r][c] != g[r][c2] {
          assert Peers(3, r, c, r, c2);
        }
      }
      forall c | 0 <= c < 9 ensures ColumnComplete(g, c) {
        forall r, r2 | 0 <= r < r2 < 9 ensures g[r][c] != g[r2][c] {
          assert Peers(3, r, c, r2, c);
        }
      }
      forall sr, sc | 0 <= sr < 3 && 0 <= sc < 3 ensures SquareComplete(g, sr, sc) {
        forall p, q, p2, q2 | InSquare(sr, sc, p, q) && InSquare(sr, sc, p2, q2) && (p, q) != (p2, q2)
          ensures g[p][q] != g[p2][q2]
        {
          assert SameBlock(3, p, q, p2, q2);
          assert Peers(3, p, q, p2, q2);
        }
      }
    }
  }

  /** What the solver promises on a consistent 9-by-9 puzzle of digits 0..9,
      namely givens kept, every empty cell filled with 1..9 and no conflict,
      is exactly what the game's win check accepts. */
  lemma SolvedBoardIsComplete(g0: seq<seq<int>>, g: seq<seq<int>>)
    requires IsBoard(g0) && KeepsGivens(g0, g) && FillsInRange(g0, g) && NoConflicts(g, 3)
    requires forall p, q :: 0 <= p < 9 && 0 <= q < 9 ==> 0 <= g0[p][q] <= 9
    ensures IsBoard(g) && Complete(g)
  {
    FilledIsSolution(g0, g, 3);
    CompleteIffSolution(g);
  }

  // ------------------------------------------------------------- the game

  /** Game state: the puzzle file, the puzzle as loaded from it, the puzzle
      being played, and whether the game is won.  The source sets puzzle and
      gameOver only in start(); here they begin empty and false. */
  class SudokuGame {
    const boardFile: seq<string>
    var startPuzzle: seq<seq<int>>
    var puzzle: seq<seq<int>>
    var gameOver: bool

    /** The class invariant: the start puzzle is a 9-by-9 board of digits,
        and the working puzzle, once started, is a 9-by-9 board. */
    ghost predicate Valid()
      reads this
    {
      IsDigitBoard(startPuzzle) && (puzzle == [] || IsBoard(puzzle))
    }

    /** A game over a puzzle file the parser accepts. */
    constructor (boardFile: seq<string>)
      requires FirstBadLine(boardFile) == |boardFile| == 9
      ensures this.boardFile == boardFile
      ensures IsDigitBoard(startPuzzle) && RowsRead(startPuzzle, boardFile, 9)
      ensures puzzle == [] && !gameOver
      ensures Valid()
    {
      var board := CreateBoard(boardFile);
      this.boardFile := boardFile;
      startPuzzle := board.value;
      puzzle := [];
      gameOver := false;
    }

    /** Creating a game: the parser's error when it rejects the file, and
        otherwise a new game over the board it read. */
    static method Open(boardFile: seq<string>) returns (r: Result<SudokuGame>)
      ensures FirstBadLine(boardFile) < |boardFile| ==>
                r == Err(LineError(Strip(boardFile[FirstBadLine(boardFile)])))
      ensures FirstBadLine(boardFile) == |boardFile| && |boardFile| != 9 ==> r == Err(LineCount)
      ensures FirstBadLine(boardFile) == |boardFile| == 9 ==>
                r.Ok? && fresh(r.value) && r.value.boardFile == boardFile &&
                IsDigitBoard(r.value.startPuzzle) && RowsRead(r.value.startPuzzle, boardFile, 9) &&
                r.value.puzzle == [] && !r.value.gameOver && r.value.Valid()
    {
      var board := CreateBoard(boardFile);
      if board.Err? {
        return Err(board.error);
      }
      var game := new SudokuGame(boardFile);
      return Ok(game);
    }

    /** Starts (or restarts) play: the working puzzle becomes a cell-by-cell
        copy of the start puzzle and the game is not over. */
    method Start()
      requires Valid()
      modifies this
      ensures startPuzzle == old(startPuzzle)
      ensures puzzle == startPuzzle && !gameOver
      ensures Valid()
    {
      gameOver := false;
      puzzle := [];
      for i := 0 to 9
        invariant startPuzzle == old(startPuzzle) && !gameOver
        invariant |puzzle| == i && forall r :: 0 <= r < i ==> puzzle[r] == startPuzzle[r]
      {
        puzzle := puzzle + [[]];
        for j := 0 to 9
          invariant startPuzzle == old(startPuzzle) && !gameOver
          invariant |puzzle| == i + 1 && forall r :: 0 <= r < i ==> puzzle[r] == startPuzzle[r]
          invariant puzzle[i] == startPuzzle[i][..j]
        {
          puzzle := puzzle[i := puzzle[i] + [startPuzzle[i][j]]];
        }
      }
    }

    /** A digit written into the working puzzle, as the key handler of the
        user interface does; the start puzzle is not affected. */
    method Enter(row: int, col: int, n: int)
      requires Valid() && IsBoard(puzzle) && 0 <= row < 9 && 0 <= col < 9
      modifies this
      ensures puzzle == Place(old(puzzle), row, col, n)
      ensures startPuzzle == old(startPuzzle) && gameOver == old(gameOver)
      ensures Valid()
    {
      puzzle := puzzle[row := puzzle[row][col := n]];
    }

    /** The validity check of sudoku.py with the block size fixed at 3. */
    method IsValid(i: int, j: int, n: int, bo: seq<seq<int>>) returns (ok: bool)
      requires IsBoard(bo) && 0 <= i < 9 && 0 <= j < 9
      ensures ok == Allowed(bo, 3, i, j, n)
      ensures n == 0 ==> !ok
      ensures bo[i][j] == n ==> !ok
    {
      if n == 0 {
        return false;
      }
      for c := 0 to 9
        invariant forall c' :: 0 <= c' < c ==> bo[i][c'] != n
      {
        if bo[i][c] == n {
          return false;
        }
      }
      for r := 0 to 9
        invariant forall r' :: 0 <= r' < r ==> bo[r'][j] != n
      {
        if bo[r][j] == n {
          return false;
        }
      }
      var x := 3;
      var top, left := i - i % x, j - j % x;
      var p := top;
      while p < top + x
        invariant top <= p <= top + x
        invariant forall p', q' :: top <= p' < p && left <= q' < left + x ==> bo[p'][q'] != n
      {
        var q := left;
        while q < left + x
          invariant left <= q <= left + x
          invariant forall q' :: left <= q' < q ==> bo[p][q'] != n
        {
          if bo[p][q] == n {
            assert SameBlock(3, p, q, i, j);
            return false;
          }
          q := q + 1;
        }
        p := p + 1;
      }
      forall p', q' | 0 <= p' < 9 && 0 <= q' < 9 && SameBlock(3, p', q', i, j)
        ensures bo[p'][q'] != n
      {
        assert top <= p' < top + 3 && left <= q' < left + 3;
      }
      return true;
    }

    /** The set of the values in block is {1, ..., 9}: every value is a
        digit 1..9 and every digit 1..9 occurs.  For a block of nine cells
        that means the digits 1..9 without a repeat. */
    static function CheckBlock(block: seq<int>): (ok: bool)
      ensures ok <==> (forall k :: 0 <= k < |block| ==> 1 <= block[k] <= 9) &&
                      (forall d :: 1 <= d <= 9 ==> d in block)
      ensures |block| == 9 ==> (ok <==> (forall k :: 0 <= k < 9 ==> 1 <= block[k] <= 9) && Distinct(block))
    {
      DigitSetMeaning(block);
      DigitSetIffPermutation(block);
      (set x | x in block) == (set x | x in Range(1, 10))
    }

    function CheckRow(row: int): (ok: bool)
      reads this
      requires IsBoard(puzzle) && 0 <= row < 9
      ensures ok <==> RowComplete(puzzle, row)
    {
      CheckBlock(puzzle[row])
    }

    function CheckColumn(column: int): (ok: bool)
      reads this
      requires IsBoard(puzzle) && 0 <= column < 9
      ensures ok <==> ColumnComplete(puzzle, column)
    {
      var col := Column(puzzle, column);
      assert Distinct(col) <==> forall r, r2 :: 0 <= r < r2 < 9 ==> puzzle[r][column] != puzzle[r2][column];
      CheckBlock(col)
    }

    function CheckSquare(row: int, column: int): (ok: bool)
      reads this
      requires IsBoard(puzzle) && 0 <= row < 3 && 0 <= column < 3
      ensures ok <==> SquareComplete(puzzle, row, column)
    {
      SquareSeqComplete(puzzle, row, column);
      CheckBlock(Square(puzzle, row, column))
    }

    /** Whether the working puzzle is won: every row, every column and every
        square holds the digits 1..9.  Only a win sets gameOver. */
    method CheckWin() returns (won: bool)
      requires Valid() && IsBoard(puzzle)
      modifies this
      ensures puzzle == old(puzzle) && startPuzzle == old(startPuzzle)
      ensures Valid()
      ensures won <==> Complete(puzzle)
      ensures won <==> IsSolution(puzzle, 3)
      ensures gameOver == (won || old(gameOver))
    {
      CompleteIffSolution(puzzle);
      for row := 0 to 9
        invariant forall r :: 0 <= r < row ==> RowComplete(puzzle, r)
      {
        if !CheckRow(row) {
          return false;
        }
      }
      for column := 0 to 9
        invariant forall c :: 0 <= c < column ==> ColumnComplete(puzzle, c)
      {
        if !CheckColumn(column) {
          return false;
        }
      }
      for row := 0 to 3
        invariant forall sr, sc :: 0 <= sr < row && 0 <= sc < 3 ==> SquareComplete(puzzle, sr, sc)
      {
        for column := 0 to 3
          invariant forall sc :: 0 <= sc < column ==> SquareComplete(puzzle, row, sc)
        {
          if !CheckSquare(row, column) {
            return false;
          }
        }
      }
      gameOver := true;
      return true;
    }
  }
}

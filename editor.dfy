/** The separate kilo-style text editor prototype (go22dos_c/main.c): key
    decoding, the row buffer, the append buffer, the cursor and the viewport.

    Bytes are ints in [0, 256). The model assumes that C's `char` is signed
    (as on x86 and x86-64 with the usual compilers; the C standard leaves it
    to the implementation), so a byte read as a key becomes a negative int
    when it is 0x80 or more, and an int stored into a row keeps only its low
    byte. */
module Editor {

  type Byte = b: int | 0 <= b < 256

  const NL: Byte := 10
  const CR: Byte := 13
  const ESC: int := 27
  const BACKSPACE: int := 127

  const ARROW_LEFT: int := 1000
  const ARROW_RIGHT: int := 1001
  const ARROW_UP: int := 1002
  const ARROW_DOWN: int := 1003
  const DEL_KEY: int := 1004
  const HOME_KEY: int := 1005
  const END_KEY: int := 1006
  const PAGE_UP: int := 1007
  const PAGE_DOWN: int := 1008

  /** `CTRL_KEY(k)`, that is `k & 0x1f`: the low five bits, which for a
      two's-complement int is the Euclidean remainder by 32. */
  function CtrlKey(k: int): (c: int)
    ensures 0 <= c < 32
  {
    k % 32
  }

  const CTRL_L: int := CtrlKey('l' as int)
  const CTRL_Q: int := CtrlKey('q' as int)
  const CTRL_S: int := CtrlKey('s' as int)

  /** A byte read into a signed `char` and returned as an int. */
  function SignedChar(b: Byte): (c: int)
    ensures -128 <= c < 128
    ensures LowByte(c) == b
    ensures b < 0x80 ==> c == b
  {
    if b < 0x80 then b else b - 256
  }

  /** An int stored into a `char`: its low byte. */
  function LowByte(c: int): (b: Byte)
    ensures (c - b) % 256 == 0
  {
    c % 256
  }

  predicate IsSpecialKey(k: int) {
    ARROW_LEFT <= k <= PAGE_DOWN
  }

  // ---------------------------------------------------------------------
  // read_key: decoding the bytes after ESC
  // ---------------------------------------------------------------------

  /** A decoded key and the number of bytes it took from the input. */
  datatype KeyRead = KeyRead(key: int, used: nat)

  /** ESC '[' digit '~'. */
  function TildeKey(digit: Byte): (k: int)
    ensures k == ESC || IsSpecialKey(k)
  {
    if digit == '1' as int || digit == '7' as int then HOME_KEY
    else if digit == '4' as int || digit == '8' as int then END_KEY
    else if digit == '3' as int then DEL_KEY
    else if digit == '5' as int then PAGE_UP
    else if digit == '6' as int then PAGE_DOWN
    else ESC
  }

  /** ESC '[' letter. */
  function BracketKey(letter: Byte): (k: int)
    ensures k == ESC || IsSpecialKey(k)
  {
    if letter == 'A' as int then ARROW_UP
    else if letter == 'B' as int then ARROW_DOWN
    else if letter == 'C' as int then ARROW_RIGHT
    else if letter == 'D' as int then ARROW_LEFT
    else if letter == 'H' as int then HOME_KEY
    else if letter == 'F' as int then END_KEY
    else ESC
  }

  /** ESC 'O' letter. */
  function SS3Key(letter: Byte): (k: int)
    ensures k == ESC || k == HOME_KEY || k == END_KEY
  {
    if letter == 'H' as int then HOME_KEY
    else if letter == 'F' as int then END_KEY
    else ESC
  }

  /** `read_key` on the bytes available once the first byte has arrived: a
      byte other than ESC is returned as it is; after ESC up to three more
      bytes are read, and a missing byte or an unknown sequence gives ESC. */
  function ReadKey(input: seq<Byte>): (r: KeyRead)
    requires |input| >= 1
    ensures 1 <= r.used <= |input| && r.used <= 4
    ensures input[0] != ESC ==> r == KeyRead(SignedChar(input[0]), 1)
    ensures input[0] == ESC ==> r.key == ESC || IsSpecialKey(r.key)
    ensures input[0] == ESC && |input| < 3 ==> r == KeyRead(ESC, |input|)
    ensures IsSpecialKey(r.key) ==> input[0] == ESC && r.used >= 3
  {
    if input[0] != ESC then KeyRead(SignedChar(input[0]), 1)
    else if |input| < 3 then KeyRead(ESC, |input|)
    else if input[1] == '[' as int then
      if '0' as int <= input[2] <= '9' as int then
        if |input| < 4 then KeyRead(ESC, 3)
        else KeyRead(if input[3] == '~' as int then TildeKey(input[2]) else ESC, 4)
      else
        KeyRead(BracketKey(input[2]), 3)
    else if input[1] == 'O' as int then
      KeyRead(SS3Key(input[2]), 3)
    else
      KeyRead(ESC, 3)
  }

  /** The sequence (ESC '[' …) a terminal sends for each special key. Its
      shape, a control sequence introduced by ESC '[', is defined in section
      5.4 of ECMA-48; which final byte or parameter stands for which key is
      a VT100/xterm convention, not part of ECMA-48. */
  function Csi(key: int): (s: seq<Byte>)
    requires IsSpecialKey(key)
  {
    var esc: Byte := 27;
    var lb: Byte := '[' as int;
    if key == ARROW_UP then [esc, lb, 'A' as int]
    else if key == ARROW_DOWN then [esc, lb, 'B' as int]
    else if key == ARROW_RIGHT then [esc, lb, 'C' as int]
    else if key == ARROW_LEFT then [esc, lb, 'D' as int]
    else if key == HOME_KEY then [esc, lb, 'H' as int]
    else if key == END_KEY then [esc, lb, 'F' as int]
    else if key == DEL_KEY then [esc, lb, '3' as int, '~' as int]
    else if key == PAGE_UP then [esc, lb, '5' as int, '~' as int]
    else [esc, lb, '6' as int, '~' as int]
  }

  /** Every special key is decoded from its sequence, whatever follows it,
      and exactly the sequence is consumed. */
  lemma ReadKeyDecodesCsi(key: int, rest: seq<Byte>)
    requires IsSpecialKey(key)
    ensures ReadKey(Csi(key) + rest) == KeyRead(key, |Csi(key)|)
  {
    var s := Csi(key) + rest;
    assert s[..|Csi(key)|] == Csi(key);
  }

  /** The alternative forms: `1~` and `7~` are HOME, `4~` and `8~` END, and
      ESC 'O' 'H' / ESC 'O' 'F' are HOME / END. */
  lemma ReadKeyAliases(rest: seq<Byte>)
    ensures ReadKey([27, '[' as int, '1' as int, '~' as int] + rest).key == HOME_KEY
    ensures ReadKey([27, '[' as int, '7' as int, '~' as int] + rest).key == HOME_KEY
    ensures ReadKey([27, '[' as int, '4' as int, '~' as int] + rest).key == END_KEY
    ensures ReadKey([27, '[' as int, '8' as int, '~' as int] + rest).key == END_KEY
    ensures ReadKey([27, 'O' as int, 'H' as int] + rest).key == HOME_KEY
    ensures ReadKey([27, 'O' as int, 'F' as int] + rest).key == END_KEY
  {
  }

  /** The other sequences that read as HOME and END: ESC '[' followed by
      `1~`, `7~` (HOME) or `4~`, `8~` (END), and ESC 'O' 'H' / ESC 'O' 'F'. */
  function AltForms(key: int): (forms: set<seq<Byte>>)
    ensures forms != {} <==> key == HOME_KEY || key == END_KEY
    ensures forall f :: f in forms ==> |f| >= 3 && f[0] == 27
  {
    var esc: Byte := 27;
    var lb: Byte := '[' as int;
    var ss3: Byte := 'O' as int;
    var tilde: Byte := '~' as int;
    if key == HOME_KEY then
      {[esc, lb, '1' as int, tilde], [esc, lb, '7' as int, tilde], [esc, ss3, 'H' as int]}
    else if key == END_KEY then
      {[esc, lb, '4' as int, tilde], [esc, lb, '8' as int, tilde], [esc, ss3, 'F' as int]}
    else {}
  }

  /** The converse of the decoding lemmas: a special key is read only from
      its CSI sequence or one of its alternative forms, exactly that
      sequence is consumed, and every other sequence after ESC reads as ESC
      (in particular ESC followed by a byte other than '[' and 'O', ESC 'O'
      followed by a letter other than 'H' and 'F', and ESC '[' followed by
      a byte that is neither a digit nor one of A, B, C, D, H, F). */
  lemma ReadKeyRecognisedOnly(input: seq<Byte>)
    requires |input| >= 1 && input[0] == ESC
    ensures var r := ReadKey(input);
      r.key == ESC ||
      (IsSpecialKey(r.key) && (input[..r.used] == Csi(r.key) || input[..r.used] in AltForms(r.key)))
    ensures |input| >= 3 && input[1] != '[' as int && input[1] != 'O' as int ==>
      ReadKey(input) == KeyRead(ESC, 3)
    ensures |input| >= 3 && input[1] == 'O' as int && input[2] != 'H' as int && input[2] != 'F' as int ==>
      ReadKey(input) == KeyRead(ESC, 3)
    ensures (|input| >= 3 && input[1] == '[' as int && !('0' as int <= input[2] <= '9' as int) &&
             input[2] !in {'A' as int, 'B' as int, 'C' as int, 'D' as int, 'H' as int, 'F' as int}) ==>
      ReadKey(input) == KeyRead(ESC, 3)
  {
    var r := ReadKey(input);
    if r.key != ESC {
      var read := input[..r.used];
      if r.used == 4 {
        assert read == [input[0], input[1], input[2], input[3]];
      } else {
        assert read == [input[0], input[1], input[2]];
      }
    }
  }

  /** A digit sequence that is cut short, or not closed by '~', or whose
      digit is not one of 1, 3, 4, 5, 6, 7, 8, reads as ESC. */
  lemma ReadKeyUnknownDigit(d: Byte, rest: seq<Byte>)
    requires '0' as int <= d <= '9' as int
    ensures ReadKey([27, '[' as int, d]).key == ESC
    ensures |rest| > 0 && rest[0] != '~' as int ==> ReadKey([27, '[' as int, d] + rest).key == ESC
    ensures d == '0' as int || d == '2' as int || d == '9' as int ==>
      ReadKey([27, '[' as int, d, '~' as int] + rest).key == ESC
  {
  }

  // ---------------------------------------------------------------------
  // Rows
  // ---------------------------------------------------------------------

  /** One line of text: `chars` (size = |chars|) and its rendered form
      `render` (rsize = |render|). The C buffers also hold a trailing NUL. */
  datatype Row = Row(chars: seq<Byte>, render: seq<Byte>)

  /** `update_row`: render is rebuilt as a byte-for-byte copy of chars, so
      rsize == size. */
  method UpdateRow(row: Row) returns (r: Row)
    ensures r.chars == row.chars
    ensures r.render == row.chars
  {
    var size := |row.chars|;
    var render := new Byte[size + 1];
    var idx := 0;
    var j := 0;
    while j < size
      invariant 0 <= j <= size && idx == j
      invariant render[..idx] == row.chars[..j]
    {
      render[idx] := row.chars[j];
      idx := idx + 1;
      j := j + 1;
    }
    render[idx] := 0;
    r := Row(row.chars, render[..idx]);
  }

  /** The insertion point of `row_insert_char`: a position outside
      [0, size] means the end of the row. */
  function InsertAt(at: int, size: nat): (a: nat)
    ensures a <= size
    ensures 0 <= at <= size ==> a == at
  {
    if at < 0 || at > size then size else at
  }

  /** `row_insert_char`: the row grows by one byte, `c` (its low byte) at the
      insertion point, the bytes before it unchanged and the bytes after it
      shifted one place right; render is rebuilt. */
  method RowInsertChar(row: Row, at: int, c: int) returns (r: Row)
    ensures var a := InsertAt(at, |row.chars|);
      |r.chars| == |row.chars| + 1 &&
      r.chars[a] == LowByte(c) &&
      (forall i :: 0 <= i < a ==> r.chars[i] == row.chars[i]) &&
      (forall i :: a <= i < |row.chars| ==> r.chars[i + 1] == row.chars[i])
    ensures var a := InsertAt(at, |row.chars|);
      r.chars == row.chars[..a] + [LowByte(c)] + row.chars[a..]
    ensures r.render == r.chars
  {
    var size := |row.chars|;
    var a := InsertAt(at, size);
    ghost var text := row.chars + [0];
    // realloc to size + 2 bytes keeps the size + 1 bytes of text and NUL
    var buf := new Byte[size + 2];
    var k := 0;
    while k < size
      invariant 0 <= k <= size
      invariant forall i :: 0 <= i < k ==> buf[i] == text[i]
    {
      buf[k] := row.chars[k];
      k := k + 1;
    }
    buf[size] := 0;
    // memmove(&chars[a + 1], &chars[a], size - a + 1), from the top down
    var i := size + 1;
    while i > a
      invariant a <= i <= size + 1
      invariant forall j :: 0 <= j < i ==> buf[j] == text[j]
      invariant forall j :: i < j <= size + 1 ==> buf[j] == text[j - 1]
    {
      buf[i] := buf[i - 1];
      i := i - 1;
    }
    buf[a] := LowByte(c);
    assert buf[..size + 1] == row.chars[..a] + [LowByte(c)] + row.chars[a..];
    r := UpdateRow(Row(buf[..size + 1], row.render));
  }

  /** A line as `oopen` keeps it: trailing '\n' and '\r' bytes removed. */
  function Stripped(line: seq<Byte>): (s: seq<Byte>)
    ensures |s| <= |line| && s == line[..|s|]
    ensures s == [] || (s[|s| - 1] != NL && s[|s| - 1] != CR)
    ensures forall i :: |s| <= i < |line| ==> line[i] == NL || line[i] == CR
  {
    if line != [] && (line[|line| - 1] == NL || line[|line| - 1] == CR) then
      Stripped(line[..|line| - 1])
    else
      line
  }

  /** The loop of `oopen` that shortens `linelen` while the line ends in a
      line break byte. */
  method StripLineEnd(line: seq<Byte>) returns (len: nat)
    ensures len <= |line| && line[..len] == Stripped(line)
  {
    len := |line|;
    assert line[..len] == line;
    while len > 0 && (line[len - 1] == NL || line[len - 1] == CR)
      invariant 0 <= len <= |line|
      invariant Stripped(line[..len]) == Stripped(line)
    {
      ghost var prefix := line[..len];
      assert prefix[..len - 1] == line[..len - 1];
      assert Stripped(prefix) == Stripped(line[..len - 1]);
      len := len - 1;
    }
    ghost var kept := line[..len];
    assert kept == [] || (kept[len - 1] != NL && kept[len - 1] != CR);
    assert Stripped(kept) == kept;
  }

  /** The serialised text: every row followed by '\n'. */
  function Joined(rows: seq<Row>): (text: seq<Byte>) {
    if rows == [] then []
    else Joined(rows[..|rows| - 1]) + rows[|rows| - 1].chars + [NL]
  }

  /** The byte count `rows_to_string` reports: the sum of size + 1. */
  function TotalLength(rows: seq<Row>): (n: nat) {
    if rows == [] then 0
    else TotalLength(rows[..|rows| - 1]) + |rows[|rows| - 1].chars| + 1
  }

  lemma {:induction false} JoinedLength(rows: seq<Row>)
    ensures |Joined(rows)| == TotalLength(rows)
    decreases |rows|
  {
    if rows != [] {
      JoinedLength(rows[..|rows| - 1]);
    }
  }

  /** A prefix of the rows is serialised as a prefix of the text. */
  lemma {:induction false} JoinedPrefix(rows: seq<Row>, j: nat)
    requires j <= |rows|
    ensures TotalLength(rows[..j]) <= TotalLength(rows) == |Joined(rows)|
    ensures Joined(rows[..j]) == Joined(rows)[..TotalLength(rows[..j])]
    decreases |rows|
  {
    JoinedLength(rows);
    JoinedLength(rows[..j]);
    if j < |rows| {
      var front := rows[..|rows| - 1];
      assert rows[..j] == front[..j];
      JoinedPrefix(front, j);
      JoinedLength(front);
    } else {
      assert rows[..j] == rows;
    }
  }

  lemma PrefixStep(rows: seq<Row>, j: nat)
    requires j < |rows|
    ensures TotalLength(rows[..j + 1]) == TotalLength(rows[..j]) + |rows[j].chars| + 1
    ensures Joined(rows[..j + 1]) == Joined(rows[..j]) + rows[j].chars + [NL]
  {
    assert rows[..j + 1][..j] == rows[..j];
  }

  /** The `memcpy` of one row's bytes into the buffer at offset `p`. */
  method CopyInto(buf: array<Byte>, p: nat, chars: seq<Byte>)
    requires p + |chars| <= buf.Length
    modifies buf
    ensures buf[..p + |chars|] == old(buf[..p]) + chars
    ensures buf[p + |chars|..] == old(buf[p + |chars|..])
  {
    var k := 0;
    while k < |chars|
      invariant 0 <= k <= |chars|
      invariant buf[..p + k] == old(buf[..p]) + chars[..k]
      invariant buf[p + |chars|..] == old(buf[p + |chars|..])
    {
      buf[p + k] := chars[k];
      k := k + 1;
    }
    assert chars[..k] == chars;
  }

  // ---------------------------------------------------------------------
  // The append buffer
  // ---------------------------------------------------------------------

  /** `struct abuf`: a heap buffer `b` holding `len` bytes. */
  class AppendBuffer {
    var b: array<Byte>
    var len: int

    ghost predicate Valid()
      reads this
    {
      0 <= len <= b.Length
    }

    function Contents(): seq<Byte>
      reads this, b
      requires Valid()
    {
      b[..len]
    }

    /** `ABUF_INIT`. */
    constructor ()
      ensures Valid() && Contents() == []
    {
      b := new Byte[0];
      len := 0;
    }

    /** `abuf_append(ab, s, n)`: on success the buffer is the old contents
        followed by `s[0..n]`; when the reallocation fails (`reallocOk` is
        false) nothing changes. */
    method Append(s: seq<Byte>, n: int, reallocOk: bool)
      requires Valid() && 0 <= n <= |s|
      modifies this
      ensures Valid()
      ensures reallocOk ==> Contents() == old(Contents()) + s[..n]
      ensures !reallocOk ==> b == old(b) && len == old(len)
    {
      if !reallocOk {
        return;
      }
      var grown := new Byte[len + n];
      var k := 0;
      while k < len
        invariant b == old(b) && len == old(len) && 0 <= k <= len
        invariant grown[..k] == b[..k]
      {
        grown[k] := b[k];
        k := k + 1;
      }
      // memcpy(&new[len], s, n)
      k := 0;
      while k < n
        invariant b == old(b) && len == old(len) && 0 <= k <= n
        invariant grown[..len] == b[..len]
        invariant grown[len..len + k] == s[..k]
      {
        grown[len + k] := s[k];
        k := k + 1;
      }
      assert grown[..] == grown[..len] + grown[len..len + n];
      assert grown[..len + n] == grown[..];
      b := grown;
      len := len + n;
    }
  }

  // ---------------------------------------------------------------------
  // The editor state (`struct config APP`)
  // ---------------------------------------------------------------------

  function Min(a: int, b: int): int {
    if a <= b then a else b
  }

  function Max(a: int, b: int): int {
    if a >= b then a else b
  }

  class Editor {
    var cx: int
    var cy: int
    var rowOffset: int
    var colOffset: int
    var screenRows: int
    var screenCols: int
    var nRows: int
    var row: seq<Row>

    /** The length of line `y`; 0 on the line past the last row. */
    function LineLength(y: int): nat
      reads this
      requires 0 <= y && nRows == |row|
    {
      if y < nRows then |row[y].chars| else 0
    }

    /** The cursor is on a row or on the line just past the last one, and
        the offsets are not negative; render mirrors chars in every row. */
    ghost predicate Layout()
      reads this
    {
      nRows == |row| && 0 <= cy <= nRows && 0 <= cx &&
      0 <= rowOffset <= nRows && 0 <= colOffset &&
      forall y :: 0 <= y < |row| ==> row[y].render == row[y].chars
    }

    /** The editor invariant: in addition, the cursor column is within its
        line. */
    ghost predicate Valid()
      reads this
    {
      Layout() && cx <= LineLength(cy)
    }

    /** `init`: the cursor at the origin, no rows, and one screen line kept
        for the status bar. The window size is a parameter. */
    constructor Init(windowRows: int, windowCols: int)
      ensures Valid()
      ensures cx == 0 && cy == 0 && rowOffset == 0 && colOffset == 0
      ensures nRows == 0 && row == []
      ensures screenRows == windowRows - 1 && screenCols == windowCols
    {
      cx, cy := 0, 0;
      nRows := 0;
      colOffset, rowOffset := 0, 0;
      row := [];
      screenRows, screenCols := windowRows - 1, windowCols;
    }

    /** `scroll`: move the viewport the least needed to show the cursor. */
    method Scroll()
      requires Valid() && screenRows >= 1 && screenCols >= 1
      modifies this
      ensures Valid()
      ensures rowOffset <= cy < rowOffset + screenRows
      ensures colOffset <= cx < colOffset + screenCols
      ensures old(rowOffset) <= cy < old(rowOffset) + screenRows ==> rowOffset == old(rowOffset)
      ensures old(colOffset) <= cx < old(colOffset) + screenCols ==> colOffset == old(colOffset)
      ensures cx == old(cx) && cy == old(cy) && row == old(row) && nRows == old(nRows)
      ensures screenRows == old(screenRows) && screenCols == old(screenCols)
    {
      if cy < rowOffset {
        rowOffset := cy;
      }
      if cy >= rowOffset + screenRows {
        rowOffset := cy - screenRows + 1;
      }
      if cx < colOffset {
        colOffset := cx;
      }
      if cx >= colOffset + screenCols {
        colOffset := cx - screenCols + 1;
      }
    }

    /** `append_row(s, len)`: a new last row holding `s[0..len]`, rendered;
        the existing rows and the cursor are unchanged. */
    method AppendRow(s: seq<Byte>, len: int)
      requires Layout() && 0 <= len <= |s|
      modifies this
      ensures row == old(row) + [Row(s[..len], s[..len])] && nRows == old(nRows) + 1
      ensures cx == old(cx) && cy == old(cy)
      ensures rowOffset == old(rowOffset) && colOffset == old(colOffset)
      ensures screenRows == old(screenRows) && screenCols == old(screenCols)
      ensures Layout()
      ensures old(Valid()) ==> Valid()
    {
      var added := UpdateRow(Row(s[..len], []));
      row := row + [added];
      nRows := nRows + 1;
    }

    /** What `insert_char(c)` leaves when the cursor was at column `x` of
        line `y` over the rows `before`: the byte is in that line at `x` (the
        line past the last row becomes a new row), the cursor is one column
        right, and every other row is as it was. */
    ghost predicate InsertedAt(c: int, x: int, y: int, before: seq<Row>)
      reads this
      requires 0 <= y <= |before|
      requires 0 <= x <= (if y < |before| then |before[y].chars| else 0)
    {
      var line := if y < |before| then before[y].chars else [];
      cy == y && cx == x + 1 &&
      |row| == (if y == |before| then |before| + 1 else |before|) &&
      row[y].chars == line[..x] + [LowByte(c)] + line[x..] &&
      forall j :: 0 <= j < |before| && j != y ==> row[j] == before[j]
    }

    /** Where `move_cursor(key)` leaves the cursor when it was at column `x`
        of line `y`: left at column 0 wraps to the end of the previous line,
        right at the end of a line wraps to column 0 of the next, up and
        down stop at the first line and at the line past the last row; the
        column is then clamped to the length of the new line. */
    ghost predicate MovedBy(key: int, x: int, y: int)
      reads this
      requires nRows == |row| && 0 <= y <= nRows && 0 <= cy
    {
      (key == ARROW_LEFT && x > 0 ==> cy == y && cx == Min(x - 1, LineLength(cy))) &&
      (key == ARROW_LEFT && x == 0 && y > 0 ==> cy == y - 1 && cx == LineLength(cy)) &&
      (key == ARROW_LEFT && x == 0 && y == 0 ==> cy == 0 && cx == 0) &&
      (key == ARROW_RIGHT && y < nRows && x < LineLength(y) ==> cy == y && cx == x + 1) &&
      (key == ARROW_RIGHT && y < nRows && x == LineLength(y) ==> cy == y + 1 && cx == 0) &&
      (key == ARROW_RIGHT && (y == nRows || x > LineLength(y)) ==> cy == y && cx == LineLength(cy)) &&
      (key == ARROW_UP ==> cy == (if y > 0 then y - 1 else 0) && cx == Min(x, LineLength(cy))) &&
      (key == ARROW_DOWN ==> cy == (if y < nRows then y + 1 else y) && cx == Min(x, LineLength(cy))) &&
      (key !in {ARROW_LEFT, ARROW_RIGHT, ARROW_UP, ARROW_DOWN} ==> cy == y && cx == Min(x, LineLength(cy)))
    }

    /** Where PAGE_UP (`up`) or PAGE_DOWN leaves the cursor when the window
        started at line `top` and the cursor at column `x`: one screen above
        the window's top line (at least 0), or one screen below its bottom
        line (at most n_rows); the column does not grow. */
    ghost predicate PagedTo(up: bool, top: int, x: int)
      reads this
    {
      (up ==> cy == Max(top - screenRows, 0)) &&
      (!up ==> cy == Min(Min(top + screenRows - 1, nRows) + screenRows, nRows)) &&
      cx <= x
    }

    /** `insert_char(c)`: on the line past the last row a new empty row is
        added first; the byte goes in at the cursor, which moves right. */
    method InsertChar(c: int)
      requires Valid()
      modifies this
      ensures Valid()
      ensures InsertedAt(c, old(cx), old(cy), old(row))
      ensures rowOffset == old(rowOffset) && colOffset == old(colOffset)
      ensures screenRows == old(screenRows) && screenCols == old(screenCols)
    {
      if cy == nRows {
        AppendRow([], 0);
      }
      var updated := RowInsertChar(row[cy], cx, c);
      row := row[cy := updated];
      cx := cx + 1;
    }

    /** The end of `move_cursor`: the column is clamped to the length of
        the cursor's line (0 past the last row). */
    method ClampColumn()
      requires Layout()
      modifies this
      ensures Valid()
      ensures cx == Min(old(cx), LineLength(cy))
      ensures cy == old(cy) && row == old(row) && nRows == old(nRows)
      ensures rowOffset == old(rowOffset) && colOffset == old(colOffset)
      ensures screenRows == old(screenRows) && screenCols == old(screenCols)
    {
      var rowLen := if cy >= nRows then 0 else |row[cy].chars|;
      if cx > rowLen {
        cx := rowLen;
      }
    }

    /** `move_cursor(key)`: the arrow keys, with left wrapping to the end of
        the previous line and right wrapping to the start of the next; the
        column is then clamped to the length of the cursor's line. */
    method MoveCursor(key: int)
      requires Layout()
      modifies this
      ensures Valid()
      ensures row == old(row) && nRows == old(nRows)
      ensures rowOffset == old(rowOffset) && colOffset == old(colOffset)
      ensures screenRows == old(screenRows) && screenCols == old(screenCols)
      ensures MovedBy(key, old(cx), old(cy))
    {
      if key == ARROW_LEFT {
        if cx != 0 {
          cx := cx - 1;
        } else if cy > 0 {
          cy := cy - 1;
          cx := |row[cy].chars|;
        }
      } else if key == ARROW_RIGHT {
        if cy < nRows && cx < |row[cy].chars| {
          cx := cx + 1;
        } else if cy < nRows && cx == |row[cy].chars| {
          cy := cy + 1;
          cx := 0;
        }
      } else if key == ARROW_UP {
        if cy != 0 {
          cy := cy - 1;
        }
      } else if key == ARROW_DOWN {
        if cy < nRows {
          cy := cy + 1;
        }
      }
      ClampColumn();
    }

    /** The PAGE_UP / PAGE_DOWN case of `process_keypress`: jump to the top
        (or bottom) line of the screen, then move one line up (down) per
        screen line. */
    method PageMove(up: bool)
      requires Valid() && screenRows >= 1
      modifies this
      ensures Valid()
      ensures row == old(row) && nRows == old(nRows)
      ensures PagedTo(up, old(rowOffset), old(cx))
      ensures rowOffset == old(rowOffset) && colOffset == old(colOffset)
      ensures screenRows == old(screenRows) && screenCols == old(screenCols)
    {
      if up {
        cy := rowOffset;
      } else {
        cy := rowOffset + screenRows - 1;
        if cy > nRows {
          cy := nRows;
        }
      }
      ghost var start := cy;
      var times := screenRows;
      while times > 0
        invariant 0 <= times <= screenRows
        invariant Layout()
        invariant times < screenRows ==> Valid()
        invariant cx <= old(cx)
        invariant up ==> cy == Max(start - (screenRows - times), 0)
        invariant !up ==> cy == Min(start + (screenRows - times), nRows)
        invariant row == old(row) && nRows == old(nRows)
        invariant rowOffset == old(rowOffset) && colOffset == old(colOffset)
        invariant screenRows == old(screenRows) && screenCols == old(screenCols)
      {
        MoveCursor(if up then ARROW_UP else ARROW_DOWN);
        times := times - 1;
      }
    }

    /** `process_keypress` for a key already decoded by `read_key`. Returns
        true for CTRL-Q, which ends the program. CTRL-S saves to a file,
        which is not part of this model, and changes no state here. */
    method ProcessKeypress(c: int) returns (quit: bool)
      requires Valid()
      requires c == PAGE_UP || c == PAGE_DOWN ==> screenRows >= 1
      modifies this
      ensures Valid()
      ensures quit <==> c == CTRL_Q
      ensures rowOffset == old(rowOffset) && colOffset == old(colOffset)
      ensures screenRows == old(screenRows) && screenCols == old(screenCols)
      ensures c in {CR as int, CTRL_Q, CTRL_L, ESC, CTRL_S, BACKSPACE} ==>
        cx == old(cx) && cy == old(cy) && row == old(row) && nRows == old(nRows)
      ensures c == HOME_KEY ==> cx == 0 && cy == old(cy) && row == old(row) && nRows == old(nRows)
      ensures c == END_KEY ==>
        row == old(row) && nRows == old(nRows) && cy == old(cy) && cx == LineLength(cy)
      ensures c in {ARROW_UP, ARROW_DOWN, ARROW_LEFT, ARROW_RIGHT} ==>
        row == old(row) && nRows == old(nRows) && MovedBy(c, old(cx), old(cy))
      ensures c == PAGE_UP || c == PAGE_DOWN ==>
        row == old(row) && nRows == old(nRows) && PagedTo(c == PAGE_UP, old(rowOffset), old(cx))
      ensures c !in {CR as int, CTRL_Q, CTRL_L, ESC, CTRL_S, BACKSPACE, HOME_KEY, END_KEY,
                     PAGE_UP, PAGE_DOWN, ARROW_UP, ARROW_DOWN, ARROW_LEFT, ARROW_RIGHT} ==>
        InsertedAt(c, old(cx), old(cy), old(row))
    {
      quit := false;
      if c == CR as int || c == CTRL_L || c == ESC || c == CTRL_S || c == BACKSPACE {
      } else if c == CTRL_Q {
        quit := true;
      } else if c == HOME_KEY {
        cx := 0;
      } else if c == END_KEY {
        if cy < nRows {
          cx := |row[cy].chars|;
        }
      } else if c == PAGE_UP || c == PAGE_DOWN {
        PageMove(c == PAGE_UP);
      } else if c == ARROW_UP || c == ARROW_DOWN || c == ARROW_LEFT || c == ARROW_RIGHT {
        MoveCursor(c);
      } else {
        InsertChar(c);
      }
    }

    /** `oopen` after the file is read: each line, without its trailing line
        break bytes, becomes a new row. */
    method Open(lines: seq<seq<Byte>>)
      requires Valid()
      modifies this
      ensures Valid()
      ensures |row| == |old(row)| + |lines| && row[..|old(row)|] == old(row)
      ensures forall i :: 0 <= i < |lines| ==>
        row[|old(row)| + i] == Row(Stripped(lines[i]), Stripped(lines[i]))
      ensures cx == old(cx) && cy == old(cy)
      ensures rowOffset == old(rowOffset) && colOffset == old(colOffset)
      ensures screenRows == old(screenRows) && screenCols == old(screenCols)
    {
      var i := 0;
      while i < |lines|
        invariant 0 <= i <= |lines|
        invariant Valid()
        invariant |row| == |old(row)| + i && row[..|old(row)|] == old(row)
        invariant forall j :: 0 <= j < i ==>
          row[|old(row)| + j] == Row(Stripped(lines[j]), Stripped(lines[j]))
        invariant cx == old(cx) && cy == old(cy)
        invariant rowOffset == old(rowOffset) && colOffset == old(colOffset)
        invariant screenRows == old(screenRows) && screenCols == old(screenCols)
      {
        var len := StripLineEnd(lines[i]);
        AppendRow(lines[i], len);
        i := i + 1;
      }
    }

    /** `rows_to_string`: the buffer holds every row followed by '\n', and
        its length is the sum of size + 1 over the rows. */
    method RowsToString() returns (buf: array<Byte>, buflen: int)
      requires nRows == |row|
      ensures buflen == buf.Length == TotalLength(row)
      ensures buf[..] == Joined(row)
    {
      var totlen := 0;
      var j := 0;
      while j < nRows
        invariant 0 <= j <= nRows
        invariant totlen == TotalLength(row[..j])
      {
        PrefixStep(row, j);
        totlen := totlen + |row[j].chars| + 1;
        j := j + 1;
      }
      assert row[..j] == row;
      buflen := totlen;
      buf := new Byte[totlen];
      var p := 0;
      j := 0;
      while j < nRows
        invariant 0 <= j <= nRows
        invariant p == TotalLength(row[..j]) <= totlen
        invariant buf[..p] == Joined(row[..j])
      {
        var chars := row[j].chars;
        PrefixStep(row, j);
        JoinedPrefix(row, j + 1);
        CopyInto(buf, p, chars);
        buf[p + |chars|] := NL;
        assert buf[..p + |chars| + 1] == buf[..p + |chars|] + [NL];
        p := p + |chars| + 1;
        j := j + 1;
      }
      assert row[..j] == row;
    }
  }
}

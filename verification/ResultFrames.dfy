/**
 Result frames: what the server writes for a result set and what the client's cursor loop makes
 of it. Lengths are cut to their field widths by the writer, as in the original.
 */
module ResultFrames {
  import opened Basics
  import opened Bytes
  import opened Endian

  type Text = seq<byte>
  type Row = map<Text, Text>

  const RESULT: byte := 0x10
  const ERROR: byte := 0x11
  const READY: byte := 0x20

  datatype Frame = Refused | Crash | Message(kind: byte, payload: Text)

  datatype Output = Complete(cols: seq<Text>, rows: seq<seq<Text>>) | Empty | Short | Panic | Endless
                  | Reported(message: Text) | Ready | Unknown(kind: byte)

  /** What the client makes of a stream of responses: nothing, or what it shows and what it has not read yet. */
  datatype Answer = Closed | Answer(shown: Output, rest: Text)

  /** `n` cells and the bytes after them; Short when a length is missing, Beyond when its bytes are. */
  datatype Cells = Cells(cells: seq<Text>, rest: Text) | NoLength | Beyond

  // ---------------------------------------------------------------------------------------
  // Writing.
  // ---------------------------------------------------------------------------------------

  /** EncodeMessage. */
  function EncodeMessage(kind: byte, payload: Text): Text {
    [kind] + ToBE(|payload|, W32) + payload
  }

  /** EncodeString. */
  function EncodeString(s: Text): Text {
    ToBE(|s|, W16) + s
  }

  function EncodeStrings(ss: seq<Text>): Text {
    if ss == [] then [] else EncodeString(ss[0]) + EncodeStrings(ss[1..])
  }

  function EncodeRows(rows: seq<seq<Text>>): Text {
    if rows == [] then [] else EncodeStrings(rows[0]) + EncodeRows(rows[1..])
  }

  /** A row's cell under a column; a missing one is empty. */
  function CellOf(row: Row, col: Text): Text {
    if col in row then row[col] else []
  }

  function RowCells(cols: seq<Text>, row: Row): seq<Text> {
    seq(|cols|, i requires 0 <= i < |cols| => CellOf(row, cols[i]))
  }

  function Grid(cols: seq<Text>, rows: seq<Row>): seq<seq<Text>> {
    seq(|rows|, i requires 0 <= i < |rows| => RowCells(cols, rows[i]))
  }

  function Payload(cols: seq<Text>, grid: seq<seq<Text>>): Text {
    [|cols| % 256] + EncodeStrings(cols) + EncodeRows(grid)
  }

  // ---------------------------------------------------------------------------------------
  // Reading.
  // ---------------------------------------------------------------------------------------

  /** DecodeMessage; the end of the slice is computed in 32 bits. */
  function DecodeMessage(data: Text): Frame {
    if |data| < 5 then Refused
    else
      var length := FromBE(data[1..5]);
      if |data| < 5 + length then Refused
      else if 5 + length >= MAX32 then Crash
      else Message(data[0], data[5..5 + length])
  }

  function ReadCells(s: Text, n: nat): Cells {
    if n == 0 then Cells([], s)
    else if |s| < 2 then NoLength
    else
      var len := FromBE(s[..2]);
      if |s| < 2 + len then Beyond
      else
        var more := ReadCells(s[2 + len..], n - 1);
        if more.Cells? then Cells([s[2..2 + len]] + more.cells, more.rest) else more
  }

  function Failed(c: Cells): Output {
    if c.NoLength? then Short else Panic
  }

  lemma {:induction false} ReadShrinks(s: Text, n: nat)
    requires ReadCells(s, n).Cells?
    ensures |ReadCells(s, n).rest| + 2 * n <= |s| && |ReadCells(s, n).cells| == n
    decreases n
  {
    if n > 0 {
      ReadShrinks(s[2 + FromBE(s[..2])..], n - 1);
    }
  }

  /** The rows that the client shows until the bytes are used up. */
  function ReadRows(cols: seq<Text>, s: Text): Output
    requires cols != []
    decreases |s|
  {
    if s == [] then Complete(cols, [])
    else
      var row := ReadCells(s, |cols|);
      if !row.Cells? then Failed(row)
      else
        ReadShrinks(s, |cols|);
        var more := ReadRows(cols, row.rest);
        if more.Complete? then Complete(cols, [row.cells] + more.rows) else more
  }

  /** printResult: without columns it never gets past any byte that follows. */
  function Show(data: Text): Output {
    if data == [] then Empty
    else
      var head := ReadCells(data[1..], data[0]);
      if !head.Cells? then Failed(head)
      else if head.cells != [] then ReadRows(head.cells, head.rest)
      else if head.rest == [] then Complete([], [])
      else Endless
  }

  /** The client's switch over the type of a response. */
  function Handle(kind: byte, body: Text): Output {
    if kind == RESULT then Show(body)
    else if kind == ERROR then Reported(body)
    else if kind == READY then Ready
    else Unknown(kind)
  }

  /** The client: a header of five bytes, then as many bytes as it announces. */
  function Receive(stream: Text): Answer {
    if |stream| < 5 then Closed
    else
      var length := FromBE(stream[1..5]);
      if |stream| < 5 + length then Closed
      else Answer(Handle(stream[0], stream[5..5 + length]), stream[5 + length..])
  }

  // ---------------------------------------------------------------------------------------
  // Round trips, and what is lost.
  // ---------------------------------------------------------------------------------------

  lemma BE16(n: nat)
    ensures FromBE(ToBE(n, W16)) == n % MAX16
  {
    ToBEMod(n, W16);
    Widths();
  }

  lemma BE32(n: nat)
    ensures FromBE(ToBE(n, W32)) == n % MAX32
  {
    ToBEMod(n, W32);
    Widths();
  }

  /** A number cut to a width reads as the number modulo that width. */
  lemma {:induction false} ToBEMod(n: nat, k: nat)
    ensures FromBE(ToBE(n, k)) == n % Pow256(k)
    decreases k
  {
    if k > 0 {
      ToBELast(n, k);
      assert ToBE(n, k)[..k - 1] == ToBE(n / 256, k - 1);
      ToBEMod(n / 256, k - 1);
      ModStep(n, Pow256(k - 1));
    }
  }

  lemma ModStep(n: nat, m: nat)
    requires m > 0
    ensures 256 * ((n / 256) % m) + n % 256 == n % (256 * m)
  {
    var q := n / 256;
    var a, b := q / m, q % m;
    assert n == 256 * q + n % 256 && q == m * a + b;
    assert n == (256 * m) * a + (256 * b + n % 256);
    assert 256 * b + n % 256 < 256 * m;
    DivideUnique(n, 256 * m, a, 256 * b + n % 256);
  }

  lemma DivideUnique(n: nat, d: nat, a: nat, r: nat)
    requires d > 0 && n == d * a + r && r < d
    ensures n % d == r
  {
    var z := n / d - a;
    assert d * z == r - n % d by {
      assert n == d * (n / d) + n % d;
    }
    Multiple(d, z);
  }

  lemma Multiple(d: int, z: int)
    requires d > 0
    ensures z >= 1 ==> d * z >= d
    ensures z <= -1 ==> d * z <= -d
    ensures z == 0 ==> d * z == 0
  {
  }

  /** A message comes back exactly when its end fits 32 bits. */
  lemma MessageIff(kind: byte, payload: Text)
    ensures DecodeMessage(EncodeMessage(kind, payload)) == Message(kind, payload) <==> |payload| + 5 < MAX32
    ensures DecodeMessage(EncodeMessage(kind, payload)).Message?
            ==> |DecodeMessage(EncodeMessage(kind, payload)).payload| + 5 < MAX32
  {
    var data := EncodeMessage(kind, payload);
    BE32(|payload|);
    assert data[1..5] == ToBE(|payload|, W32);
    assert data[5..] == payload;
    var n := |payload| % MAX32;
    assert data[5..5 + n] == payload[..n];
  }

  lemma FrameRead(kind: byte, payload: Text, more: Text)
    ensures var n := |payload| % MAX32;
            Receive(EncodeMessage(kind, payload) + more) == Answer(Handle(kind, payload[..n]), payload[n..] + more)
  {
    var data := EncodeMessage(kind, payload) + more;
    BE32(|payload|);
    assert data[1..5] == ToBE(|payload|, W32);
    assert data[5..] == payload + more;
    var n := |payload| % MAX32;
    assert data[5..5 + n] == payload[..n];
    assert data[5 + n..] == payload[n..] + more;
  }

  /**
   A response reaches the client whole, and what follows it stays, if and only if its payload is shorter than
   2^32 bytes; and then an error is reported with its text, readiness is shown, and a type that is neither
   these nor a result is called unknown.
   */
  lemma AnswerIff(kind: byte, payload: Text, more: Text)
    ensures Receive(EncodeMessage(kind, payload) + more) == Answer(Handle(kind, payload), more)
       <==> |payload| < 0x1_0000_0000
    ensures var a := Receive(EncodeMessage(kind, payload) + more);
            a.Answer? && (a.rest == more <==> |payload| < 0x1_0000_0000)
    ensures Handle(0x11, payload) == Reported(payload) && Handle(0x20, payload) == Ready
    ensures kind != 0x10 && kind != 0x11 && kind != 0x20 ==> Handle(kind, payload) == Unknown(kind)
  {
    FrameRead(kind, payload, more);
    Shorter(|payload|);
    Remaining(payload, |payload| % MAX32, more);
  }

  lemma Shorter(n: nat)
    ensures n % MAX32 <= n && (n % MAX32 == n <==> n < MAX32)
  {
  }

  lemma Remaining(s: Text, n: nat, more: Text)
    requires n <= |s|
    ensures s[n..] + more == more <==> n == |s|
    ensures s[..|s|] == s
  {
    assert |s[n..] + more| == |s| - n + |more|;
    assert n == |s| ==> s[n..] == [];
  }

  ghost predicate Fits(ss: seq<Text>) {
    forall i :: 0 <= i < |ss| ==> |ss[i]| < MAX16
  }

  lemma OneCell(s: Text, rest: Text)
    requires |s| < MAX16
    ensures var e := EncodeString(s) + rest;
            |e| >= 2 && FromBE(e[..2]) == |s| && 2 + |s| <= |e| && e[2..2 + |s|] == s && e[2 + |s|..] == rest
  {
    BE16(|s|);
    assert (EncodeString(s) + rest)[..2] == ToBE(|s|, W16);
  }

  lemma {:induction false} ReadBack(ss: seq<Text>, rest: Text)
    requires Fits(ss)
    ensures ReadCells(EncodeStrings(ss) + rest, |ss|) == Cells(ss, rest)
  {
    if ss == [] {
      assert [] + rest == rest;
    } else {
      ReadBack(ss[1..], rest);
      ReadPush(ss[0], EncodeStrings(ss[1..]) + rest, ss[1..], rest);
      Assoc(EncodeString(ss[0]), EncodeStrings(ss[1..]), rest);
      assert [ss[0]] + ss[1..] == ss;
    }
  }

  lemma ReadPush(s: Text, tail: Text, ss: seq<Text>, rest: Text)
    requires |s| < MAX16 && ReadCells(tail, |ss|) == Cells(ss, rest)
    ensures ReadCells(EncodeString(s) + tail, |ss| + 1) == Cells([s] + ss, rest)
  {
    OneCell(s, tail);
  }

  lemma FromBE16(s: Text)
    requires |s| == 2
    ensures FromBE(s) < MAX16 && ToBE(FromBE(s), W16) == s
  {
    assert FromBE(s[..1]) == 256 * FromBE(s[..1][..0]) + s[0];
    var n := FromBE(s);
    var hi: int, lo: int := s[0], s[1];
    assert n == 256 * hi + lo;
    assert Digit(n, 0) == s[1] && Digit(n, 1) == Digit(n / 256, 0) == s[0];
  }

  /** Whatever is read as cells is the encoding of those cells, so no cell is too long. */
  lemma {:induction false} ReadSound(s: Text, n: nat)
    requires ReadCells(s, n).Cells?
    ensures var r := ReadCells(s, n);
            s == EncodeStrings(r.cells) + r.rest && Fits(r.cells) && |r.cells| == n
    decreases n
  {
    if n > 0 {
      var len := FromBE(s[..2]);
      var more := ReadCells(s[2 + len..], n - 1);
      ReadSound(s[2 + len..], n - 1);
      CellSound(s, len);
      var cell := s[2..2 + len];
      assert ([cell] + more.cells)[1..] == more.cells;
      Assoc(EncodeString(cell), EncodeStrings(more.cells), more.rest);
    }
  }

  lemma CellSound(s: Text, len: nat)
    requires |s| >= 2 + len && len == FromBE(s[..2])
    ensures len < MAX16 && s == EncodeString(s[2..2 + len]) + s[2 + len..]
  {
    FromBE16(s[..2]);
  }

  ghost predicate AllFit(width: nat, rows: seq<seq<Text>>) {
    forall i :: 0 <= i < |rows| ==> |rows[i]| == width && Fits(rows[i])
  }

  lemma {:induction false} RowsBack(cols: seq<Text>, rows: seq<seq<Text>>)
    requires cols != [] && AllFit(|cols|, rows)
    ensures ReadRows(cols, EncodeRows(rows)) == Complete(cols, rows)
  {
    if rows != [] {
      var s := EncodeRows(rows);
      ReadBack(rows[0], EncodeRows(rows[1..]));
      RowsBack(cols, rows[1..]);
      assert |EncodeStrings(rows[0])| >= 2;
      assert [rows[0]] + rows[1..] == rows;
    }
  }

  lemma {:induction false} RowsSound(cols: seq<Text>, s: Text)
    requires cols != [] && ReadRows(cols, s).Complete?
    ensures var r := ReadRows(cols, s);
            r.cols == cols && s == EncodeRows(r.rows) && AllFit(|cols|, r.rows)
    decreases |s|
  {
    if s != [] {
      var row := ReadCells(s, |cols|);
      ReadSound(s, |cols|);
      ReadShrinks(s, |cols|);
      RowsSound(cols, row.rest);
      var more := ReadRows(cols, row.rest);
      assert ([row.cells] + more.rows)[1..] == more.rows;
    }
  }

  /** What the client needs to show a table whole. */
  ghost predicate Presentable(cols: seq<Text>, rows: seq<seq<Text>>) {
    |cols| < 256 && Fits(cols) && AllFit(|cols|, rows) && (cols == [] ==> rows == [])
  }

  lemma PayloadParts(cols: seq<Text>, rest: Text)
    ensures var data := [|cols| % 256] + EncodeStrings(cols) + rest;
            data[0] == |cols| % 256 && data[1..] == EncodeStrings(cols) + rest
  {
    Assoc([|cols| % 256], EncodeStrings(cols), rest);
  }

  lemma ShowBack(cols: seq<Text>, rows: seq<seq<Text>>)
    requires Presentable(cols, rows)
    ensures Show(Payload(cols, rows)) == Complete(cols, rows)
  {
    PayloadParts(cols, EncodeRows(rows));
    ShowFrom(Payload(cols, rows), cols, rows, EncodeRows(rows));
  }

  lemma ShowFrom(data: Text, cols: seq<Text>, rows: seq<seq<Text>>, rest: Text)
    requires Presentable(cols, rows) && rest == EncodeRows(rows)
    requires data != [] && data[0] == |cols| && data[1..] == EncodeStrings(cols) + rest
    ensures Show(data) == Complete(cols, rows)
  {
    ReadBack(cols, rest);
    ShowHead(data, cols, rest);
    if cols != [] {
      RowsBack(cols, rows);
    }
  }

  lemma ShowHead(data: Text, cols: seq<Text>, rest: Text)
    requires data != [] && ReadCells(data[1..], data[0]) == Cells(cols, rest)
    ensures Show(data) == if cols != [] then ReadRows(cols, rest) else if rest == [] then Complete([], []) else Endless
  {
  }

  /** The bytes end inside a length, or inside the cell that a length announces. */
  predicate Cut(t: Text) {
    |t| < 2 || |t| < 2 + (256 * t[0] as int + t[1] as int)
  }

  lemma {:induction false} CellsCut(ss: seq<Text>, t: Text, n: nat)
    requires Fits(ss) && |ss| < n && Cut(t)
    ensures ReadCells(EncodeStrings(ss) + t, n) == if |t| < 2 then NoLength else Beyond
  {
    if ss == [] {
      assert [] + t == t;
      if |t| >= 2 {
        TwoBytes(t[..2]);
      }
    } else {
      CellsCut(ss[1..], t, n - 1);
      OneCell(ss[0], EncodeStrings(ss[1..]) + t);
      Assoc(EncodeString(ss[0]), EncodeStrings(ss[1..]), t);
    }
  }

  lemma TwoBytes(s: Text)
    requires |s| == 2
    ensures FromBE(s) == 256 * s[0] as int + s[1] as int
  {
    assert FromBE(s[..1]) == 256 * FromBE(s[..1][..0]) + s[0];
  }

  lemma {:induction false} RowsCut(cols: seq<Text>, rows: seq<seq<Text>>, ss: seq<Text>, t: Text)
    requires cols != [] && AllFit(|cols|, rows) && Fits(ss) && |ss| < |cols| && Cut(t) && (ss != [] || t != [])
    ensures ReadRows(cols, EncodeRows(rows) + (EncodeStrings(ss) + t)) == if |t| < 2 then Short else Panic
  {
    var rest := EncodeStrings(ss) + t;
    if rows == [] {
      assert [] + rest == rest;
      CellsCut(ss, t, |cols|);
      assert ss != [] ==> |EncodeString(ss[0])| >= 2;
    } else {
      RowsCut(cols, rows[1..], ss, t);
      ReadBack(rows[0], EncodeRows(rows[1..]) + rest);
      Assoc(EncodeStrings(rows[0]), EncodeRows(rows[1..]), rest);
      assert |EncodeStrings(rows[0])| >= 2;
    }
  }

  /**
   What the client does with other payloads. One that ends inside a length is shown up to there, one that ends
   inside a name or cell is a panic, an empty one shows nothing, and without columns any further byte is a loop.
   */
  lemma ShowCut(cols: seq<Text>, rows: seq<seq<Text>>, ss: seq<Text>, t: Text, n: byte)
    requires Fits(cols) && |cols| <= 255 && AllFit(|cols|, rows) && Fits(ss) && Cut(t)
    ensures Show([]) == Empty && (t != [] ==> Show([0] + t) == Endless)
    ensures |ss| < n ==> Show([n] + (EncodeStrings(ss) + t)) == if |t| < 2 then Short else Panic
    ensures |ss| < |cols| && (ss != [] || t != []) ==>
              Show([|cols|] + (EncodeStrings(cols) + (EncodeRows(rows) + (EncodeStrings(ss) + t))))
              == if |t| < 2 then Short else Panic
  {
    HeadCut(ss, t, n);
    if |ss| < |cols| && (ss != [] || t != []) {
      var rest := EncodeRows(rows) + (EncodeStrings(ss) + t);
      var data := [|cols|] + (EncodeStrings(cols) + rest);
      assert data[1..] == EncodeStrings(cols) + rest;
      ReadBack(cols, rest);
      ShowHead(data, cols, rest);
      RowsCut(cols, rows, ss, t);
    }
  }

  lemma HeadCut(ss: seq<Text>, t: Text, n: byte)
    requires Fits(ss) && Cut(t)
    ensures t != [] ==> Show([0] + t) == Endless
    ensures |ss| < n ==> Show([n] + (EncodeStrings(ss) + t)) == if |t| < 2 then Short else Panic
  {
    assert ([0] + t)[1..] == t;
    if |ss| < n {
      var data := [n] + (EncodeStrings(ss) + t);
      assert data[1..] == EncodeStrings(ss) + t;
      CellsCut(ss, t, n);
    }
  }

  /** A table that the client shows is the one that was encoded. */
  lemma ShowSound(data: Text)
    requires Show(data).Complete?
    ensures var r := Show(data);
            Presentable(r.cols, r.rows) && data == Payload(r.cols, r.rows)
  {
    var head := ReadCells(data[1..], data[0]);
    ReadSound(data[1..], data[0]);
    if head.cells != [] {
      RowsSound(head.cells, head.rest);
    }
    Headed(data, head.cells, head.rest);
  }

  lemma Headed(data: Text, cols: seq<Text>, rest: Text)
    requires data != [] && data[1..] == EncodeStrings(cols) + rest && |cols| == data[0]
    ensures data == [|cols| % 256] + EncodeStrings(cols) + rest
  {
    assert data == [data[0]] + data[1..];
    Assoc([data[0]], EncodeStrings(cols), rest);
  }

  lemma ShowIff(cols: seq<Text>, grid: seq<seq<Text>>)
    ensures Show(Payload(cols, grid)) == Complete(cols, grid) <==> Presentable(cols, grid)
  {
    if Presentable(cols, grid) {
      ShowBack(cols, grid);
    } else if Show(Payload(cols, grid)) == Complete(cols, grid) {
      ShowSound(Payload(cols, grid));
    }
  }

  lemma GridIff(cols: seq<Text>, grid: seq<seq<Text>>, more: Text)
    ensures Receive(EncodeMessage(RESULT, Payload(cols, grid)) + more) == Answer(Complete(cols, grid), more)
       <==> Presentable(cols, grid) && |Payload(cols, grid)| < MAX32
  {
    AnswerIff(RESULT, Payload(cols, grid), more);
    ShowIff(cols, grid);
  }

  /** The client shows the columns, and in each row the cell of each column, or nothing where the row has none. */
  ghost predicate Arrived(a: Answer, cols: seq<Text>, rows: seq<Row>, more: Text) {
    && a.Answer? && a.rest == more && a.shown.Complete? && a.shown.cols == cols && |a.shown.rows| == |rows|
    && forall i :: 0 <= i < |rows| ==>
         && |a.shown.rows[i]| == |cols|
         && forall j :: 0 <= j < |cols| ==>
              a.shown.rows[i][j] == if cols[j] in rows[i] then rows[i][cols[j]] else []
  }

  lemma ArrivedIff(a: Answer, cols: seq<Text>, rows: seq<Row>, more: Text)
    ensures Arrived(a, cols, rows, more) <==> a == Answer(Complete(cols, Grid(cols, rows)), more)
  {
    if Arrived(a, cols, rows, more) {
      var g := Grid(cols, rows);
      forall i | 0 <= i < |rows| ensures a.shown.rows[i] == g[i] {
        assert forall j :: 0 <= j < |cols| ==> a.shown.rows[i][j] == g[i][j];
      }
    }
  }

  /** At most 255 columns, rows only with columns, and every name and every cell shorter than 65536 bytes. */
  ghost predicate Narrow(cols: seq<Text>, rows: seq<Row>) {
    && |cols| <= 255 && (cols == [] ==> rows == [])
    && (forall j :: 0 <= j < |cols| ==> |cols[j]| <= 65535)
    && forall i, j :: 0 <= i < |rows| && 0 <= j < |cols| && cols[j] in rows[i] ==> |rows[i][cols[j]]| <= 65535
  }

  lemma NarrowIff(cols: seq<Text>, rows: seq<Row>)
    ensures Presentable(cols, Grid(cols, rows)) <==> Narrow(cols, rows)
  {
    var g := Grid(cols, rows);
    assert forall i, j :: 0 <= i < |rows| && 0 <= j < |cols| ==> g[i][j] == CellOf(rows[i], cols[j]);
    if Presentable(cols, g) {
      forall i, j | 0 <= i < |rows| && 0 <= j < |cols| && cols[j] in rows[i] ensures |rows[i][cols[j]]| <= 65535 {
        assert |g[i][j]| < MAX16;
      }
    }
  }

  /**
   A result set arrives whole, and what follows it stays, if and only if it has at most 255 columns (and rows
   only with columns), every name and cell is shorter than 65536 bytes, and the frame's payload than 2^32.
   */
  lemma FrameIff(cols: seq<Text>, rows: seq<Row>, more: Text)
    ensures var frame := EncodeMessage(0x10, Payload(cols, Grid(cols, rows)));
            && |frame| >= 5
            && (Arrived(Receive(frame + more), cols, rows, more)
                <==> Narrow(cols, rows) && |frame| - 5 < 0x1_0000_0000)
  {
    var grid := Grid(cols, rows);
    GridIff(cols, grid, more);
    NarrowIff(cols, rows);
    ArrivedIff(Receive(EncodeMessage(0x10, Payload(cols, grid)) + more), cols, rows, more);
  }

  /** The length goes first, in two bytes with the highest first. */
  lemma StringBytes(s: Text)
    ensures EncodeString(s) == [|s| / 256 % 256, |s| % 256] + s
  {
    assert Digit(|s|, 1) == Digit(|s| / 256, 0);
    assert ToBE(|s|, W16) == [Digit(|s|, 1), Digit(|s|, 0)];
  }

  lemma FourDigits(n: nat)
    ensures ToBE(n, W32) == [n / 0x100_0000 % 256, n / 0x1_0000 % 256, n / 256 % 256, n % 256]
  {
    var a, b := n / 256, n / 0x1_0000;
    assert Digit(n, 1) == Digit(a, 0) && Digit(n, 2) == Digit(a, 1) && Digit(n, 3) == Digit(a, 2);
    assert a / 256 == b && b / 256 == n / 0x100_0000;
    assert Digit(a, 1) == Digit(b, 0) && Digit(a, 2) == Digit(b, 1) == Digit(b / 256, 0);
  }

  /** The type, the length in four bytes with the highest first, and the payload. */
  lemma MessageBytes(kind: byte, s: Text)
    ensures var n := |s|;
            EncodeMessage(kind, s) == [kind, n / 0x100_0000 % 256, n / 0x1_0000 % 256, n / 256 % 256, n % 256] + s
  {
    FourDigits(|s|);
  }

  // ---------------------------------------------------------------------------------------
  // The loops.
  // ---------------------------------------------------------------------------------------

  /** Two results that do not arrive: a row without columns, and a cell of 65536 bytes. */
  lemma FramesLost(more: Text)
    ensures !Arrived(Receive(EncodeMessage(RESULT, Payload([], Grid([], [map[]]))) + more), [], [map[]], more)
    ensures var cols, row := [[1]], map[[1] := seq(65536, _ => 0)];
            !Arrived(Receive(EncodeMessage(RESULT, Payload(cols, Grid(cols, [row]))) + more), cols, [row], more)
  {
    FrameIff([], [map[]], more);
    var cols, row: Row := [[1]], map[[1] := seq(65536, _ => 0)];
    assert cols[0] in row && |row[cols[0]]| == 65536;
    FrameIff(cols, [row], more);
  }

  lemma {:induction false} StringsAppend(ss: seq<Text>, s: Text)
    ensures EncodeStrings(ss + [s]) == EncodeStrings(ss) + EncodeString(s)
  {
    if ss == [] {
      assert [s][1..] == [] && [] + [s] == [s];
    } else {
      StringsAppend(ss[1..], s);
      assert (ss + [s])[1..] == ss[1..] + [s];
      Assoc(EncodeString(ss[0]), EncodeStrings(ss[1..]), EncodeString(s));
    }
  }

  lemma {:induction false} RowsAppend(rows: seq<seq<Text>>, row: seq<Text>)
    ensures EncodeRows(rows + [row]) == EncodeRows(rows) + EncodeStrings(row)
  {
    if rows == [] {
      assert [row][1..] == [] && [] + [row] == [row];
    } else {
      RowsAppend(rows[1..], row);
      assert (rows + [row])[1..] == rows[1..] + [row];
      Assoc(EncodeStrings(rows[0]), EncodeRows(rows[1..]), EncodeStrings(row));
    }
  }

  /** The loop over one list of strings. */
  method AppendStrings(ss: seq<Text>, start: Text) returns (out: Text)
    ensures out == start + EncodeStrings(ss)
  {
    out := start;
    var i := 0;
    assert ss[..0] == [];
    while i < |ss|
      invariant i <= |ss| && out == start + EncodeStrings(ss[..i])
    {
      StringsAppend(ss[..i], ss[i]);
      assert ss[..i] + [ss[i]] == ss[..i + 1];
      out := out + EncodeString(ss[i]);
      i := i + 1;
    }
    assert ss[..i] == ss;
  }

  /** EncodeResult. */
  method EncodeResult(cols: seq<Text>, rows: seq<Row>) returns (frame: Text)
    ensures frame == EncodeMessage(RESULT, Payload(cols, Grid(cols, rows))) && |frame| >= 5 && frame[0] == 0x10
    ensures forall more :: Arrived(Receive(frame + more), cols, rows, more)
                           <==> Narrow(cols, rows) && |frame| - 5 < 0x1_0000_0000
  {
    var payload := AppendStrings(cols, [|cols| % 256]);
    payload := AppendRows(cols, rows, payload);
    frame := EncodeMessage(RESULT, payload);
    forall more
      ensures Arrived(Receive(frame + more), cols, rows, more) <==> Narrow(cols, rows) && |frame| - 5 < 0x1_0000_0000
    {
      FrameIff(cols, rows, more);
    }
  }

  method AppendRows(cols: seq<Text>, rows: seq<Row>, start: Text) returns (out: Text)
    ensures out == start + EncodeRows(Grid(cols, rows))
  {
    out := start;
    var i := 0;
    ghost var grid := Grid(cols, rows);
    assert grid[..0] == [];
    while i < |rows|
      invariant i <= |rows| && out == start + EncodeRows(grid[..i])
    {
      RowsStep(grid, i, start);
      out := AppendStrings(RowCells(cols, rows[i]), out);
      i := i + 1;
    }
    assert grid[..i] == grid;
  }

  lemma RowsStep(grid: seq<seq<Text>>, i: nat, start: Text)
    requires i < |grid|
    ensures start + EncodeRows(grid[..i + 1]) == start + EncodeRows(grid[..i]) + EncodeStrings(grid[i])
  {
    RowsAppend(grid[..i], grid[i]);
    assert grid[..i] + [grid[i]] == grid[..i + 1];
    Assoc(start, EncodeRows(grid[..i]), EncodeStrings(grid[i]));
  }

  function After(cells: seq<Text>, c: Cells): Cells {
    if c.Cells? then Cells(cells + c.cells, c.rest) else c
  }

  lemma ReadsOne(s: Text)
    ensures ReadCells(s, 1)
            == if |s| < 2 then NoLength
               else var len := FromBE(s[..2]);
                    if |s| < 2 + len then Beyond else Cells([s[2..2 + len]], s[2 + len..])
  {
    if |s| >= 2 && |s| >= 2 + FromBE(s[..2]) {
      var len := FromBE(s[..2]);
      assert ReadCells(s[2 + len..], 0) == Cells([], s[2 + len..]);
      assert [s[2..2 + len]] + [] == [s[2..2 + len]];
    }
  }

  /** One cell, then the others. */
  lemma AfterStep(cells: seq<Text>, s: Text, n: nat)
    requires n > 0
    ensures var one := ReadCells(s, 1);
            After(cells, ReadCells(s, n))
            == if one.Cells? then After(cells + one.cells, ReadCells(one.rest, n - 1)) else one
  {
    var one := ReadCells(s, 1);
    ReadsOne(s);
    if one.Cells? {
      var more := ReadCells(one.rest, n - 1);
      if more.Cells? {
        Assoc(cells, one.cells, more.cells);
      }
    }
  }

  lemma AfterAll(cells: seq<Text>, s: Text)
    ensures After(cells, ReadCells(s, 0)) == Cells(cells, s)
  {
    assert cells + [] == cells;
  }

  lemma AfterNone(c: Cells)
    ensures After([], c) == c
  {
    if c.Cells? {
      assert [] + c.cells == c.cells;
    }
  }

  /** The cells so far, and what is left to read of `all`. */
  ghost predicate Reading(cells: seq<Text>, s: Text, n: nat, all: Cells) {
    After(cells, ReadCells(s, n)) == all
  }

  lemma ReadingStep(cells: seq<Text>, s: Text, n: nat, all: Cells, one: Cells)
    requires n > 0 && Reading(cells, s, n, all) && one == ReadCells(s, 1)
    ensures if one.Cells? then Reading(cells + one.cells, one.rest, n - 1, all) else all == one
  {
    AfterStep(cells, s, n);
  }

  method ReadOne(data: Text, pos: nat) returns (r: Cells, next: nat)
    requires pos <= |data|
    ensures r == ReadCells(data[pos..], 1) && pos <= next <= |data|
    ensures r.Cells? ==> r.rest == data[next..]
  {
    ReadsOne(data[pos..]);
    if pos + 2 > |data| {
      return NoLength, pos;
    }
    assert data[pos..][..2] == data[pos..pos + 2];
    var len := FromBE(data[pos..pos + 2]);
    next := pos + 2;
    if next + len > |data| {
      return Beyond, pos;
    }
    assert data[pos..][2..2 + len] == data[next..next + len] && data[pos..][2 + len..] == data[next + len..];
    r := Cells([data[next..next + len]], data[next + len..]);
    next := next + len;
  }

  /** The client's loop over the cells of one row, and over the column names. */
  method ReadList(data: Text, start: nat, n: nat) returns (r: Cells, pos: nat)
    requires start <= |data|
    ensures r == ReadCells(data[start..], n) && start <= pos <= |data|
    ensures r.Cells? ==> r.rest == data[pos..]
  {
    pos := start;
    var cells := [];
    var i := 0;
    ghost var all := ReadCells(data[start..], n);
    AfterNone(all);
    while i < n
      invariant i <= n && start <= pos <= |data| && Reading(cells, data[pos..], n - i, all)
    {
      var one, next := ReadOne(data, pos);
      ReadingStep(cells, data[pos..], n - i, all, one);
      if !one.Cells? {
        return one, pos;
      }
      cells, pos, i := cells + one.cells, next, i + 1;
    }
    AfterAll(cells, data[pos..]);
    r := Cells(cells, data[pos..]);
  }

  function AfterRows(rows: seq<seq<Text>>, o: Output): Output {
    if o.Complete? then Complete(o.cols, rows + o.rows) else o
  }

  lemma AfterRowsStep(cols: seq<Text>, rows: seq<seq<Text>>, s: Text)
    requires cols != [] && s != [] && ReadCells(s, |cols|).Cells?
    ensures var row := ReadCells(s, |cols|);
            AfterRows(rows, ReadRows(cols, s)) == AfterRows(rows + [row.cells], ReadRows(cols, row.rest))
  {
    var row := ReadCells(s, |cols|);
    ReadShrinks(s, |cols|);
    var more := ReadRows(cols, row.rest);
    if more.Complete? {
      Assoc(rows, [row.cells], more.rows);
    }
  }

  /** The client's loop over the rows. */
  method ReadTable(data: Text, start: nat, cols: seq<Text>) returns (r: Output)
    requires cols != [] && start <= |data|
    ensures r == ReadRows(cols, data[start..])
  {
    var pos := start;
    var rows := [];
    ghost var all := ReadRows(cols, data[start..]);
    assert all.Complete? ==> [] + all.rows == all.rows;
    while pos < |data|
      invariant start <= pos <= |data| && AfterRows(rows, ReadRows(cols, data[pos..])) == all
      decreases |data| - pos
    {
      var row, next := ReadList(data, pos, |cols|);
      if !row.Cells? {
        return Failed(row);
      }
      AfterRowsStep(cols, rows, data[pos..]);
      ReadShrinks(data[pos..], |cols|);
      rows, pos := rows + [row.cells], next;
    }
    assert rows + [] == rows;
    r := Complete(cols, rows);
  }

  /**
   printResult; `Endless` stands for the loop that prints empty rows for ever. The client makes the
   buffer as long as the payload, with no room behind it, so a cell that ends past it is a panic.
   */
  method PrintResult(data: Text) returns (r: Output)
    ensures r == Show(data)
  {
    if |data| < 1 {
      return Empty;
    }
    var head, pos := ReadList(data, 1, data[0]);
    if !head.Cells? {
      return Failed(head);
    }
    ReadShrinks(data[1..], data[0]);
    if head.cells == [] {
      return if pos < |data| then Endless else Complete([], []);
    }
    r := ReadTable(data, pos, head.cells);
  }
}

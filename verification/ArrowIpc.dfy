/** The Arrow-style file: its writer and its two readers, over a byte sequence. */
module ArrowIpc {
  import opened Bits
  import opened Seals
  import opened Seqs
  import Codec = CompositeKey

  const MAGIC: Bytes := [65, 82, 82, 79, 87, 49]
  const MAX_COLUMNS: nat := 10000
  const MAX_NAME: nat := 1000000
  const MAX_ROWS: nat := 1000000000
  const VECTOR_SIZE: nat := 2048

  // ---- types and cells ----

  datatype LType = BOOLEAN | INTEGER | BIGINT | FLOAT | DOUBLE | VARCHAR | OTHER(id: nat)

  function ToArrowId(t: LType): byte {
    match t
    case BOOLEAN => 1
    case INTEGER => 2
    case BIGINT => 3
    case FLOAT => 4
    case DOUBLE => 5
    case _ => 6
  }

  function FromArrowId(id: byte): LType {
    if id == 1 then BOOLEAN
    else if id == 2 then INTEGER
    else if id == 3 then BIGINT
    else if id == 4 then FLOAT
    else if id == 5 then DOUBLE
    else VARCHAR
  }

  /** A cell; a floating-point number is kept as the text it was read from. */
  datatype Cell = Null | Bool(b: bool) | Int(n: int) | Big(n: int) | Str(s: Bytes) | Real(t: LType, text: Bytes)

  datatype Column = Column(name: Bytes, t: LType)

  type Row = seq<Cell>

  /** The types whose cells come back. */
  predicate Exact(t: LType) {
    t.BOOLEAN? || t.INTEGER? || t.BIGINT? || t.VARCHAR?
  }

  const INT32_LIMIT: int := 0x8000_0000
  const INT64_LIMIT: int := 0x8000_0000_0000_0000

  predicate CellOk(c: Cell, t: LType) {
    match c
    case Null => true
    case Bool(_) => t.BOOLEAN?
    case Int(n) => t.INTEGER? && -INT32_LIMIT <= n < INT32_LIMIT
    case Big(n) => t.BIGINT? && -INT64_LIMIT <= n < INT64_LIMIT
    case Str(s) => t.VARCHAR? && |s| < 0x1_0000_0000
    case Real(_, _) => false
  }

  // ---- numbers as text ----

  predicate IsDigit(c: byte) {
    48 <= c <= 57
  }

  function Digits(n: nat): (r: Bytes)
    ensures r != [] && forall i :: 0 <= i < |r| ==> IsDigit(r[i])
  {
    if n < 10 then [48 + n] else Digits(n / 10) + [48 + n % 10]
  }

  function Decimal(n: int): Bytes {
    if n < 0 then [45] + Digits(-n) else Digits(n)
  }

  function DigitsValue(s: Bytes): nat
    requires forall i :: 0 <= i < |s| ==> IsDigit(s[i])
  {
    if s == [] then 0
    else
      assert IsDigit(s[|s| - 1]);
      10 * DigitsValue(Init(s)) + (s[|s| - 1] as int - 48)
  }

  lemma {:induction false} DigitsInverse(n: nat)
    ensures DigitsValue(Digits(n)) == n
  {
    if n >= 10 {
      DigitsInverse(n / 10);
      assert Init(Digits(n)) == Digits(n / 10);
    } else {
      assert Init([48 + n]) == [];
    }
  }

  predicate IsSpace(c: byte) {
    c == 32 || 9 <= c <= 13
  }

  function SkipSpace(s: Bytes): Bytes {
    if s != [] && IsSpace(s[0]) then SkipSpace(s[1..]) else s
  }

  /** The leading digits. */
  function DigitRun(s: Bytes): (r: Bytes)
    ensures forall i :: 0 <= i < |r| ==> IsDigit(r[i])
  {
    if s != [] && IsDigit(s[0]) then [s[0]] + DigitRun(s[1..]) else []
  }

  datatype Parsed = Number(n: int) | Failed

  /** The library's text-to-integer: leading space, a sign, digits; anything after them is ignored. */
  function ParseInt(s: Bytes, limit: int): Parsed {
    var t := SkipSpace(s);
    var negative := t != [] && t[0] == 45;
    var u := if t != [] && (t[0] == 45 || t[0] == 43) then t[1..] else t;
    ParseDigits(u, negative, limit)
  }

  function ParseDigits(u: Bytes, negative: bool, limit: int): Parsed {
    var run := DigitRun(u);
    var n := if negative then 0 - DigitsValue(run) else DigitsValue(run);
    if run == [] || n < -limit || n >= limit then Failed else Number(n)
  }

  lemma {:induction false} RunOfDigits(s: Bytes)
    requires forall i :: 0 <= i < |s| ==> IsDigit(s[i])
    ensures DigitRun(s) == s
  {
    if s != [] {
      RunOfDigits(s[1..]);
    }
  }

  /** Digits, after a minus sign if any. */
  lemma ParsesDigits(d: Bytes, negative: bool, limit: int)
    requires d != [] && forall i :: 0 <= i < |d| ==> IsDigit(d[i])
    ensures var n: int := if negative then 0 - DigitsValue(d) else DigitsValue(d);
      ParseInt(if negative then [45] + d else d, limit) == if n < -limit || n >= limit then Failed else Number(n)
  {
    SignAndDigits(if negative then [45] + d else d, d, negative, limit);
    ParsesRun(d, negative, limit);
  }

  lemma ParsesRun(d: Bytes, negative: bool, limit: int)
    requires d != [] && forall i :: 0 <= i < |d| ==> IsDigit(d[i])
    ensures var n: int := if negative then 0 - DigitsValue(d) else DigitsValue(d);
      ParseDigits(d, negative, limit) == if n < -limit || n >= limit then Failed else Number(n)
  {
    RunOfDigits(d);
  }

  lemma SignAndDigits(s: Bytes, d: Bytes, negative: bool, limit: int)
    requires d != [] && IsDigit(d[0]) && s == if negative then [45] + d else d
    ensures ParseInt(s, limit) == ParseDigits(d, negative, limit)
  {
    assert !IsSpace(s[0]) && SkipSpace(s) == s;
    if negative {
      assert s[1..] == d;
    }
  }

  lemma ParsesDecimal(n: int, limit: int)
    requires -limit <= n < limit
    ensures ParseInt(Decimal(n), limit) == Number(n)
  {
    var m: nat := if n < 0 then -n else n;
    ParsesDigits(Digits(m), n < 0, limit);
    DigitsInverse(m);
  }

  const TRUE_TEXT: Bytes := [116, 114, 117, 101]
  const FALSE_TEXT: Bytes := [102, 97, 108, 115, 101]

  /** The text the writer stores. */
  function Text(c: Cell): Bytes {
    match c
    case Null => []
    case Bool(b) => if b then TRUE_TEXT else FALSE_TEXT
    case Int(n) => Decimal(n)
    case Big(n) => Decimal(n)
    case Str(s) => s
    case Real(_, text) => text
  }

  /** What Parse makes of a text: text that does not convert stays text. */
  function Convert(t: LType, s: Bytes): Cell {
    match t
    case BOOLEAN => Bool(s == TRUE_TEXT)
    case INTEGER => var p := ParseInt(s, INT32_LIMIT); if p.Number? then Int(p.n) else Str(s)
    case BIGINT => var p := ParseInt(s, INT64_LIMIT); if p.Number? then Big(p.n) else Str(s)
    case FLOAT => Real(t, s)
    case DOUBLE => Real(t, s)
    case _ => Str(s)
  }

  /** What ReadIntoChunks makes of it: text that does not convert becomes null. */
  function ConvertVector(t: LType, s: Bytes): Cell {
    match t
    case BOOLEAN => Bool(s == TRUE_TEXT || s == [49])
    case INTEGER => var p := ParseInt(s, INT32_LIMIT); if p.Number? then Int(p.n) else Null
    case BIGINT => var p := ParseInt(s, INT64_LIMIT); if p.Number? then Big(p.n) else Null
    case FLOAT => Real(t, s)
    case DOUBLE => Real(t, s)
    case VARCHAR => Str(s)
    case OTHER(_) => Null
  }

  /** The two readers: Parse makes values, ReadIntoChunks fills vectors. */
  datatype Reader = ToValue | ToVector

  function Conv(reader: Reader, t: LType, s: Bytes): Cell {
    match reader
    case ToValue => Convert(t, s)
    case ToVector => ConvertVector(t, s)
  }

  /** Both readers give the written cell back. */
  lemma CellComesBack(c: Cell, t: LType)
    requires CellOk(c, t) && !c.Null?
    ensures Convert(t, Text(c)) == c && ConvertVector(t, Text(c)) == c
  {
    match c
    case Int(n) => ParsesDecimal(n, INT32_LIMIT);
    case Big(n) => ParsesDecimal(n, INT64_LIMIT);
    case Bool(b) => assert TRUE_TEXT[0] != FALSE_TEXT[0] && |FALSE_TEXT| != 1 && |TRUE_TEXT| != 1;
    case Str(_) =>
  }

  // ---- the file ----

  datatype Table = Table(columns: seq<Column>, rows: seq<Row>)

  function EncColumn(c: Column): Bytes {
    Codec.LE(|c.name|, 4) + c.name + [ToArrowId(c.t)]
  }

  function EncColumns(cols: seq<Column>): Bytes {
    if cols == [] then [] else EncColumns(Init(cols)) + EncColumn(Last(cols))
  }

  /** A missing cell is written as null. */
  function CellAt(row: Row, c: nat): Cell {
    if c < |row| then row[c] else Null
  }

  /** A cell as the file holds it. */
  datatype Raw = NoText | HasText(s: Bytes)

  function RawOf(c: Cell): Raw {
    if c.Null? then NoText else HasText(Text(c))
  }

  function RawRow(row: Row, n: nat): (r: seq<Raw>)
    ensures |r| == n
  {
    if n == 0 then [] else RawRow(row, n - 1) + [RawOf(CellAt(row, n - 1))]
  }

  function RawRows(rows: seq<Row>, n: nat): (r: seq<seq<Raw>>)
    ensures |r| == |rows|
  {
    if rows == [] then [] else RawRows(Init(rows), n) + [RawRow(Last(rows), n)]
  }

  lemma {:induction false} RawRowsAt(rows: seq<Row>, n: nat, i: nat)
    requires i < |rows|
    ensures RawRows(rows, n)[i] == RawRow(rows[i], n)
  {
    if i < |rows| - 1 {
      RawRowsAt(Init(rows), n, i);
    }
  }

  function EncRaw(raw: Raw): Bytes {
    match raw
    case NoText => [1]
    case HasText(s) => [0] + Codec.LE(|s|, 4) + s
  }

  function EncRaws(raws: seq<Raw>): Bytes {
    if raws == [] then [] else EncRaws(Init(raws)) + EncRaw(Last(raws))
  }

  function EncRawRows(rows: seq<seq<Raw>>): Bytes {
    if rows == [] then [] else EncRawRows(Init(rows)) + EncRaws(Last(rows))
  }

  function EncFile(t: Table): Bytes {
    MAGIC + Codec.LE(|t.columns|, 4) + EncColumns(t.columns) + Codec.LE(|t.rows|, 8)
      + EncRawRows(RawRows(t.rows, |t.columns|)) + MAGIC
  }

  /** The writer: a header, then the rows of all batches. */
  class ArrowIPCWriter {
    const columns: seq<Column>
    var batches: seq<seq<Row>>

    constructor (columns: seq<Column>)
      ensures this.columns == columns && batches == []
    {
      this.columns, batches := columns, [];
    }

    method WriteBatch(rows: seq<Row>)
      modifies this
      ensures batches == old(batches) + [rows]
    {
      batches := batches + [rows];
    }

    method Finish() returns (file: Bytes)
      ensures file == EncFile(Table(columns, Flatten(batches)))
    {
      file := MAGIC + Codec.LE(|columns|, 4);
      ghost var head := file;
      assert head + [] == head;
      for c := 0 to |columns|
        invariant file == head + EncColumns(columns[..c])
      {
        assert Init(columns[..c + 1]) == columns[..c];
        file := file + Codec.LE(|columns[c].name|, 4) + columns[c].name + [ToArrowId(columns[c].t)];
      }
      assert columns[..|columns|] == columns;
      var total := TotalRows();
      file := file + Codec.LE(total, 8);
      var body := WriteRows();
      file := file + body + MAGIC;
    }

    method TotalRows() returns (total: nat)
      ensures total == |Flatten(batches)|
    {
      total := 0;
      for b := 0 to |batches|
        invariant total == |Flatten(batches[..b])|
      {
        assert Init(batches[..b + 1]) == batches[..b];
        total := total + |batches[b]|;
      }
      assert batches[..|batches|] == batches;
    }

    method WriteRows() returns (body: Bytes)
      ensures body == EncRawRows(RawRows(Flatten(batches), |columns|))
    {
      body := [];
      for b := 0 to |batches|
        invariant body == EncRawRows(RawRows(Flatten(batches[..b]), |columns|))
      {
        assert Init(batches[..b + 1]) == batches[..b];
        body := WriteBatchRows(body, batches[b], Flatten(batches[..b]));
      }
      assert batches[..|batches|] == batches;
    }

    method WriteBatchRows(body: Bytes, batch: seq<Row>, ghost before: seq<Row>) returns (body': Bytes)
      requires body == EncRawRows(RawRows(before, |columns|))
      ensures body' == EncRawRows(RawRows(before + batch, |columns|))
    {
      body' := body;
      assert before + batch[..0] == before;
      for r := 0 to |batch|
        invariant body' == EncRawRows(RawRows(before + batch[..r], |columns|))
      {
        RawRowsStep(before, batch, r, |columns|);
        var row := WriteRow(batch[r]);
        body' := body' + row;
      }
      assert batch[..|batch|] == batch;
    }

    method WriteRow(row: Row) returns (out: Bytes)
      ensures out == EncRaws(RawRow(row, |columns|))
    {
      out := [];
      for c := 0 to |columns|
        invariant out == EncRaws(RawRow(row, c))
      {
        var val := if c < |row| then row[c] else Null;
        RawRowStep(row, c);
        if val.Null? {
          out := out + [1];
        } else {
          var str := Text(val);
          out := out + ([0] + Codec.LE(|str|, 4) + str);
        }
      }
    }
  }

  lemma RawRowStep(row: Row, c: nat)
    ensures EncRaws(RawRow(row, c + 1)) == EncRaws(RawRow(row, c)) + EncRaw(RawOf(CellAt(row, c)))
  {
    assert Init(RawRow(row, c + 1)) == RawRow(row, c);
  }

  lemma RawRowsStep(before: seq<Row>, batch: seq<Row>, r: nat, n: nat)
    requires r < |batch|
    ensures EncRawRows(RawRows(before + batch[..r + 1], n))
         == EncRawRows(RawRows(before + batch[..r], n)) + EncRaws(RawRow(batch[r], n))
  {
    assert Init(before + batch[..r + 1]) == before + batch[..r];
    var rows := RawRows(before + batch[..r + 1], n);
    assert Init(rows) == RawRows(before + batch[..r], n);
  }

  // ---- reading a stream ----

  /** A value and the position after it, or the end of the stream. */
  datatype Get<T> = Got(v: T, next: nat) | End

  function GetBytes(b: Bytes, p: nat, n: nat): Get<Bytes> {
    if p + n <= |b| then Got(b[p..p + n], p + n) else End
  }

  function GetNumber(b: Bytes, p: nat, w: nat): Get<nat> {
    var g := GetBytes(b, p, w);
    if g.Got? then Got(Codec.FromLE(g.v), g.next) else End
  }

  /** The stream holds `e` at `p`. */
  ghost predicate HoldsAt(b: Bytes, p: nat, e: Bytes) {
    forall seal: Seal :: HoldsOpen(seal, b, p, e)
  }

  ghost predicate HoldsOpen(seal: Seal, b: Bytes, p: nat, e: Bytes) {
    p + |e| <= |b| && b[p..p + |e|] == e
  }

  lemma OpenHolds(b: Bytes, p: nat, e: Bytes)
    requires HoldsAt(b, p, e)
    ensures HoldsOpen(Seal, b, p, e)
  {
  }

  lemma CloseHolds(b: Bytes, p: nat, e: Bytes)
    requires HoldsOpen(Seal, b, p, e)
    ensures HoldsAt(b, p, e)
  {
    forall seal: Seal ensures HoldsOpen(seal, b, p, e) {
      assert seal == Seal;
    }
  }

  lemma HoldsConcat(b: Bytes, p: nat, x: Bytes, y: Bytes)
    requires HoldsAt(b, p, x + y)
    ensures HoldsAt(b, p, x) && HoldsAt(b, p + |x|, y)
  {
    OpenHolds(b, p, x + y);
    var s := b[p..p + |x + y|];
    assert b[p..p + |x|] == s[..|x|] == x;
    assert b[p + |x|..p + |x| + |y|] == s[|x|..] == y;
    CloseHolds(b, p, x);
    CloseHolds(b, p + |x|, y);
  }

  lemma ReadsBytes(b: Bytes, p: nat, e: Bytes)
    requires HoldsAt(b, p, e)
    ensures GetBytes(b, p, |e|) == Got(e, p + |e|)
  {
    OpenHolds(b, p, e);
  }

  lemma ReadsNumber(b: Bytes, p: nat, n: nat, w: nat)
    requires n < Codec.Pow256(w) && HoldsAt(b, p, Codec.LE(n, w))
    ensures GetNumber(b, p, w) == Got(n, p + w)
  {
    ReadsBytes(b, p, Codec.LE(n, w));
    Codec.LEInverse(n, w);
  }

  /** One schema entry; nothing if the name is too long or cut off. */
  function GetColumn(b: Bytes, p: nat): Get<Column> {
    var len := GetNumber(b, p, 4);
    if len.End? || len.v > MAX_NAME then End
    else
      var name := GetBytes(b, len.next, len.v);
      if name.End? then End
      else
        var id := GetBytes(b, name.next, 1);
        if id.End? then End else Got(Column(name.v, FromArrowId(id.v[0])), id.next)
  }

  function GetColumns(b: Bytes, p: nat, n: nat): Get<seq<Column>> {
    if n == 0 then Got([], p)
    else
      var some := GetColumns(b, p, n - 1);
      if some.End? then End
      else
        var c := GetColumn(b, some.next);
        if c.End? then End else Got(some.v + [c.v], c.next)
  }

  /** Magic, column count and schema. */
  function GetSchema(b: Bytes): Get<seq<Column>> {
    if |b| < 10 || b[..6] != MAGIC then End
    else
      var n := Codec.FromLE(b[6..10]);
      if n > MAX_COLUMNS then End else GetColumns(b, 10, n)
  }

  function GetCell(b: Bytes, p: nat): Get<Raw> {
    var tag := GetBytes(b, p, 1);
    if tag.End? then End
    else if tag.v[0] != 0 then Got(NoText, tag.next)
    else
      var len := GetNumber(b, tag.next, 4);
      if len.End? then End
      else
        var s := GetBytes(b, len.next, len.v);
        if s.End? then End else Got(HasText(s.v), s.next)
  }

  function GetRow(b: Bytes, p: nat, n: nat): (r: Get<seq<Raw>>)
    ensures r.Got? ==> |r.v| == n
  {
    if n == 0 then Got([], p)
    else
      var some := GetRow(b, p, n - 1);
      if some.End? then End
      else
        var c := GetCell(b, some.next);
        if c.End? then End else Got(some.v + [c.v], c.next)
  }

  /** `n` rows of `width` cells. */
  function GetRows(b: Bytes, p: nat, width: nat, n: nat): (r: Get<seq<seq<Raw>>>)
    ensures r.Got? ==> |r.v| == n && forall i :: 0 <= i < n ==> |r.v[i]| == width
  {
    if n == 0 then Got([], p)
    else
      var some := GetRows(b, p, width, n - 1);
      if some.End? then End
      else
        var r := GetRow(b, some.next, width);
        if r.End? then End else Got(some.v + [r.v], r.next)
  }

  /** A cell as the reader converts it. */
  function FromRaw(reader: Reader, t: LType, raw: Raw): Cell {
    match raw
    case NoText => Null
    case HasText(s) => Conv(reader, t, s)
  }

  function FromRawRow(reader: Reader, types: seq<LType>, raws: seq<Raw>): (r: Row)
    requires |types| <= |raws|
    ensures |r| == |types|
  {
    seq(|types|, c requires 0 <= c < |types| => FromRaw(reader, types[c], raws[c]))
  }

  function FromRawRows(reader: Reader, types: seq<LType>, raws: seq<seq<Raw>>): (r: seq<Row>)
    requires forall i :: 0 <= i < |raws| ==> |types| <= |raws[i]|
    ensures |r| == |raws|
  {
    seq(|raws|, i requires 0 <= i < |raws| => FromRawRow(reader, types, raws[i]))
  }

  function Types(cols: seq<Column>): (r: seq<LType>)
    ensures |r| == |cols|
  {
    seq(|cols|, c requires 0 <= c < |cols| => cols[c].t)
  }

  // ---- what was written is read ----

  /** The tables both readers give back. */
  ghost predicate TableOk(t: Table) {
    && |t.columns| <= MAX_COLUMNS && |t.rows| <= MAX_ROWS
    && ColumnsOk(t.columns)
    && (forall r :: 0 <= r < |t.rows| ==> RowWritten(t.rows[r], Types(t.columns)))
  }

  /** The cell has its column's type, and its text a 32-bit length. */
  ghost predicate CellWritten(c: Cell, t: LType) {
    CellOk(c, t) && |Text(c)| < 0x1_0000_0000
  }

  /** A row as it comes back: cut or padded with nulls to the width of the table. */
  function Padded(row: Row, n: nat): (r: Row)
    ensures |r| == n
  {
    seq(n, c requires 0 <= c < n => CellAt(row, c))
  }

  function PaddedRows(rows: seq<Row>, n: nat): (r: seq<Row>)
    ensures |r| == |rows|
  {
    seq(|rows|, i requires 0 <= i < |rows| => Padded(rows[i], n))
  }

  lemma {:induction false} RawRowAt(row: Row, n: nat, c: nat)
    requires c < n
    ensures RawRow(row, n)[c] == RawOf(CellAt(row, c))
  {
    if c < n - 1 {
      RawRowAt(row, n - 1, c);
    }
  }

  lemma WordLimits()
    ensures Codec.Pow256(4) == 0x1_0000_0000 && Codec.Pow256(8) >= 0x1_0000_0000
  {
    assert Codec.Pow256(4) == 0x1_0000_0000;
    Codec.Pow256Plus(4, 4);
  }

  /** Reading from `p` yields the column, the columns, the cell, the row or the rows, and stops at `q`. */
  ghost predicate ColumnRead(b: Bytes, p: nat, c: Column, q: nat) {
    GetColumn(b, p) == Got(c, q)
  }

  ghost predicate ColumnsRead(b: Bytes, p: nat, cols: seq<Column>, q: nat) {
    GetColumns(b, p, |cols|) == Got(cols, q)
  }

  ghost predicate CellRead(b: Bytes, p: nat, raw: Raw, q: nat) {
    GetCell(b, p) == Got(raw, q)
  }

  ghost predicate RowRead(b: Bytes, p: nat, raws: seq<Raw>, q: nat) {
    GetRow(b, p, |raws|) == Got(raws, q)
  }

  ghost predicate RowsRead(b: Bytes, p: nat, rows: seq<seq<Raw>>, n: nat, q: nat) {
    GetRows(b, p, n, |rows|) == Got(rows, q)
  }

  /** A 32-bit length. */
  lemma ReadsLength(b: Bytes, p: nat, n: nat)
    requires n < 0x1_0000_0000 && HoldsAt(b, p, Codec.LE(n, 4))
    ensures GetNumber(b, p, 4) == Got(n, p + 4)
  {
    WordLimits();
    ReadsNumber(b, p, n, 4);
  }

  lemma ReadsColumn(b: Bytes, p: nat, c: Column)
    requires |c.name| <= MAX_NAME && Exact(c.t) && HoldsAt(b, p, EncColumn(c))
    ensures ColumnRead(b, p, c, p + |EncColumn(c)|)
  {
    var len := Codec.LE(|c.name|, 4);
    HoldsConcat(b, p, len + c.name, [ToArrowId(c.t)]);
    HoldsConcat(b, p, len, c.name);
    ReadsLength(b, p, |c.name|);
    ReadsBytes(b, p + 4, c.name);
    ReadsBytes(b, p + 4 + |c.name|, [ToArrowId(c.t)]);
  }

  lemma NextColumn(b: Bytes, p: nat, cols: seq<Column>, q: nat, r: nat)
    requires cols != [] && ColumnsRead(b, p, Init(cols), q) && ColumnRead(b, q, Last(cols), r)
    ensures ColumnsRead(b, p, cols, r)
  {
    assert cols == Init(cols) + [Last(cols)];
  }

  ghost predicate ColumnsOk(cols: seq<Column>) {
    forall c :: 0 <= c < |cols| ==> |cols[c].name| <= MAX_NAME && Exact(cols[c].t)
  }

  lemma {:induction false} ReadsColumns(b: Bytes, p: nat, cols: seq<Column>)
    requires ColumnsOk(cols) && HoldsAt(b, p, EncColumns(cols))
    ensures ColumnsRead(b, p, cols, p + |EncColumns(cols)|)
  {
    if cols != [] {
      var x, y := EncColumns(Init(cols)), EncColumn(Last(cols));
      HoldsConcat(b, p, x, y);
      ReadsColumns(b, p, Init(cols));
      var q := p + |x|;
      ReadsColumn(b, q, Last(cols));
      NextColumn(b, p, cols, q, q + |y|);
    }
  }

  lemma TextParts(b: Bytes, p: nat, len: Bytes, text: Bytes)
    requires |len| == 4 && HoldsAt(b, p, [0] + len + text)
    ensures GetBytes(b, p, 1) == Got([0], p + 1) && HoldsAt(b, p + 1, len)
    ensures GetBytes(b, p + 5, |text|) == Got(text, p + 5 + |text|)
  {
    HoldsConcat(b, p, [0] + len, text);
    HoldsConcat(b, p, [0], len);
    ReadsBytes(b, p, [0]);
    ReadsBytes(b, p + 5, text);
  }

  /** The text of a cell has a 32-bit length. */
  predicate Short(raw: Raw) {
    raw.HasText? ==> |raw.s| < 0x1_0000_0000
  }

  lemma ReadsRaw(b: Bytes, p: nat, raw: Raw)
    requires Short(raw) && HoldsAt(b, p, EncRaw(raw))
    ensures CellRead(b, p, raw, p + |EncRaw(raw)|)
  {
    if raw.NoText? {
      ReadsBytes(b, p, [1]);
    } else {
      TextParts(b, p, Codec.LE(|raw.s|, 4), raw.s);
      ReadsLength(b, p + 1, |raw.s|);
    }
  }

  ghost predicate ShortRow(raws: seq<Raw>, n: nat) {
    |raws| == n && forall c :: 0 <= c < n ==> Short(raws[c])
  }

  lemma NextCell(b: Bytes, p: nat, raws: seq<Raw>, q: nat, r: nat)
    requires raws != [] && RowRead(b, p, Init(raws), q) && CellRead(b, q, Last(raws), r)
    ensures RowRead(b, p, raws, r)
  {
    assert raws == Init(raws) + [Last(raws)];
  }

  lemma {:induction false} ReadsRaws(b: Bytes, p: nat, raws: seq<Raw>)
    requires HoldsAt(b, p, EncRaws(raws)) && ShortRow(raws, |raws|)
    ensures RowRead(b, p, raws, p + |EncRaws(raws)|)
  {
    if raws != [] {
      var x, y := EncRaws(Init(raws)), EncRaw(Last(raws));
      HoldsConcat(b, p, x, y);
      ReadsRaws(b, p, Init(raws));
      var q := p + |x|;
      ReadsRaw(b, q, Last(raws));
      NextCell(b, p, raws, q, q + |y|);
    }
  }

  lemma NextRow(b: Bytes, p: nat, rows: seq<seq<Raw>>, n: nat, q: nat, r: nat)
    requires rows != [] && RowsRead(b, p, Init(rows), n, q) && RowRead(b, q, Last(rows), r) && |Last(rows)| == n
    ensures RowsRead(b, p, rows, n, r)
  {
    assert rows == Init(rows) + [Last(rows)];
  }

  lemma {:induction false} ReadsRawRows(b: Bytes, p: nat, rows: seq<seq<Raw>>, n: nat)
    requires HoldsAt(b, p, EncRawRows(rows)) && forall r :: 0 <= r < |rows| ==> ShortRow(rows[r], n)
    ensures RowsRead(b, p, rows, n, p + |EncRawRows(rows)|)
  {
    if rows != [] {
      var x, y := EncRawRows(Init(rows)), EncRaws(Last(rows));
      HoldsConcat(b, p, x, y);
      ReadsRawRows(b, p, Init(rows), n);
      assert ShortRow(Last(rows), n);
      ReadsRaws(b, p + |x|, Last(rows));
      NextRow(b, p, rows, n, p + |x|, p + |x| + |y|);
    }
  }

  ghost predicate RowWritten(row: Row, types: seq<LType>) {
    forall c :: 0 <= c < |types| ==> CellWritten(CellAt(row, c), types[c])
  }

  lemma WrittenIsShort(t: Table, r: nat)
    requires TableOk(t) && r < |t.rows|
    ensures ShortRow(RawRow(t.rows[r], |t.columns|), |t.columns|)
  {
    var n := |t.columns|;
    assert RowWritten(t.rows[r], Types(t.columns));
    forall c | 0 <= c < n ensures Short(RawRow(t.rows[r], n)[c]) {
      RawRowAt(t.rows[r], n, c);
      assert CellWritten(CellAt(t.rows[r], c), Types(t.columns)[c]);
    }
  }

  lemma AllShort(t: Table)
    requires TableOk(t)
    ensures forall r :: 0 <= r < |t.rows| ==> ShortRow(RawRows(t.rows, |t.columns|)[r], |t.columns|)
  {
    forall r | 0 <= r < |t.rows| ensures ShortRow(RawRows(t.rows, |t.columns|)[r], |t.columns|) {
      WrittenIsShort(t, r);
      RawRowsAt(t.rows, |t.columns|, r);
    }
  }

  lemma CellsComeBack(t: Table, reader: Reader, r: nat)
    requires TableOk(t) && r < |t.rows|
    ensures FromRawRow(reader, Types(t.columns), RawRow(t.rows[r], |t.columns|)) == Padded(t.rows[r], |t.columns|)
  {
    var types, n := Types(t.columns), |t.columns|;
    assert RowWritten(t.rows[r], types);
    forall c | 0 <= c < n ensures FromRaw(reader, types[c], RawRow(t.rows[r], n)[c]) == CellAt(t.rows[r], c) {
      RawRowAt(t.rows[r], n, c);
      assert CellWritten(CellAt(t.rows[r], c), types[c]);
      if !CellAt(t.rows[r], c).Null? {
        CellComesBack(CellAt(t.rows[r], c), types[c]);
      }
    }
  }

  lemma RawWidth(rows: seq<Row>, n: nat)
    ensures forall i :: 0 <= i < |rows| ==> |RawRows(rows, n)[i]| == n
  {
    forall i | 0 <= i < |rows| ensures |RawRows(rows, n)[i]| == n {
      RawRowsAt(rows, n, i);
    }
  }

  /** The conversions give the written rows back. */
  lemma RowsComeBack(t: Table, reader: Reader)
    requires TableOk(t)
    ensures forall i :: 0 <= i < |t.rows| ==> |Types(t.columns)| <= |RawRows(t.rows, |t.columns|)[i]|
    ensures FromRawRows(reader, Types(t.columns), RawRows(t.rows, |t.columns|)) == PaddedRows(t.rows, |t.columns|)
  {
    var n := |t.columns|;
    RawWidth(t.rows, n);
    forall r | 0 <= r < |t.rows|
      ensures FromRawRow(reader, Types(t.columns), RawRows(t.rows, n)[r]) == Padded(t.rows[r], n)
    {
      RawRowsAt(t.rows, n, r);
      CellsComeBack(t, reader, r);
    }
  }

  /** Where the parts of a written file are. */
  lemma FileParts(t: Table)
    ensures var b := EncFile(t);
      && HoldsAt(b, 0, MAGIC) && HoldsAt(b, 6, Codec.LE(|t.columns|, 4)) && HoldsAt(b, 10, EncColumns(t.columns))
      && HoldsAt(b, 10 + |EncColumns(t.columns)|, Codec.LE(|t.rows|, 8))
      && HoldsAt(b, 18 + |EncColumns(t.columns)|, EncRawRows(RawRows(t.rows, |t.columns|)))
  {
    Parts(EncFile(t), MAGIC, Codec.LE(|t.columns|, 4), EncColumns(t.columns), Codec.LE(|t.rows|, 8),
          EncRawRows(RawRows(t.rows, |t.columns|)), MAGIC);
  }

  lemma Parts(b: Bytes, x0: Bytes, x1: Bytes, x2: Bytes, x3: Bytes, x4: Bytes, x5: Bytes)
    requires b == x0 + x1 + x2 + x3 + x4 + x5
    ensures HoldsAt(b, 0, x0) && HoldsAt(b, |x0|, x1) && HoldsAt(b, |x0| + |x1|, x2)
    ensures HoldsAt(b, |x0| + |x1| + |x2|, x3) && HoldsAt(b, |x0| + |x1| + |x2| + |x3|, x4)
  {
    assert b[0..|b|] == b;
    CloseHolds(b, 0, b);
    HoldsConcat(b, 0, x0 + x1 + x2 + x3 + x4, x5);
    HoldsConcat(b, 0, x0 + x1 + x2 + x3, x4);
    HoldsConcat(b, 0, x0 + x1 + x2, x3);
    HoldsConcat(b, 0, x0 + x1, x2);
    HoldsConcat(b, 0, x0, x1);
  }

  lemma ReadsSchema(t: Table)
    requires TableOk(t)
    ensures GetSchema(EncFile(t)) == Got(t.columns, 10 + |EncColumns(t.columns)|)
  {
    var b := EncFile(t);
    FileParts(t);
    WordLimits();
    ReadsNumber(b, 6, |t.columns|, 4);
    ReadsColumns(b, 10, t.columns);
    ReadsBytes(b, 0, MAGIC);
    OpenHolds(b, 6, Codec.LE(|t.columns|, 4));
    assert b[0..6] == b[..6];
  }

  /** The position of the row count. */
  function BodyStart(t: Table): nat {
    10 + |EncColumns(t.columns)|
  }

  lemma ReadsCount(t: Table)
    requires TableOk(t)
    ensures GetNumber(EncFile(t), BodyStart(t), 8) == Got(|t.rows|, BodyStart(t) + 8)
  {
    FileParts(t);
    WordLimits();
    ReadsNumber(EncFile(t), BodyStart(t), |t.rows|, 8);
  }

  lemma ReadsBody(t: Table)
    requires TableOk(t)
    ensures GetRows(EncFile(t), BodyStart(t) + 8, |t.columns|, |t.rows|).Got?
    ensures GetRows(EncFile(t), BodyStart(t) + 8, |t.columns|, |t.rows|).v == RawRows(t.rows, |t.columns|)
  {
    var raws, p := RawRows(t.rows, |t.columns|), BodyStart(t) + 8;
    FileParts(t);
    AllShort(t);
    ReadsRawRows(EncFile(t), p, raws, |t.columns|);
  }

  // ---- the reader ----

  /** How a read ended. Truncated: a row runs past the end, which the code does not notice. */
  datatype Status = Done | Corrupt | Truncated

  /** The position after the next `n` schema entries, their contents skipped. */
  function SkipColumns(b: Bytes, p: nat, n: nat): Get<nat> {
    if n == 0 then Got(0, p)
    else
      var some := SkipColumns(b, p, n - 1);
      if some.End? then End
      else
        var len := GetNumber(b, some.next, 4);
        if len.End? then End else Got(0, len.next + len.v + 1)
  }

  lemma {:induction false} SkipsWhatItReads(b: Bytes, p: nat, n: nat)
    requires GetColumns(b, p, n).Got?
    ensures |GetColumns(b, p, n).v| == n && SkipColumns(b, p, n) == Got(0, GetColumns(b, p, n).next)
  {
    if n > 0 {
      SkipsWhatItReads(b, p, n - 1);
      EntryEnd(b, GetColumns(b, p, n - 1).next);
    }
  }

  /** An entry ends after its length, name and type. */
  lemma EntryEnd(b: Bytes, p: nat)
    requires GetColumn(b, p).Got?
    ensures GetNumber(b, p, 4).Got?
    ensures GetColumn(b, p).next == GetNumber(b, p, 4).next + GetNumber(b, p, 4).v + 1
  {
  }

  lemma SkipsSchema(b: Bytes)
    requires GetSchema(b).Got?
    ensures SkipColumns(b, 10, |GetSchema(b).v|) == Got(0, GetSchema(b).next)
  {
    SkipsWhatItReads(b, 10, Codec.FromLE(b[6..10]));
  }

  /** Chunks of a full vector each, except that the last may be shorter; none is empty. */
  ghost predicate WellChunked(chunks: seq<seq<Row>>) {
    forall i :: 0 <= i < |chunks| ==>
      0 < |chunks[i]| <= VECTOR_SIZE && (i < |chunks| - 1 ==> |chunks[i]| == VECTOR_SIZE)
  }

  class ArrowIPCReader {
    const file: Bytes
    var columns: seq<Column>
    var rows: seq<Row>
    var parsed: bool
    var schemaParsed: bool

    constructor (file: Bytes)
      ensures this.file == file && columns == [] && rows == [] && !parsed && !schemaParsed
    {
      this.file, columns, rows, parsed, schemaParsed := file, [], [], false, false;
    }

    /** Reads magic and schema and appends the columns. */
    method ReadSchema() returns (ok: bool, count: nat, p: nat)
      modifies this`columns
      ensures ok == GetSchema(file).Got?
      ensures ok ==> columns == old(columns) + GetSchema(file).v
      ensures ok ==> count == |GetSchema(file).v| && p == GetSchema(file).next
    {
      ok, count, p := false, 0, 0;
      if |file| < 10 || file[..6] != MAGIC {
        return;
      }
      var n := Codec.FromLE(file[6..10]);
      if n > MAX_COLUMNS {
        return;
      }
      p := 10;
      var read: seq<Column> := [];
      for c := 0 to n
        invariant GetColumns(file, 10, c) == Got(read, p) && columns == old(columns) + read && |read| == c
      {
        var g := GetColumn(file, p);
        if g.End? {
          NoMoreColumns(file, 10, c + 1, n);
          return;
        }
        columns, read, p := columns + [g.v], read + [g.v], g.next;
      }
      ok, count := true, n;
    }

    /** Reads everything, once. */
    method Parse() returns (status: Status)
      modifies this
      ensures parsed && schemaParsed == old(schemaParsed)
      ensures old(parsed) ==> status == Done && columns == old(columns) && rows == old(rows)
      ensures !old(parsed) && status == Done ==> Parsed(old(columns), old(rows))
      ensures !old(parsed) && status == Corrupt ==> !Readable()
      ensures !old(parsed) && status == Truncated ==> Readable() && Body().End?
    {
      status := Done;
      if parsed {
        return;
      }
      parsed := true;
      var ok, n, p := ReadSchema();
      if !ok {
        return Corrupt;
      }
      var total := GetNumber(file, p, 8);
      if total.End? || total.v > MAX_ROWS {
        return Corrupt;
      }
      status := ParseRows(n, total.next, total.v);
    }

    /** The row loop: each cell is converted by the type of its column. */
    method ParseRows(n: nat, start: nat, total: nat) returns (status: Status)
      requires n <= |columns|
      modifies this`rows
      ensures status == Done || status == Truncated
      ensures status == Truncated <==> GetRows(file, start, n, total).End?
      ensures status == Done ==>
        rows == old(rows) + FromRawRows(ToValue, Types(columns)[..n], GetRows(file, start, n, total).v)
    {
      var p := start;
      var types := Types(columns)[..n];
      ghost var read: seq<seq<Raw>> := [];
      assert old(rows) + FromRawRows(ToValue, types, []) == old(rows);
      for r := 0 to total
        invariant GetRows(file, start, n, r) == Got(read, p)
        invariant rows == old(rows) + FromRawRows(ToValue, types, read)
      {
        var g := GetRow(file, p, n);
        if g.End? {
          NoMoreRows(file, start, n, r + 1, total);
          return Truncated;
        }
        FromRawSnoc(ToValue, types, read, g.v);
        rows := rows + [FromRawRow(ToValue, types, g.v)];
        read, p := read + [g.v], g.next;
      }
      status := Done;
    }

    /** Schema and row count are there and within limits. */
    ghost predicate Readable() {
      && GetSchema(file).Got?
      && GetNumber(file, GetSchema(file).next, 8).Got?
      && GetNumber(file, GetSchema(file).next, 8).v <= MAX_ROWS
    }

    ghost function Body(): Get<seq<seq<Raw>>>
      requires Readable()
    {
      GetRows(file, GetSchema(file).next + 8, |GetSchema(file).v|, GetNumber(file, GetSchema(file).next, 8).v)
    }

    /** The schema has been appended to what was there, and so have the rows. */
    ghost predicate Parsed(columns0: seq<Column>, rows0: seq<Row>)
      reads this
    {
      && Readable() && Body().Got?
      && columns == columns0 + GetSchema(file).v
      && rows == rows0 + FromRawRows(ToValue, Types(columns)[..|GetSchema(file).v|], Body().v)
    }

    method ReadAll() returns (status: Status, all: seq<Row>)
      modifies this
      ensures parsed && all == rows
      ensures old(parsed) ==> status == Done && columns == old(columns) && rows == old(rows)
      ensures !old(parsed) && status == Done ==> Parsed(old(columns), old(rows))
      ensures !old(parsed) && status == Corrupt ==> !Readable()
      ensures !old(parsed) && status == Truncated ==> Readable() && Body().End?
    {
      status := Parse();
      all := rows;
    }

    /** Reads the schema only, once. */
    method DetectSchemaLight() returns (status: Status)
      modifies this`columns, this`schemaParsed
      ensures schemaParsed
      ensures old(schemaParsed) ==> status == Done && columns == old(columns)
      ensures !old(schemaParsed) ==> status == (if GetSchema(file).Got? then Done else Corrupt)
      ensures !old(schemaParsed) && status == Done ==> columns == old(columns) + GetSchema(file).v
    {
      status := Done;
      if schemaParsed {
        return;
      }
      schemaParsed := true;
      var ok, n, p := ReadSchema();
      if !ok {
        status := Corrupt;
      }
    }

    /** Streams the rows into chunks of typed vectors. */
    method ReadIntoChunks(types: seq<LType>) returns (status: Status, chunks: seq<seq<Row>>)
      modifies this`columns, this`schemaParsed
      ensures schemaParsed && (status == Done ==> WellChunked(chunks) && ChunksRight(types, chunks))
      ensures old(schemaParsed) ==> columns == old(columns)
      ensures !old(schemaParsed) && GetSchema(file).Got? ==> columns == old(columns) + GetSchema(file).v
      ensures !old(schemaParsed) && !GetSchema(file).Got? ==> status == Corrupt
      ensures (old(schemaParsed) || GetSchema(file).Got?) && Streamable(types) ==> status == Done
    {
      chunks := [];
      if !schemaParsed {
        status := DetectSchemaLight();
        if status != Done {
          return;
        }
      }
      status, chunks := ReadBody(types);
    }

    /** Skips the schema entries the reader believes in, then reads the rows. */
    method ReadBody(types: seq<LType>) returns (status: Status, chunks: seq<seq<Row>>)
      ensures status == Done <==> Streamable(types)
      ensures status == Done ==> WellChunked(chunks) && ChunksRight(types, chunks)
    {
      var n := |columns|;
      var p := SkipColumns(file, 10, n);
      if p.End? {
        return Corrupt, [];
      }
      var total := GetNumber(file, p.next, 8);
      if total.End? || total.v > MAX_ROWS {
        return Corrupt, [];
      }
      if |types| > n {
        return Truncated, [];
      }
      status, chunks := FillChunks(types, n, total.next, total.v);
    }

    /** The rows can be read past the schema entries the reader believes in. */
    ghost predicate Streamable(types: seq<LType>)
      reads this`columns
    {
      var p := SkipColumns(file, 10, |columns|);
      && |types| <= |columns| && p.Got?
      && GetNumber(file, p.next, 8).Got? && GetNumber(file, p.next, 8).v <= MAX_ROWS
      && GetRows(file, p.next + 8, |columns|, GetNumber(file, p.next, 8).v).Got?
    }

    /** The chunks hold those rows. */
    ghost predicate ChunksRight(types: seq<LType>, chunks: seq<seq<Row>>)
      reads this`columns
    {
      && Streamable(types)
      && var p := SkipColumns(file, 10, |columns|);
        Flatten(chunks) == FromRawRows(ToVector, types,
          GetRows(file, p.next + 8, |columns|, GetNumber(file, p.next, 8).v).v)
    }

    /** The row loop: a chunk is flushed when it is full, and at the end. */
    method FillChunks(types: seq<LType>, n: nat, start: nat, total: nat) returns (status: Status, chunks: seq<seq<Row>>)
      requires |types| <= n
      ensures status == Done <==> GetRows(file, start, n, total).Got?
      ensures status == Done ==> WellChunked(chunks)
      ensures status == Done ==> Flatten(chunks) == FromRawRows(ToVector, types, GetRows(file, start, n, total).v)
    {
      chunks := [];
      var current: seq<Row> := [];
      var p := start;
      ghost var read: seq<seq<Raw>> := [];
      for r := 0 to total
        invariant GetRows(file, start, n, r) == Got(read, p)
        invariant Filling(chunks, current) && Flatten(chunks) + current == FromRawRows(ToVector, types, read)
      {
        var g := GetRow(file, p, n);
        if g.End? {
          NoMoreRows(file, start, n, r + 1, total);
          return Truncated, [];
        }
        FromRawSnoc(ToVector, types, read, g.v);
        chunks, current := TakeRow(chunks, current, FromRawRow(ToVector, types, g.v));
        read, p := read + [g.v], g.next;
      }
      if |current| != 0 {
        assert Init(chunks + [current]) == chunks;
        chunks := chunks + [current];
      }
      status := Done;
    }
  }

  /** Puts a row into the current chunk, and flushes the chunk if that fills it. */
  method TakeRow(chunks: seq<seq<Row>>, current: seq<Row>, row: Row)
    returns (chunks': seq<seq<Row>>, current': seq<Row>)
    requires Filling(chunks, current)
    ensures Filling(chunks', current') && Flatten(chunks') + current' == Flatten(chunks) + current + [row]
  {
    chunks', current' := chunks, current + [row];
    if |current'| >= VECTOR_SIZE {
      assert Init(chunks + [current']) == chunks;
      chunks', current' := chunks + [current'], [];
    }
  }

  /** Full chunks so far, and one being filled. */
  ghost predicate Filling(chunks: seq<seq<Row>>, current: seq<Row>) {
    (forall i :: 0 <= i < |chunks| ==> |chunks[i]| == VECTOR_SIZE) && |current| < VECTOR_SIZE
  }

  lemma {:induction false} NoMoreColumns(b: Bytes, p: nat, m: nat, n: nat)
    requires m <= n && GetColumns(b, p, m).End?
    ensures GetColumns(b, p, n).End?
  {
    if m < n {
      NoMoreColumns(b, p, m, n - 1);
    }
  }

  lemma {:induction false} NoMoreRows(b: Bytes, p: nat, width: nat, m: nat, n: nat)
    requires m <= n && GetRows(b, p, width, m).End?
    ensures GetRows(b, p, width, n).End?
  {
    if m < n {
      NoMoreRows(b, p, width, m, n - 1);
    }
  }

  lemma FromRawSnoc(reader: Reader, types: seq<LType>, raws: seq<seq<Raw>>, raw: seq<Raw>)
    requires |types| <= |raw| && forall i :: 0 <= i < |raws| ==> |types| <= |raws[i]|
    ensures FromRawRows(reader, types, raws + [raw])
      == FromRawRows(reader, types, raws) + [FromRawRow(reader, types, raw)]
  {
  }

  // ---- writing, then reading ----

  /** The file holds this schema and these rows. */
  ghost predicate FileOf(file: Bytes, cols: seq<Column>, raws: seq<seq<Raw>>) {
    forall seal: Seal :: FileOfOpen(seal, file, cols, raws)
  }

  ghost predicate FileOfOpen(seal: Seal, file: Bytes, cols: seq<Column>, raws: seq<seq<Raw>>) {
    && GetSchema(file).Got? && GetSchema(file).v == cols
    && GetNumber(file, GetSchema(file).next, 8).Got?
    && GetNumber(file, GetSchema(file).next, 8).v == |raws| <= MAX_ROWS
    && GetRows(file, GetSchema(file).next + 8, |cols|, |raws|).Got?
    && GetRows(file, GetSchema(file).next + 8, |cols|, |raws|).v == raws
  }

  lemma WrittenFile(t: Table)
    requires TableOk(t)
    ensures FileOf(EncFile(t), t.columns, RawRows(t.rows, |t.columns|))
  {
    var file, raws := EncFile(t), RawRows(t.rows, |t.columns|);
    ReadsSchema(t);
    ReadsCount(t);
    ReadsBody(t);
    forall seal: Seal ensures FileOfOpen(seal, file, t.columns, raws) {
      assert seal == Seal;
    }
  }

  /** Writes a table in batches. */
  method WriteTable(columns: seq<Column>, batches: seq<seq<Row>>) returns (file: Bytes)
    requires TableOk(Table(columns, Flatten(batches)))
    ensures FileOf(file, columns, RawRows(Flatten(batches), |columns|))
  {
    var writer := new ArrowIPCWriter(columns);
    for b := 0 to |batches|
      invariant writer.batches == batches[..b] && fresh(writer) && writer.columns == columns
    {
      writer.WriteBatch(batches[b]);
      assert batches[..b + 1] == batches[..b] + [batches[b]];
    }
    assert batches[..|batches|] == batches;
    file := writer.Finish();
    WrittenFile(Table(columns, Flatten(batches)));
  }

  /** Reads a whole file with a fresh reader, with or without a look at the schema first. */
  method ReadTable(file: Bytes, schemaFirst: bool, ghost cols: seq<Column>, ghost raws: seq<seq<Raw>>)
    returns (names: seq<Column>, all: seq<Row>)
    requires FileOf(file, cols, raws) && forall i :: 0 <= i < |raws| ==> |cols| <= |raws[i]|
    ensures names == if schemaFirst then cols + cols else cols
    ensures all == FromRawRows(ToValue, Types(cols), raws)
  {
    assert FileOfOpen(Seal, file, cols, raws);
    var reader := new ArrowIPCReader(file);
    if schemaFirst {
      var light := reader.DetectSchemaLight();
    }
    var status;
    status, all := reader.ReadAll();
    names := reader.columns;
    assert Types(names)[..|cols|] == Types(cols);
  }

  /** Reads a file into chunks with a fresh reader, with or without a look at the schema first. */
  method ReadChunks(file: Bytes, types: seq<LType>, schemaFirst: bool, ghost cols: seq<Column>,
                    ghost raws: seq<seq<Raw>>)
    returns (chunks: seq<seq<Row>>)
    requires FileOf(file, cols, raws) && |types| <= |cols| && forall i :: 0 <= i < |raws| ==> |cols| <= |raws[i]|
    ensures WellChunked(chunks) && Flatten(chunks) == FromRawRows(ToVector, types, raws)
  {
    var reader := new ArrowIPCReader(file);
    if schemaFirst {
      assert FileOfOpen(Seal, file, cols, raws);
      var light := reader.DetectSchemaLight();
    }
    chunks := ChunksOf(reader, types, cols, raws);
  }

  /** Reads into chunks with a reader that is new or has only looked at the schema. */
  method ChunksOf(reader: ArrowIPCReader, types: seq<LType>, ghost cols: seq<Column>, ghost raws: seq<seq<Raw>>)
    returns (chunks: seq<seq<Row>>)
    requires FileOf(reader.file, cols, raws) && |types| <= |cols| && forall i :: 0 <= i < |raws| ==> |cols| <= |raws[i]|
    requires reader.columns == if reader.schemaParsed then cols else []
    modifies reader
    ensures WellChunked(chunks) && Flatten(chunks) == FromRawRows(ToVector, types, raws)
  {
    assert FileOfOpen(Seal, reader.file, cols, raws);
    SkipsSchema(reader.file);
    var status;
    status, chunks := reader.ReadIntoChunks(types);
    assert reader.columns == cols;
  }

  // ---- a reader that has read everything ----

  /** Skipping the entries of these columns ends where the row count is. */
  predicate FindsRows(file: Bytes, columns: seq<Column>)
    requires GetSchema(file).Got?
  {
    SkipColumns(file, 10, |columns|) == Got(0, GetSchema(file).next)
  }

  /** Every skipped entry moves the position. */
  lemma {:induction false} SkipMoves(b: Bytes, p: nat, m: nat, n: nat)
    requires m < n && SkipColumns(b, p, n).Got?
    ensures SkipColumns(b, p, m).Got? && SkipColumns(b, p, m).next < SkipColumns(b, p, n).next
  {
    if m < n - 1 {
      SkipMoves(b, p, m, n - 1);
    }
  }

  /** With the columns twice, the rows are found if and only if there are no columns. */
  lemma TwiceFindsRows(file: Bytes, cols: seq<Column>)
    requires GetSchema(file).Got? && GetSchema(file).v == cols
    ensures FindsRows(file, cols + cols) <==> cols == []
  {
    SkipsSchema(file);
    if cols != [] && FindsRows(file, cols + cols) {
      SkipMoves(file, 10, |cols|, |cols + cols|);
    }
  }

  /** Reads everything with a new reader. */
  method ReadAllOnce(reader: ArrowIPCReader, ghost cols: seq<Column>, ghost raws: seq<seq<Raw>>) returns (all: seq<Row>)
    requires FileOf(reader.file, cols, raws) && forall i :: 0 <= i < |raws| ==> |cols| <= |raws[i]|
    requires reader.columns == [] && reader.rows == [] && !reader.parsed && !reader.schemaParsed
    modifies reader
    ensures reader.columns == cols && !reader.schemaParsed
    ensures all == FromRawRows(ToValue, Types(cols), raws)
  {
    assert FileOfOpen(Seal, reader.file, cols, raws);
    assert Types(cols)[..|cols|] == Types(cols);
    var status := reader.Parse();
    all := reader.rows;
  }

  /**
   * A reader that has read everything and is then asked for chunks has its columns twice.
   * It finds the rows if and only if there are no columns.
   */
  method ReadAllThenChunks(file: Bytes, types: seq<LType>, ghost cols: seq<Column>, ghost raws: seq<seq<Raw>>)
    returns (names: seq<Column>, all: seq<Row>, status: Status, chunks: seq<seq<Row>>)
    requires FileOf(file, cols, raws) && |types| <= |cols| && forall i :: 0 <= i < |raws| ==> |cols| <= |raws[i]|
    ensures GetSchema(file).Got? && (FindsRows(file, names) <==> cols == [])
    ensures names == cols + cols && all == FromRawRows(ToValue, Types(cols), raws)
    ensures cols == [] ==> status == Done && WellChunked(chunks)
    ensures cols == [] ==> Flatten(chunks) == FromRawRows(ToVector, types, raws)
  {
    assert FileOfOpen(Seal, file, cols, raws);
    TwiceFindsRows(file, cols);
    var reader := new ArrowIPCReader(file);
    all := ReadAllOnce(reader, cols, raws);
    status, chunks := reader.ReadIntoChunks(types);
    names := reader.columns;
  }

  /** One text column without a name, and no rows. */
  const TINY: Table := Table([Column([], VARCHAR)], [])

  /** On that file such a reader takes bytes of the closing magic for a row count and reports a corrupt file. */
  lemma TinyIsMisread()
    ensures TableOk(TINY)
    ensures var file, p := EncFile(TINY), SkipColumns(EncFile(TINY), 10, 2);
      p.Got? && GetNumber(file, p.next, 8).Got? && GetNumber(file, p.next, 8).v > MAX_ROWS
  {
    TinyBytes();
    TwoEmptyEntries(EncFile(TINY));
    LargeNumber(EncFile(TINY)[20..28]);
  }

  /** Two entries of five bytes with empty names, one after the other. */
  lemma TwoEmptyEntries(b: Bytes)
    requires |b| >= 20 && b[10..14] == [0, 0, 0, 0] && b[15..19] == [0, 0, 0, 0]
    ensures SkipColumns(b, 10, 2) == Got(0, 20)
  {
    ZeroNumber();
    assert SkipColumns(b, 10, 0) == Got(0, 10);
    assert SkipColumns(b, 10, 1) == Got(0, 15);
  }

  lemma ZeroNumber()
    ensures Codec.FromLE([0, 0, 0, 0]) == 0
  {
    assert Codec.FromLE([0, 0, 0, 0][1..]) == Codec.FromLE([0, 0, 0]);
    assert Codec.FromLE([0, 0, 0][1..]) == Codec.FromLE([0, 0]);
    assert Codec.FromLE([0, 0][1..]) == Codec.FromLE([0]);
    assert Codec.FromLE([0][1..]) == Codec.FromLE([]);
  }

  /** A number whose fourth byte is 65 is too large for a row count. */
  lemma LargeNumber(b: Bytes)
    requires |b| >= 4 && b[3] == 65
    ensures Codec.FromLE(b) > MAX_ROWS
  {
    assert Codec.FromLE(b) == b[0] + 256 * Codec.FromLE(b[1..]);
    assert Codec.FromLE(b[1..]) == b[1] + 256 * Codec.FromLE(b[1..][1..]) && b[1..][1..] == b[2..];
    assert Codec.FromLE(b[2..]) == b[2] + 256 * Codec.FromLE(b[2..][1..]) && b[2..][1..] == b[3..];
    assert Codec.FromLE(b[3..]) == b[3] + 256 * Codec.FromLE(b[3..][1..]);
  }

  lemma TinyBytes()
    ensures var b := EncFile(TINY);
      && |b| == 29 && b[10..14] == [0, 0, 0, 0] && b[15..19] == [0, 0, 0, 0]
      && b[23] == 65
  {
    SmallNumbers();
    TinyColumns();
    assert RawRows(TINY.rows, 1) == [];
    assert EncFile(TINY) == MAGIC + [1, 0, 0, 0] + [0, 0, 0, 0, 6] + [0, 0, 0, 0, 0, 0, 0, 0] + MAGIC;
  }

  lemma TinyColumns()
    ensures EncColumns(TINY.columns) == [0, 0, 0, 0, 6]
  {
    SmallNumbers();
    assert Init(TINY.columns) == [] && EncColumns([]) == [];
    assert EncColumn(Column([], VARCHAR)) == [0, 0, 0, 0, 6];
  }

  lemma SmallNumbers()
    ensures Codec.LE(1, 4) == [1, 0, 0, 0] && Codec.LE(0, 4) == [0, 0, 0, 0]
    ensures Codec.LE(0, 8) == [0, 0, 0, 0, 0, 0, 0, 0]
  {
    Zeros(3);
    Zeros(4);
    Zeros(8);
    assert Codec.LE(1, 4) == [1] + Codec.LE(0, 3);
  }

  lemma {:induction false} Zeros(w: nat)
    ensures Codec.LE(0, w) == seq(w, _ => 0)
  {
    if w > 0 {
      Zeros(w - 1);
    }
  }

  /**
   * What one writer writes, a fresh reader reads back: names, types and rows, short rows padded with nulls;
   * and the chunk reader gives the same rows in chunks that are full except perhaps the last.
   * A reader that has looked at the schema first gives the rows too, either way, but all at once with the names twice.
   */
  method WriteThenRead(columns: seq<Column>, batches: seq<seq<Row>>, schemaFirst: bool)
    returns (names: seq<Column>, all: seq<Row>, chunks: seq<seq<Row>>)
    requires TableOk(Table(columns, Flatten(batches)))
    ensures all == PaddedRows(Flatten(batches), |columns|)
    ensures Flatten(chunks) == all && WellChunked(chunks)
    ensures names == columns <==> !schemaFirst || columns == []
  {
    ghost var t := Table(columns, Flatten(batches));
    ghost var raws := RawRows(t.rows, |columns|);
    RowsComeBack(t, ToValue);
    RowsComeBack(t, ToVector);
    RawWidth(t.rows, |columns|);
    var file := WriteTable(columns, batches);
    names, all := ReadTable(file, schemaFirst, columns, raws);
    chunks := ReadChunks(file, Types(columns), schemaFirst, columns, raws);
  }
}

/** The prefix-free byte encoding of a row's group columns. */
module CompositeKey {
  import opened Bits
  import opened Seals

  datatype TypeId =
    | BOOLEAN | TINYINT | UTINYINT | SMALLINT | USMALLINT | INTEGER | DATE | UINTEGER
    | BIGINT | TIMESTAMP | TIMESTAMP_TZ | TIME | UBIGINT | FLOAT | DOUBLE | HUGEINT | VARCHAR | BLOB

  /** A cell of a column: null, a number (a float by its bit pattern), or bytes. */
  datatype Cell = NullCell | Number(n: int) | Text(bytes: Bytes)

  /** A decoded cell, tagged with its type. */
  datatype Value = NullValue | NumberOf(tid: TypeId, n: int) | TextOf(tid: TypeId, bytes: Bytes)

  // ---- numbers as little-endian bytes ----

  predicate IsText(tid: TypeId) {
    tid.VARCHAR? || tid.BLOB?
  }

  /** Bytes of a fixed-width type. */
  function Width(tid: TypeId): nat {
    match tid
    case BOOLEAN | TINYINT | UTINYINT => 1
    case SMALLINT | USMALLINT => 2
    case INTEGER | DATE | UINTEGER | FLOAT => 4
    case BIGINT | TIMESTAMP | TIMESTAMP_TZ | TIME | UBIGINT | DOUBLE => 8
    case HUGEINT => 16
    case VARCHAR | BLOB => 0
  }

  predicate Signed(tid: TypeId) {
    match tid
    case TINYINT | SMALLINT | INTEGER | DATE | BIGINT | TIMESTAMP | TIMESTAMP_TZ | TIME | HUGEINT => true
    case _ => false
  }

  function Pow256(w: nat): (r: nat)
    ensures r > 0
  {
    if w == 0 then 1 else 256 * Pow256(w - 1)
  }

  /** The range of a number of `w` bytes. */
  predicate Fits(v: int, w: nat, signed: bool) {
    if signed then 0 <= 2 * v + Pow256(w) < 2 * Pow256(w) else 0 <= v < Pow256(w)
  }

  function LE(n: nat, w: nat): (r: Bytes)
    ensures |r| == w
  {
    if w == 0 then [] else [n % 256] + LE(n / 256, w - 1)
  }

  function FromLE(b: Bytes): nat {
    if b == [] then 0 else b[0] + 256 * FromLE(b[1..])
  }

  lemma {:induction false} LEInverse(n: nat, w: nat)
    requires n < Pow256(w)
    ensures FromLE(LE(n, w)) == n
  {
    if w > 0 {
      LEInverse(n / 256, w - 1);
      assert LE(n, w)[1..] == LE(n / 256, w - 1);
    }
  }

  /** Two's complement. */
  function Wrap(v: int, w: nat): nat
    requires Fits(v, w, true) || Fits(v, w, false)
  {
    if v < 0 then v + Pow256(w) else v
  }

  function Unwrap(n: nat, w: nat, signed: bool): int {
    if signed && 2 * n >= Pow256(w) then n - Pow256(w) else n
  }

  /** The bytes of a number in memory; a huge integer keeps its upper half first. */
  function Raw(v: int, tid: TypeId): (r: Bytes)
    requires !IsText(tid) && Fits(v, Width(tid), Signed(tid))
    ensures |r| == Width(tid)
  {
    if tid.HUGEINT? then RawHuge(v, 8) else LE(Wrap(v, Width(tid)), Width(tid))
  }

  /** The halves of a huge integer, `h` bytes each: signed upper, unsigned lower. */
  function Upper(v: int, h: nat): int {
    v / Pow256(h)
  }

  function Lower(v: int, h: nat): (r: nat) {
    v % Pow256(h)
  }

  function RawHuge(v: int, h: nat): (r: Bytes)
    requires h > 0 && Fits(v, h + h, true)
    ensures |r| == h + h
  {
    HugeHalves(v, h);
    LE(Wrap(Upper(v, h), h), h) + LE(Lower(v, h), h)
  }

  lemma HugeHalves(v: int, h: nat)
    requires h > 0 && Fits(v, h + h, true)
    ensures Fits(Upper(v, h), h, true) && Fits(Lower(v, h), h, false) && v == Upper(v, h) * Pow256(h) + Lower(v, h)
  {
    Pow256Plus(h, h);
    EvenPow(h);
    DivSplit(v, Pow256(h));
    HalvesFit(v, Pow256(h), Upper(v, h), Lower(v, h));
  }

  lemma EvenPow(h: nat)
    requires h > 0
    ensures Pow256(h) % 2 == 0
  {
    assert Pow256(h) == 2 * (128 * Pow256(h - 1));
  }

  lemma DivSplit(v: int, p: int)
    requires p > 0
    ensures v == (v / p) * p + v % p && 0 <= v % p < p
  {
  }

  lemma HalvesFit(v: int, p: int, q: int, r: int)
    requires p > 0 && v == q * p + r && 0 <= r < p && -(p * p) <= 2 * v < p * p
    requires p % 2 == 0
    ensures -p <= 2 * q < p
  {
    if 2 * q >= p {
      TooLarge(q, p);
    }
    if 2 * q + 2 <= -p {
      TooSmall(q, p);
    }
  }

  lemma TooLarge(q: int, p: int)
    requires p > 0 && 2 * q >= p
    ensures 2 * (q * p) >= p * p
  {
    MulNonNegative(2 * q - p, p);
    assert (2 * q - p) * p == 2 * (q * p) - p * p;
  }

  lemma TooSmall(q: int, p: int)
    requires p > 0 && 2 * q + 2 <= -p
    ensures 2 * (q * p) + 2 * p <= -(p * p)
  {
    MulNonNegative(-p - 2 * q - 2, p);
    assert (-p - 2 * q - 2) * p == -(p * p) - 2 * (q * p) - 2 * p;
  }

  lemma MulNonNegative(a: int, b: int)
    requires a >= 0 && b >= 0
    ensures a * b >= 0
  {
  }

  lemma {:induction false} Pow256Plus(i: nat, j: nat)
    ensures Pow256(i + j) == Pow256(i) * Pow256(j)
  {
    if i > 0 {
      Pow256Plus(i - 1, j);
      assert i - 1 + j == i + j - 1;
    }
  }

  function FromRaw(b: Bytes, tid: TypeId): int
    requires !IsText(tid) && |b| == Width(tid)
  {
    if tid.HUGEINT? then FromRawHuge(b, 8) else Unwrap(FromLE(b), Width(tid), Signed(tid))
  }

  function FromRawHuge(b: Bytes, h: nat): int
    requires |b| == h + h
  {
    Unwrap(FromLE(b[..h]), h, true) * Pow256(h) + FromLE(b[h..])
  }

  lemma RawHugeInverse(v: int, h: nat)
    requires h > 0 && Fits(v, h + h, true)
    ensures FromRawHuge(RawHuge(v, h), h) == v
  {
    HugeHalves(v, h);
    var hi, lo := LE(Wrap(Upper(v, h), h), h), LE(Lower(v, h), h);
    assert (hi + lo)[..h] == hi && (hi + lo)[h..] == lo;
    UnwrapWrap(Upper(v, h), h, true);
    LEInverse(Wrap(Upper(v, h), h), h);
    LEInverse(Lower(v, h), h);
  }

  lemma UnwrapWrap(v: int, w: nat, signed: bool)
    requires Fits(v, w, signed)
    ensures Wrap(v, w) < Pow256(w) && Unwrap(Wrap(v, w), w, signed) == v
  {
  }

  lemma RawInverse(v: int, tid: TypeId)
    requires !IsText(tid) && Fits(v, Width(tid), Signed(tid))
    ensures FromRaw(Raw(v, tid), tid) == v
  {
    var w := Width(tid);
    if tid.HUGEINT? {
      RawHugeInverse(v, 8);
    } else {
      UnwrapWrap(v, w, Signed(tid));
      LEInverse(Wrap(v, w), w);
    }
  }

  // ---- one cell ----

  const MAX_TEXT: nat := 0xFFFF_FFFF

  /** The cell is one its column's type can hold. */
  predicate CellOk(c: Cell, tid: TypeId) {
    match c
    case NullCell => true
    case Number(n) => !IsText(tid) && (if tid.BOOLEAN? then 0 <= n <= 1 else Fits(n, Width(tid), Signed(tid)))
    case Text(b) => IsText(tid) && |b| <= MAX_TEXT
  }

  lemma BoolFits(n: int)
    requires 0 <= n <= 1
    ensures Fits(n, 1, false)
  {
    assert Pow256(1) == 256 * Pow256(0);
  }

  /** The bytes appended for one cell: a presence tag, then the payload its type asks for. */
  function EncodeCell(c: Cell, tid: TypeId): (r: Bytes)
    requires CellOk(c, tid)
    ensures r != []
  {
    match c
    case NullCell => [0]
    case Number(n) => (if tid.BOOLEAN? then BoolFits(n); [1] + Raw(n, tid) else [1] + Raw(n, tid))
    case Text(b) => [1] + LE(|b|, 4) + b
  }

  /** Time stamps with a zone come back without one. */
  function Decoded(tid: TypeId): TypeId {
    if tid.TIMESTAMP_TZ? then TIMESTAMP else tid
  }

  function ValueOf(c: Cell, tid: TypeId): Value {
    match c
    case NullCell => NullValue
    case Number(n) => NumberOf(Decoded(tid), n)
    case Text(b) => TextOf(tid, b)
  }

  /** A value and where the cursor stands after it; nothing when the bytes do not hold one. */
  datatype Read = Read(v: Value, next: nat) | Short

  /** Decodes the cell at `p`. */
  function DecodeCell(b: Bytes, p: nat, tid: TypeId): Read {
    if p >= |b| then Short
    else if b[p] == 0 then Read(NullValue, p + 1)
    else if IsText(tid) then
      if p + 5 > |b| then Short
      else
        var n := FromLE(b[p + 1..p + 5]);
        if p + 5 + n > |b| then Short else Read(TextOf(tid, b[p + 5..p + 5 + n]), p + 5 + n)
    else if p + 1 + Width(tid) > |b| then Short
    else Read(NumberOf(Decoded(tid), FromRaw(b[p + 1..p + 1 + Width(tid)], tid)), p + 1 + Width(tid))
  }

  /** Decoding finds the encoded cell wherever it stands, and stops right after it. */
  lemma DecodesCell(pre: Bytes, c: Cell, tid: TypeId, post: Bytes)
    requires CellOk(c, tid)
    ensures DecodeCell(pre + (EncodeCell(c, tid) + post), |pre|, tid)
         == Read(ValueOf(c, tid), |pre| + |EncodeCell(c, tid)|)
  {
    var e := EncodeCell(c, tid);
    var b, p := pre + (e + post), |pre|;
    assert b[p..p + |e|] == e;
    assert b[p] == e[0];
    match c
    case NullCell =>
    case Number(n) => DecodesNumber(b, p, n, tid);
    case Text(t) => DecodesText(b, p, t, tid);
  }

  lemma DecodesNumber(b: Bytes, p: nat, n: int, tid: TypeId)
    requires CellOk(Number(n), tid)
    requires var e := EncodeCell(Number(n), tid); p + |e| <= |b| && b[p..p + |e|] == e
    ensures DecodeCell(b, p, tid) == Read(ValueOf(Number(n), tid), p + |EncodeCell(Number(n), tid)|)
  {
    var e := EncodeCell(Number(n), tid);
    if tid.BOOLEAN? {
      BoolFits(n);
    }
    RawInverse(n, tid);
    assert b[p] == e[0] && e[1..] == Raw(n, tid);
    SliceWithin(b, p, e, 1, |e|);
  }

  lemma SliceWithin(b: Bytes, p: nat, e: Bytes, lo: nat, hi: nat)
    requires p + |e| <= |b| && b[p..p + |e|] == e && lo <= hi <= |e|
    ensures b[p + lo..p + hi] == e[lo..hi]
  {
    var x, y := b[p + lo..p + hi], e[lo..hi];
    forall k | 0 <= k < |x| ensures x[k] == y[k] {
      assert b[p..p + |e|][lo + k] == e[lo + k];
    }
  }

  lemma DecodesText(b: Bytes, p: nat, t: Bytes, tid: TypeId)
    requires CellOk(Text(t), tid)
    requires var e := EncodeCell(Text(t), tid); p + |e| <= |b| && b[p..p + |e|] == e
    ensures DecodeCell(b, p, tid) == Read(ValueOf(Text(t), tid), p + |EncodeCell(Text(t), tid)|)
  {
    var e := EncodeCell(Text(t), tid);
    LengthFits(|t|);
    LEInverse(|t|, 4);
    assert |e| == 5 + |t| && b[p] == e[0] && e[1..5] == LE(|t|, 4) && e[5..] == t;
    SliceWithin(b, p, e, 1, 5);
    SliceWithin(b, p, e, 5, |e|);
  }

  lemma LengthFits(n: nat)
    requires n <= MAX_TEXT
    ensures n < Pow256(4)
  {
    assert Pow256(4) == 0x1_0000_0000;
  }

  // ---- a row of cells ----

  predicate RowOk(cells: seq<Cell>, types: seq<TypeId>) {
    |cells| == |types| && forall g :: 0 <= g < |types| ==> CellOk(cells[g], types[g])
  }

  function EncodeRow(cells: seq<Cell>, types: seq<TypeId>): Bytes
    requires RowOk(cells, types)
  {
    if types == [] then [] else EncodeCell(cells[0], types[0]) + EncodeRow(cells[1..], types[1..])
  }

  function ValuesOf(cells: seq<Cell>, types: seq<TypeId>): (r: seq<Value>)
    requires |cells| == |types|
    ensures |r| == |types| && forall g :: 0 <= g < |types| ==> r[g] == ValueOf(cells[g], types[g])
  {
    seq(|types|, g requires 0 <= g < |types| => ValueOf(cells[g], types[g]))
  }

  /** What is left of a key once `g` cells have been read. */
  ghost predicate Rest(key: Bytes, p: nat, cells: seq<Cell>, types: seq<TypeId>, g: nat)
    requires RowOk(cells, types) && g <= |types|
  {
    forall seal: Seal :: RestOpen(seal, key, p, cells, types, g)
  }

  ghost predicate RestOpen(seal: Seal, key: Bytes, p: nat, cells: seq<Cell>, types: seq<TypeId>, g: nat)
    requires RowOk(cells, types) && g <= |types|
  {
    p <= |key| && key[p..] == EncodeRow(cells[g..], types[g..])
  }

  lemma CloseRest(key: Bytes, p: nat, cells: seq<Cell>, types: seq<TypeId>, g: nat)
    requires RowOk(cells, types) && g <= |types| && RestOpen(Seal, key, p, cells, types, g)
    ensures Rest(key, p, cells, types, g)
  {
    forall seal: Seal ensures RestOpen(seal, key, p, cells, types, g) {
      assert seal == Seal;
    }
  }

  lemma RestStep(key: Bytes, p: nat, cells: seq<Cell>, types: seq<TypeId>, g: nat)
    requires RowOk(cells, types) && g < |types| && Rest(key, p, cells, types, g)
    ensures var r := DecodeCell(key, p, types[g]);
      r.Read? && r.v == ValueOf(cells[g], types[g]) && Rest(key, r.next, cells, types, g + 1)
  {
    assert RestOpen(Seal, key, p, cells, types, g);
    var e, more := EncodeCell(cells[g], types[g]), EncodeRow(cells[g + 1..], types[g + 1..]);
    assert cells[g..][1..] == cells[g + 1..] && types[g..][1..] == types[g + 1..];
    assert key[p..] == e + more;
    assert key == key[..p] + (e + more);
    DecodesCell(key[..p], cells[g], types[g], more);
    assert key[p + |e|..] == key[p..][|e|..] == more;
    CloseRest(key, p + |e|, cells, types, g + 1);
  }

  /** The row decoder of the emit step: one cell after the other. */
  method DecodeRow(key: Bytes, types: seq<TypeId>, ghost cells: seq<Cell>) returns (row: seq<Value>)
    requires RowOk(cells, types) && key == EncodeRow(cells, types)
    ensures row == ValuesOf(cells, types)
  {
    row := [];
    var p := 0;
    WholeRest(key, cells, types);
    for g := 0 to |types|
      invariant 0 <= p && Rest(key, p, cells, types, g)
      invariant row == ValuesOf(cells, types)[..g]
    {
      var v;
      v, p := DecodeNext(key, p, types, cells, g);
      NextValue(cells, types, g);
      row := row + [v];
    }
  }

  lemma NextValue(cells: seq<Cell>, types: seq<TypeId>, g: nat)
    requires |cells| == |types| && g < |types|
    ensures ValuesOf(cells, types)[..g] + [ValueOf(cells[g], types[g])] == ValuesOf(cells, types)[..g + 1]
  {
  }

  lemma WholeRest(key: Bytes, cells: seq<Cell>, types: seq<TypeId>)
    requires RowOk(cells, types) && key == EncodeRow(cells, types)
    ensures Rest(key, 0, cells, types, 0)
  {
    assert key[0..] == key && cells[0..] == cells && types[0..] == types;
    CloseRest(key, 0, cells, types, 0);
  }

  method DecodeNext(key: Bytes, p: nat, types: seq<TypeId>, ghost cells: seq<Cell>, g: nat) returns (v: Value, q: nat)
    requires RowOk(cells, types) && g < |types| && Rest(key, p, cells, types, g)
    ensures v == ValueOf(cells[g], types[g]) && Rest(key, q, cells, types, g + 1)
  {
    RestStep(key, p, cells, types, g);
    var r := DecodeCell(key, p, types[g]);
    v, q := r.v, r.next;
  }

  lemma SameCell(a: Cell, b: Cell, tid: TypeId, x: Bytes, y: Bytes)
    requires CellOk(a, tid) && CellOk(b, tid)
    requires EncodeCell(a, tid) + x == EncodeCell(b, tid) + y
    ensures a == b && x == y
  {
    DecodesCell([], a, tid, x);
    DecodesCell([], b, tid, y);
    var s := EncodeCell(a, tid) + x;
    assert [] + s == s;
    assert x == s[|EncodeCell(a, tid)|..] && y == s[|EncodeCell(b, tid)|..];
  }

  /** Prefix-free and collision-free: equal bytes, whatever follows, mean equal rows. */
  lemma {:induction false} SameRow(a: seq<Cell>, b: seq<Cell>, types: seq<TypeId>, x: Bytes, y: Bytes)
    requires RowOk(a, types) && RowOk(b, types)
    requires EncodeRow(a, types) + x == EncodeRow(b, types) + y
    ensures a == b && x == y
  {
    if types == [] {
      assert EncodeRow(a, types) + x == x && EncodeRow(b, types) + y == y;
    } else {
      EncodeStep(a, types, x);
      EncodeStep(b, types, y);
      SameCell(a[0], b[0], types[0], EncodeRow(a[1..], types[1..]) + x, EncodeRow(b[1..], types[1..]) + y);
      SameRow(a[1..], b[1..], types[1..], x, y);
      assert a == [a[0]] + a[1..] && b == [b[0]] + b[1..];
    }
  }

  lemma EncodeStep(a: seq<Cell>, types: seq<TypeId>, x: Bytes)
    requires RowOk(a, types) && types != []
    ensures EncodeRow(a, types) + x == EncodeCell(a[0], types[0]) + (EncodeRow(a[1..], types[1..]) + x)
  {
  }

  /** Two rows have the same key if and only if they are the same row. */
  lemma KeyIdentifiesRow(a: seq<Cell>, b: seq<Cell>, types: seq<TypeId>)
    requires RowOk(a, types) && RowOk(b, types)
    ensures EncodeRow(a, types) == EncodeRow(b, types) <==> a == b
  {
    if EncodeRow(a, types) == EncodeRow(b, types) {
      SameRow(a, b, types, [], []);
    }
  }
}

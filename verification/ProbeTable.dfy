/** The layout of the open-addressing probe table: which row sits in which slot, and why probing finds it. */
module ProbeLayout {
  import opened Bits
  import opened GroupBy
  import opened Seals
  import opened Seqs

  const SHARD_BITS := 4
  const INIT_TABLE_CAP: nat := 256

  /** One group, with the hash kept inline so that resizing need not recompute it. */
  datatype Row<K> = Row(hash: u64, key: K, acc: Acc)

  /** The hash bits left once the shard bits are taken off. */
  function Shifted(h: u64): (s: nat)
    ensures s < 0x1000_0000_0000_0000
  {
    h / 16
  }

  function Salt(h: u64): (t: nat)
    ensures t < 0x1000
  {
    Shifted(h) / TWO_48
  }

  /** What a table word means: empty, or a row index tagged with the row's salt. */
  datatype Entry = Empty | Used(tag: nat, row: nat)

  /** The word for an entry: the salt above, one plus the row index in the low 48 bits; zero when empty. */
  function Encode(e: Entry): nat {
    match e
    case Empty => 0
    case Used(tag, row) => tag * TWO_48 + row + 1
  }

  predicate Encodable(e: Entry) {
    e.Used? ==> e.tag < 0x1000 && e.row + 1 < TWO_48
  }

  function Home(h: u64, cap: nat): (p: nat)
    requires cap > 0
    ensures p < cap
  {
    Rem(Shifted(h), cap)
  }

  function Next(p: nat, cap: nat): nat {
    if p + 1 == cap then 0 else p + 1
  }

  /** Is `q` met when walking cyclically from `from` up to, but not including, `to`? */
  predicate InRun(from: nat, q: nat, to: nat) {
    if from <= to then from <= q < to else q >= from || q < to
  }

  lemma EncodeRoundTrip(e: Entry)
    requires Encodable(e)
    ensures Encode(e) < TWO_64
    ensures Encode(e) == 0 <==> e.Empty?
    ensures e.Used? ==> Encode(e) / TWO_48 == e.tag && Encode(e) % TWO_48 == e.row + 1
  {
  }

  // ---- the word operations the code uses ----

  lemma HomeOps(h: u64, bits: nat)
    ensures And(Shr(h, SHARD_BITS), Pow2(bits) - 1) == Home(h, Pow2(bits))
  {
    Pow2Of48();
    QuotIsDiv(h, 16);
    AndMask(Shifted(h), bits);
    RemIsMod(Shifted(h), Pow2(bits));
  }

  lemma SaltOps(h: u64)
    ensures Shr(Shr(h, SHARD_BITS), 48) == Salt(h)
  {
    Pow2Of48();
    QuotIsDiv(h, 16);
    QuotIsDiv(Shifted(h), TWO_48);
  }

  lemma EntryOps(salt: nat, i: nat)
    requires i + 1 < TWO_48
    ensures Or(Shl(salt, 48), i + 1) == Encode(Used(salt, i))
  {
    Pow2Of48();
    OrShifted(salt, i + 1, 48);
  }

  lemma StepOps(pos: nat, bits: nat)
    requires pos < Pow2(bits)
    ensures And(pos + 1, Pow2(bits) - 1) == Next(pos, Pow2(bits))
  {
    AndMask(pos + 1, bits);
    if pos + 1 == Pow2(bits) {
      ModUnique(pos + 1, Pow2(bits), 1, 0);
    } else {
      ModUnique(pos + 1, Pow2(bits), 0, pos + 1);
    }
  }

  lemma TagOps(v: u64)
    ensures Shr(v, 48) == v / TWO_48
    ensures And(v, TWO_48 - 1) == v % TWO_48
  {
    Pow2Of48();
    QuotIsDiv(v, TWO_48);
    AndMask(v, 48);
  }

  /** How far the walk still is from slot `e`. */
  function CyclicDistance(p: nat, e: nat, cap: nat): int {
    if p <= e then e - p else e + cap - p
  }

  // ---- the invariant of the table, over the salts and homes of the rows ----

  ghost predicate Layout(tags: seq<nat>, homes: seq<nat>, slot: seq<nat>, img: seq<Entry>) {
    && |tags| == |homes| == |slot|
    // each row sits in its slot, tagged with its salt
    && (forall i :: 0 <= i < |slot| ==> slot[i] < |img| && img[slot[i]] == Used(tags[i], i))
    // each used slot holds the row it names
    && (forall p :: 0 <= p < |img| && img[p].Used? ==> img[p].row < |slot| && slot[img[p].row] == p)
    // no empty slot lies between a row's home and its slot
    && (forall i :: 0 <= i < |slot| ==> Walked(homes[i], slot[i], img))
  }

  /** The walk from `home` to `pos` met only occupied slots. */
  ghost predicate Walked(home: nat, pos: nat, img: seq<Entry>) {
    forall q :: 0 <= q < |img| && InRun(home, q, pos) ==> img[q].Used?
  }

  /** Writing a new row into the first empty slot of its walk keeps the layout. */
  lemma InsertKeepsLayout(tags: seq<nat>, homes: seq<nat>, slot: seq<nat>, img: seq<Entry>,
                          tag: nat, home: nat, pos: nat)
    requires Layout(tags, homes, slot, img)
    requires pos < |img| && img[pos].Empty?
    requires Walked(home, pos, img)
    ensures Layout(tags + [tag], homes + [home], slot + [pos], img[pos := Used(tag, |slot|)])
  {
    var img' := img[pos := Used(tag, |slot|)];
    forall i | 0 <= i < |slot| ensures Walked(homes[i], slot[i], img') {
      assert Walked(homes[i], slot[i], img);
    }
  }

  /** A walk that ends at an empty slot has met the slot of every row with that home. */
  lemma EmptyEndsWalk(tags: seq<nat>, homes: seq<nat>, slot: seq<nat>, img: seq<Entry>, pos: nat, i: nat)
    requires Layout(tags, homes, slot, img)
    requires pos < |img| && img[pos].Empty?
    requires i < |slot|
    ensures InRun(homes[i], slot[i], pos)
  {
    assert Walked(homes[i], slot[i], img);
    assert img[slot[i]].Used?;
  }

  /** Walking past the occupied slot `pos`, which is not the slot of row `j`, does not meet row `j`. */
  lemma StepPast(tags: seq<nat>, homes: seq<nat>, slot: seq<nat>, img: seq<Entry>, pos: nat, j: nat)
    requires Layout(tags, homes, slot, img)
    requires pos < |img| && img[pos].Used? && j < |slot| && img[pos].row != j
    requires !InRun(homes[j], slot[j], pos)
    ensures !InRun(homes[j], slot[j], Next(pos, |img|))
  {
    assert img[slot[j]] == Used(tags[j], j);
  }

  /** A used slot names a row and carries its tag. */
  lemma Names(tags: seq<nat>, homes: seq<nat>, slot: seq<nat>, img: seq<Entry>, pos: nat)
    requires Layout(tags, homes, slot, img)
    requires pos < |img| && img[pos].Used?
    ensures img[pos].row < |slot| && img[pos].tag == tags[img[pos].row]
  {
    assert slot[img[pos].row] == pos;
  }

  lemma WalkOn(home: nat, pos: nat, img: seq<Entry>)
    requires pos < |img| && img[pos].Used?
    requires Walked(home, pos, img)
    ensures Walked(home, Next(pos, |img|), img)
  {
  }

  /** What a walk learns at an occupied slot: the row it names, and that it may go on unless that is row `j`. */
  lemma Examine(tags: seq<nat>, homes: seq<nat>, slot: seq<nat>, img: seq<Entry>,
                home: nat, pos: nat, present: bool, j: nat)
    requires Layout(tags, homes, slot, img)
    requires pos < |img| && img[pos].Used? && Walked(home, pos, img)
    requires present ==> j < |slot| && homes[j] == home && !InRun(home, slot[j], pos)
    ensures img[pos].row < |slot| && img[pos].tag == tags[img[pos].row]
    ensures Walked(home, Next(pos, |img|), img)
    ensures present && img[pos].row != j ==> !InRun(home, slot[j], Next(pos, |img|))
  {
    Names(tags, homes, slot, img, pos);
    WalkOn(home, pos, img);
    if present && img[pos].row != j {
      StepPast(tags, homes, slot, img, pos, j);
    }
  }

  /** A table with more slots than rows has an empty slot. */
  lemma SomeEmpty(tags: seq<nat>, homes: seq<nat>, slot: seq<nat>, img: seq<Entry>) returns (e: nat)
    requires Layout(tags, homes, slot, img)
    requires |slot| < |img|
    ensures e < |img| && img[e].Empty?
  {
    e := Unused(slot, |img|);
  }

  // ---- the groups a row vector holds ----

  /** `at` gives the one row of each key. */
  ghost predicate Indexed<K(!new)>(rows: seq<Row<K>>, at: map<K, nat>) {
    && (forall i :: 0 <= i < |rows| ==> rows[i].key in at && at[rows[i].key] == i)
    && (forall k :: k in at ==> at[k] < |rows| && rows[at[k]].key == k)
  }

  /** `groups` gives each key its row's accumulator. */
  ghost predicate Holds<K(!new)>(rows: seq<Row<K>>, at: map<K, nat>, groups: map<K, Acc>) {
    && Indexed(rows, at)
    && groups.Keys == at.Keys
    && (forall i :: 0 <= i < |rows| ==> rows[i].key in groups && groups[rows[i].key] == rows[i].acc)
  }

  ghost predicate WellFormedRow<K>(r: Row<K>, hashOf: K -> u64, n: nat) {
    r.hash == hashOf(r.key) && |r.acc.sum| == |r.acc.cnt| == n
  }

  ghost predicate WellFormedRows<K>(rows: seq<Row<K>>, hashOf: K -> u64, n: nat) {
    forall i :: 0 <= i < |rows| ==> WellFormedRow(rows[i], hashOf, n)
  }

  /** The salts and homes are those of the rows' hashes. */
  ghost predicate Addressed<K>(rows: seq<Row<K>>, tags: seq<nat>, homes: seq<nat>, cap: nat)
    requires cap > 0
  {
    && |rows| == |tags| == |homes|
    && forall i :: 0 <= i < |rows| ==> tags[i] == Salt(rows[i].hash) && homes[i] == Home(rows[i].hash, cap)
  }

  lemma HoldsAppend<K(!new)>(rows: seq<Row<K>>, at: map<K, nat>, groups: map<K, Acc>, r: Row<K>)
    requires Holds(rows, at, groups) && r.key !in at
    ensures Holds(rows + [r], at[r.key := |rows|], groups[r.key := r.acc])
  {
  }

  lemma HoldsSetAcc<K(!new)>(rows: seq<Row<K>>, at: map<K, nat>, groups: map<K, Acc>, i: nat, acc: Acc)
    requires Holds(rows, at, groups) && i < |rows|
    ensures Holds(rows[i := rows[i].(acc := acc)], at, groups[rows[i].key := acc])
  {
  }

  /**
   * The ghost bookkeeping of a shard: per row its salt, home and slot; per slot its entry; per key its row and
   * groups.
   */
  datatype Book<K> = Book(tags: seq<nat>, homes: seq<nat>, slot: seq<nat>, image: seq<Entry>,
                          rowOf: map<K, nat>, groups: map<K, Acc>)

  ghost predicate SealedBook<K(!new)>(seal: Seal, rows: seq<Row<K>>, b: Book<K>, hashOf: K -> u64, n: nat) {
    && |b.image| > 0
    && Layout(b.tags, b.homes, b.slot, b.image)
    && Addressed(rows, b.tags, b.homes, |b.image|)
    && WellFormedRows(rows, hashOf, n)
    && Holds(rows, b.rowOf, b.groups)
  }

  /** The bookkeeping describes the rows. */
  ghost predicate Consistent<K(!new)>(rows: seq<Row<K>>, b: Book<K>, hashOf: K -> u64, n: nat) {
    forall seal: Seal :: SealedBook(seal, rows, b, hashOf, n)
  }

  lemma OpenBook<K(!new)>(rows: seq<Row<K>>, b: Book<K>, hashOf: K -> u64, n: nat)
    requires Consistent(rows, b, hashOf, n)
    ensures SealedBook(Seal, rows, b, hashOf, n)
  {
  }

  ghost function BookRow<K(!new)>(b: Book<K>, r: Row<K>, idx: nat, pos: nat): Book<K>
    requires pos < |b.image|
  {
    Book(b.tags + [Salt(r.hash)], b.homes + [Home(r.hash, |b.image|)], b.slot + [pos],
         b.image[pos := Used(Salt(r.hash), idx)], b.rowOf[r.key := idx], b.groups[r.key := r.acc])
  }

  lemma AppendConsistent<K(!new)>(rows: seq<Row<K>>, b: Book<K>, hashOf: K -> u64, n: nat, r: Row<K>, pos: nat)
    requires Consistent(rows, b, hashOf, n) && WellFormedRow(r, hashOf, n)
    requires r.key !in b.groups
    requires pos < |b.image| && b.image[pos].Empty? && Walked(Home(r.hash, |b.image|), pos, b.image)
    ensures Consistent(rows + [r], BookRow(b, r, |rows|, pos), hashOf, n)
  {
    OpenBook(rows, b, hashOf, n);
    InsertKeepsLayout(b.tags, b.homes, b.slot, b.image, Salt(r.hash), Home(r.hash, |b.image|), pos);
    HoldsAppend(rows, b.rowOf, b.groups, r);
  }

  lemma RehomeConsistent<K(!new)>(rows: seq<Row<K>>, b: Book<K>, hashOf: K -> u64, n: nat,
                                  hs: seq<nat>, sl: seq<nat>, img: seq<Entry>)
    requires Consistent(rows, b, hashOf, n)
    requires |img| > 0 && Layout(b.tags, hs, sl, img) && |hs| == |rows|
    requires forall j :: 0 <= j < |rows| ==> hs[j] == Home(rows[j].hash, |img|)
    ensures Consistent(rows, b.(homes := hs, slot := sl, image := img), hashOf, n)
  {
    OpenBook(rows, b, hashOf, n);
  }

  lemma SetAccConsistent<K(!new)>(rows: seq<Row<K>>, b: Book<K>, hashOf: K -> u64, n: nat, i: nat, acc: Acc)
    requires Consistent(rows, b, hashOf, n)
    requires i < |rows| && |acc.sum| == |acc.cnt| == n
    ensures Consistent(rows[i := rows[i].(acc := acc)], b.(groups := b.groups[rows[i].key := acc]), hashOf, n)
  {
    OpenBook(rows, b, hashOf, n);
    HoldsSetAcc(rows, b.rowOf, b.groups, i, acc);
  }

  lemma {:induction false} HoldsSize<K(!new)>(rows: seq<Row<K>>, at: map<K, nat>, groups: map<K, Acc>)
    requires Holds(rows, at, groups)
    ensures |rows| == |groups|
  {
    assert |groups| == |groups.Keys|;
    if rows == [] {
      assert groups.Keys == {};
    } else {
      var k := Last(rows).key;
      HoldsSize(Init(rows), at - {k}, groups - {k});
      assert groups.Keys == (groups - {k}).Keys + {k};
    }
  }
}

/** One shard of the inline-row aggregator: a row vector and the probe table that indexes it. */
module ProbeTable {
  import opened Bits
  import opened GroupBy
  import opened Seals
  import opened ProbeLayout
  import opened Seqs
  import opened Sharding

  // ---- the bit-level steps ----

  /** Where the walk for hash `h` starts. */
  function StartOfWalk(h: u64, mask: nat, ghost bits: nat): (pos: nat)
    requires mask + 1 == Pow2(bits)
    ensures pos == Home(h, mask + 1)
  {
    HomeOps(h, bits);
    And(Shr(h, SHARD_BITS), mask)
  }

  /** The tag rows with hash `h` carry. */
  function TagOf(h: u64): (salt: nat)
    ensures salt == Salt(h)
  {
    SaltOps(h);
    Shr(Shr(h, SHARD_BITS), 48)
  }

  function NextSlot(pos: nat, mask: nat, ghost bits: nat): (p: nat)
    requires mask + 1 == Pow2(bits) && pos <= mask
    ensures p == Next(pos, mask + 1)
  {
    StepOps(pos, bits);
    And(pos + 1, mask)
  }

  function MakeEntry(salt: nat, low: nat, ghost h: u64): (v: u64)
    requires salt == Salt(h) && 0 < low < TWO_48
    ensures v == Encode(Used(salt, low - 1))
  {
    var idx: nat := low - 1;
    EntryOps(salt, idx);
    EncodeRoundTrip(Used(salt, idx));
    Or(Shl(salt, 48), low)
  }

  /** The word of a new row; its number, and that plus one, are 32 bits wide. */
  function NewEntry(h: u64, size: nat): (v: u64)
    requires size + 1 < TWO_32
    ensures v == Encode(Used(Salt(h), size))
  {
    NoWrap(size);
    var idx := size % TWO_32;
    MakeEntry(TagOf(h), (idx + 1) % TWO_32, h)
  }

  lemma NoWrap(size: nat)
    requires size + 1 < TWO_32
    ensures (size % TWO_32 + 1) % TWO_32 == size + 1
  {
  }

  function EntryTag(v: u64): (salt: nat)
    ensures salt == v / TWO_48
  {
    TagOps(v);
    Shr(v, 48)
  }

  function EntryLow(v: u64): (low: nat)
    ensures low == v % TWO_48
  {
    TagOps(v);
    And(v, TWO_48 - 1)
  }

  // ---- the per-aggregate loops ----

  /** The accumulator of a row that opens its group. */
  method FirstInputs(vals: seq<int>, valid: seq<bool>) returns (acc: Acc)
    requires |vals| == |valid|
    ensures acc == Contribution(vals, valid)
  {
    var sum, cnt := seq(|vals|, _ => 0), seq(|vals|, _ => 0);
    ghost var want := Contribution(vals, valid);
    for a := 0 to |vals|
      invariant |sum| == |cnt| == |vals|
      invariant forall j :: 0 <= j < a ==> sum[j] == want.sum[j] && cnt[j] == want.cnt[j]
    {
      if valid[a] {
        sum, cnt := sum[a := vals[a]], cnt[a := 1];
      } else {
        sum, cnt := sum[a := 0], cnt[a := 0];
      }
    }
    acc := Acc(1, sum, cnt);
  }

  /** Counts one more row in an existing group, aggregate by aggregate. */
  method AddInputs(cur: Acc, vals: seq<int>, valid: seq<bool>) returns (acc: Acc)
    requires |vals| == |valid| == |cur.sum| == |cur.cnt|
    ensures acc == Plus(cur, Contribution(vals, valid))
  {
    var sum, cnt := cur.sum, cur.cnt;
    ghost var c := Contribution(vals, valid);
    for a := 0 to |vals|
      invariant |sum| == |cnt| == |vals|
      invariant forall j :: 0 <= j < a ==> sum[j] == cur.sum[j] + c.sum[j] && cnt[j] == cur.cnt[j] + c.cnt[j]
      invariant forall j :: a <= j < |vals| ==> sum[j] == cur.sum[j] && cnt[j] == cur.cnt[j]
    {
      if valid[a] {
        sum, cnt := sum[a := sum[a] + vals[a]], cnt[a := cnt[a] + 1];
      }
    }
    acc := Acc(cur.count + 1, sum, cnt);
    VecAddPointwise(cur.sum, c.sum, sum);
    VecAddPointwise(cur.cnt, c.cnt, cnt);
  }

  /** Adds two accumulators of the same width. */
  method AddAccs(d: Acc, s: Acc) returns (acc: Acc)
    requires |d.sum| == |d.cnt| == |s.sum| == |s.cnt|
    ensures acc == Plus(d, s)
  {
    var sum, cnt := d.sum, d.cnt;
    for a := 0 to |d.sum|
      invariant |sum| == |cnt| == |d.sum|
      invariant forall j :: 0 <= j < a ==> sum[j] == d.sum[j] + s.sum[j] && cnt[j] == d.cnt[j] + s.cnt[j]
      invariant forall j :: a <= j < |d.sum| ==> sum[j] == d.sum[j] && cnt[j] == d.cnt[j]
    {
      sum, cnt := sum[a := sum[a] + s.sum[a]], cnt[a := cnt[a] + s.cnt[a]];
    }
    acc := Acc(d.count + s.count, sum, cnt);
    VecAddPointwise(d.sum, s.sum, sum);
    VecAddPointwise(d.cnt, s.cnt, cnt);
  }

  lemma VecAddPointwise(a: seq<int>, b: seq<int>, r: seq<int>)
    requires |a| == |b| == |r|
    requires forall j :: 0 <= j < |r| ==> r[j] == a[j] + b[j]
    ensures VecAdd(a, b) == r
  {
    forall j: nat | j < |r| ensures VecAdd(a, b)[j] == r[j] {
      assert At(VecAdd(a, b), j) == At(a, j) + At(b, j);
    }
  }

  /** The words of the table are those of `img`. */
  ghost predicate Mirrors(table: seq<u64>, img: seq<Entry>)
  {
    match |img| == |table|
    case false => false
    case true => forall p :: 0 <= p < |table| ==> Encodable(img[p]) && table[p] == Encode(img[p])
  }

  /** Writing an entry's word at `pos`. */
  lemma MirrorsStore(table: seq<u64>, img: seq<Entry>, pos: nat, h: u64, row: nat, word: u64)
    requires Mirrors(table, img) && pos < |table|
    requires row + 1 < TWO_48 && word == Encode(Used(Salt(h), row))
    ensures Mirrors(table[pos := word], img[pos := Used(Salt(h), row)])
  {
  }

  /** Below three quarters there is room for one more row. */
  lemma RoomForOne(n: nat, cap: nat, bits: nat)
    requires cap == Pow2(bits) && bits >= 2 && 4 * n < 3 * cap
    ensures 4 * (n + 1) <= 3 * cap
  {
    assert cap == 4 * Pow2(bits - 2);
  }

  lemma AbsorbHit<K>(g: map<K, Acc>, k: K, a: Acc, acc: Acc)
    requires k in g && acc == Plus(g[k], a)
    ensures g[k := acc] == Absorb(g, k, a)
  {
  }

  class ShardState<K(==, !new)> {
    const hashOf: K -> u64
    const numAggs: nat
    ghost const tid: nat                // whose shard this is
    ghost const sid: nat                // ... and which
    var rows: seq<Row<K>>
    var table: seq<u64>
    var mask: nat
    ghost var bits: nat                 // the capacity is two to this power
    ghost var book: Book<K>             // the bookkeeping; `book.groups` is the abstract value
    ghost var log: seq<Upd<K>>          // the input rows counted so far

    ghost predicate Valid()
      reads this
    {
      match book
      case Book(_, _, _, image, _, _) =>
        && mask + 1 == |table| == Pow2(bits)
        && bits >= 8
        && 4 * |rows| <= 3 * |table|
        && Mirrors(table, image)
        && Consistent(rows, book, hashOf, numAggs)
    }

    /** The groups are those of the rows counted so far. */
    ghost predicate Counted()
      reads this
    {
      book.groups == Fold(log)
    }

    ghost predicate Sealed(seal: Seal)
      reads this
    {
      Valid() && Counted()
    }

    /** The invariant as clients see it. */
    ghost predicate Ready()
      reads this
    {
      forall seal: Seal :: Sealed(seal)
    }

    lemma Unseal()
      requires Ready()
      ensures Valid() && Counted()
    {
      assert Sealed(Seal);
    }

    constructor (hashOf: K -> u64, numAggs: nat, ghost tid: nat, ghost sid: nat)
      ensures Ready() && log == []
      ensures this.hashOf == hashOf && this.numAggs == numAggs && this.tid == tid && this.sid == sid
    {
      this.hashOf, this.numAggs, this.tid, this.sid := hashOf, numAggs, tid, sid;
      rows, log := [], [];
      table := seq(INIT_TABLE_CAP, _ => 0);
      mask := INIT_TABLE_CAP - 1;
      bits := 8;
      book := Book([], [], [], seq(INIT_TABLE_CAP, _ => Empty), map[], map[]);
      new;
      Pow2Of48();
    }

    /** Puts row `i`, with hash `h`, into a table that holds the rows before it. */
    static method Reinsert(h: u64, i: nat, newTable: seq<u64>, ghost newBits: nat,
                           ghost tags: seq<nat>, ghost hs: seq<nat>, ghost sl: seq<nat>, ghost img: seq<Entry>)
      returns (newTable': seq<u64>, ghost pos: nat)
      requires i == |tags| && i + 1 < TWO_48 && i < |newTable|
      requires |newTable| == Pow2(newBits) && newBits >= 8
      requires Mirrors(newTable, img) && Layout(tags, hs, sl, img)
      ensures pos < |img| && |newTable'| == |newTable| && Mirrors(newTable', img[pos := Used(Salt(h), i)])
      ensures Layout(tags + [Salt(h)], hs + [Home(h, |newTable|)], sl + [pos], img[pos := Used(Salt(h), i)])
    {
      var salt := TagOf(h);
      var newMask := |newTable| - 1;
      var p := StartOfWalk(h, newMask, newBits);
      ghost var home := p;
      ghost var e := SomeEmpty(tags, hs, sl, img);
      while newTable[p] != 0
        invariant 0 <= p < |newTable| && Walked(home, p, img)
        decreases CyclicDistance(p, e, |newTable|)
      {
        EncodeRoundTrip(img[p]);
        WalkOn(home, p, img);
        p := NextSlot(p, newMask, newBits);
      }
      EncodeRoundTrip(img[p]);
      InsertKeepsLayout(tags, hs, sl, img, salt, home, p);
      newTable' := newTable[p := MakeEntry(salt, i + 1, h)];
      pos := p;
    }

    /** Rebuilds the table at a new capacity by reinserting every row. */
    method Resize(newCap: nat, ghost newBits: nat)
      requires Valid()
      requires newCap == Pow2(newBits) && newBits >= 8
      requires 4 * |rows| <= 3 * newCap && |rows| + 1 < TWO_48
      modifies this`table, this`mask, this`bits, this`book
      ensures Valid() && |table| == newCap
      ensures book.groups == old(book).groups
    {
      OpenBook(rows, book, hashOf, numAggs);
      var newTable;
      ghost var hs, sl, img;
      newTable, hs, sl, img := Rebuild(rows, newCap, newBits, book.tags);
      RehomeConsistent(rows, book, hashOf, numAggs, hs, sl, img);
      table, mask, bits := newTable, newCap - 1, newBits;
      book := book.(homes := hs, slot := sl, image := img);
    }

    /** A new table with every row put in, in order. */
    static method Rebuild(rows: seq<Row<K>>, newCap: nat, ghost newBits: nat, ghost tags: seq<nat>)
      returns (newTable: seq<u64>, ghost hs: seq<nat>, ghost sl: seq<nat>, ghost img: seq<Entry>)
      requires newCap == Pow2(newBits) && newBits >= 8 && 4 * |rows| <= 3 * newCap && |rows| + 1 < TWO_48
      requires |tags| == |rows| && forall j :: 0 <= j < |rows| ==> tags[j] == Salt(rows[j].hash)
      ensures |newTable| == newCap && Mirrors(newTable, img) && Layout(tags, hs, sl, img)
      ensures |hs| == |rows| && forall j :: 0 <= j < |rows| ==> hs[j] == Home(rows[j].hash, newCap)
    {
      newTable := seq(newCap, _ => 0);
      hs, sl, img := [], [], seq(newCap, _ => Empty);
      for i := 0 to |rows|
        invariant |newTable| == newCap && Mirrors(newTable, img)
        invariant |hs| == i && forall j :: 0 <= j < i ==> hs[j] == Home(rows[j].hash, newCap)
        invariant Layout(tags[..i], hs, sl, img)
      {
        var h := rows[i].hash;
        ghost var pos;
        newTable, pos := Reinsert(h, i, newTable, newBits, tags[..i], hs, sl, img);
        hs, sl, img := hs + [Home(h, newCap)], sl + [pos], img[pos := Used(Salt(h), i)];
        assert tags[..i + 1] == tags[..i] + [Salt(h)];
      }
      assert tags[..|rows|] == tags;
    }

    /** Doubles the table when it is three quarters full. */
    method EnsureCapForOneInsert()
      requires Valid() && |rows| < TWO_32
      modifies this`table, this`mask, this`bits, this`book
      ensures Valid()
      ensures book.groups == old(book).groups
      ensures 4 * |rows| < 3 * |table|
    {
      if |rows| * 4 >= |table| * 3 {
        Resize(|table| * 2, bits + 1);
      }
    }

    /** Grows the table so that `n` rows and one insertion fit. */
    method Reserve(n: nat)
      requires Ready() && |log| < TWO_32
      modifies this`table, this`mask, this`bits, this`book
      ensures Ready()
      ensures |table| >= |old(table)| && 4 * (n + 1) <= 3 * |table|
    {
      Unseal();
      SizeBound();
      var target := INIT_TABLE_CAP;
      ghost var b := 8;
      Pow2Of48();
      while target * 3 < (n + 1) * 4
        invariant target == Pow2(b) && b >= 8 && target >= 1
        decreases (n + 1) * 4 - target * 3
      {
        target := target * 2;
        b := b + 1;
      }
      if target > |table| {
        Resize(target, b);
      }
    }

    /** The probe loop. `j` is the row of `key`, if it is `present`. */
    static method Walk(key: K, rows: seq<Row<K>>, table: seq<u64>, mask: nat, start: nat, salt: nat,
                       ghost bits: nat, ghost b: Book<K>, ghost present: bool, ghost j: nat)
      returns (found: bool, at: nat)
      requires mask + 1 == |table| == Pow2(bits) && start < |table|
      requires Mirrors(table, b.image)
      requires Layout(b.tags, b.homes, b.slot, b.image) && |rows| == |b.slot| < |b.image|
      requires present ==> j < |rows| && rows[j].key == key && b.homes[j] == start && b.tags[j] == salt
      ensures found ==> at < |rows| && rows[at].key == key
      ensures !found ==> !present && at < |table| && b.image[at].Empty? && Walked(start, at, b.image)
    {
      var pos := start;
      ghost var e := SomeEmpty(b.tags, b.homes, b.slot, b.image);
      while true
        invariant 0 <= pos < |table|
        invariant Walked(start, pos, b.image)
        invariant present ==> !InRun(start, b.slot[j], pos)
        decreases CyclicDistance(pos, e, |table|)
      {
        var v := table[pos];
        EncodeRoundTrip(b.image[pos]);
        if v == 0 {
          if present {
            EmptyEndsWalk(b.tags, b.homes, b.slot, b.image, pos, j);
          }
          return false, pos;
        }
        Examine(b.tags, b.homes, b.slot, b.image, start, pos, present, j);
        if EntryTag(v) == salt {
          var idx := EntryLow(v) - 1;
          if rows[idx].key == key {
            return true, idx;
          }
        }
        pos := NextSlot(pos, mask, bits);
      }
    }

    /** Walks the table for `key`; ends at its row or at the empty slot where it belongs. */
    method Probe(h: u64, key: K) returns (found: bool, at: nat)
      requires Valid() && h == hashOf(key)
      requires 4 * |rows| < 3 * |table|
      ensures found <==> key in book.groups
      ensures found ==> at < |rows| && rows[at].key == key && book.groups[key] == rows[at].acc
      ensures found ==> |rows[at].acc.sum| == |rows[at].acc.cnt| == numAggs
      ensures !found ==> at < |table| && book.image[at].Empty? && Walked(Home(h, |table|), at, book.image)
    {
      OpenBook(rows, book, hashOf, numAggs);
      ghost var present := key in book.rowOf;
      ghost var j := if present then book.rowOf[key] else 0;
      found, at := Walk(key, rows, table, mask, StartOfWalk(h, mask, bits), TagOf(h), bits, book, present, j);
    }

    /** Appends a row whose key the shard lacks, at the empty slot its walk ended at. */
    method AppendRow(r: Row<K>, pos: nat)
      requires Valid() && WellFormedRow(r, hashOf, numAggs)
      requires 4 * |rows| < 3 * |table| && |rows| + 1 < TWO_32
      requires r.key !in book.groups
      requires pos < |table| && book.image[pos].Empty? && Walked(Home(r.hash, |table|), pos, book.image)
      modifies this`rows, this`book, this`table
      ensures Valid()
      ensures rows == old(rows) + [r]
      ensures book.groups == old(book).groups[r.key := r.acc]
    {
      AppendConsistent(rows, book, hashOf, numAggs, r, pos);
      RoomForOne(|rows|, |table|, bits);
      var word := NewEntry(r.hash, |rows|);
      MirrorsStore(table, book.image, pos, r.hash, |rows|, word);
      table := table[pos := word];
      book := BookRow(book, r, |rows|, pos);
      rows := rows + [r];
    }

    /** Replaces the accumulator of row `at`. */
    method SetAcc(at: nat, acc: Acc)
      requires Valid() && at < |rows| && |acc.sum| == |acc.cnt| == numAggs
      modifies this`rows, this`book
      ensures Valid() && |rows| == |old(rows)|
      ensures book.groups == old(book).groups[old(rows)[at].key := acc]
    {
      SetAccConsistent(rows, book, hashOf, numAggs, at, acc);
      book := book.(groups := book.groups[rows[at].key := acc]);
      rows := rows[at := rows[at].(acc := acc)];
    }

    /** Counts one input row. */
    method Update(h: u64, key: K, vals: seq<int>, valid: seq<bool>)
      requires Ready() && h == hashOf(key) && |vals| == |valid| == numAggs
      requires |log| + 1 < TWO_32
      modifies this
      ensures Ready() && log == old(log) + [Upd(key, vals, valid)]
    {
      Unseal();
      SizeBound();
      FoldSnoc(log, Upd(key, vals, valid));
      CountRow(h, key, vals, valid);
      Note([Upd(key, vals, valid)]);
    }

    /** Records that the table has caught up with `more` input rows. */
    ghost method Note(more: seq<Upd<K>>)
      requires Valid() && book.groups == Fold(log + more)
      modifies this`log
      ensures Ready() && log == old(log) + more
    {
      log := log + more;
      assert Valid();
    }

    method CountRow(h: u64, key: K, vals: seq<int>, valid: seq<bool>)
      requires Valid() && h == hashOf(key) && |vals| == |valid| == numAggs
      requires |rows| + 1 < TWO_32
      modifies this`rows, this`table, this`mask, this`bits, this`book
      ensures Valid()
      ensures book.groups == Absorb(old(book).groups, key, Contribution(vals, valid))
    {
      EnsureCapForOneInsert();
      var found, at := Probe(h, key);
      ghost var g := book.groups;
      if found {
        var acc := AddInputs(rows[at].acc, vals, valid);
        AbsorbHit(g, key, Contribution(vals, valid), acc);
        SetAcc(at, acc);
      } else {
        var acc := FirstInputs(vals, valid);
        AppendRow(Row(h, key, acc), at);
      }
    }

    /** There are no more rows than input rows. */
    lemma SizeBound()
      requires Valid() && Counted()
      ensures |rows| <= |log|
    {
      OpenBook(rows, book, hashOf, numAggs);
      HoldsSize(rows, book.rowOf, book.groups);
      FoldSize(log);
    }

    /** Adds a row of another shard to this one. */
    method MergeRow(sr: Row<K>)
      requires Valid() && WellFormedRow(sr, hashOf, numAggs)
      requires |rows| + 1 < TWO_32
      modifies this`rows, this`table, this`mask, this`bits, this`book
      ensures Valid()
      ensures book.groups == Absorb(old(book).groups, sr.key, sr.acc)
      ensures |rows| <= |old(rows)| + 1
    {
      EnsureCapForOneInsert();
      var found, at := Probe(sr.hash, sr.key);
      ghost var g := book.groups;
      if found {
        var acc := AddAccs(rows[at].acc, sr.acc);
        AbsorbHit(g, sr.key, sr.acc, acc);
        SetAcc(at, acc);
      } else {
        AppendRow(sr, at);
      }
    }

    method MergeRows(srcRows: seq<Row<K>>)
      requires Valid() && WellFormedRows(srcRows, hashOf, numAggs)
      requires |rows| + |srcRows| < TWO_32
      modifies this`rows, this`table, this`mask, this`bits, this`book
      ensures Valid()
      ensures book.groups == AbsorbRows(old(book).groups, srcRows)
    {
      for j := 0 to |srcRows|
        invariant Valid() && |rows| <= |old(rows)| + j
        invariant book.groups == AbsorbRows(old(book).groups, srcRows[..j])
      {
        assert Init(srcRows[..j + 1]) == srcRows[..j];
        MergeRow(srcRows[j]);
      }
      assert srcRows[..|srcRows|] == srcRows;
    }

    /** Adds every row of another shard to this one. */
    method MergeFrom(src: ShardState<K>)
      requires Ready() && src.Ready() && src != this
      requires src.hashOf == hashOf && src.numAggs == numAggs
      requires |log| + |src.log| < TWO_32
      modifies this
      ensures Ready() && log == old(log) + src.log
    {
      Unseal();
      SizeBound();
      src.MergeFacts(book.groups);
      FoldConcat(log, src.log);
      MergeRows(src.rows);
      Note(src.log);
    }

    /** What merging this shard's rows into the groups `m` amounts to. */
    lemma MergeFacts(m: map<K, Acc>)
      requires Ready()
      ensures |rows| <= |log| && WellFormedRows(rows, hashOf, numAggs)
      ensures AbsorbRows(m, rows) == Merge(m, Fold(log))
    {
      Unseal();
      SizeBound();
      OpenBook(rows, book, hashOf, numAggs);
      AbsorbRowsMerges(m, rows, book.rowOf, book.groups);
    }

    /** The rows, one per group, with their accumulators. */
    method Groups() returns (out: seq<(K, Acc)>)
      requires Ready()
      ensures Lists(out, Fold(log))
    {
      Unseal();
      out := [];
      for i := 0 to |rows|
        invariant |out| == i && forall j :: 0 <= j < i ==> out[j] == (rows[j].key, rows[j].acc)
      {
        out := out + [(rows[i].key, rows[i].acc)];
      }
      OpenBook(rows, book, hashOf, numAggs);
      RowsList(rows, book.rowOf, book.groups, out);
    }
  }

  lemma RowsList<K(!new)>(rows: seq<Row<K>>, at: map<K, nat>, groups: map<K, Acc>, out: seq<(K, Acc)>)
    requires Holds(rows, at, groups)
    requires |out| == |rows| && forall i :: 0 <= i < |rows| ==> out[i] == (rows[i].key, rows[i].acc)
    ensures Lists(out, groups)
  {
    forall k | k in groups ensures (k, groups[k]) in out {
      assert rows[at[k]].key == k;
      assert out[at[k]] == (k, groups[k]);
    }
  }

  /** The groups of a row vector, absorbed row by row. */
  ghost function AbsorbRows<K(!new)>(m: map<K, Acc>, rows: seq<Row<K>>): map<K, Acc> {
    if rows == [] then m else Absorb(AbsorbRows(m, Init(rows)), Last(rows).key, Last(rows).acc)
  }

  /** Absorbing all rows of a shard merges its groups. */
  lemma {:induction false} AbsorbRowsMerges<K(!new)>(m: map<K, Acc>, rows: seq<Row<K>>, at: map<K, nat>,
                                                     groups: map<K, Acc>)
    requires Holds(rows, at, groups)
    ensures AbsorbRows(m, rows) == Merge(m, groups)
  {
    if rows == [] {
      assert groups == map[];
    } else {
      var r := Last(rows);
      AbsorbRowsMerges(m, Init(rows), at - {r.key}, groups - {r.key});
      MergeAbsorb(m, groups - {r.key}, r.key, r.acc);
      assert Absorb(groups - {r.key}, r.key, r.acc) == groups;
    }
  }
}

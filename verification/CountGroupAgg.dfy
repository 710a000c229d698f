/** COUNT(*) GROUP BY several columns: one counter per composite key, and an optional top-n by count. */
module CountGroupAgg {
  import opened Bits
  import opened CompositeKey
  import opened Seals
  import opened Seqs
  import opened TopK

  type Group = seq<Cell>

  // ---- what the query means ----

  function Occurrences(log: seq<Group>, g: Group): nat {
    if log == [] then 0 else Occurrences(Init(log), g) + (if Last(log) == g then 1 else 0)
  }

  /** The distinct groups, in order of first appearance. */
  function FirstSeen(log: seq<Group>): seq<Group> {
    if log == [] then []
    else
      var rest := FirstSeen(Init(log));
      if Last(log) in rest then rest else rest + [Last(log)]
  }

  /** The first-seen groups are the groups that occur, each once. */
  lemma {:induction false} FirstSeenDistinct(log: seq<Group>)
    ensures forall i, j :: 0 <= i < j < |FirstSeen(log)| ==> FirstSeen(log)[i] != FirstSeen(log)[j]
    ensures forall g :: g in FirstSeen(log) <==> g in log
    ensures forall g :: g in log <==> Occurrences(log, g) > 0
  {
    if log != [] {
      FirstSeenDistinct(Init(log));
      assert log == Init(log) + [Last(log)];
    }
  }

  /** The row count of every group. */
  function CountsOf(log: seq<Group>): (r: seq<int>)
    ensures |r| == |FirstSeen(log)| && forall i :: 0 <= i < |r| ==> r[i] == Occurrences(log, FirstSeen(log)[i])
  {
    seq(|FirstSeen(log)|, i requires 0 <= i < |FirstSeen(log)| => Occurrences(log, FirstSeen(log)[i]))
  }

  function SumOf(s: seq<int>): int {
    if s == [] then 0 else SumOf(Init(s)) + Last(s)
  }

  /** An output row: the group's values, then its count once per COUNT(*) column. */
  datatype OutRow = OutRow(keys: seq<Value>, counts: seq<int>)

  function RowOf(g: Group, types: seq<TypeId>, count: int, numAggs: nat): OutRow
    requires |g| == |types|
  {
    OutRow(ValuesOf(g, types), seq(numAggs, _ => count))
  }

  lemma OccurrencesSnoc(log: seq<Group>, g: Group, h: Group)
    ensures Occurrences(log + [g], h) == Occurrences(log, h) + (if g == h then 1 else 0)
  {
    assert Init(log + [g]) == log;
  }

  lemma FirstSeenSnoc(log: seq<Group>, g: Group)
    ensures FirstSeen(log + [g]) == if g in FirstSeen(log) then FirstSeen(log) else FirstSeen(log) + [g]
  {
    assert Init(log + [g]) == log;
  }

  /** More rows, no fewer groups. */
  lemma {:induction false} FirstSeenGrows(log: seq<Group>, more: seq<Group>)
    ensures |FirstSeen(log)| <= |FirstSeen(log + more)|
  {
    if more == [] {
      assert log + more == log;
    } else {
      FirstSeenGrows(log, Init(more));
      assert log + more == (log + Init(more)) + [Last(more)];
      FirstSeenSnoc(log + Init(more), Last(more));
    }
  }

  /** One more row of a known group. */
  lemma CountsAgain(log: seq<Group>, i: nat, g: Group)
    requires i < |FirstSeen(log)| && FirstSeen(log)[i] == g
    ensures FirstSeen(log + [g]) == FirstSeen(log)
    ensures CountsOf(log + [g]) == CountsOf(log)[i := CountsOf(log)[i] + 1]
  {
    var groups := FirstSeen(log);
    var a, b := CountsOf(log + [g]), CountsOf(log)[i := CountsOf(log)[i] + 1];
    FirstSeenDistinct(log);
    FirstSeenSnoc(log, g);
    forall j | 0 <= j < |groups| ensures a[j] == b[j] {
      OccurrencesSnoc(log, g, groups[j]);
      assert i < j || j < i || i == j;
    }
  }

  /** The first row of a new group. */
  lemma CountsNew(log: seq<Group>, g: Group)
    requires g !in FirstSeen(log)
    ensures FirstSeen(log + [g]) == FirstSeen(log) + [g]
    ensures CountsOf(log + [g]) == CountsOf(log) + [1]
  {
    var groups := FirstSeen(log);
    var a, b := CountsOf(log + [g]), CountsOf(log) + [1];
    FirstSeenDistinct(log);
    FirstSeenSnoc(log, g);
    OccurrencesSnoc(log, g, g);
    forall j | 0 <= j < |groups| ensures a[j] == b[j] {
      OccurrencesSnoc(log, g, groups[j]);
      assert groups[j] in groups;
    }
  }

  // ---- counting ----

  /** The map numbers the groups in order of first appearance, and every counter is exact. */
  ghost predicate Counted(key2ord: map<Bytes, nat>, counts: seq<int>, log: seq<Group>, types: seq<TypeId>) {
    forall seal: Seal :: CountedOpen(seal, key2ord, counts, log, types)
  }

  ghost predicate CountedOpen(seal: Seal, key2ord: map<Bytes, nat>, counts: seq<int>, log: seq<Group>,
                              types: seq<TypeId>) {
    && RowsOk(log, types)
    && counts == CountsOf(log)
    && Numbered(key2ord, FirstSeen(log), types)
  }

  ghost predicate RowsOk(log: seq<Group>, types: seq<TypeId>) {
    forall g :: g in log ==> RowOk(g, types)
  }

  lemma RowsOkSnoc(log: seq<Group>, types: seq<TypeId>, g: Group)
    requires RowsOk(log, types) && RowOk(g, types)
    ensures RowsOk(log + [g], types)
  {
  }

  /** The map takes each group's key to the group's position, and nothing else is a key. */
  ghost predicate Numbered(key2ord: map<Bytes, nat>, groups: seq<Group>, types: seq<TypeId>) {
    forall seal: Seal :: NumberedOpen(seal, key2ord, groups, types)
  }

  lemma OpenNumbered(key2ord: map<Bytes, nat>, groups: seq<Group>, types: seq<TypeId>)
    requires Numbered(key2ord, groups, types)
    ensures NumberedOpen(Seal, key2ord, groups, types)
  {
  }

  lemma CloseNumbered(key2ord: map<Bytes, nat>, groups: seq<Group>, types: seq<TypeId>)
    requires NumberedOpen(Seal, key2ord, groups, types)
    ensures Numbered(key2ord, groups, types)
  {
    forall seal: Seal ensures NumberedOpen(seal, key2ord, groups, types) {
      assert seal == Seal;
    }
  }

  ghost predicate NumberedOpen(seal: Seal, key2ord: map<Bytes, nat>, groups: seq<Group>, types: seq<TypeId>) {
    && (forall i :: 0 <= i < |groups| ==>
          RowOk(groups[i], types) && EncodeRow(groups[i], types) in key2ord &&
            key2ord[EncodeRow(groups[i], types)] == i)
    && (forall k :: k in key2ord ==>
          key2ord[k] < |groups| && RowOk(groups[key2ord[k]], types) && EncodeRow(groups[key2ord[k]], types) == k)
  }

  lemma OpenCounted(key2ord: map<Bytes, nat>, counts: seq<int>, log: seq<Group>, types: seq<TypeId>)
    requires Counted(key2ord, counts, log, types)
    ensures CountedOpen(Seal, key2ord, counts, log, types)
  {
  }

  lemma CloseCounted(key2ord: map<Bytes, nat>, counts: seq<int>, log: seq<Group>, types: seq<TypeId>)
    requires CountedOpen(Seal, key2ord, counts, log, types)
    ensures Counted(key2ord, counts, log, types)
  {
    forall seal: Seal ensures CountedOpen(seal, key2ord, counts, log, types) {
      assert seal == Seal;
    }
  }

  /** A key is in the map if and only if its group has been seen. */
  lemma KeySeen(key2ord: map<Bytes, nat>, groups: seq<Group>, types: seq<TypeId>, g: Group)
    requires Numbered(key2ord, groups, types) && RowOk(g, types)
    ensures EncodeRow(g, types) in key2ord <==> g in groups
    ensures g in groups ==> key2ord[EncodeRow(g, types)] < |groups| && groups[key2ord[EncodeRow(g, types)]] == g
  {
    OpenNumbered(key2ord, groups, types);
    if EncodeRow(g, types) in key2ord {
      KeyIdentifiesRow(groups[key2ord[EncodeRow(g, types)]], g, types);
    }
    if g in groups {
      var i :| 0 <= i < |groups| && groups[i] == g;
    }
  }

  lemma CountedAgain(key2ord: map<Bytes, nat>, counts: seq<int>, log: seq<Group>, types: seq<TypeId>, g: Group, i: nat)
    requires Counted(key2ord, counts, log, types) && RowOk(g, types) && EncodeRow(g, types) in key2ord
    requires i == key2ord[EncodeRow(g, types)]
    ensures i < |counts| && Counted(key2ord, counts[i := counts[i] + 1], log + [g], types)
  {
    OpenCounted(key2ord, counts, log, types);
    KeySeen(key2ord, FirstSeen(log), types, g);
    CountedBump(key2ord, counts, log, types, g, i);
  }

  lemma CountedBump(key2ord: map<Bytes, nat>, counts: seq<int>, log: seq<Group>, types: seq<TypeId>, g: Group, i: nat)
    requires Counted(key2ord, counts, log, types) && RowOk(g, types)
    requires i < |FirstSeen(log)| && FirstSeen(log)[i] == g
    ensures i < |counts| && Counted(key2ord, counts[i := counts[i] + 1], log + [g], types)
  {
    OpenCounted(key2ord, counts, log, types);
    CountsAgain(log, i, g);
    RowsOkSnoc(log, types, g);
    CloseCounted(key2ord, counts[i := counts[i] + 1], log + [g], types);
  }

  lemma CountedNew(key2ord: map<Bytes, nat>, counts: seq<int>, log: seq<Group>, types: seq<TypeId>, g: Group)
    requires Counted(key2ord, counts, log, types) && RowOk(g, types) && EncodeRow(g, types) !in key2ord
    ensures Counted(key2ord[EncodeRow(g, types) := |counts|], counts + [1], log + [g], types)
  {
    OpenCounted(key2ord, counts, log, types);
    KeySeen(key2ord, FirstSeen(log), types, g);
    CountsNew(log, g);
    RowsOkSnoc(log, types, g);
    NumberedNew(key2ord, FirstSeen(log), types, g);
    CloseCounted(key2ord[EncodeRow(g, types) := |counts|], counts + [1], log + [g], types);
  }

  /** The ordinal of a new group is not cut. */
  lemma OrdinalFits(key2ord: map<Bytes, nat>, counts: seq<int>, log: seq<Group>, types: seq<TypeId>, g: Group)
    requires Counted(key2ord, counts, log, types) && RowOk(g, types) && EncodeRow(g, types) !in key2ord
    requires |FirstSeen(log + [g])| <= TWO_32
    ensures |counts| < TWO_32
  {
    OpenCounted(key2ord, counts, log, types);
    KeySeen(key2ord, FirstSeen(log), types, g);
    FirstSeenSnoc(log, g);
  }

  lemma NumberedNew(key2ord: map<Bytes, nat>, groups: seq<Group>, types: seq<TypeId>, g: Group)
    requires Numbered(key2ord, groups, types) && RowOk(g, types) && EncodeRow(g, types) !in key2ord
    ensures Numbered(key2ord[EncodeRow(g, types) := |groups|], groups + [g], types)
  {
    OpenNumbered(key2ord, groups, types);
    CloseNumbered(key2ord[EncodeRow(g, types) := |groups|], groups + [g], types);
  }

  /** The group columns of a child row. */
  function GroupOf(row: seq<Cell>, cols: seq<nat>): Group
    requires forall g :: 0 <= g < |cols| ==> cols[g] < |row|
  {
    seq(|cols|, g requires 0 <= g < |cols| => row[cols[g]])
  }

  /** Every row has the group columns, with cells their types can hold. */
  predicate ChunkOk(chunk: seq<seq<Cell>>, cols: seq<nat>, types: seq<TypeId>) {
    |cols| == |types| && forall r :: 0 <= r < |chunk| ==>
      (forall g :: 0 <= g < |cols| ==> cols[g] < |chunk[r]|) && RowOk(GroupOf(chunk[r], cols), types)
  }

  function GroupsOf(chunk: seq<seq<Cell>>, cols: seq<nat>, types: seq<TypeId>): (r: seq<Group>)
    requires ChunkOk(chunk, cols, types)
    ensures |r| == |chunk|
  {
    if chunk == [] then []
    else GroupsOf(Init(chunk), cols, types) + [GroupOf(Last(chunk), cols)]
  }

  /** The key of a row, appended cell by cell to an empty buffer. */
  method BuildKey(row: seq<Cell>, cols: seq<nat>, types: seq<TypeId>) returns (key: Bytes)
    requires |cols| == |types| && (forall g :: 0 <= g < |cols| ==> cols[g] < |row|) && RowOk(GroupOf(row, cols), types)
    ensures key == EncodeRow(GroupOf(row, cols), types)
  {
    ghost var cells := GroupOf(row, cols);
    key := [];
    assert cells[0..] == cells && types[0..] == types;
    for g := 0 to |cols|
      invariant key + EncodeRow(cells[g..], types[g..]) == EncodeRow(cells, types)
    {
      EncodeNext(key, cells, types, g);
      key := key + EncodeCell(row[cols[g]], types[g]);
    }
  }

  /** Moving one cell's encoding from the rest of the row to the key. */
  lemma EncodeNext(key: Bytes, cells: Group, types: seq<TypeId>, g: nat)
    requires RowOk(cells, types) && g < |types|
    ensures RowOk(cells[g..], types[g..]) && RowOk(cells[g + 1..], types[g + 1..]) && CellOk(cells[g], types[g])
    ensures key + EncodeRow(cells[g..], types[g..])
         == key + EncodeCell(cells[g], types[g]) + EncodeRow(cells[g + 1..], types[g + 1..])
  {
    assert cells[g..][1..] == cells[g + 1..] && types[g..][1..] == types[g + 1..];
    EncodeStep(cells[g..], types[g..], []);
    Regroup(key, EncodeCell(cells[g], types[g]), EncodeRow(cells[g + 1..], types[g + 1..]));
  }

  lemma Regroup(a: Bytes, b: Bytes, c: Bytes)
    ensures a + (b + c) == a + b + c
  {
  }

  /** The ordinal of a new group. */
  method NextOrdinal(ghost key2ord: map<Bytes, nat>, counts: seq<int>, key: Bytes, ghost log: seq<Group>,
                     ghost types: seq<TypeId>, ghost g: Group)
    returns (ord: nat)
    requires Counted(key2ord, counts, log, types) && RowOk(g, types) && key == EncodeRow(g, types) && key !in key2ord
    requires |FirstSeen(log + [g])| <= TWO_32
    ensures ord == |counts|
  {
    OrdinalFits(key2ord, counts, log, types, g);
    ord := |counts| % TWO_32;
  }

  /** One row: a new group starts at one, a known one goes up. Ordinals are 32 bits wide. */
  method CountRow(key2ord: map<Bytes, nat>, counts: seq<int>, key: Bytes, ghost log: seq<Group>, types: seq<TypeId>,
                  ghost g: Group)
    returns (key2ord': map<Bytes, nat>, counts': seq<int>)
    requires Counted(key2ord, counts, log, types) && RowOk(g, types) && key == EncodeRow(g, types)
    requires |FirstSeen(log + [g])| <= TWO_32
    ensures Counted(key2ord', counts', log + [g], types)
  {
    if key in key2ord {
      CountedAgain(key2ord, counts, log, types, g, key2ord[key]);
      key2ord', counts' := key2ord, counts[key2ord[key] := counts[key2ord[key]] + 1];
    } else {
      var ord := NextOrdinal(key2ord, counts, key, log, types, g);
      CountedNew(key2ord, counts, log, types, g);
      key2ord', counts' := key2ord[key := ord], counts + [1];
    }
  }

  lemma LogStep(log: seq<Group>, chunk: seq<seq<Cell>>, i: nat, cols: seq<nat>, types: seq<TypeId>)
    requires ChunkOk(chunk, cols, types) && i < |chunk|
    ensures log + GroupsOf(chunk[..i], cols, types) + [GroupOf(chunk[i], cols)]
         == log + GroupsOf(chunk[..i + 1], cols, types)
  {
    assert Init(chunk[..i + 1]) == chunk[..i];
  }

  /** The rows so far have no more groups than the whole chunk. */
  lemma FewerBefore(log: seq<Group>, chunk: seq<seq<Cell>>, i: nat, cols: seq<nat>, types: seq<TypeId>)
    requires ChunkOk(chunk, cols, types) && i <= |chunk|
    ensures |FirstSeen(log + GroupsOf(chunk[..i], cols, types))| <= |FirstSeen(log + GroupsOf(chunk, cols, types))|
  {
    GroupsPrefix(chunk, i, cols, types);
    var all := GroupsOf(chunk, cols, types);
    FirstSeenGrows(log + all[..i], all[i..]);
    assert log + all[..i] + all[i..] == log + all;
  }

  lemma {:induction false} GroupsPrefix(chunk: seq<seq<Cell>>, i: nat, cols: seq<nat>, types: seq<TypeId>)
    requires ChunkOk(chunk, cols, types) && i <= |chunk|
    ensures GroupsOf(chunk[..i], cols, types) == GroupsOf(chunk, cols, types)[..i]
  {
    if i < |chunk| {
      GroupsPrefix(Init(chunk), i, cols, types);
      assert Init(chunk)[..i] == chunk[..i];
    } else {
      assert chunk[..i] == chunk;
    }
  }

  method CountChunk(key2ord: map<Bytes, nat>, counts: seq<int>, chunk: seq<seq<Cell>>, cols: seq<nat>,
                    types: seq<TypeId>,
                    ghost log: seq<Group>)
    returns (key2ord': map<Bytes, nat>, counts': seq<int>)
    requires ChunkOk(chunk, cols, types) && Counted(key2ord, counts, log, types)
    requires |FirstSeen(log + GroupsOf(chunk, cols, types))| <= TWO_32
    ensures Counted(key2ord', counts', log + GroupsOf(chunk, cols, types), types)
  {
    key2ord', counts' := key2ord, counts;
    assert log + [] == log;
    for i := 0 to |chunk|
      invariant Counted(key2ord', counts', log + GroupsOf(chunk[..i], cols, types), types)
    {
      var key := BuildKey(chunk[i], cols, types);
      ghost var before := GroupsOf(chunk[..i], cols, types);
      LogStep(log, chunk, i, cols, types);
      FewerBefore(log, chunk, i + 1, cols, types);
      key2ord', counts' := CountRow(key2ord', counts', key, log + before, types, GroupOf(chunk[i], cols));
    }
    assert chunk[..|chunk|] == chunk;
  }

  /** The groups of all rows, chunk after chunk. */
  function AllGroups(chunks: seq<seq<seq<Cell>>>, cols: seq<nat>, types: seq<TypeId>): seq<Group>
    requires forall c :: c in chunks ==> ChunkOk(c, cols, types)
  {
    if chunks == [] then [] else AllGroups(Init(chunks), cols, types) + GroupsOf(Last(chunks), cols, types)
  }

  lemma {:induction false} FewerChunks(chunks: seq<seq<seq<Cell>>>, c: nat, cols: seq<nat>, types: seq<TypeId>)
    requires (forall c :: c in chunks ==> ChunkOk(c, cols, types)) && c <= |chunks|
    ensures |FirstSeen(AllGroups(chunks[..c], cols, types))| <= |FirstSeen(AllGroups(chunks, cols, types))|
  {
    if c < |chunks| {
      FewerChunks(Init(chunks), c, cols, types);
      assert Init(chunks)[..c] == chunks[..c];
      FirstSeenGrows(AllGroups(Init(chunks), cols, types), GroupsOf(Last(chunks), cols, types));
    } else {
      assert chunks[..c] == chunks;
    }
  }

  method CountAll(chunks: seq<seq<seq<Cell>>>, cols: seq<nat>, types: seq<TypeId>)
    returns (key2ord: map<Bytes, nat>, counts: seq<int>)
    requires forall c :: c in chunks ==> ChunkOk(c, cols, types)
    requires |FirstSeen(AllGroups(chunks, cols, types))| <= TWO_32
    ensures Counted(key2ord, counts, AllGroups(chunks, cols, types), types)
  {
    key2ord, counts := map[], [];
    CloseNumbered(key2ord, [], types);
    CloseCounted(key2ord, counts, [], types);
    for c := 0 to |chunks|
      invariant Counted(key2ord, counts, AllGroups(chunks[..c], cols, types), types)
    {
      assert Init(chunks[..c + 1]) == chunks[..c];
      FewerChunks(chunks, c + 1, cols, types);
      key2ord, counts := CountChunk(key2ord, counts, chunks[c], cols, types, AllGroups(chunks[..c], cols, types));
    }
    assert chunks[..|chunks|] == chunks;
  }

  // ---- emitting ----

  /** From ordinal to stored key. */
  method InvertKeys(key2ord: map<Bytes, nat>, n: nat, ghost groups: seq<Group>, ghost types: seq<TypeId>)
    returns (ord2key: seq<Bytes>)
    requires |groups| == n && Numbered(key2ord, groups, types)
    ensures |ord2key| == n && forall i :: 0 <= i < n ==>
      RowOk(groups[i], types) && ord2key[i] == EncodeRow(groups[i], types)
  {
    OpenNumbered(key2ord, groups, types);
    ord2key := seq(n, _ => []);
    var todo := key2ord.Keys;
    while todo != {}
      invariant todo <= key2ord.Keys && |ord2key| == n
      invariant forall i :: 0 <= i < n && EncodeRow(groups[i], types) !in todo ==>
        ord2key[i] == EncodeRow(groups[i], types)
      decreases |todo|
    {
      var k :| k in todo;
      ord2key := ord2key[key2ord[k] := k];
      todo := todo - {k};
    }
  }

  method EmitRow(key: Bytes, count: int, types: seq<TypeId>, numAggs: nat, ghost g: Group) returns (row: OutRow)
    requires RowOk(g, types) && key == EncodeRow(g, types)
    ensures row == RowOf(g, types, count, numAggs)
  {
    var keys := DecodeRow(key, types, g);
    row := OutRow(keys, seq(numAggs, _ => count));
  }

  function CountAt(counts: seq<int>, i: nat): int {
    if i < |counts| then counts[i] else 0
  }

  /** The wanted side first: the smallest counts ascending, the largest otherwise. */
  function Better(counts: seq<int>, ascending: bool): (nat, nat) -> bool {
    (a: nat, b: nat) =>
      if ascending then CountAt(counts, a) < CountAt(counts, b) else CountAt(counts, a) > CountAt(counts, b)
  }

  function Ordinals(n: nat): (r: seq<nat>)
    ensures |r| == n && forall i :: 0 <= i < n ==> r[i] == i
  {
    seq(n, i requires 0 <= i < n => i)
  }

  /** Emits the rows of the given ordinals. */
  method EmitRows(ords: seq<nat>, ord2key: seq<Bytes>, counts: seq<int>, types: seq<TypeId>, numAggs: nat,
                  ghost groups: seq<Group>)
    returns (rows: seq<OutRow>)
    requires |ord2key| == |counts| == |groups| && forall i :: i in ords ==> i < |counts|
    requires forall i :: 0 <= i < |groups| ==> RowOk(groups[i], types) && ord2key[i] == EncodeRow(groups[i], types)
    ensures Emitted(rows, ords, groups, counts, types, numAggs)
  {
    rows := [];
    for j := 0 to |ords|
      invariant Emitted(rows, ords[..j], groups, counts, types, numAggs)
    {
      assert ords[j] in ords;
      var row := EmitRow(ord2key[ords[j]], counts[ords[j]], types, numAggs, groups[ords[j]]);
      rows := rows + [row];
    }
    assert ords[..|ords|] == ords;
  }

  /** Row `j` is the decoded group with ordinal `ords[j]` and its count. */
  ghost predicate Emitted(rows: seq<OutRow>, ords: seq<nat>, groups: seq<Group>, counts: seq<int>, types: seq<TypeId>,
                          numAggs: nat) {
    && |rows| == |ords| && |counts| == |groups|
    && forall j :: 0 <= j < |ords| ==>
        ords[j] < |groups| && IsRow(rows[j], groups[ords[j]], counts[ords[j]], types, numAggs)
  }

  ghost predicate IsRow(row: OutRow, g: Group, count: int, types: seq<TypeId>, numAggs: nat) {
    |g| == |types| && row == RowOf(g, types, count, numAggs)
  }

  /** Which groups are emitted: all in order of first appearance, or the top `limit` by count. */
  ghost predicate Chosen(ords: seq<nat>, counts: seq<int>, topN: bool, ascending: bool, limit: nat) {
    if topN && 0 < limit < |counts| then
      |ords| == limit && IsTopK(ords, Ordinals(|counts|), limit, Better(counts, ascending))
    else ords == Ordinals(|counts|)
  }

  /** Some choice of the groups of `log` is emitted, each with its row count. */
  ghost predicate EmitsGroups(rows: seq<OutRow>, log: seq<Group>, types: seq<TypeId>, numAggs: nat,
                              topN: bool, ascending: bool, limit: nat) {
    exists ords ::
      Chosen(ords, CountsOf(log), topN, ascending, limit) &&
        Emitted(rows, ords, FirstSeen(log), CountsOf(log), types, numAggs)
  }

  /**
   * Each emitted row is a distinct group's decoded values with its exact row count:
   * all groups in order of first appearance, or under an ORDER BY count LIMIT the extreme ones, best first.
   * `topN` stands for a limit on an order by a COUNT(*) column.
   */
  method RunCountGroupAggregate(chunks: seq<seq<seq<Cell>>>, cols: seq<nat>, types: seq<TypeId>, numAggs: nat,
                                topN: bool, ascending: bool, limit: nat)
    returns (rows: seq<OutRow>)
    requires forall c :: c in chunks ==> ChunkOk(c, cols, types)
    requires |FirstSeen(AllGroups(chunks, cols, types))| < TWO_32
    ensures EmitsGroups(rows, AllGroups(chunks, cols, types), types, numAggs, topN, ascending, limit)
  {
    var key2ord, counts := CountAll(chunks, cols, types);
    ghost var groups := FirstSeen(AllGroups(chunks, cols, types));
    OpenCounted(key2ord, counts, AllGroups(chunks, cols, types), types);
    var ord2key := InvertKeys(key2ord, |counts|, groups, types);
    var idx := Choose(counts, topN, ascending, limit);
    rows := EmitRows(idx, ord2key, counts, types, numAggs, groups);
  }

  /** Partition and sort by count when the limit bites; the library may leave ties in any order. */
  method Choose(counts: seq<int>, topN: bool, ascending: bool, limit: nat) returns (idx: seq<nat>)
    ensures Chosen(idx, counts, topN, ascending, limit) && forall i :: i in idx ==> i < |counts|
  {
    idx := Ordinals(|counts|);
    if topN && 0 < limit < |counts| {
      BetterIsOrder(counts, ascending);
      idx := SelectTopK(idx, limit, Better(counts, ascending));
      PickedFrom(idx, |counts|, limit, Better(counts, ascending));
    }
  }

  lemma BetterIsOrder(counts: seq<int>, ascending: bool)
    ensures StrictWeak(Better(counts, ascending))
  {
  }

  lemma PickedFrom(idx: seq<nat>, n: nat, limit: nat, better: (nat, nat) -> bool)
    requires limit < n && IsTopK(idx, Ordinals(n), limit, better)
    ensures |idx| == limit && forall i :: i in idx ==> i < n
  {
    assert |multiset(idx)| == |idx| && |multiset(Ordinals(n))| == n;
    forall i | i in idx ensures i < n {
      assert i in multiset(idx) && i in multiset(Ordinals(n));
      assert i in Ordinals(n);
    }
  }

  // ---- conservation ----

  /** The counts of all groups add up to the number of rows. */
  lemma {:induction false} CountsAddUp(log: seq<Group>)
    ensures SumOf(CountsOf(log)) == |log|
  {
    if log != [] {
      var g, rest := Last(log), Init(log);
      CountsAddUp(rest);
      assert log == rest + [g];
      if g in FirstSeen(rest) {
        var i :| 0 <= i < |FirstSeen(rest)| && FirstSeen(rest)[i] == g;
        CountsAgain(rest, i, g);
        SumBump(CountsOf(rest), i);
      } else {
        CountsNew(rest, g);
        assert Init(CountsOf(rest) + [1]) == CountsOf(rest);
      }
    }
  }

  lemma {:induction false} SumBump(s: seq<int>, i: nat)
    requires i < |s|
    ensures SumOf(s[i := s[i] + 1]) == SumOf(s) + 1
  {
    if i == |s| - 1 {
      assert Init(s[i := s[i] + 1]) == Init(s);
    } else {
      SumBump(Init(s), i);
      assert Init(s[i := s[i] + 1]) == Init(s)[i := s[i] + 1];
    }
  }
}

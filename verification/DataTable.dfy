/** A table as a list of row groups: appending, scanning, and scanning by morsels. */
module DataTable {
  import opened Seqs

  const VECTOR_SIZE: nat := 2048
  const ROW_GROUP_SIZE: nat := 122880

  class RowGroup<T> {
    var startRow: nat
    var rows: seq<T>

    ghost predicate Valid()
      reads this
    {
      |rows| <= ROW_GROUP_SIZE
    }

    predicate IsFull()
      reads this
    {
      |rows| >= ROW_GROUP_SIZE
    }

    constructor (startRow: nat)
      ensures Valid() && this.startRow == startRow && rows == []
    {
      this.startRow, rows := startRow, [];
    }

    /** Takes as many rows of the chunk from `offset` on as still fit. */
    method Append(chunk: seq<T>, offset: nat) returns (n: nat)
      requires Valid() && offset <= |chunk|
      modifies this`rows
      ensures Valid() && n == Min(|chunk| - offset, ROW_GROUP_SIZE - |old(rows)|)
      ensures rows == old(rows) + chunk[offset..offset + n]
    {
      n := Min(|chunk| - offset, ROW_GROUP_SIZE - |rows|);
      rows := rows + chunk[offset..offset + n];
    }
  }

  /** Where a scan stands. */
  datatype ScanState = ScanState(group: nat, row: nat)

  class DataTable<T> {
    var rowGroups: seq<RowGroup<T>>
    var totalRows: nat
    ghost var parts: seq<seq<T>>          // the rows of each group

    ghost predicate Valid()
      reads this, rowGroups
    {
      && |parts| == |rowGroups| && totalRows == |Flatten(parts)|
      && (forall i, j :: 0 <= i < j < |rowGroups| ==> rowGroups[i] != rowGroups[j])
      && (forall i :: 0 <= i < |rowGroups| ==> IsPart(i))
    }

    /** Group `i` holds its part and knows where it starts. */
    ghost predicate IsPart(i: nat)
      requires i < |rowGroups| == |parts|
      reads this, rowGroups[i]
    {
      rowGroups[i].Valid() && rowGroups[i].rows == parts[i] && rowGroups[i].startRow == |Flatten(parts[..i])|
    }

    /** The rows of the table, in order. */
    ghost function Contents(): seq<T>
      reads this
    {
      Flatten(parts)
    }

    constructor ()
      ensures Valid() && Contents() == [] && rowGroups == []
    {
      rowGroups, totalRows, parts := [], 0, [];
    }

    /** Opens a new last group if there is none or it is full. */
    method MakeRoom()
      requires Valid()
      modifies this
      ensures Valid() && Contents() == old(Contents())
      ensures rowGroups != [] && |Last(rowGroups).rows| < ROW_GROUP_SIZE
      ensures rowGroups == old(rowGroups) || (Init(rowGroups) == old(rowGroups) && fresh(Last(rowGroups)))
    {
      if rowGroups == [] || rowGroups[|rowGroups| - 1].IsFull() {
        var rg := new RowGroup(totalRows);
        FlattenSnoc(parts, []);
        ghost var before := parts;
        rowGroups, parts := rowGroups + [rg], parts + [[]];
        assert parts[..|before|] == before;
        forall i | 0 <= i < |rowGroups| ensures IsPart(i) {
          assert i < |before| ==> old(IsPart(i)) && parts[..i] == before[..i];
        }
      } else {
        assert IsPart(|rowGroups| - 1);
      }
    }

    /** Fills the last group from the chunk. */
    method AppendToLast(chunk: seq<T>, offset: nat) returns (n: nat)
      requires Valid() && rowGroups != [] && |Last(rowGroups).rows| < ROW_GROUP_SIZE && offset < |chunk|
      modifies this`totalRows, this`parts, Last(rowGroups)
      ensures Valid() && 0 < n <= |chunk| - offset
      ensures Contents() == old(Contents()) + chunk[offset..offset + n]
    {
      var last := rowGroups[|rowGroups| - 1];
      ghost var i, before := |rowGroups| - 1, parts;
      assert IsPart(i);
      n := last.Append(chunk, offset);
      parts := parts[i := parts[i] + chunk[offset..offset + n]];
      totalRows := totalRows + n;
      FlattenLast(before, chunk[offset..offset + n]);
      forall j | 0 <= j < |rowGroups| ensures IsPart(j) {
        assert old(IsPart(j)) && parts[..j] == before[..j];
      }
    }

    /** Appends every row of a chunk, opening row groups as they fill up. */
    method Append(chunk: seq<T>)
      requires Valid()
      modifies this, rowGroups
      ensures Valid() && Contents() == old(Contents()) + chunk
      ensures fresh((set g | g in rowGroups) - (set g | g in old(rowGroups)))
    {
      var offset := 0;
      while offset < |chunk|
        invariant Valid() && 0 <= offset <= |chunk| && Contents() == old(Contents()) + chunk[..offset]
        invariant forall g :: g in rowGroups ==> g in old(rowGroups) || fresh(g)
      {
        MakeRoom();
        assert Last(rowGroups) in rowGroups;
        var n := AppendToLast(chunk, offset);
        assert chunk[..offset + n] == chunk[..offset] + chunk[offset..offset + n];
        offset := offset + n;
      }
      assert chunk[..offset] == chunk;
    }

    /** Splices one pre-built group onto the table, unless it is missing or empty. */
    method SpliceOne(g: RowGroup?<T>)
      requires Valid() && (g != null ==> g.Valid() && g !in rowGroups)
      modifies this, g
      ensures Valid() && Contents() == old(Contents()) + (if g == null then [] else old(g.rows))
      ensures rowGroups == old(rowGroups) || (g != null && rowGroups == old(rowGroups) + [g])
    {
      if g != null && |g.rows| != 0 {
        ghost var before := parts;
        g.startRow := totalRows;
        totalRows := totalRows + |g.rows|;
        FlattenSnoc(parts, g.rows);
        rowGroups, parts := rowGroups + [g], parts + [g.rows];
        assert parts[..|before|] == before;
        forall i | 0 <= i < |rowGroups| ensures IsPart(i) {
          assert i < |before| ==> old(IsPart(i)) && parts[..i] == before[..i];
        }
      }
    }

    /** Splices pre-built groups onto the table, in order. */
    method AppendRowGroups(groups: seq<RowGroup?<T>>, ghost built: seq<seq<T>>)
      requires Valid() && |built| == |groups|
      requires forall i :: 0 <= i < |groups| ==> if groups[i] == null then built[i] == [] else
        groups[i].Valid() && groups[i].rows == built[i] && groups[i] !in rowGroups
      requires forall i, j :: 0 <= i < j < |groups| && groups[i] != null ==> groups[i] != groups[j]
      modifies this, set g | g in groups && g != null
      ensures Valid() && Contents() == old(Contents()) + Flatten(built)
    {
      ghost var before := Contents();
      for i := 0 to |groups|
        invariant Valid() && Contents() == before + Flatten(built[..i])
        invariant Waiting(groups, built, i)
      {
        FlattenStep(built, i);
        SpliceOne(groups[i]);
      }
      assert built[..|built|] == built;
    }

    /** The groups from `i` on are as they were built, and not in the table. */
    ghost predicate Waiting(groups: seq<RowGroup?<T>>, built: seq<seq<T>>, i: nat)
      requires |built| == |groups|
      reads this, set g | g in groups && g != null
    {
      forall j :: i <= j < |groups| && groups[j] != null ==>
        groups[j].Valid() && groups[j].rows == built[j] && groups[j] !in rowGroups
    }

    // ---- scanning by morsels ----

    /** The number of morsels of the table. */
    method InitParallelScan() returns (total: nat)
      requires Valid()
      ensures total == |Morsels(parts)|
    {
      total := 0;
      for i := 0 to |rowGroups|
        invariant total == |Morsels(parts[..i])|
      {
        assert IsPart(i);
        MorselsStep(parts, i);
        MorselsOfCount(parts[i]);
        total := total + (|rowGroups[i].rows| + VECTOR_SIZE - 1) / VECTOR_SIZE;
      }
      assert parts[..|parts|] == parts;
    }

    /** What a worker reads once it has claimed a number: that morsel, or nothing past the end. */
    method ReadMorsel(morsel: nat, total: nat) returns (more: bool, result: seq<T>)
      requires Valid() && total == |Morsels(parts)|
      ensures more == (morsel < |Morsels(parts)|)
      ensures more ==> result == Morsels(parts)[morsel]
    {
      if morsel >= total {
        return false, [];
      }
      var current: nat := 0;
      assert parts[..|parts|] == parts;
      for i := 0 to |rowGroups|
        invariant current == |Morsels(parts[..i])| <= morsel
      {
        assert IsPart(i);
        MorselsStep(parts, i);
        MorselsPrefix(parts, i + 1);
        MorselsOfCount(parts[i]);
        var rg := rowGroups[i];
        var groupMorsels := (|rg.rows| + VECTOR_SIZE - 1) / VECTOR_SIZE;
        if morsel < current + groupMorsels {
          var local := morsel - current;
          MorselsOfAt(parts[i], local);
          var start := local * VECTOR_SIZE;
          var count := Min(VECTOR_SIZE, |rg.rows| - start);
          result := rg.rows[start..start + count];
          assert Morsels(parts[..i + 1])[morsel] == MorselsOf(parts[i])[local];
          return true, result;
        }
        current := current + groupMorsels;
      }
      more, result := false, [];
    }

    // ---- one scan ----

    /** How many rows a scan has passed. */
    ghost function Passed(state: ScanState): nat
      requires state.group <= |parts|
      reads this
    {
      |Flatten(parts[..state.group])| + state.row
    }

    ghost predicate Scanning(state: ScanState)
      reads this
    {
      && state.group <= |parts|
      && if state.group < |parts| then state.row <= |parts[state.group]| else state.row == 0
    }

    /** The next chunk: the next rows of the table, at most a vector of them; none only at the end. */
    method Scan(state: ScanState) returns (more: bool, result: seq<T>, state': ScanState)
      requires Valid() && Scanning(state)
      ensures Scanning(state') && Passed(state') <= |Contents()|
      ensures more == (Passed(state) < |Contents()|)
      ensures more ==> 0 < |result| <= VECTOR_SIZE && Passed(state') == Passed(state) + |result|
      ensures more ==> result == Contents()[Passed(state)..Passed(state')]
      ensures !more ==> result == []
    {
      state' := state;
      result := [];
      while state'.group < |rowGroups|
        invariant Scanning(state') && Passed(state') == Passed(state)
        decreases |rowGroups| - state'.group
      {
        assert IsPart(state'.group);
        var rg := rowGroups[state'.group];
        var remaining := |rg.rows| - state'.row;
        FlattenStep(parts, state'.group);
        if remaining != 0 {
          var count := Min(remaining, VECTOR_SIZE);
          result := rg.rows[state'.row..state'.row + count];
          FlattenSlice(parts, state'.group, state'.row, count);
          state' := state'.(row := state'.row + count);
          more := true;
          return;
        }
        state' := ScanState(state'.group + 1, 0);
      }
      assert parts[..|parts|] == parts;
      more := false;
    }

    /** Repeated scanning yields the rows of the table, each once, in order. */
    method ScanAll() returns (rows: seq<T>)
      requires Valid()
      ensures rows == Contents()
    {
      rows := [];
      var state := ScanState(0, 0);
      var more := true;
      while more
        invariant Scanning(state) && Passed(state) <= |Contents()| && rows == Contents()[..Passed(state)]
        invariant !more ==> Passed(state) == |Contents()|
        decreases |Contents()| - Passed(state), more
      {
        var chunk, state';
        ghost var before := Passed(state);
        more, chunk, state' := Scan(state);
        assert more ==> Contents()[..before] + chunk == Contents()[..Passed(state')];
        if more {
          state := state';
        }
        rows := rows + chunk;
      }
    }
  }

  // ---- morsels ----

  /** The chunks of one row group: full vectors, then what is left. */
  function MorselsOf<T>(rows: seq<T>): seq<seq<T>> {
    if rows == [] then [] else [rows[..Min(VECTOR_SIZE, |rows|)]] + MorselsOf(rows[Min(VECTOR_SIZE, |rows|)..])
  }

  function Morsels<T>(parts: seq<seq<T>>): seq<seq<T>> {
    if parts == [] then [] else Morsels(Init(parts)) + MorselsOf(Last(parts))
  }

  function MorselCount(rows: nat): nat {
    (rows + VECTOR_SIZE - 1) / VECTOR_SIZE
  }

  lemma {:induction false} MorselsOfCount<T>(rows: seq<T>)
    ensures |MorselsOf(rows)| == MorselCount(|rows|)
  {
    if rows != [] {
      MorselsOfCount(rows[Min(VECTOR_SIZE, |rows|)..]);
    }
  }

  lemma {:induction false} MorselsOfAt<T>(rows: seq<T>, m: nat)
    requires m < MorselCount(|rows|)
    ensures m < |MorselsOf(rows)| && m * VECTOR_SIZE < |rows|
    ensures var start := m * VECTOR_SIZE;
      MorselsOf(rows)[m] == rows[start..start + Min(VECTOR_SIZE, |rows| - start)]
  {
    MorselsOfCount(rows);
    if m > 0 {
      var rest := rows[VECTOR_SIZE..];
      MorselsOfAt(rest, m - 1);
      var start := (m - 1) * VECTOR_SIZE;
      assert rows[..VECTOR_SIZE] + rest == rows;
      SliceBehind(rows[..VECTOR_SIZE], rest, rows, start, Min(VECTOR_SIZE, |rest| - start));
    }
  }

  lemma {:induction false} FlattenConcat<T>(a: seq<seq<T>>, b: seq<seq<T>>)
    ensures Flatten(a + b) == Flatten(a) + Flatten(b)
  {
    if b == [] {
      assert a + b == a;
    } else {
      FlattenConcat(a, Init(b));
      assert Init(a + b) == a + Init(b);
    }
  }

  lemma {:induction false} MorselsOfFlatten<T>(rows: seq<T>)
    ensures Flatten(MorselsOf(rows)) == rows
  {
    if rows != [] {
      var n := Min(VECTOR_SIZE, |rows|);
      MorselsOfFlatten(rows[n..]);
      FlattenConcat([rows[..n]], MorselsOf(rows[n..]));
      assert Init([rows[..n]]) == [];
    }
  }

  /** The morsels cut the table into pieces that put together give it back. */
  lemma {:induction false} MorselsFlatten<T>(parts: seq<seq<T>>)
    ensures Flatten(Morsels(parts)) == Flatten(parts)
  {
    if parts != [] {
      MorselsFlatten(Init(parts));
      MorselsOfFlatten(Last(parts));
      FlattenConcat(Morsels(Init(parts)), MorselsOf(Last(parts)));
    }
  }

  lemma MorselsStep<T>(parts: seq<seq<T>>, i: nat)
    requires i < |parts|
    ensures Morsels(parts[..i + 1]) == Morsels(parts[..i]) + MorselsOf(parts[i])
  {
    assert Init(parts[..i + 1]) == parts[..i];
  }

  lemma {:induction false} MorselsPrefix<T>(parts: seq<seq<T>>, i: nat)
    requires i <= |parts|
    ensures Morsels(parts[..i]) <= Morsels(parts)
  {
    if i == |parts| {
      assert parts[..i] == parts;
    } else {
      MorselsPrefix(Init(parts), i);
      assert Init(parts)[..i] == parts[..i];
    }
  }

  // ---- flattening ----

  lemma FlattenSnoc<T>(parts: seq<seq<T>>, part: seq<T>)
    ensures Flatten(parts + [part]) == Flatten(parts) + part
  {
    assert Init(parts + [part]) == parts;
  }

  lemma FlattenLast<T>(parts: seq<seq<T>>, more: seq<T>)
    requires parts != []
    ensures Flatten(parts[|parts| - 1 := Last(parts) + more]) == Flatten(parts) + more
  {
    assert Init(parts[|parts| - 1 := Last(parts) + more]) == Init(parts);
  }

  lemma FlattenStep<T>(parts: seq<seq<T>>, i: nat)
    requires i < |parts|
    ensures Flatten(parts[..i + 1]) == Flatten(parts[..i]) + parts[i]
  {
    assert Init(parts[..i + 1]) == parts[..i];
  }

  lemma {:induction false} FlattenPrefix<T>(parts: seq<seq<T>>, i: nat)
    requires i <= |parts|
    ensures Flatten(parts[..i]) <= Flatten(parts)
  {
    if i == |parts| {
      assert parts[..i] == parts;
    } else {
      FlattenPrefix(Init(parts), i);
      assert Init(parts)[..i] == parts[..i];
    }
  }

  /** Rows of one part are rows of the whole, at the part's offset. */
  lemma FlattenSlice<T>(parts: seq<seq<T>>, i: nat, row: nat, n: nat)
    requires i < |parts| && row + n <= |parts[i]|
    ensures var p := |Flatten(parts[..i])| + row;
      p + n <= |Flatten(parts)| && parts[i][row..row + n] == Flatten(parts)[p..p + n]
  {
    FlattenStep(parts, i);
    FlattenPrefix(parts, i + 1);
    SliceBehind(Flatten(parts[..i]), parts[i], Flatten(parts), row, n);
  }

  lemma SliceBehind<T>(a: seq<T>, b: seq<T>, all: seq<T>, row: nat, n: nat)
    requires a + b <= all && row + n <= |b|
    ensures b[row..row + n] == all[|a| + row..|a| + row + n]
  {
    var p := |a| + row;
    assert b[row..row + n] == (a + b)[p..p + n];
    assert (a + b)[p..p + n] == all[p..p + n];
  }
}

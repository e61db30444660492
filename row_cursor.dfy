/**
 * The cursor position of the data reader and one Read step over it, given
 * the row counts of the row groups. The reader's Read method is proved to
 * follow ReadStep; the lemmas here say what a sequence of Reads visits.
 */
module RowCursor {
  import opened Exceptions

  /** rowIdx sentinel once Read has returned false. */
  const End: int := -2
  /** rowIdx as set by the constructor and by NextResult; IsClosed holds exactly then. */
  const Closed: int := -1

  /** groupIdx and groupOffset locate the current row; rowIdx is Closed or End. */
  datatype Position = Position(groupIdx: int, groupOffset: int, rowIdx: int)

  /** A row of the file: its group and its offset within that group. */
  datatype Row = Row(group: int, offset: int)

  /**
   * The group whose rows are resident after groups up to `groupIdx` were asked
   * for: failed requests past the last group leave the last one resident; -1
   * when there is no group at all.
   */
  function Resident(counts: seq<nat>, groupIdx: nat): (g: int)
    ensures -1 <= g < |counts|
    ensures |counts| > 0 ==> 0 <= g
  {
    if groupIdx < |counts| then groupIdx else |counts| - 1
  }

  /**
   * The position right after construction: the first group is loaded with its
   * offset before the first row, or, with no group, nothing is loaded and the
   * offset keeps its initial 0.
   */
  function Opened(counts: seq<nat>): (p: Position)
    ensures p.groupIdx == 0 && p.rowIdx == Closed
    ensures |counts| > 0 ==> p.groupOffset == -1
  {
    if |counts| == 0 then Position(0, 0, Closed) else Position(0, -1, Closed)
  }

  /**
   * Read: at End nothing changes and the answer is false. Otherwise the offset
   * advances; past the resident group's row count the next group is loaded at
   * offset 0 (true, even when that group is empty), or, with no next group,
   * the cursor ends (false). With no group at all the resident row group is
   * null and the call throws.
   */
  function ReadStep(counts: seq<nat>, p: Position): (res: (Result<bool>, Position))
    requires 0 <= p.groupIdx
    ensures p.rowIdx == End ==> res == (Ok(false), p)
    ensures res.0.Throw? <==> |counts| == 0 && p.rowIdx != End
    ensures res.0 == Ok(false) ==> res.1.rowIdx == End
    ensures res.0 == Ok(true) ==>
      res.1.rowIdx == p.rowIdx && |counts| > 0 &&
      ((res.1.groupIdx == p.groupIdx && res.1.groupOffset == p.groupOffset + 1 &&
        res.1.groupOffset < counts[Resident(counts, p.groupIdx)]) ||
       (res.1.groupIdx == p.groupIdx + 1 < |counts| && res.1.groupOffset == 0))
    ensures p.groupIdx <= res.1.groupIdx <= p.groupIdx + 1
    // Which inputs give which answer, once a group exists and the cursor has not ended.
    ensures p.rowIdx != End && |counts| > 0 && p.groupOffset + 1 < counts[Resident(counts, p.groupIdx)] ==>
              res == (Ok(true), p.(groupOffset := p.groupOffset + 1))
    ensures p.rowIdx != End && |counts| > 0 && p.groupOffset + 1 >= counts[Resident(counts, p.groupIdx)] &&
            p.groupIdx + 1 < |counts| ==>
              res == (Ok(true), Position(p.groupIdx + 1, 0, p.rowIdx))
    ensures p.rowIdx != End && |counts| > 0 && p.groupOffset + 1 >= counts[Resident(counts, p.groupIdx)] &&
            p.groupIdx + 1 >= |counts| ==>
              res == (Ok(false), Position(p.groupIdx + 1, p.groupOffset + 1, End))
    ensures p.rowIdx != End && |counts| == 0 ==> res == (Throw(NullReference), p.(groupOffset := p.groupOffset + 1))
  {
    if p.rowIdx == End then (Ok(false), p)
    else
      var offset := p.groupOffset + 1;
      if |counts| == 0 then (Throw(NullReference), p.(groupOffset := offset))
      else if offset < counts[Resident(counts, p.groupIdx)] then (Ok(true), p.(groupOffset := offset))
      else if p.groupIdx + 1 < |counts| then (Ok(true), Position(p.groupIdx + 1, 0, p.rowIdx))
      else (Ok(false), Position(p.groupIdx + 1, offset, End))
  }

  /** Every row past the last one of the last group has been consumed. */
  predicate Exhausted(counts: seq<nat>, p: Position) {
    |counts| > 0 && p.groupIdx >= |counts| && p.groupOffset >= counts[|counts| - 1]
  }

  /** What every reachable position satisfies. */
  predicate Reachable(counts: seq<nat>, p: Position) {
    0 <= p.groupIdx && -1 <= p.groupOffset &&
    (p.rowIdx == Closed || p.rowIdx == End) &&
    (p.rowIdx == End ==> Exhausted(counts, p))
  }

  /**
   * Read keeps positions reachable, and a false answer leaves the cursor
   * exhausted.
   */
  lemma ReadStepKeepsReachable(counts: seq<nat>, p: Position)
    requires Reachable(counts, p)
    ensures Reachable(counts, ReadStep(counts, p).1)
    ensures ReadStep(counts, p).0 == Ok(false) ==> Exhausted(counts, ReadStep(counts, p).1)
  {
  }

  /**
   * Once exhausted, Read answers false and stays exhausted whatever rowIdx is,
   * so resetting rowIdx with NextResult (which keeps the rest of the position)
   * never brings a row back.
   */
  lemma ExhaustedStaysFalse(counts: seq<nat>, p: Position)
    requires Exhausted(counts, p) && 0 <= p.groupIdx
    ensures ReadStep(counts, p).0 == Ok(false)
    ensures Exhausted(counts, ReadStep(counts, p).1)
  {
  }

  /**
   * `n` successive Reads from `p`: the rows at which a Read answered true, in
   * order, and the final position.
   */
  function Run(counts: seq<nat>, p: Position, n: nat): (res: (seq<Row>, Position))
    requires 0 <= p.groupIdx
    ensures 0 <= res.1.groupIdx
    ensures |res.0| <= n
    decreases n
  {
    if n == 0 then ([], p)
    else
      var step := ReadStep(counts, p);
      var rest := Run(counts, step.1, n - 1);
      (if step.0 == Ok(true) then [Row(step.1.groupIdx, step.1.groupOffset)] + rest.0 else rest.0, rest.1)
  }

  /** At End, any number of Reads answers false every time and changes nothing. */
  lemma {:induction false} RunAtEnd(counts: seq<nat>, p: Position, n: nat)
    requires 0 <= p.groupIdx && p.rowIdx == End
    ensures Run(counts, p, n) == ([], p)
    decreases n
  {
    if n > 0 {
      RunAtEnd(counts, p, n - 1);
    }
  }

  /** The rows after offset `o` of group `g`, then all rows of the later groups, in file order. */
  function RowsFrom(counts: seq<nat>, g: nat, o: int): seq<Row>
    requires g < |counts| && -1 <= o
    decreases |counts| - g, counts[g] - o
  {
    if o + 1 < counts[g] then [Row(g, o + 1)] + RowsFrom(counts, g, o + 1)
    else if g + 1 < |counts| then RowsFrom(counts, g + 1, -1)
    else []
  }

  /** All rows of the file, group by group. */
  function Rows(counts: seq<nat>): seq<Row> {
    if |counts| == 0 then [] else RowsFrom(counts, 0, -1)
  }

  function Sum(counts: seq<nat>): nat {
    if counts == [] then 0 else counts[0] + Sum(counts[1..])
  }

  /** Row `a` comes strictly before row `b` in file order. */
  predicate Before(a: Row, b: Row) {
    a.group < b.group || (a.group == b.group && a.offset < b.offset)
  }

  lemma {:induction false} RowsFromMembers(counts: seq<nat>, g: nat, o: int)
    requires g < |counts| && -1 <= o
    ensures forall r :: r in RowsFrom(counts, g, o) <==>
      (r.group == g && o < r.offset < counts[g]) ||
      (g < r.group < |counts| && 0 <= r.offset < counts[r.group])
    decreases |counts| - g, counts[g] - o
  {
    if o + 1 < counts[g] {
      RowsFromMembers(counts, g, o + 1);
    } else if g + 1 < |counts| {
      RowsFromMembers(counts, g + 1, -1);
    }
  }

  lemma {:induction false} RowsFromOrdered(counts: seq<nat>, g: nat, o: int)
    requires g < |counts| && -1 <= o
    ensures forall i, j :: 0 <= i < j < |RowsFrom(counts, g, o)| ==>
      Before(RowsFrom(counts, g, o)[i], RowsFrom(counts, g, o)[j])
    decreases |counts| - g, counts[g] - o
  {
    if o + 1 < counts[g] {
      var rest := RowsFrom(counts, g, o + 1);
      RowsFromOrdered(counts, g, o + 1);
      RowsFromMembers(counts, g, o + 1);
      assert forall j :: 0 <= j < |rest| ==> rest[j] in rest;
    } else if g + 1 < |counts| {
      RowsFromOrdered(counts, g + 1, -1);
    }
  }

  lemma {:induction false} RowsFromCount(counts: seq<nat>, g: nat, o: int)
    requires g < |counts| && -1 <= o
    ensures |RowsFrom(counts, g, o)| == (if o + 1 < counts[g] then counts[g] - o - 1 else 0) + Sum(counts[g + 1..])
    decreases |counts| - g, counts[g] - o
  {
    if o + 1 < counts[g] {
      RowsFromCount(counts, g, o + 1);
    } else if g + 1 < |counts| {
      RowsFromCount(counts, g + 1, -1);
      assert counts[g + 1..][1..] == counts[g + 2..];
    } else {
      assert counts[g + 1..] == [];
    }
  }

  /**
   * The rows of the file are exactly the pairs (g, o) with o below group g's
   * row count, each once, in file order; there are as many as the row counts sum to.
   */
  lemma RowsEnumerateFile(counts: seq<nat>)
    ensures forall r :: r in Rows(counts) <==> 0 <= r.group < |counts| && 0 <= r.offset < counts[r.group]
    ensures forall i, j :: 0 <= i < j < |Rows(counts)| ==> Before(Rows(counts)[i], Rows(counts)[j])
    ensures |Rows(counts)| == Sum(counts)
  {
    if |counts| > 0 {
      RowsFromMembers(counts, 0, -1);
      RowsFromOrdered(counts, 0, -1);
      RowsFromCount(counts, 0, -1);
      assert counts[1..] == counts[0 + 1..];
    }
  }

  /** The position after the Read that answers false, when every group has rows. */
  function Finished(counts: seq<nat>): (p: Position)
    requires |counts| > 0
    ensures p.rowIdx == End && Exhausted(counts, p)
  {
    Position(|counts|, counts[|counts| - 1], End)
  }

  lemma {:induction false} ReadsVisitRowsFrom(counts: seq<nat>, g: nat, o: int, k: nat)
    requires g < |counts| && -1 <= o < counts[g]
    requires forall h :: 0 <= h < |counts| ==> counts[h] > 0
    ensures Run(counts, Position(g, o, Closed), |RowsFrom(counts, g, o)| + 1 + k) == (RowsFrom(counts, g, o), Finished(counts))
    decreases |counts| - g, counts[g] - o
  {
    var p := Position(g, o, Closed);
    var n := |RowsFrom(counts, g, o)| + 1 + k;
    if o + 1 < counts[g] {
      ReadsVisitRowsFrom(counts, g, o + 1, k);
    } else if g + 1 < |counts| {
      assert RowsFrom(counts, g, o) == RowsFrom(counts, g + 1, -1);
      ReadsVisitRowsFrom(counts, g + 1, 0, k);
    } else {
      assert ReadStep(counts, p) == (Ok(false), Finished(counts));
      RunAtEnd(counts, Finished(counts), k);
    }
  }

  /**
   * When every row group has rows, Reads from the opened cursor answer true
   * once per row of the file, in file order, then false from then on: the
   * cursor ends exhausted, and further Reads change nothing.
   */
  lemma ReadsVisitEveryRow(counts: seq<nat>, k: nat)
    requires |counts| > 0
    requires forall h :: 0 <= h < |counts| ==> counts[h] > 0
    ensures Run(counts, Opened(counts), Sum(counts) + 1 + k) == (Rows(counts), Finished(counts))
  {
    RowsEnumerateFile(counts);
    ReadsVisitRowsFrom(counts, 0, -1, k);
  }

  /**
   * An empty group after a non-empty one is not skipped: the Read that
   * crosses into it answers true at offset 0 of a group with no rows, so a
   * file of one row yields two true answers.
   */
  lemma EmptyGroupYieldsPhantomRow()
    ensures Run([1, 0], Opened([1, 0]), 3) == ([Row(0, 0), Row(1, 0)], Position(2, 1, End))
    ensures Sum([1, 0]) == 1
  {
    var counts := [1, 0];
    var p1 := Position(0, 0, Closed);
    var p2 := Position(1, 0, Closed);
    assert ReadStep(counts, Opened(counts)) == (Ok(true), p1);
    assert ReadStep(counts, p1) == (Ok(true), p2);
    assert ReadStep(counts, p2) == (Ok(false), Position(2, 1, End));
    assert Run(counts, Position(2, 1, End), 0) == ([], Position(2, 1, End));
    assert Run(counts, p2, 1) == ([], Position(2, 1, End));
    assert [Row(1, 0)] + [] == [Row(1, 0)];
    assert Run(counts, p1, 2) == ([Row(1, 0)], Position(2, 1, End));
    assert [Row(0, 0)] + [Row(1, 0)] == [Row(0, 0), Row(1, 0)];
  }

  /** With no row group at all, the first Read dereferences a null row group. */
  lemma NoGroupThrows()
    ensures ReadStep([], Opened([])) == (Throw(NullReference), Position(0, 1, Closed))
  {
  }
}

/** Stage classification and the purchase signal on the last day of the
    price table (`Runner.__append_purchace_sign`). Moving averages are
    inputs: `None` stands for the NaN of a rolling window that is not yet
    full. */
module Signal {
  import opened Wrappers

  /** One row of the sorted price table with its short (5-day), middle
      (25-day) and long (75-day) averages. */
  datatype Day = Day(
    date: string,
    code: string,
    closedAdj: real,
    short: Option<real>,
    middle: Option<real>,
    long: Option<real>)

  /** The row appended to the spreadsheet for a signalling day. */
  datatype SignCell = SignCell(
    date: string,
    code: string,
    closedAdj: real,
    short: real,
    middle: real,
    long: real)

  /** The stage window that raises the purchase signal. */
  const Pattern: seq<int> := [4, 5, 5]

  predicate FourStage(short: real, middle: real, long: real)
  {
    short < long && short < middle && middle < long
  }

  predicate FiveStage(short: real, middle: real, long: real)
  {
    short < long && short >= middle && middle < long
  }

  /** `four_stage * 4 + five_stage * 5`. Stage 4 is the ordering
      short < middle < long, stage 5 is middle <= short < long, and stage 0
      is every ordering in which long is not strictly above both. */
  function Stage(short: real, middle: real, long: real): (stage: int)
    ensures stage == 4 <==> short < middle < long
    ensures stage == 5 <==> middle <= short < long
    ensures stage == 0 <==> !(short < long && middle < long)
  {
    (if FourStage(short, middle, long) then 4 else 0) + (if FiveStage(short, middle, long) then 5 else 0)
  }

  /** A row that survives `dropna`: all three averages are defined. */
  predicate Complete(d: Day)
  {
    d.short.Some? && d.middle.Some? && d.long.Some?
  }

  function DayStage(d: Day): int
    requires Complete(d)
  {
    Stage(d.short.value, d.middle.value, d.long.value)
  }

  /** Position `i` holds the last complete row. */
  predicate IsLastComplete(days: seq<Day>, i: int)
  {
    0 <= i < |days| && Complete(days[i]) && forall j :: i < j < |days| ==> !Complete(days[j])
  }

  /** `dropna`: the complete rows, in their original order. */
  function DropIncomplete(days: seq<Day>): (kept: seq<Day>)
    ensures |kept| <= |days|
    ensures forall i :: 0 <= i < |kept| ==> Complete(kept[i])
    decreases |days|
  {
    if |days| == 0 then []
    else
      var init := DropIncomplete(days[..|days| - 1]);
      var last := days[|days| - 1];
      if Complete(last) then init + [last] else init
  }

  /** `dropna` keeps exactly the complete rows. */
  lemma {:induction false} KeptExactlyComplete(days: seq<Day>)
    ensures forall d :: d in DropIncomplete(days) <==> d in days && Complete(d)
    decreases |days|
  {
    if |days| > 0 {
      var before := days[..|days| - 1];
      var last := days[|days| - 1];
      KeptExactlyComplete(before);
      assert days == before + [last];
    }
  }

  /** `dropna` works row by row: filtering a table made of two parts
      filters each part and keeps them in order, so the kept rows keep their
      table order and their repetitions. */
  lemma {:induction false} DropIncompleteAppend(a: seq<Day>, b: seq<Day>)
    ensures DropIncomplete(a + b) == DropIncomplete(a) + DropIncomplete(b)
    decreases |b|
  {
    if |b| == 0 {
      assert a + b == a;
    } else {
      var b' := b[..|b| - 1];
      assert (a + b)[..|a + b| - 1] == a + b';
      assert (a + b)[|a + b| - 1] == b[|b| - 1];
      DropIncompleteAppend(a, b');
    }
  }

  /** A single row is kept exactly when it is complete. */
  lemma DropIncompleteSingle(d: Day)
    ensures DropIncomplete([d]) == if Complete(d) then [d] else []
  {
    assert [d][..0] == [];
  }

  /** The positions of the complete rows, in table order: the `k`-th kept
      row is the row at the `k`-th of these positions, the positions rise
      strictly, and every complete row's position is among them. */
  function CompleteIndices(days: seq<Day>): (idx: seq<nat>)
    ensures |idx| == |DropIncomplete(days)|
    ensures forall k :: 0 <= k < |idx| ==> idx[k] < |days| && DropIncomplete(days)[k] == days[idx[k]]
    ensures forall k, l :: 0 <= k < l < |idx| ==> idx[k] < idx[l]
    ensures forall j :: 0 <= j < |days| && Complete(days[j]) ==> j in idx
    decreases |days|
  {
    if |days| == 0 then []
    else
      var before := days[..|days| - 1];
      var init := CompleteIndices(before);
      assert forall j :: 0 <= j < |before| ==> before[j] == days[j];
      if Complete(days[|days| - 1]) then init + [|days| - 1] else init
  }

  /** Positions `i1 < i2 < i3` hold the table's last three complete rows:
      no other complete row lies after `i1`. */
  predicate LastThreeComplete(days: seq<Day>, i1: int, i2: int, i3: int)
  {
    && 0 <= i1 < i2 < i3 < |days|
    && Complete(days[i1]) && Complete(days[i2]) && Complete(days[i3])
    && forall j :: i1 < j < |days| && j != i2 && j != i3 ==> !Complete(days[j])
  }

  /** The last three rows `dropna` keeps are the table's last three
      complete rows, and a table with three complete rows has them. */
  lemma LastThreeKept(days: seq<Day>, i1: int, i2: int, i3: int)
    requires LastThreeComplete(days, i1, i2, i3)
    ensures var kept := DropIncomplete(days);
      |kept| >= 3 && kept[|kept| - 3] == days[i1] && kept[|kept| - 2] == days[i2] && kept[|kept| - 1] == days[i3]
  {
    var idx := CompleteIndices(days);
    var kept := DropIncomplete(days);
    forall k | 0 <= k < |idx| && idx[k] > i1 ensures idx[k] == i2 || idx[k] == i3 {
      assert Complete(kept[k]);
    }
    LastThreePositions(idx, i1, i2, i3);
  }

  /** In rising positions that include `i1 < i2 < i3` and hold nothing
      above `i1` but `i2` and `i3`, those three come last. */
  lemma LastThreePositions(idx: seq<nat>, i1: int, i2: int, i3: int)
    requires forall k, l :: 0 <= k < l < |idx| ==> idx[k] < idx[l]
    requires i1 < i2 < i3 && i1 in idx && i2 in idx && i3 in idx
    requires forall k :: 0 <= k < |idx| && idx[k] > i1 ==> idx[k] == i2 || idx[k] == i3
    ensures |idx| >= 3 && idx[|idx| - 3] == i1 && idx[|idx| - 2] == i2 && idx[|idx| - 1] == i3
  {
    var n := |idx|;
    var k1 :| 0 <= k1 < n && idx[k1] == i1;
    var k2 :| 0 <= k2 < n && idx[k2] == i2;
    var k3 :| 0 <= k3 < n && idx[k3] == i3;
    assert k1 < k2 < k3;
    assert idx[n - 1] >= i3;
    assert idx[n - 2] >= i2;
    assert idx[n - 3] >= i1;
  }

  /** A table whose `dropna` keeps three or more rows has last three
      complete rows. */
  lemma LastThreeExist(days: seq<Day>)
    requires |DropIncomplete(days)| >= 3
    ensures exists i1, i2, i3 :: LastThreeComplete(days, i1, i2, i3)
  {
    var idx := CompleteIndices(days);
    var n := |idx|;
    var i1, i2, i3 := idx[n - 3], idx[n - 2], idx[n - 1];
    assert Complete(DropIncomplete(days)[n - 3]) && Complete(DropIncomplete(days)[n - 2])
      && Complete(DropIncomplete(days)[n - 1]);
    forall j | i1 < j < |days| && j != i2 && j != i3
      ensures !Complete(days[j])
    {
      forall k | 0 <= k < n ensures idx[k] != j {
        if k < n - 3 {
          assert idx[k] < idx[n - 3];
        }
      }
    }
    assert LastThreeComplete(days, i1, i2, i3);
  }

  /** The last row `dropna` keeps is the last complete row. */
  lemma {:induction false} LastKept(days: seq<Day>)
    requires |DropIncomplete(days)| > 0
    ensures exists i :: IsLastComplete(days, i) && DropIncomplete(days)[|DropIncomplete(days)| - 1] == days[i]
    decreases |days|
  {
    var before := days[..|days| - 1];
    var last := days[|days| - 1];
    if Complete(last) {
      assert IsLastComplete(days, |days| - 1);
    } else {
      LastKept(before);
      var i :| IsLastComplete(before, i) && DropIncomplete(before)[|DropIncomplete(before)| - 1] == before[i];
      assert IsLastComplete(days, i);
    }
  }

  /** The stage column of the first `k` kept rows. */
  function Stages(kept: seq<Day>, k: nat): (stages: seq<int>)
    requires k <= |kept|
    requires forall i :: 0 <= i < |kept| ==> Complete(kept[i])
    ensures |stages| == k
    ensures forall i :: 0 <= i < k ==> stages[i] == DayStage(kept[i]) && stages[i] in {0, 4, 5}
  {
    if k == 0 then [] else Stages(kept, k - 1) + [DayStage(kept[k - 1])]
  }

  /** The rolling value at row `i`: NaN (here `None`) while the three-row
      window is not full, then whether the window equals the pattern. */
  function SignAt(stages: seq<int>, i: nat): (sign: Option<bool>)
    requires i < |stages|
    ensures sign.None? <==> i < 2
    ensures sign == Some(true) <==> 2 <= i && stages[i - 2] == 4 && stages[i - 1] == 5 && stages[i] == 5
  {
    if i < 2 then None
    else
      assert stages[i - 2..i + 1] == [stages[i - 2], stages[i - 1], stages[i]];
      Some(stages[i - 2..i + 1] == Pattern)
  }

  /** `stage.rolling(3).apply(lambda x: list(x) == [4, 5, 5])` on the first
      `k` rows. */
  function PurchaseSigns(stages: seq<int>, k: nat): (signs: seq<Option<bool>>)
    requires k <= |stages|
    ensures |signs| == k
    ensures forall i :: 0 <= i < k ==> signs[i] == SignAt(stages, i)
  {
    if k == 0 then [] else PurchaseSigns(stages, k - 1) + [SignAt(stages, k - 1)]
  }

  /** Python truthiness of the `purchase_sign` cell: NaN is truthy. */
  predicate Truthy(sign: Option<bool>)
  {
    match sign
    case None => true
    case Some(b) => b
  }

  /** The sign of the last row is truthy exactly when fewer than three rows
      exist or the last three stages read 4, 5, 5. */
  lemma LastSign(stages: seq<int>)
    requires |stages| >= 1
    ensures var n := |stages|;
      Truthy(PurchaseSigns(stages, n)[n - 1]) <==>
        n < 3 || (stages[n - 3] == 4 && stages[n - 2] == 5 && stages[n - 1] == 5)
  {
    var n := |stages|;
    assert PurchaseSigns(stages, n)[n - 1] == SignAt(stages, n - 1);
  }

  function CellOf(d: Day): SignCell
    requires Complete(d)
  {
    SignCell(d.date, d.code, d.closedAdj, d.short.value, d.middle.value, d.long.value)
  }

  /** The decision on the kept rows: the last one is appended when its
      purchase sign is truthy. */
  function LastRowCells(kept: seq<Day>): (cells: seq<SignCell>)
    requires forall i :: 0 <= i < |kept| ==> Complete(kept[i])
    ensures |cells| <= 1
    ensures |cells| == 1 ==> |kept| > 0 && cells[0] == CellOf(kept[|kept| - 1])
  {
    if |kept| == 0 then []
    else
      var n := |kept|;
      if Truthy(PurchaseSigns(Stages(kept, n), n)[n - 1]) then [CellOf(kept[n - 1])] else []
  }

  /** With three or more kept rows, the last one is appended exactly when
      the last three stages read 4, 5, 5; with one or two its sign is NaN,
      which is truthy, so it is appended whatever its stage. */
  lemma LastRowPattern(kept: seq<Day>)
    requires forall i :: 0 <= i < |kept| ==> Complete(kept[i])
    requires |kept| >= 1
    ensures var n := |kept|;
      |LastRowCells(kept)| == 1 <==>
        n < 3 || (DayStage(kept[n - 3]) == 4 && DayStage(kept[n - 2]) == 5 && DayStage(kept[n - 1]) == 5)
  {
    var n := |kept|;
    var stages := Stages(kept, n);
    LastSign(stages);
    if n >= 3 {
      assert stages[n - 3] == DayStage(kept[n - 3]);
      assert stages[n - 2] == DayStage(kept[n - 2]);
    }
    assert stages[n - 1] == DayStage(kept[n - 1]);
  }

  /** The rows handed to the spreadsheet: only the last kept row is
      inspected, so at most one row is appended, and it is the last row
      that survives `dropna`. */
  function SignCells(days: seq<Day>): (cells: seq<SignCell>)
    ensures |cells| <= 1
    ensures |cells| == 1 ==> exists i :: IsLastComplete(days, i) && cells[0] == CellOf(days[i])
  {
    var kept := DropIncomplete(days);
    if |kept| == 0 then []
    else
      LastKept(days);
      LastRowCells(kept)
  }

  /** With three or more complete rows, the last one is appended exactly
      when the table's last three complete rows have stages 4, 5, 5, in
      table order. */
  lemma SignalIffPattern(days: seq<Day>, i1: int, i2: int, i3: int)
    requires LastThreeComplete(days, i1, i2, i3)
    ensures |SignCells(days)| == 1 <==>
      DayStage(days[i1]) == 4 && DayStage(days[i2]) == 5 && DayStage(days[i3]) == 5
  {
    LastThreeKept(days, i1, i2, i3);
    LastRowPattern(DropIncomplete(days));
  }

  /** With one or two complete rows the last one's sign is NaN, which is
      truthy, so that row is appended whatever its stage. */
  lemma ShortHistorySignals(days: seq<Day>)
    requires 1 <= |DropIncomplete(days)| <= 2
    ensures |SignCells(days)| == 1
  {
    LastRowPattern(DropIncomplete(days));
  }

  /** A series whose three averages coincide on every complete row never
      signals once three rows are complete: every stage is 0. */
  lemma EqualAveragesNeverSignal(days: seq<Day>)
    requires forall i :: 0 <= i < |days| && Complete(days[i]) ==>
      days[i].short == days[i].middle == days[i].long
    requires |DropIncomplete(days)| >= 3
    ensures SignCells(days) == []
  {
    var kept := DropIncomplete(days);
    var n := |kept|;
    KeptExactlyComplete(days);
    assert kept[n - 1] in kept;
    assert DayStage(kept[n - 1]) == 0;
    LastRowPattern(kept);
  }
}

/** One invocation of the crawler (`Runner.start` and
    `Runner.__drive_insert`) as the trace of calls it makes on its
    collaborators. Every collaborator is a parameter: its reply decides
    whether the run goes on, and a call that raises ends the trace. */
module Runner {
  import opened Wrappers
  import opened StockList
  import opened Cursor
  import opened StockCsv
  import opened Signal

  /** A call on a collaborator, recorded when it is issued. */
  datatype Effect =
    | CacheGet
    | FetchYear(code: string, year: string)
    | FindFile(code: string)
    | DeleteFile(fileId: string)
    | Upload(name: string, content: string)
    | SheetAppend(cells: seq<SignCell>)
    | CacheSet(code: string)

  datatype Kind = GetKind | FetchKind | FindKind | DeleteKind | UploadKind | AppendKind | SetKind

  function KindOf(e: Effect): Kind
  {
    match e
    case CacheGet => GetKind
    case FetchYear(_, _) => FetchKind
    case FindFile(_) => FindKind
    case DeleteFile(_) => DeleteKind
    case Upload(_, _) => UploadKind
    case SheetAppend(_) => AppendKind
    case CacheSet(_) => SetKind
  }

  /** How many calls of one kind a trace holds. */
  function Count(trace: seq<Effect>, k: Kind): (c: nat)
    ensures c <= |trace|
    ensures c == 0 <==> forall i :: 0 <= i < |trace| ==> KindOf(trace[i]) != k
    decreases |trace|
  {
    if |trace| == 0 then 0
    else Count(trace[..|trace| - 1], k) + (if KindOf(trace[|trace| - 1]) == k then 1 else 0)
  }

  /** The count of a kind in a trace of at most three calls, call by call. */
  lemma ShortCount(t: seq<Effect>)
    requires |t| <= 3
    ensures forall k: Kind ::
              Count(t, k) == (if |t| > 0 && KindOf(t[0]) == k then 1 else 0)
                             + (if |t| > 1 && KindOf(t[1]) == k then 1 else 0)
                             + (if |t| > 2 && KindOf(t[2]) == k then 1 else 0)
  {
    if |t| > 0 {
      var one := t[..1];
      assert one[..0] == [];
      if |t| > 1 {
        var two := t[..2];
        assert two[..1] == one;
        if |t| > 2 {
          assert t[..2] == two;
        }
      }
    }
  }

  lemma {:induction false} CountConcat(a: seq<Effect>, b: seq<Effect>, k: Kind)
    ensures Count(a + b, k) == Count(a, k) + Count(b, k)
    decreases |b|
  {
    if |b| == 0 {
      assert a + b == a;
    } else {
      var b' := b[..|b| - 1];
      assert (a + b)[..|a + b| - 1] == a + b';
      assert (a + b)[|a + b| - 1] == b[|b| - 1];
      CountConcat(a, b', k);
    }
  }

  /** The reply of the file search by name: it may raise, find nothing, or
      find a file whose id is returned. */
  datatype FindReply = FindFailed | NotFound | Found(fileId: string)

  /** The collaborators of one run. `fetch(code)(year)` is the price
      provider's text for one year of one code. `fetch`, `deleteOk`, `uploadOk`,
      `appendOk` and `setOk` say whether the call returns (and what) or
      raises; `analyse` stands for reading the CSV into the sorted table
      with its moving averages, `None` when reading raises. */
  datatype Env = Env(
    cache: CacheRead,
    fetch: string -> string -> Option<string>,
    findFile: string -> FindReply,
    deleteOk: string -> bool,
    uploadOk: (string, string) -> bool,
    analyse: string -> Option<seq<Day>>,
    appendOk: seq<SignCell> -> bool,
    setOk: string -> bool)

  /** `Completed` ends normally; `Failed` is an exception caught in `start`,
      logged, then `exit()`; `Terminated` is the `exit()` of cursor
      resolution, which no handler catches. */
  datatype Status = Completed | Failed | Terminated

  datatype RunResult = RunResult(selection: Selection, trace: seq<Effect>, status: Status)

  /** The calls one step issued and whether it returned normally. */
  datatype Step = Step(effects: seq<Effect>, ok: bool)

  /** `__drive_insert`: search for a stored file of the code, delete it if
      one is found, then upload the CSV as `<code>.csv`. */
  function DriveInsert(code: string, csv: string, env: Env): (s: Step)
    ensures 1 <= |s.effects| <= 3 && s.effects[0] == FindFile(code)
    ensures s.ok <==>
      && env.findFile(code) != FindFailed
      && (env.findFile(code).Found? ==> env.deleteOk(env.findFile(code).fileId))
      && env.uploadOk(code + ".csv", csv)
    ensures s.ok ==> s.effects[|s.effects| - 1] == Upload(code + ".csv", csv)
  {
    var upload := Upload(code + ".csv", csv);
    match env.findFile(code)
    case FindFailed => Step([FindFile(code)], false)
    case NotFound => Step([FindFile(code), upload], env.uploadOk(code + ".csv", csv))
    case Found(id) =>
      if !env.deleteOk(id) then Step([FindFile(code), DeleteFile(id)], false)
      else Step([FindFile(code), DeleteFile(id), upload], env.uploadOk(code + ".csv", csv))
  }

  /** The calls of `__drive_insert`: one search, a delete exactly when a
      file was found, at most one upload, never a delete after the upload,
      and nothing else; a successful step uploaded once. */
  lemma DriveInsertCalls(code: string, csv: string, env: Env)
    ensures var s := DriveInsert(code, csv, env);
      && Count(s.effects, FindKind) == 1
      && (forall k: Kind :: k != FindKind && k != DeleteKind && k != UploadKind ==> Count(s.effects, k) == 0)
      && Count(s.effects, DeleteKind) <= 1 && Count(s.effects, UploadKind) <= 1
      && (Count(s.effects, DeleteKind) == 1 <==> env.findFile(code).Found?)
      && (s.ok ==> Count(s.effects, UploadKind) == 1)
    ensures var s := DriveInsert(code, csv, env);
      forall i, j ::
        (0 <= i < |s.effects| && 0 <= j < |s.effects| && s.effects[i].DeleteFile? && s.effects[j].Upload?) ==> i < j
  {
    ShortCount(DriveInsert(code, csv, env).effects);
  }

  /** `__append_purchace_sign`: read the CSV into the table, then append
      the signalling row, if any, to the spreadsheet in one call. */
  function AppendSign(csv: string, env: Env): (s: Step)
    ensures |s.effects| <= 1
    ensures Count(s.effects, AppendKind) == |s.effects|
    ensures forall k: Kind :: k != AppendKind ==> Count(s.effects, k) == 0
    ensures |s.effects| == 1 <==> env.analyse(csv).Some? && SignCells(env.analyse(csv).value) != []
    ensures |s.effects| == 1 ==> s.effects[0] == SheetAppend(SignCells(env.analyse(csv).value))
    ensures s.ok <==> env.analyse(csv).Some? && (|s.effects| == 1 ==> env.appendOk(s.effects[0].cells))
  {
    match env.analyse(csv)
    case None => Step([], false)
    case Some(days) =>
      var cells := SignCells(days);
      if |cells| > 0 then Step([SheetAppend(cells)], env.appendOk(cells)) else Step([], true)
  }

  function FetchEffects(code: string, years: seq<string>): (effects: seq<Effect>)
    ensures |effects| == |years|
    ensures Count(effects, FetchKind) == |years|
    ensures forall k: Kind :: k != FetchKind ==> Count(effects, k) == 0
    ensures forall i :: 0 <= i < |effects| ==> effects[i] == FetchYear(code, years[i])
    decreases |years|
  {
    if |years| == 0 then []
    else
      var init := FetchEffects(code, years[..|years| - 1]);
      var effects := init + [FetchYear(code, years[|years| - 1])];
      assert effects[..|effects| - 1] == init;
      effects
  }

  /** `start`: resolve the code, fetch its CSV, store it, append its signal
      and only then move the cursor onto the code. */
  function Run(list: StockList, env: Env): (r: RunResult)
    ensures r.selection == ResolveCode(list, env.cache)
    ensures r.status == Terminated <==> env.cache.Hit? && env.cache.code !in list.queue
  {
    match ResolveCode(list, env.cache)
    case Terminate => RunResult(Terminate, [CacheGet], Terminated)
    case Selected(code) => RunSelected(code, FetchFor(code, env), env)
  }

  /** `__fetch_stock` for the chosen code, asking the price provider of
      the environment. */
  function FetchFor(code: string, env: Env): (r: FetchOutcome)
    ensures |r.attempted| <= |Years| && forall i :: 0 <= i < |r.attempted| ==> r.attempted[i] == Years[i]
    ensures r.csv.Some? <==> forall i :: 0 <= i < |Years| ==> env.fetch(code)(Years[i]).Some?
    ensures r.csv.Some? ==> r.attempted == Years
  {
    FetchStock(code, env.fetch(code))
  }

  /** The rest of `start` once the code is chosen and its years fetched. */
  function RunSelected(code: string, fetched: FetchOutcome, env: Env): (r: RunResult)
    ensures r.selection == Selected(code) && r.status != Terminated
  {
    var afterFetch := [CacheGet] + FetchEffects(code, fetched.attempted);
    match fetched.csv
    case None => RunResult(Selected(code), afterFetch, Failed)
    case Some(csv) =>
      var drive := DriveInsert(code, csv, env);
      if !drive.ok then RunResult(Selected(code), afterFetch + drive.effects, Failed)
      else
        var sign := AppendSign(csv, env);
        if !sign.ok then RunResult(Selected(code), afterFetch + drive.effects + sign.effects, Failed)
        else
          RunResult(Selected(code), afterFetch + drive.effects + sign.effects + [CacheSet(code)],
                    if env.setOk(code) then Completed else Failed)
  }

  /** Every run reads the cursor first and exactly once; it ends the
      process right after that read exactly when the cursor names a code
      the list does not hold. */
  lemma RunReadsCursorFirst(list: StockList, env: Env)
    ensures |Run(list, env).trace| >= 1 && Run(list, env).trace[0] == CacheGet
    ensures Count(Run(list, env).trace, GetKind) == 1
    ensures Run(list, env).status == Terminated <==> env.cache.Hit? && env.cache.code !in list.queue
    ensures Run(list, env).status == Terminated ==> Run(list, env).trace == [CacheGet]
  {
    match ResolveCode(list, env.cache)
    case Terminate =>
    case Selected(code) =>
      SelectedReadsCursorOnce(code, FetchFor(code, env), env);
  }

  lemma SelectedReadsCursorOnce(code: string, fetched: FetchOutcome, env: Env)
    ensures |RunSelected(code, fetched, env).trace| >= 1 && RunSelected(code, fetched, env).trace[0] == CacheGet
    ensures Count(RunSelected(code, fetched, env).trace, GetKind) == 1
    ensures RunSelected(code, fetched, env).status != Terminated
  {
    var f := FetchEffects(code, fetched.attempted);
    SelectedTrace(code, fetched, env);
    PartCounts(code, fetched, env);
    CountPieces([CacheGet] + f, DrivePart(code, fetched, env), SignPart(code, fetched, env), SetPart(code, fetched, env));
    CountConcat([CacheGet], f, GetKind);
    SingleCount(CacheGet, GetKind);
  }

  lemma CountPieces(a: seq<Effect>, b: seq<Effect>, c: seq<Effect>, d: seq<Effect>)
    ensures forall k: Kind :: Count(a + b + c + d, k) == Count(a, k) + Count(b, k) + Count(c, k) + Count(d, k)
  {
    forall k: Kind ensures Count(a + b + c + d, k) == Count(a, k) + Count(b, k) + Count(c, k) + Count(d, k) {
      CountConcat(a, b, k);
      CountConcat(a + b, c, k);
      CountConcat(a + b + c, d, k);
    }
  }

  /** The calls after the fetches: the drive step if the CSV was built, the
      signal step if the drive step returned, the cursor write if the
      signal step returned. */
  function DrivePart(code: string, fetched: FetchOutcome, env: Env): seq<Effect>
  {
    if fetched.csv.None? then [] else DriveInsert(code, fetched.csv.value, env).effects
  }

  function SignPart(code: string, fetched: FetchOutcome, env: Env): seq<Effect>
  {
    if fetched.csv.None? || !DriveInsert(code, fetched.csv.value, env).ok then []
    else AppendSign(fetched.csv.value, env).effects
  }

  function SetPart(code: string, fetched: FetchOutcome, env: Env): seq<Effect>
  {
    if fetched.csv.None? || !DriveInsert(code, fetched.csv.value, env).ok
       || !AppendSign(fetched.csv.value, env).ok then []
    else [CacheSet(code)]
  }

  /** The trace of a run with a selected code is the cursor read, the
      fetches, and the parts the earlier steps let through. */
  lemma SelectedTrace(code: string, fetched: FetchOutcome, env: Env)
    ensures RunSelected(code, fetched, env).trace ==
      [CacheGet] + FetchEffects(code, fetched.attempted) + DrivePart(code, fetched, env)
      + SignPart(code, fetched, env) + SetPart(code, fetched, env)
  {
    var afterFetch := [CacheGet] + FetchEffects(code, fetched.attempted);
    if fetched.csv.None? {
      assert afterFetch + [] + [] + [] == afterFetch;
    } else {
      var drive := DriveInsert(code, fetched.csv.value, env);
      if !drive.ok {
        assert afterFetch + drive.effects + [] + [] == afterFetch + drive.effects;
      } else {
        var sign := AppendSign(fetched.csv.value, env);
        if !sign.ok {
          assert afterFetch + drive.effects + sign.effects + [] == afterFetch + drive.effects + sign.effects;
        }
      }
    }
  }

  lemma SingleCount(e: Effect, k: Kind)
    ensures Count([e], k) == if KindOf(e) == k then 1 else 0
  {
    assert [e][..0] == [];
  }

  /** What each part after the fetches may contain. */
  lemma PartCounts(code: string, fetched: FetchOutcome, env: Env)
    ensures var d := DrivePart(code, fetched, env);
      Count(d, GetKind) == 0 && Count(d, FetchKind) == 0 && Count(d, AppendKind) == 0 && Count(d, SetKind) == 0
      && Count(d, DeleteKind) <= 1 && Count(d, UploadKind) <= 1
    ensures var s := SignPart(code, fetched, env);
      Count(s, GetKind) == 0 && Count(s, FetchKind) == 0 && Count(s, DeleteKind) == 0 && Count(s, UploadKind) == 0
      && Count(s, SetKind) == 0 && Count(s, AppendKind) <= 1
    ensures var c := SetPart(code, fetched, env);
      Count(c, GetKind) == 0 && Count(c, FetchKind) == 0 && Count(c, DeleteKind) == 0 && Count(c, UploadKind) == 0
      && Count(c, AppendKind) == 0 && Count(c, SetKind) == |c| && |c| <= 1
    ensures SetPart(code, fetched, env) != [] ==>
      SetPart(code, fetched, env) == [CacheSet(code)] && Count(DrivePart(code, fetched, env), UploadKind) == 1
  {
    if fetched.csv.Some? {
      DriveInsertCalls(code, fetched.csv.value, env);
    }
    SingleCount(CacheSet(code), GetKind);
    SingleCount(CacheSet(code), FetchKind);
    SingleCount(CacheSet(code), DeleteKind);
    SingleCount(CacheSet(code), UploadKind);
    SingleCount(CacheSet(code), AppendKind);
    SingleCount(CacheSet(code), SetKind);
  }

  /** Whatever the collaborators reply once a code is chosen, one fetch is
      issued per attempted year and at most one delete, upload, spreadsheet
      append and cursor write follow. */
  lemma SelectedCallBounds(code: string, fetched: FetchOutcome, env: Env)
    ensures var t := RunSelected(code, fetched, env).trace;
      Count(t, DeleteKind) <= 1 && Count(t, UploadKind) <= 1 && Count(t, AppendKind) <= 1
      && Count(t, SetKind) <= 1 && Count(t, FetchKind) == |fetched.attempted|
  {
    TraceCounts(code, fetched, env);
    PartCounts(code, fetched, env);
  }

  /** Each kind's count in a selected run's trace, part by part. */
  lemma TraceCounts(code: string, fetched: FetchOutcome, env: Env)
    ensures forall k: Kind ::
              Count(RunSelected(code, fetched, env).trace, k)
                == (if k == GetKind then 1 else 0) + Count(FetchEffects(code, fetched.attempted), k)
                   + Count(DrivePart(code, fetched, env), k) + Count(SignPart(code, fetched, env), k)
                   + Count(SetPart(code, fetched, env), k)
  {
    var f := FetchEffects(code, fetched.attempted);
    SelectedTrace(code, fetched, env);
    CountPieces([CacheGet] + f, DrivePart(code, fetched, env), SignPart(code, fetched, env), SetPart(code, fetched, env));
    forall k: Kind ensures Count([CacheGet] + f, k) == (if k == GetKind then 1 else 0) + Count(f, k) {
      CountConcat([CacheGet], f, k);
      SingleCount(CacheGet, k);
    }
  }

  /** The fetches sit right after the cursor read, one per attempted year
      and in that order; no later call is a fetch. */
  lemma SelectedFetchOrder(code: string, fetched: FetchOutcome, env: Env)
    ensures var t := RunSelected(code, fetched, env).trace;
      forall i :: 0 <= i < |t| && t[i].FetchYear? ==>
        1 <= i <= |fetched.attempted| && t[i] == FetchYear(code, fetched.attempted[i - 1])
  {
    var rest := AfterFetches(code, fetched, env);
    SelectedTraceParts(code, fetched, env);
    NoFetchAfterFetches(code, fetched, env);
    FetchesFirst(code, fetched.attempted, rest);
  }

  /** The calls after the fetches. */
  function AfterFetches(code: string, fetched: FetchOutcome, env: Env): seq<Effect>
  {
    DrivePart(code, fetched, env) + SignPart(code, fetched, env) + SetPart(code, fetched, env)
  }

  lemma SelectedTraceParts(code: string, fetched: FetchOutcome, env: Env)
    ensures RunSelected(code, fetched, env).trace ==
      [CacheGet] + FetchEffects(code, fetched.attempted) + AfterFetches(code, fetched, env)
  {
    var a := [CacheGet] + FetchEffects(code, fetched.attempted);
    var d := DrivePart(code, fetched, env);
    var s := SignPart(code, fetched, env);
    var c := SetPart(code, fetched, env);
    SelectedTrace(code, fetched, env);
    Regroup(a, d, s, c);
  }

  /** Regrouping the calls after the first piece; stated on plain
      sequences so that the solver does not unfold the run around them. */
  lemma Regroup(a: seq<Effect>, d: seq<Effect>, s: seq<Effect>, c: seq<Effect>)
    ensures a + d + s + c == a + (d + s + c)
  {
  }

  lemma NoFetchAfterFetches(code: string, fetched: FetchOutcome, env: Env)
    ensures Count(AfterFetches(code, fetched, env), FetchKind) == 0
  {
    var d := DrivePart(code, fetched, env);
    var s := SignPart(code, fetched, env);
    PartCounts(code, fetched, env);
    CountConcat(d, s, FetchKind);
    CountConcat(d + s, SetPart(code, fetched, env), FetchKind);
  }

  lemma FetchesFirst(code: string, years: seq<string>, rest: seq<Effect>)
    requires Count(rest, FetchKind) == 0
    ensures var t := [CacheGet] + FetchEffects(code, years) + rest;
      forall i :: 0 <= i < |t| && t[i].FetchYear? ==> 1 <= i <= |years| && t[i] == FetchYear(code, years[i - 1])
  {
    var f := FetchEffects(code, years);
    var t := [CacheGet] + f + rest;
    forall i | 0 <= i < |t|
      ensures t[i].FetchYear? ==> 1 <= i <= |years| && t[i] == FetchYear(code, years[i - 1])
    {
      if i == 0 {
        assert t[i] == CacheGet;
      } else if i < 1 + |f| {
        assert t[i] == f[i - 1];
      } else {
        assert t[i] == rest[i - 1 - |f|];
        assert KindOf(rest[i - 1 - |f|]) != FetchKind;
      }
    }
  }

  /** Once a code is chosen, the cursor is written only after the CSV was
      built, stored and its signal step returned; the write is the last
      call, after exactly one upload, and the run completes exactly when
      that write succeeds. */
  lemma SelectedCursorWrite(code: string, fetched: FetchOutcome, env: Env)
    ensures var t := RunSelected(code, fetched, env).trace;
      Count(t, SetKind) == 1 <==>
        && fetched.csv.Some?
        && DriveInsert(code, fetched.csv.value, env).ok
        && AppendSign(fetched.csv.value, env).ok
    ensures var t := RunSelected(code, fetched, env).trace;
      Count(t, SetKind) == 1 ==>
        t[|t| - 1] == CacheSet(code) && Count(t, UploadKind) == 1 && Count(t, FetchKind) == |fetched.attempted|
    ensures RunSelected(code, fetched, env).status == Completed <==>
      Count(RunSelected(code, fetched, env).trace, SetKind) == 1 && env.setOk(code)
  {
    SetCountIsSetPart(code, fetched, env);
    WrittenCursorIsLast(code, fetched, env);
  }

  /** The cursor-write count is the length of the part after the signal
      step. */
  lemma SetCountIsSetPart(code: string, fetched: FetchOutcome, env: Env)
    ensures Count(RunSelected(code, fetched, env).trace, SetKind) == |SetPart(code, fetched, env)|
  {
    TraceCounts(code, fetched, env);
    PartCounts(code, fetched, env);
  }

  lemma WrittenCursorIsLast(code: string, fetched: FetchOutcome, env: Env)
    ensures var t := RunSelected(code, fetched, env).trace;
      SetPart(code, fetched, env) != [] ==>
        t[|t| - 1] == CacheSet(code) && Count(t, UploadKind) == 1 && Count(t, FetchKind) == |fetched.attempted|
  {
    SelectedTrace(code, fetched, env);
    TraceCounts(code, fetched, env);
    PartCounts(code, fetched, env);
  }

  /** Whatever the collaborators reply, a run deletes at most one file,
      uploads at most once, appends to the spreadsheet at most once, writes
      the cursor at most once and asks for at most the three fixed years. */
  lemma RunCallBounds(list: StockList, env: Env)
    ensures var t := Run(list, env).trace;
      Count(t, DeleteKind) <= 1 && Count(t, UploadKind) <= 1 && Count(t, AppendKind) <= 1
      && Count(t, SetKind) <= 1 && Count(t, FetchKind) <= |Years|
  {
    match ResolveCode(list, env.cache)
    case Terminate =>
      SingleCount(CacheGet, DeleteKind);
      SingleCount(CacheGet, UploadKind);
      SingleCount(CacheGet, AppendKind);
      SingleCount(CacheGet, SetKind);
      SingleCount(CacheGet, FetchKind);
    case Selected(code) =>
      SelectedCallBounds(code, FetchFor(code, env), env);
  }

  /** The fetches of a run sit right after the cursor read and ask for the
      selected code's years in the fixed order 2020, 2019, 2018. */
  lemma RunFetchOrder(list: StockList, env: Env)
    ensures var r := Run(list, env);
      forall i :: 0 <= i < |r.trace| && r.trace[i].FetchYear? ==>
        r.selection.Selected? && 1 <= i <= |Years| && r.trace[i] == FetchYear(r.selection.code, Years[i - 1])
  {
    match ResolveCode(list, env.cache)
    case Terminate =>
    case Selected(code) =>
      var fetched := FetchFor(code, env);
      SelectedFetchOrder(code, fetched, env);
      FetchesOfYears(RunSelected(code, fetched, env).trace, code, fetched.attempted);
  }

  /** Fetches of the attempted years are fetches of the first years. */
  lemma FetchesOfYears(t: seq<Effect>, code: string, attempted: seq<string>)
    requires |attempted| <= |Years| && forall i :: 0 <= i < |attempted| ==> attempted[i] == Years[i]
    requires forall i :: 0 <= i < |t| && t[i].FetchYear? ==>
      1 <= i <= |attempted| && t[i] == FetchYear(code, attempted[i - 1])
    ensures forall i :: 0 <= i < |t| && t[i].FetchYear? ==>
      1 <= i <= |Years| && t[i] == FetchYear(code, Years[i - 1])
  {
  }

  /** The cursor is written only after every year was fetched, the CSV was
      uploaded exactly once and the signal step returned; the write is the
      run's last call and carries the code the run processed, and the run
      completes exactly when that write succeeds. */
  lemma CursorWrittenLast(list: StockList, env: Env)
    ensures var r := Run(list, env);
      Count(r.trace, SetKind) == 1 ==>
        && r.selection.Selected?
        && r.trace[|r.trace| - 1] == CacheSet(r.selection.code)
        && (forall i :: 0 <= i < |Years| ==> env.fetch(r.selection.code)(Years[i]).Some?)
        && Count(r.trace, FetchKind) == |Years|
        && Count(r.trace, UploadKind) == 1
    ensures var r := Run(list, env);
      r.status == Completed <==>
        r.selection.Selected? && Count(r.trace, SetKind) == 1 && env.setOk(r.selection.code)
  {
    match ResolveCode(list, env.cache)
    case Terminate =>
      SingleCount(CacheGet, SetKind);
    case Selected(code) =>
      var fetched := FetchFor(code, env);
      SelectedCursorWrite(code, fetched, env);
  }

  /** A run that completes on the code at position `i` ends by writing
      that code as the cursor, and a run that reads that cursor back
      (within the cursor's lifetime) processes the next code of the list,
      wrapping from the last code to the first. */
  lemma NextRunResumesAfter(stocks: seq<string>, list: StockList, env: Env, env': Env, i: nat)
    requires Distinct(stocks) && Load(stocks) == Success(list)
    requires i < |stocks|
    requires env'.cache == Hit(stocks[i])
    ensures Run(list, env).status == Completed && Run(list, env).selection == Selected(stocks[i]) ==>
      |Run(list, env).trace| > 0 && Run(list, env).trace[|Run(list, env).trace| - 1] == CacheSet(stocks[i])
    ensures Run(list, env').selection == Selected(stocks[if i + 1 < |stocks| then i + 1 else 0])
    ensures Run(list, env').status != Terminated
  {
    CursorWrittenLast(list, env);
    ResumeAfterCursor(stocks, i);
    RunReadsCursorFirst(list, env');
  }
}

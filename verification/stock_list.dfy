/** The round-robin scheduler over the stock codes read from the local
    code list: a cyclic successor map built in one linear pass, and the
    code a cold start begins with. */
module StockList {
  import opened Wrappers

  /** A loaded list: the first code of the file and the successor map
      ("queue") from each code to the code processed after it. */
  datatype StockList = StockList(firstCode: string, queue: map<string, string>)

  /** Reading `stocks[0]` of an empty list raises at construction. */
  datatype LoadError = EmptyList

  predicate Distinct(stocks: seq<string>)
  {
    forall i, j :: 0 <= i < j < |stocks| ==> stocks[i] != stocks[j]
  }

  /** No code at a position strictly between `j` and `k` repeats the code
      at `j`: the pass reaches position `j` for the last time before `k`. */
  predicate LastBefore(stocks: seq<string>, j: nat, k: nat)
    requires j < k <= |stocks|
  {
    forall m :: j < m < k ==> stocks[m] != stocks[j]
  }

  /** The successor map after the first `k` iterations of the linear pass
      `queue[stocks[i]] = stocks[i + 1]`; a later duplicate key overwrites
      an earlier one, as a dict assignment does. */
  function QueueUpTo(stocks: seq<string>, k: nat): (q: map<string, string>)
    requires k < |stocks|
    ensures q.Keys == set m | 0 <= m < k :: stocks[m]
    ensures forall j :: 0 <= j < k && LastBefore(stocks, j, k) ==> q[stocks[j]] == stocks[j + 1]
    ensures forall c :: c in q ==> q[c] in stocks
    decreases k
  {
    if k == 0 then map[]
    else
      var prev := QueueUpTo(stocks, k - 1);
      prev[stocks[k - 1] := stocks[k]]
  }

  /** The whole pass: every code but the last points at its neighbour, then
      the last code is pointed back at the first. */
  function BuildQueue(stocks: seq<string>): (q: map<string, string>)
    requires |stocks| > 0
    ensures q.Keys == set m | 0 <= m < |stocks| :: stocks[m]
    ensures q[stocks[|stocks| - 1]] == stocks[0]
    ensures forall j :: 0 <= j < |stocks| - 1 && LastBefore(stocks, j, |stocks|) ==> q[stocks[j]] == stocks[j + 1]
    ensures forall c :: c in q ==> q[c] in stocks
  {
    var n := |stocks|;
    QueueUpTo(stocks, n - 1)[stocks[n - 1] := stocks[0]]
  }

  /** Construction from the codes in file order. */
  function Load(stocks: seq<string>): (r: Result<StockList, LoadError>)
    ensures r.Failure? <==> |stocks| == 0
    ensures r.Success? ==> r.value.firstCode == stocks[0]
    ensures r.Success? ==> r.value.queue.Keys == set x | x in stocks
    ensures r.Success? ==> r.value.queue[stocks[|stocks| - 1]] == stocks[0]
  {
    if |stocks| == 0 then Failure(EmptyList)
    else Success(StockList(stocks[0], BuildQueue(stocks)))
  }

  /** `get_next_code`: the successor of a known code, `None` otherwise. */
  function NextCode(list: StockList, code: string): (r: Option<string>)
    ensures r.None? <==> code !in list.queue
    ensures r.Some? ==> r.value in list.queue.Values
  {
    if code in list.queue then Some(list.queue[code]) else None
  }

  /** `get_first_code`. */
  function FirstCode(list: StockList): string
  {
    list.firstCode
  }

  /** `get_first_code` gives the first listed code, and that code always
      has a successor, so a cold start never ends the run. */
  lemma FirstCodeIsFirstListed(stocks: seq<string>)
    requires Load(stocks).Success?
    ensures FirstCode(Load(stocks).value) == stocks[0]
    ensures NextCode(Load(stocks).value, FirstCode(Load(stocks).value)) != None
  {
    assert stocks[0] in stocks;
  }

  /** `get_next_code` applied `k` times in a row, `None` once a code has no
      successor. */
  function Steps(list: StockList, code: string, k: nat): Option<string>
    decreases k
  {
    if k == 0 then Some(code)
    else
      match NextCode(list, code)
      case None => None
      case Some(next) => Steps(list, next, k - 1)
  }

  /** A code has a successor exactly when it appears in the list, and every
      successor is itself a listed code. */
  lemma NextCodeDefinedIffListed(stocks: seq<string>, code: string)
    requires Load(stocks).Success?
    ensures NextCode(Load(stocks).value, code).None? <==> code !in stocks
    ensures NextCode(Load(stocks).value, code).Some? ==> NextCode(Load(stocks).value, code).value in stocks
  {
  }

  /** For distinct codes the successor of the code at position `i` is the
      code at position `i + 1`, and the last code wraps to the first. */
  lemma NextCodeOfPosition(stocks: seq<string>, i: nat)
    requires Distinct(stocks)
    requires i < |stocks|
    ensures Load(stocks).Success?
    ensures NextCode(Load(stocks).value, stocks[i]) == Some(stocks[if i + 1 < |stocks| then i + 1 else 0])
  {
    if i + 1 < |stocks| {
      assert LastBefore(stocks, i, |stocks|);
    }
  }

  /** Successor steps compose: `a` steps and then `b` more are `a + b` steps. */
  lemma {:induction false} StepsCompose(list: StockList, code: string, a: nat, b: nat)
    requires Steps(list, code, a).Some?
    ensures Steps(list, code, a + b) == Steps(list, Steps(list, code, a).value, b)
    decreases a
  {
    if a > 0 {
      StepsCompose(list, NextCode(list, code).value, a - 1, b);
    }
  }

  /** `k` steps along a stretch of the list whose codes each point at their
      right neighbour land `k` positions further on. */
  lemma {:induction false} StepsAlong(list: StockList, stocks: seq<string>, i: nat, k: nat)
    requires i + k < |stocks|
    requires forall m :: i <= m < i + k ==> NextCode(list, stocks[m]) == Some(stocks[m + 1])
    ensures Steps(list, stocks[i], k) == Some(stocks[i + k])
    decreases k
  {
    if k > 0 {
      assert NextCode(list, stocks[i]) == Some(stocks[i + 1]);
      StepsAlong(list, stocks, i + 1, k - 1);
    }
  }

  /** For distinct codes every code but the last points at its right
      neighbour. */
  lemma DistinctSuccessors(stocks: seq<string>)
    requires Distinct(stocks)
    requires |stocks| > 0
    ensures Load(stocks).Success?
    ensures forall m :: 0 <= m < |stocks| - 1 ==> NextCode(Load(stocks).value, stocks[m]) == Some(stocks[m + 1])
  {
    forall m | 0 <= m < |stocks| - 1
      ensures NextCode(Load(stocks).value, stocks[m]) == Some(stocks[m + 1])
    {
      NextCodeOfPosition(stocks, m);
    }
  }

  /** A list whose codes each point at their right neighbour, the last one
      at the first, returns to any of its codes after `n` steps. */
  lemma CycleAlong(list: StockList, stocks: seq<string>, i: nat)
    requires i < |stocks|
    requires forall m :: 0 <= m < |stocks| - 1 ==> NextCode(list, stocks[m]) == Some(stocks[m + 1])
    requires NextCode(list, stocks[|stocks| - 1]) == Some(stocks[0])
    ensures Steps(list, stocks[i], |stocks|) == Some(stocks[i])
  {
    var n := |stocks|;
    StepsAlong(list, stocks, i, n - 1 - i);
    assert Steps(list, stocks[n - 1], 1) == Some(stocks[0]);
    StepsCompose(list, stocks[i], n - 1 - i, 1);
    StepsAlong(list, stocks, 0, i);
    StepsCompose(list, stocks[i], n - i, i);
  }

  /** The successor map is one closed cycle: `n` steps from any listed code
      return to it, so a one-code list maps its code to itself. */
  lemma CycleReturns(stocks: seq<string>, i: nat)
    requires Distinct(stocks)
    requires i < |stocks|
    ensures Load(stocks).Success?
    ensures Steps(Load(stocks).value, stocks[i], |stocks|) == Some(stocks[i])
  {
    DistinctSuccessors(stocks);
    NextCodeOfPosition(stocks, |stocks| - 1);
    CycleAlong(Load(stocks).value, stocks, i);
  }

  /** Starting from the first code, the `j`-th run of a cycle processes the
      `j`-th listed code, so one cycle visits every code exactly once. */
  lemma VisitsEveryCodeOnce(stocks: seq<string>, j: nat)
    requires Distinct(stocks)
    requires j < |stocks|
    ensures Load(stocks).Success?
    ensures Steps(Load(stocks).value, FirstCode(Load(stocks).value), j) == Some(stocks[j])
  {
    DistinctSuccessors(stocks);
    StepsAlong(Load(stocks).value, stocks, 0, j);
  }
}

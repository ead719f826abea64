/** Choosing the code a run processes from the cached cursor
    (`Runner.__get_stock_code`). */
module Cursor {
  import opened Wrappers
  import opened StockList

  /** The outcome of reading the cursor: a miss stands for every way the
      read raises (an absent or expired key, a failing cache). */
  datatype CacheRead = Miss | Hit(code: string)

  /** A run either goes on with one code or ends the process: `exit()`
      raises `SystemExit`, which the surrounding `except Exception` does
      not catch. */
  datatype Selection = Selected(code: string) | Terminate

  /** Cursor resolution: a miss falls back to the first code, a known code
      yields its successor, an unknown code ends the run. */
  function ResolveCode(list: StockList, read: CacheRead): (sel: Selection)
    ensures read.Miss? ==> sel == Selected(FirstCode(list))
    ensures sel.Terminate? <==> read.Hit? && read.code !in list.queue
    ensures read.Hit? && sel.Selected? ==> sel.code == list.queue[read.code]
  {
    match read
    case Miss => Selected(FirstCode(list))
    case Hit(cursor) =>
      match NextCode(list, cursor)
      case None => Terminate
      case Some(next) => Selected(next)
  }

  /** Against the list the queue was built from: a miss starts at the first
      listed code, a listed cursor is always resumed from, an unlisted one
      always terminates, and the code selected is always a listed code. */
  lemma ResolveAgainstList(stocks: seq<string>, read: CacheRead)
    requires |stocks| > 0
    ensures Load(stocks).Success?
    ensures read.Miss? ==> ResolveCode(Load(stocks).value, read) == Selected(stocks[0])
    ensures read.Hit? ==> (ResolveCode(Load(stocks).value, read).Terminate? <==> read.code !in stocks)
    ensures ResolveCode(Load(stocks).value, read).Selected? ==> ResolveCode(Load(stocks).value, read).code in stocks
  {
    if read.Hit? {
      NextCodeDefinedIffListed(stocks, read.code);
    }
  }

  /** For distinct codes a cursor at position `i` selects position `i + 1`,
      wrapping from the last code to the first. */
  lemma ResumeAfterCursor(stocks: seq<string>, i: nat)
    requires Distinct(stocks)
    requires i < |stocks|
    ensures Load(stocks).Success?
    ensures ResolveCode(Load(stocks).value, Hit(stocks[i])) == Selected(stocks[if i + 1 < |stocks| then i + 1 else 0])
  {
    NextCodeOfPosition(stocks, i);
  }

  /** The three-code example: a cursor on "B" selects "C", a miss selects
      "A", and the unknown cursor "Z" ends the run. */
  lemma ThreeCodeExample()
    ensures Load(["A", "B", "C"]).Success?
    ensures ResolveCode(Load(["A", "B", "C"]).value, Hit("B")) == Selected("C")
    ensures ResolveCode(Load(["A", "B", "C"]).value, Hit("C")) == Selected("A")
    ensures ResolveCode(Load(["A", "B", "C"]).value, Miss) == Selected("A")
    ensures ResolveCode(Load(["A", "B", "C"]).value, Hit("Z")) == Terminate
  {
    var stocks := ["A", "B", "C"];
    assert Distinct(stocks);
    ResumeAfterCursor(stocks, 1);
    ResumeAfterCursor(stocks, 2);
    ResolveAgainstList(stocks, Hit("Z"));
  }
}

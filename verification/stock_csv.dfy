/** Assembling one code's price CSV from the per-year texts of the price
    provider (`Runner.__fetch_stock`). */
module StockCsv {
  import opened Wrappers
  import opened Text

  /** The years fetched, in the order they are fetched and appended. */
  const Years: seq<string> := ["2020", "2019", "2018"]

  /** The header row, written as two pieces so that the verifier can see
      it holds no newline. */
  const CsvHeader: string := "code,date,open,high," + "low,closing,volume,closed_adj"

  const NewLine: char := '\n'

  /** The lines of one year's text that follow the provider's two banner
      lines; a text of fewer than three lines has none. */
  function DataLines(text: string): (lines: seq<string>)
    ensures forall i :: 0 <= i < |lines| ==> NewLine !in lines[i]
  {
    var all := Split(text, NewLine);
    if |all| < 2 then [] else all[2..]
  }

  /** Every line prefixed with the code and a comma. */
  function PrefixCode(code: string, lines: seq<string>): (rows: seq<string>)
    ensures |rows| == |lines|
    ensures forall i :: 0 <= i < |rows| ==> rows[i] == code + "," + lines[i]
  {
    if |lines| == 0 then [] else [code + "," + lines[0]] + PrefixCode(code, lines[1..])
  }

  /** One year's block: its prefixed data lines joined by newlines. */
  function Block(code: string, text: string): string
  {
    Join(PrefixCode(code, DataLines(text)), NewLine)
  }

  /** The lines one year contributes to the CSV: its prefixed data lines, or
      a single empty line when it has none. */
  function BlockLines(code: string, text: string): (lines: seq<string>)
    ensures |Split(text, NewLine)| <= 2 ==> lines == [""]
    ensures |Split(text, NewLine)| > 2 ==>
      |lines| == |Split(text, NewLine)| - 2 &&
      forall k :: 0 <= k < |lines| ==> lines[k] == code + "," + Split(text, NewLine)[k + 2]
  {
    var rows := PrefixCode(code, DataLines(text));
    if |rows| == 0 then [""] else rows
  }

  /** Each year's block, in fetch order. */
  function Blocks(code: string, texts: seq<string>): (blocks: seq<string>)
    ensures |blocks| == |texts|
    ensures forall i :: 0 <= i < |texts| ==> blocks[i] == Block(code, texts[i])
  {
    if |texts| == 0 then [] else [Block(code, texts[0])] + Blocks(code, texts[1..])
  }

  /** Each year's lines, in fetch order. */
  function LineGroups(code: string, texts: seq<string>): (groups: seq<seq<string>>)
    ensures |groups| == |texts|
    ensures forall i :: 0 <= i < |texts| ==> groups[i] == BlockLines(code, texts[i])
  {
    if |texts| == 0 then [] else [BlockLines(code, texts[0])] + LineGroups(code, texts[1..])
  }

  /** The groups of lines one after the other. */
  function Concat(groups: seq<seq<string>>): seq<string>
    decreases |groups|
  {
    if |groups| == 0 then [] else Concat(groups[..|groups| - 1]) + groups[|groups| - 1]
  }

  /** The text built by appending each block on a new line behind
      `header`, as the fetch loop does. */
  function Assemble(header: string, blocks: seq<string>): string
    decreases |blocks|
  {
    if |blocks| == 0 then header
    else Assemble(header, blocks[..|blocks| - 1]) + [NewLine] + blocks[|blocks| - 1]
  }

  /** The CSV of one code: the column header followed by the years' blocks. */
  function Csv(code: string, texts: seq<string>): string
  {
    Assemble(CsvHeader, Blocks(code, texts))
  }

  /** Read line by line, the assembled text is the header line followed by
      the lines of every block in order. */
  lemma {:induction false} AssembleLines(header: string, blocks: seq<string>, groups: seq<seq<string>>)
    requires Split(header, NewLine) == [header]
    requires |blocks| == |groups|
    requires forall i :: 0 <= i < |blocks| ==> Split(blocks[i], NewLine) == groups[i]
    ensures Split(Assemble(header, blocks), NewLine) == [header] + Concat(groups)
    decreases |blocks|
  {
    if |blocks| > 0 {
      var n := |blocks| - 1;
      var prev := Assemble(header, blocks[..n]);
      var lines := Concat(groups[..n]);
      AssembleLines(header, blocks[..n], groups[..n]);
      AppendLines(prev, blocks[n], [header] + lines, groups[n]);
      assert Concat(groups) == lines + groups[n];
    }
  }

  /** A text read line by line after appending another on a new line. */
  lemma AppendLines(prev: string, next: string, lines: seq<string>, more: seq<string>)
    requires Split(prev, NewLine) == lines && Split(next, NewLine) == more
    ensures Split(prev + [NewLine] + next, NewLine) == lines + more
  {
    SplitAround(prev, next, NewLine);
  }

  /** Every block of a code without newlines reads back as its year's lines. */
  lemma BlocksSplit(code: string, texts: seq<string>)
    requires NewLine !in code
    ensures forall i :: 0 <= i < |texts| ==>
      Split(Blocks(code, texts)[i], NewLine) == LineGroups(code, texts)[i]
  {
    forall i | 0 <= i < |texts|
      ensures Split(Blocks(code, texts)[i], NewLine) == LineGroups(code, texts)[i]
    {
      BlockSplits(code, texts[i]);
    }
  }

  /** Read line by line, the CSV is the header followed by every year's
      lines in fetch order. */
  lemma CsvLines(code: string, texts: seq<string>)
    requires NewLine !in code
    ensures Split(Csv(code, texts), NewLine) == [CsvHeader] + Concat(LineGroups(code, texts))
  {
    HeaderIsOneLine();
    BlocksSplit(code, texts);
    AssembleLines(CsvHeader, Blocks(code, texts), LineGroups(code, texts));
  }

  /** The header is a single line. */
  lemma HeaderIsOneLine()
    ensures Split(CsvHeader, NewLine) == [CsvHeader]
  {
    assert NewLine !in "code,date,open,high,";
    assert NewLine !in "low,closing,volume,closed_adj";
    SplitSeparatorFree(CsvHeader, NewLine);
  }

  /** A block read back line by line gives the year's lines. */
  lemma BlockSplits(code: string, text: string)
    ensures NewLine !in code ==> Split(Block(code, text), NewLine) == BlockLines(code, text)
  {
    var rows := PrefixCode(code, DataLines(text));
    if NewLine !in code && |rows| > 0 {
      PrefixedRowsAreLines(code, DataLines(text));
      SplitJoin(rows, NewLine);
    }
  }

  /** Prefixing newline-free lines with a newline-free code keeps them
      single lines. */
  lemma PrefixedRowsAreLines(code: string, lines: seq<string>)
    requires NewLine !in code
    requires forall i :: 0 <= i < |lines| ==> NewLine !in lines[i]
    ensures forall i :: 0 <= i < |lines| ==> NewLine !in PrefixCode(code, lines)[i]
  {
    var rows := PrefixCode(code, lines);
    forall i | 0 <= i < |lines| ensures NewLine !in rows[i] {
      assert rows[i] == code + "," + lines[i];
      assert NewLine !in ",";
    }
  }

  /** A text made of two banner lines and at least one data line yields
      exactly those data lines. */
  lemma DropsBanner(first: string, second: string, rows: seq<string>)
    requires NewLine !in first && NewLine !in second
    requires |rows| >= 1
    requires forall i :: 0 <= i < |rows| ==> NewLine !in rows[i]
    ensures DataLines(first + [NewLine] + second + [NewLine] + Join(rows, NewLine)) == rows
  {
    SplitJoin(rows, NewLine);
    BannerSplits(first, second, Join(rows, NewLine), rows);
    assert ([first, second] + rows)[2..] == rows;
  }

  /** Two single-line banners in front of a text add two lines in front of
      its lines. */
  lemma BannerSplits(first: string, second: string, data: string, rows: seq<string>)
    requires NewLine !in first && NewLine !in second
    requires Split(data, NewLine) == rows
    ensures Split(first + [NewLine] + second + [NewLine] + data, NewLine) == [first, second] + rows
  {
    SplitFirstLine(second, data, NewLine);
    SplitFirstLine(first, second + [NewLine] + data, NewLine);
    assert first + [NewLine] + second + [NewLine] + data == first + [NewLine] + (second + [NewLine] + data);
  }

  /** Three groups one after the other, behind a first piece. */
  lemma ConcatThree(first: seq<string>, groups: seq<seq<string>>)
    requires |groups| == 3
    ensures first + Concat(groups) == first + groups[0] + groups[1] + groups[2]
  {
    var two := groups[..2];
    var one := two[..1];
    assert one[..0] == [];
    assert Concat(one) == groups[0];
    assert Concat(two) == Concat(one) + groups[1];
    assert Concat(groups) == Concat(two) + groups[2];
  }

  /** The CSV of three years' texts, read line by line. */
  lemma CsvOfYears(code: string, texts: seq<string>)
    requires |texts| == |Years|
    requires NewLine !in code
    ensures Split(Csv(code, texts), NewLine) ==
      [CsvHeader] + BlockLines(code, texts[0]) + BlockLines(code, texts[1]) + BlockLines(code, texts[2])
  {
    CsvLines(code, texts);
    ConcatThree([CsvHeader], LineGroups(code, texts));
  }

  /** The outcome of fetching the years in order: the years a request was
      issued for and, when none of them raised, their texts. */
  datatype Fetched = Fetched(attempted: seq<string>, texts: Option<seq<string>>)

  /** Fetching stops at the first year whose request raises. */
  function FetchYears(years: seq<string>, fetch: string -> Option<string>): (r: Fetched)
    ensures |r.attempted| <= |years| && r.attempted == years[..|r.attempted|]
    ensures r.texts.Some? <==> forall i :: 0 <= i < |years| ==> fetch(years[i]).Some?
    ensures r.texts.Some? ==> r.attempted == years && |r.texts.value| == |years|
    ensures r.texts.Some? ==> forall i :: 0 <= i < |years| ==> fetch(years[i]) == Some(r.texts.value[i])
    ensures r.texts.None? ==>
      |r.attempted| > 0 && fetch(r.attempted[|r.attempted| - 1]).None? &&
      forall i :: 0 <= i < |r.attempted| - 1 ==> fetch(r.attempted[i]).Some?
    decreases |years|
  {
    if |years| == 0 then Fetched([], Some([]))
    else
      match fetch(years[0])
      case None => Fetched([years[0]], None)
      case Some(text) =>
        var rest := FetchYears(years[1..], fetch);
        assert forall i :: 1 <= i < |years| ==> years[i] == years[1..][i - 1];
        Fetched([years[0]] + rest.attempted,
                match rest.texts
                case None => None
                case Some(texts) => Some([text] + texts))
  }

  /** The result of `__fetch_stock`: the years requested and, when no
      request raised, the CSV. */
  datatype FetchOutcome = FetchOutcome(attempted: seq<string>, csv: Option<string>)

  /** `__fetch_stock` for one code, with the price provider as `fetch`. */
  function FetchStock(code: string, fetch: string -> Option<string>): (r: FetchOutcome)
    ensures |r.attempted| <= |Years| && r.attempted == Years[..|r.attempted|]
    ensures r.csv.Some? <==> forall i :: 0 <= i < |Years| ==> fetch(Years[i]).Some?
    ensures r.csv.Some? ==> r.attempted == Years
    ensures r.csv.Some? && NewLine !in code ==>
      Split(r.csv.value, NewLine) ==
        [CsvHeader] + BlockLines(code, fetch(Years[0]).value) + BlockLines(code, fetch(Years[1]).value)
                    + BlockLines(code, fetch(Years[2]).value)
    ensures r.csv.None? ==> |r.attempted| > 0 && fetch(r.attempted[|r.attempted| - 1]).None?
  {
    var f := FetchYears(Years, fetch);
    match f.texts
    case None => FetchOutcome(f.attempted, None)
    case Some(texts) =>
      var csv := Csv(code, texts);
      assert fetch(Years[0]) == Some(texts[0]) && fetch(Years[1]) == Some(texts[1]) && fetch(Years[2]) == Some(texts[2]);
      if NewLine in code then FetchOutcome(f.attempted, Some(csv))
      else
        CsvOfYears(code, texts);
        FetchOutcome(f.attempted, Some(csv))
  }
}

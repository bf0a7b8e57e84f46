/** The search half of the item manager: every row whose name contains the
    query, ignoring case, rendered as a report block with its sell price,
    recycle yield and recommendation. */
module Search {
  import opened Text
  import opened Numbers
  import opened Items
  import opened Valuation

  // ---------------------------------------------------------------------
  // The row filter: df['Name'].str.contains(query, case=False, na=False)

  /** A row matches when its name contains the query, case ignored. */
  predicate NameContains(row: Item, query: string) {
    Contains(Lower(row.name), Lower(query))
  }

  /** The matching rows, in table order. */
  function MatchingRows(table: seq<Item>, query: string): (rows: seq<Item>)
    ensures |rows| <= |table|
  {
    if table == [] then []
    else
      var init := MatchingRows(table[..|table| - 1], query);
      if NameContains(table[|table| - 1], query) then init + [table[|table| - 1]] else init
  }

  // ---------------------------------------------------------------------
  // The report text

  const SellLabel: string := "\U{1F4B0} Direct Sell Price:  "
  const RecyclesLabel: string := "\U{1F527} Recycles Into:      "
  const TotalLabel: string := "\U{1F4CA} Total Recycle Val:  "
  const AdviceLabel: string := "\U{1F4A1} RECOMMENDATION:     "
  const ReasonLabel: string := "\U{1F4DD} REASON:             "
  const NothingText: string := "Nothing / Cannot be recycled"

  function NoMatchMessage(query: string): string {
    "No items found matching: '" + query + "'."
  }

  function Header(query: string): string {
    "--- Search Results for: '" + query + "' ---\n\n"
  }

  /** A 50-character rule of `c` and a line break. */
  function Rule(c: char): string {
    Repeat(c, 50) + "\n"
  }

  function ItemLine(name: string): string {
    "ITEM: " + Upper(name) + "\n"
  }

  function SellLine(sellPrice: nat): string {
    SellLabel + Group(sellPrice) + "\n"
  }

  function ComponentsLine(components: seq<string>): string {
    RecyclesLabel + Join(components, ", ") + "\n"
  }

  function TotalLine(recycleValue: nat): string {
    TotalLabel + Group(recycleValue) + "\n"
  }

  const NothingLine: string := RecyclesLabel + NothingText + "\n"

  function AdviceLine(decision: Decision): string {
    AdviceLabel + decision.icon + " " + ActionName(decision.action) + "\n"
  }

  function ReasonLine(decision: Decision): string {
    ReasonLabel + decision.reason + "\n"
  }

  /** The closing rule and the blank line between blocks. */
  const EndRule: string := Repeat('=', 50) + "\n\n"

  /** The lines written for one matching row, appended to `out` in the order
      they are written: the item's name and sell price, then its components
      and total when the parser listed any (a single "Nothing" line
      otherwise), then the recommendation and its reason. */
  function AppendBlock(out: string, row: Item, recycleValue: nat, components: seq<string>, decision: Decision): string {
    var out := out + Rule('=') + ItemLine(row.name) + Rule('-') + SellLine(row.sellPrice);
    var out := if components != [] then out + ComponentsLine(components) + TotalLine(recycleValue) else out + NothingLine;
    out + Rule('-') + AdviceLine(decision) + ReasonLine(decision) + EndRule
  }

  /** The block of one row, with its recycle value, components and
      recommendation worked out from the table. */
  function AppendRow(out: string, table: seq<Item>, row: Item): string {
    var recycled := RecycleValue(table, row.recyclesTo);
    AppendBlock(out, row, recycled.0, recycled.1, GetRecommendation(row, recycled.0))
  }

  /** The blocks of the rows, appended to `out` in the rows' order. */
  function AppendRows(out: string, table: seq<Item>, rows: seq<Item>): string {
    if rows == [] then out else AppendRow(AppendRows(out, table, rows[..|rows| - 1]), table, rows[|rows| - 1])
  }

  /** The whole text `search_item` returns. */
  function Report(table: seq<Item>, query: string): string {
    var rows := MatchingRows(table, query);
    if rows == [] then NoMatchMessage(query) else AppendRows(Header(query), table, rows)
  }

  /** `search_item`: the no-match message when no name contains the query,
      otherwise the header followed by one block per matching row in table
      order, each built by appending its lines to the output. */
  method SearchItem(table: seq<Item>, query: string) returns (output: string)
    ensures output == Report(table, query)
    ensures output == NoMatchMessage(query) <==> forall i | 0 <= i < |table| :: !NameContains(table[i], query)
  {
    var results := MatchingRows(table, query);
    NoMatchIff(table, query);
    if results == [] {
      return NoMatchMessage(query);
    }
    output := Header(query);
    var i := 0;
    while i < |results|
      invariant 0 <= i <= |results|
      invariant output == AppendRows(Header(query), table, results[..i])
    {
      var row := results[i];
      AppendRowsSnoc(Header(query), table, results, i);
      var recycleValue, components := CalculateRecycleValue(table, row.recyclesTo);
      var decision := GetRecommendation(row, recycleValue);
      ghost var before := output;
      output := output + Rule('=');
      output := output + ItemLine(row.name);
      output := output + Rule('-');
      output := output + SellLine(row.sellPrice);
      if components != [] {
        output := output + ComponentsLine(components);
        output := output + TotalLine(recycleValue);
      } else {
        output := output + NothingLine;
      }
      output := output + Rule('-');
      output := output + AdviceLine(decision);
      output := output + ReasonLine(decision);
      output := output + EndRule;
      assert output == AppendBlock(before, row, recycleValue, components, decision);
      i := i + 1;
    }
    assert results[..|results|] == results;
    HeaderIsNotNoMatch(query, table, results);
  }

  // ---------------------------------------------------------------------
  // Lemmas: the filter

  /** Filtering a concatenation filters each part: matches keep table order. */
  lemma {:induction false} MatchingRowsAppend(a: seq<Item>, b: seq<Item>, query: string)
    ensures MatchingRows(a + b, query) == MatchingRows(a, query) + MatchingRows(b, query)
    decreases |b|
  {
    if b == [] {
      assert a + b == a;
    } else {
      var b' := b[..|b| - 1];
      assert (a + b)[..|a + b| - 1] == a + b';
      assert (a + b)[|a + b| - 1] == b[|b| - 1];
      MatchingRowsAppend(a, b', query);
    }
  }

  /** Exactly the rows whose name contains the query are kept. */
  lemma {:induction false} MatchingRowsMembers(table: seq<Item>, query: string)
    ensures forall r | r in MatchingRows(table, query) :: r in table && NameContains(r, query)
    ensures forall i | 0 <= i < |table| && NameContains(table[i], query) :: table[i] in MatchingRows(table, query)
  {
    if table != [] {
      var init := table[..|table| - 1];
      MatchingRowsMembers(init, query);
      assert forall i | 0 <= i < |init| :: init[i] == table[i];
      assert forall r | r in init :: r in table;
    }
  }

  /** The report is the no-match message exactly when no name contains the
      query. */
  lemma NoMatchIff(table: seq<Item>, query: string)
    ensures MatchingRows(table, query) == [] <==> forall i | 0 <= i < |table| :: !NameContains(table[i], query)
  {
    MatchingRowsMembers(table, query);
    if MatchingRows(table, query) != [] {
      var r := MatchingRows(table, query)[0];
      assert r in MatchingRows(table, query);
      var i :| 0 <= i < |table| && table[i] == r;
    }
  }

  /** The filter ignores the case of the query. */
  lemma MatchingIgnoresCase(table: seq<Item>, query: string)
    ensures MatchingRows(table, Upper(query)) == MatchingRows(table, query)
    ensures MatchingRows(table, Lower(query)) == MatchingRows(table, query)
  {
    LowerOfUpper(query);
    assert Lower(Lower(query)) == Lower(query);
    assert forall r :: NameContains(r, Upper(query)) == NameContains(r, query);
    assert forall r :: NameContains(r, Lower(query)) == NameContains(r, query);
    SameFilter(table, Upper(query), query);
    SameFilter(table, Lower(query), query);
  }

  lemma {:induction false} SameFilter(table: seq<Item>, q1: string, q2: string)
    requires forall r :: NameContains(r, q1) == NameContains(r, q2)
    ensures MatchingRows(table, q1) == MatchingRows(table, q2)
  {
    if table != [] {
      SameFilter(table[..|table| - 1], q1, q2);
    }
  }

  // ---------------------------------------------------------------------
  // Lemmas: the report

  lemma AppendRowsSnoc(out: string, table: seq<Item>, rows: seq<Item>, i: nat)
    requires i < |rows|
    ensures AppendRows(out, table, rows[..i + 1]) == AppendRow(AppendRows(out, table, rows[..i]), table, rows[i])
  {
    assert rows[..i + 1][..i] == rows[..i];
  }

  /** Appending only adds text at the end. */
  lemma AppendBlockExtends(out: string, row: Item, recycleValue: nat, components: seq<string>, decision: Decision)
    ensures StartsWith(AppendBlock(out, row, recycleValue, components, decision), out)
  {
    var o := out + Rule('=');
    Grows(out, Rule('='));
    KeepsPrefix(o, ItemLine(row.name), out);
    o := o + ItemLine(row.name);
    KeepsPrefix(o, Rule('-'), out);
    o := o + Rule('-');
    KeepsPrefix(o, SellLine(row.sellPrice), out);
    o := o + SellLine(row.sellPrice);
    if components != [] {
      KeepsPrefix(o, ComponentsLine(components), out);
      o := o + ComponentsLine(components);
      KeepsPrefix(o, TotalLine(recycleValue), out);
      o := o + TotalLine(recycleValue);
    } else {
      KeepsPrefix(o, NothingLine, out);
      o := o + NothingLine;
    }
    KeepsPrefix(o, Rule('-'), out);
    o := o + Rule('-');
    KeepsPrefix(o, AdviceLine(decision), out);
    o := o + AdviceLine(decision);
    KeepsPrefix(o, ReasonLine(decision), out);
    o := o + ReasonLine(decision);
    KeepsPrefix(o, EndRule, out);
  }

  /** `x` is a prefix of `x + y`. */
  lemma Grows(x: string, y: string)
    ensures StartsWith(x + y, x)
  {
    assert (x + y)[..|x|] == x;
  }

  /** A prefix of `x` is a prefix of `x + y`. */
  lemma KeepsPrefix(x: string, y: string, p: string)
    requires StartsWith(x, p)
    ensures StartsWith(x + y, p)
  {
    assert (x + y)[..|p|] == x[..|p|];
  }

  lemma AppendRowExtends(out: string, table: seq<Item>, row: Item)
    ensures StartsWith(AppendRow(out, table, row), out)
  {
    var recycled := RecycleValue(table, row.recyclesTo);
    AppendBlockExtends(out, row, recycled.0, recycled.1, GetRecommendation(row, recycled.0));
  }

  lemma {:induction false} AppendRowsExtends(out: string, table: seq<Item>, rows: seq<Item>)
    ensures StartsWith(AppendRows(out, table, rows), out)
  {
    if rows != [] {
      var before := AppendRows(out, table, rows[..|rows| - 1]);
      AppendRowsExtends(out, table, rows[..|rows| - 1]);
      AppendRowExtends(before, table, rows[|rows| - 1]);
      assert AppendRows(out, table, rows)[..|out|] == before[..|out|];
    }
  }

  /** With matches the report opens with the header, so it is never mistaken
      for the no-match message. */
  lemma ReportStartsWithHeader(table: seq<Item>, query: string)
    requires MatchingRows(table, query) != []
    ensures StartsWith(Report(table, query), Header(query))
  {
    AppendRowsExtends(Header(query), table, MatchingRows(table, query));
  }

  lemma HeaderIsNotNoMatch(query: string, table: seq<Item>, rows: seq<Item>)
    ensures AppendRows(Header(query), table, rows) != NoMatchMessage(query)
  {
    AppendRowsExtends(Header(query), table, rows);
    assert AppendRows(Header(query), table, rows)[0] == Header(query)[0] == '-' by {
      assert AppendRows(Header(query), table, rows)[..|Header(query)|][0] == Header(query)[0];
    }
    assert NoMatchMessage(query)[0] == 'N';
  }

  /** The no-match message quotes the query. */
  lemma NoMatchQuotesQuery(query: string)
    ensures Contains(NoMatchMessage(query), query)
  {
    ContainsMiddle("No items found matching: '", query, "'.");
  }

  /** Appending the blocks of two row lists appends the blocks of the first
      and then those of the second. */
  lemma {:induction false} AppendRowsAppend(out: string, table: seq<Item>, a: seq<Item>, b: seq<Item>)
    ensures AppendRows(out, table, a + b) == AppendRows(AppendRows(out, table, a), table, b)
    decreases |b|
  {
    if b == [] {
      assert a + b == a;
    } else {
      var b' := b[..|b| - 1];
      assert (a + b)[..|a + b| - 1] == a + b';
      assert (a + b)[|a + b| - 1] == b[|b| - 1];
      AppendRowsAppend(out, table, a, b');
    }
  }

  /** With matches, the report holds the header, then the blocks of the
      matching rows of any first part of the table, then those of the rest. */
  lemma ReportInTableOrder(a: seq<Item>, b: seq<Item>, query: string)
    requires MatchingRows(a + b, query) != []
    ensures Report(a + b, query) == AppendRows(AppendRows(Header(query), a + b, MatchingRows(a, query)), a + b, MatchingRows(b, query))
  {
    MatchingRowsAppend(a, b, query);
    AppendRowsAppend(Header(query), a + b, MatchingRows(a, query), MatchingRows(b, query));
  }

  /** The total line is written only with components: a block without them
      does not depend on the recycle value. */
  lemma NoComponentsNoTotal(out: string, row: Item, v1: nat, v2: nat, decision: Decision)
    ensures AppendBlock(out, row, v1, [], decision) == AppendBlock(out, row, v2, [], decision)
  {
  }

  /** A row whose field is a "not recyclable" sentinel is listed as
      recycling into nothing and is never advised to be recycled: it is
      kept when it has a keep note and sold otherwise. */
  lemma UnrecyclableRow(table: seq<Item>, row: Item)
    requires NotRecyclable(row.recyclesTo)
    ensures RecycleValue(table, row.recyclesTo) == (0, [])
    ensures forall out :: AppendRow(out, table, row) == AppendBlock(out, row, 0, [], GetRecommendation(row, 0))
    ensures GetRecommendation(row, 0).action == (if HasKeepNote(row) then Keep else Sell)
  {
  }

  /** A row is advised to be recycled exactly when it has no keep note and
      its components are worth strictly more than its own sell price. */
  lemma RecycleAdvice(table: seq<Item>, row: Item)
    ensures var (recycleValue, _) := RecycleValue(table, row.recyclesTo);
            GetRecommendation(row, recycleValue).action == Recycle
            <==> !HasKeepNote(row) && !NotRecyclable(row.recyclesTo)
                 && TotalValue(table, Entries(Split(row.recyclesTo.value, '\n'))) > row.sellPrice
  {
  }
}

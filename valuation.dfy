/** The valuation half of the item manager: exact-name price lookup, the
    recycle-yield parser and the keep / recycle / sell decision. The table is
    the manager's only field and is never changed after construction, so
    every operation takes it as a parameter. */
module Valuation {
  import opened Text
  import opened Numbers
  import opened Items

  // ---------------------------------------------------------------------
  // Price lookup (get_item_price)

  /** `item_name.lower().strip()`: the form a queried name is compared in. */
  function Key(name: string): string {
    Trim(Lower(name))
  }

  /** The row test of the price lookup: the row's name, lower-cased, equals
      the queried name lower-cased and stripped. */
  predicate NameEquals(row: Item, query: string) {
    Lower(row.name) == Key(query)
  }

  /** The position of the first row whose lower-cased name is `key`, or
      `|table|` when there is none: `df[mask].iloc[0]` as an index. */
  function FirstWithKey(table: seq<Item>, key: string): (k: nat)
    ensures k <= |table|
    ensures forall j | 0 <= j < k :: Lower(table[j].name) != key
    ensures k < |table| ==> Lower(table[k].name) == key
  {
    if table == [] then 0
    else if Lower(table[0].name) == key then 0
    else
      var k := FirstWithKey(table[1..], key);
      assert forall j | 1 <= j < k + 1 :: table[j] == table[1..][j - 1];
      k + 1
  }

  function PriceForKey(table: seq<Item>, key: string): nat {
    var k := FirstWithKey(table, key);
    if k < |table| then table[k].sellPrice else 0
  }

  /** `get_item_price`: the sell price of the first matching row, or 0. */
  function GetItemPrice(table: seq<Item>, name: string): nat {
    PriceForKey(table, Key(name))
  }

  /** The lookup returns the sell price of the first row whose name equals
      `name` up to case and surrounding whitespace... */
  lemma PriceIsFirstMatch(table: seq<Item>, name: string, i: nat)
    requires i < |table| && NameEquals(table[i], name)
    requires forall j | 0 <= j < i :: !NameEquals(table[j], name)
    ensures GetItemPrice(table, name) == table[i].sellPrice
  {
  }

  /** ...and 0 when no row does. */
  lemma PriceOfUnknown(table: seq<Item>, name: string)
    requires forall i | 0 <= i < |table| :: !NameEquals(table[i], name)
    ensures GetItemPrice(table, name) == 0
  {
  }

  // ---------------------------------------------------------------------
  // One recycle line: re.search(r'(\d+)x\s*(.+)', line)

  /** The pattern matches at position `p` with its digit group ending at `q`:
      digits from `p` up to `q`, an `x` at `q`, and at least one more
      character for `.+`. */
  predicate MatchAt(line: string, p: int, q: int) {
    0 <= p < q && q + 1 < |line| && line[q] == 'x' && forall k | p <= k < q :: IsDigit(line[k])
  }

  function DigitRunEnd(line: string, i: nat): (j: nat)
    requires i <= |line|
    ensures i <= j <= |line| && forall k | i <= k < j :: IsDigit(line[k])
    ensures j == |line| || !IsDigit(line[j])
    decreases |line| - i
  {
    if i < |line| && IsDigit(line[i]) then DigitRunEnd(line, i + 1) else i
  }

  /** No match starts inside a maximal digit run that is not followed by
      `x` and one more character. */
  lemma RunHasNoMatch(line: string, i: nat, j: nat, p: int, q: int)
    requires i < j <= |line| && (forall k | i <= k < j :: IsDigit(line[k]))
    requires j == |line| || !IsDigit(line[j])
    requires !(j + 1 < |line| && line[j] == 'x')
    requires i <= p < j
    ensures !MatchAt(line, p, q)
  {
  }

  /** The leftmost match starting at or after `i`, as `(p, q)`: a run of
      digits that fails is skipped whole. */
  function FindMatch(line: string, i: nat): (m: Option<(nat, nat)>)
    requires i <= |line|
    ensures m.Some? ==> var (p, q) := m.value;
              i <= p < q && q + 1 < |line| && line[q] == 'x' && AllDigits(line[p..q])
    decreases |line| - i
  {
    if i == |line| then None
    else if !IsDigit(line[i]) then FindMatch(line, i + 1)
    else
      var j := DigitRunEnd(line, i);
      if j + 1 < |line| && line[j] == 'x' then Some((i, j)) else FindMatch(line, j)
  }

  /** FindMatch finds a match exactly when one starts at or after `i`, and
      the one it finds is the leftmost. */
  lemma {:induction false} FindMatchIsLeftmost(line: string, i: nat)
    requires i <= |line|
    ensures var m := FindMatch(line, i);
            && (m.Some? ==> i <= m.value.0 && MatchAt(line, m.value.0, m.value.1))
            && (m.Some? ==> forall p, q | i <= p < m.value.0 :: !MatchAt(line, p, q))
            && (m.None? ==> forall p, q | i <= p :: !MatchAt(line, p, q))
    decreases |line| - i
  {
    if i == |line| {
    } else if !IsDigit(line[i]) {
      FindMatchIsLeftmost(line, i + 1);
    } else {
      var j := DigitRunEnd(line, i);
      if !(j + 1 < |line| && line[j] == 'x') {
        forall p, q | i <= p < j ensures !MatchAt(line, p, q) {
          RunHasNoMatch(line, i, j, p, q);
        }
        FindMatchIsLeftmost(line, j);
      }
    }
  }

  /** One parsed recycle line: a quantity and a component name. */
  datatype Component = Component(qty: nat, name: string)

  /** The component a recycle line describes, if the pattern matches it. */
  function MatchLine(line: string): Option<Component> {
    match FindMatch(line, 0)
    case None => None
    case Some((p, q)) => Some(Component(DigitsValue(line[p..q]), Trim(line[q + 1..])))
  }

  /** On a line (no newline inside) `re.search(r'(\d+)x\s*(.+)', line)`
      succeeds exactly when some position matches; the quantity is the digit
      group of the leftmost match and the name the rest of the line after its
      `x`, stripped. (Group 2 starts after the greedy `\s*`, or at the last
      blank when only blanks follow the `x`; stripped, it is the same text.) */
  lemma MatchLineIsLeftmost(line: string)
    requires '\n' !in line
    ensures MatchLine(line).None? <==> forall p, q :: !MatchAt(line, p, q)
    ensures MatchLine(line).Some? ==>
              exists p, q :: && LeftmostMatch(line, p, q)
                             && MatchLine(line).value == Component(DigitsValue(line[p..q]), Trim(line[q + 1..]))
  {
    FindMatchIsLeftmost(line, 0);
    match FindMatch(line, 0)
    case None =>
    case Some((p, q)) =>
      assert LeftmostMatch(line, p, q);
      assert MatchLine(line).value == Component(DigitsValue(line[p..q]), Trim(line[q + 1..]));
  }

  /** `(p, q)` is a match and none starts before `p`. */
  ghost predicate LeftmostMatch(line: string, p: int, q: int) {
    && 0 <= p < q < |line|
    && AllDigits(line[p..q])
    && MatchAt(line, p, q)
    && forall p', q' | p' < p :: !MatchAt(line, p', q')
  }

  // ---------------------------------------------------------------------
  // The whole recycle field (calculate_recycle_value)

  /** The components of the lines that match, in line order. */
  function Entries(lines: seq<string>): seq<Component> {
    if lines == [] then []
    else
      var init := Entries(lines[..|lines| - 1]);
      match MatchLine(lines[|lines| - 1])
      case None => init
      case Some(c) => init + [c]
  }

  /** What one component is worth: its quantity times its unit price
      (`qty * price`, equally `price * qty`). */
  function ComponentValue(table: seq<Item>, c: Component): nat {
    Times(c.qty, GetItemPrice(table, c.name))
  }

  /** The sum of the component values. */
  function TotalValue(table: seq<Item>, cs: seq<Component>): nat {
    if cs == [] then 0
    else TotalValue(table, cs[..|cs| - 1]) + ComponentValue(table, cs[|cs| - 1])
  }

  /** The display entry `"{qty}x {name} ({value:,.0f})"`. */
  function EntryText(qty: nat, name: string, value: nat): string {
    NatToString(qty) + "x " + name + " (" + Group(value) + ")"
  }

  /** The display form of a component, with its value at the table's prices. */
  function ComponentText(table: seq<Item>, c: Component): string {
    EntryText(c.qty, c.name, ComponentValue(table, c))
  }

  /** One display entry per component, in the same order. */
  function Texts(table: seq<Item>, cs: seq<Component>): (r: seq<string>)
    ensures |r| == |cs|
  {
    if cs == [] then [] else Texts(table, cs[..|cs| - 1]) + [ComponentText(table, cs[|cs| - 1])]
  }

  /** The sentinels that mean "not recyclable": a missing cell, one holding
      the exact phrase "Cannot be recycled", and one that strips to "" or "-". */
  predicate NotRecyclable(recycle: Option<string>) {
    || recycle.None?
    || Contains(recycle.value, "Cannot be recycled")
    || Trim(recycle.value) == ""
    || Trim(recycle.value) == "-"
  }

  /** The recycle value of a "Recycles To" cell and its component display
      entries, as the parser computes them. */
  function RecycleValue(table: seq<Item>, recycle: Option<string>): (nat, seq<string>) {
    if NotRecyclable(recycle) then (0, [])
    else
      var cs := Entries(Split(recycle.value, '\n'));
      (TotalValue(table, cs), Texts(table, cs))
  }

  /** The parser: sentinels give `(0, [])`; otherwise the field is split on
      newlines and every matching line adds `qty * price` to the total and
      one entry to the list. */
  method CalculateRecycleValue(table: seq<Item>, recycle: Option<string>) returns (total: nat, components: seq<string>)
    ensures (total, components) == RecycleValue(table, recycle)
  {
    if NotRecyclable(recycle) {
      return 0, [];
    }
    var parts := Split(recycle.value, '\n');
    total, components := ValueLines(table, parts);
  }

  /** The parser's loop over the lines of the field. */
  method ValueLines(table: seq<Item>, parts: seq<string>) returns (total: nat, components: seq<string>)
    ensures total == TotalValue(table, Entries(parts))
    ensures components == Texts(table, Entries(parts))
  {
    total := 0;
    components := [];
    var i := 0;
    while i < |parts|
      invariant 0 <= i <= |parts|
      invariant total == TotalValue(table, Entries(parts[..i]))
      invariant components == Texts(table, Entries(parts[..i]))
    {
      var part := parts[i];
      RecycleStep(table, parts, i);
      var m := MatchLine(part);
      if m.Some? {
        var qty := m.value.qty;
        var componentName := m.value.name;
        var price := GetItemPrice(table, componentName);
        var value := Times(qty, price);
        assert value == ComponentValue(table, m.value);
        total := total + value;
        components := components + [EntryText(qty, componentName, value)];
      }
      i := i + 1;
    }
    assert parts[..|parts|] == parts;
  }

  /** One iteration of the parser's loop: an unmatched line changes nothing,
      a matched one adds its value to the total and its display entry to the
      list. */
  lemma RecycleStep(table: seq<Item>, lines: seq<string>, i: nat)
    requires i < |lines|
    ensures MatchLine(lines[i]).None? ==> Entries(lines[..i + 1]) == Entries(lines[..i])
    ensures MatchLine(lines[i]).Some? ==>
              var c := MatchLine(lines[i]).value;
              && TotalValue(table, Entries(lines[..i + 1])) == TotalValue(table, Entries(lines[..i])) + ComponentValue(table, c)
              && Texts(table, Entries(lines[..i + 1])) == Texts(table, Entries(lines[..i])) + [ComponentText(table, c)]
  {
    assert lines[..i + 1] == lines[..i] + [lines[i]];
    EntriesSnoc(lines[..i], lines[i]);
    if MatchLine(lines[i]).Some? {
      var c := MatchLine(lines[i]).value;
      TotalValueSnoc(table, Entries(lines[..i]), c);
      TextsSnoc(table, Entries(lines[..i]), c);
    }
  }

  lemma EntriesSnoc(lines: seq<string>, line: string)
    ensures Entries(lines + [line]) == Entries(lines) + (if MatchLine(line).Some? then [MatchLine(line).value] else [])
  {
    assert (lines + [line])[..|lines|] == lines;
  }

  lemma TotalValueSnoc(table: seq<Item>, cs: seq<Component>, c: Component)
    ensures TotalValue(table, cs + [c]) == TotalValue(table, cs) + ComponentValue(table, c)
  {
    assert (cs + [c])[..|cs|] == cs;
  }

  lemma TextsSnoc(table: seq<Item>, cs: seq<Component>, c: Component)
    ensures Texts(table, cs + [c]) == Texts(table, cs) + [ComponentText(table, c)]
  {
    assert (cs + [c])[..|cs|] == cs;
  }

  // ---------------------------------------------------------------------
  // Recommendation (get_recommendation)

  datatype Action = Keep | Recycle | Sell

  function ActionName(a: Action): string {
    match a
    case Keep => "KEEP"
    case Recycle => "RECYCLE"
    case Sell => "SELL"
  }

  /** The decision dictionary: action, icon and reason. */
  datatype Decision = Decision(action: Action, icon: string, reason: string)

  const KeepIcon: string := "\U{1F6E1}\U{FE0F}"
  const RecycleIcon: string := "\U{267B}\U{FE0F}"
  const SellIcon: string := "\U{1F4B8}"

  /** A keep note that is present and not blank once stripped. */
  predicate HasKeepNote(item: Item) {
    item.keep.Some? && Trim(item.keep.value) != ""
  }

  /** KEEP when the item has a keep note, whatever the values; otherwise
      RECYCLE exactly when the recycle value is strictly greater than the sell
      price, with the (positive) profit in the reason; otherwise SELL, ties
      included, with the recycle value in the reason. */
  function GetRecommendation(item: Item, recycleValue: nat): (d: Decision)
    ensures d.action == Keep <==> HasKeepNote(item)
    ensures d.action == Recycle <==> !HasKeepNote(item) && recycleValue > item.sellPrice
    ensures d.action == Sell <==> !HasKeepNote(item) && recycleValue <= item.sellPrice
    ensures d.action == Keep ==> d.icon == KeepIcon && d.reason == "Needed for: " + item.keep.value
    ensures d.action == Recycle ==>
              && recycleValue - item.sellPrice > 0
              && d.icon == RecycleIcon
              && d.reason == "Recycling is more profitable (+" + Group(recycleValue - item.sellPrice) + " value)"
    ensures d.action == Sell ==>
              d.icon == SellIcon && d.reason == "Selling directly is better (Recycle value: " + Group(recycleValue) + ")"
  {
    if HasKeepNote(item) then
      Decision(Keep, KeepIcon, "Needed for: " + item.keep.value)
    else if recycleValue > item.sellPrice then
      var profit := recycleValue - item.sellPrice;
      Decision(Recycle, RecycleIcon, "Recycling is more profitable (+" + Group(profit) + " value)")
    else
      Decision(Sell, SellIcon, "Selling directly is better (Recycle value: " + Group(recycleValue) + ")")
  }

  // ---------------------------------------------------------------------
  // Lemmas: price lookup

  /** Surrounding whitespace on the queried name does not change the price. */
  lemma PriceIgnoresPadding(table: seq<Item>, ws1: string, name: string, ws2: string)
    requires AllSpace(ws1) && AllSpace(ws2)
    ensures GetItemPrice(table, ws1 + name + ws2) == GetItemPrice(table, name)
  {
    KeyIgnoresPadding(ws1, name, ws2);
  }

  lemma KeyIgnoresPadding(ws1: string, name: string, ws2: string)
    requires AllSpace(ws1) && AllSpace(ws2)
    ensures Key(ws1 + name + ws2) == Key(name)
  {
    LowerAppend(ws1 + name, ws2);
    LowerAppend(ws1, name);
    LowerKeepsSpace(ws1);
    LowerKeepsSpace(ws2);
    TrimPadded(ws1, Lower(name), ws2);
  }

  /** Neither does the case of its letters. */
  lemma PriceIgnoresCase(table: seq<Item>, name: string)
    ensures GetItemPrice(table, Upper(name)) == GetItemPrice(table, name)
    ensures GetItemPrice(table, Lower(name)) == GetItemPrice(table, name)
  {
    LowerOfUpper(name);
    assert Lower(Lower(name)) == Lower(name);
  }

  /** `get_item_price("  Foo ") == get_item_price("foo")` for every table. */
  lemma PriceFooExample(table: seq<Item>)
    ensures GetItemPrice(table, "  Foo ") == GetItemPrice(table, "foo")
  {
    FooKeys();
  }

  lemma FooKeys()
    ensures Key("  Foo ") == Key("foo")
  {
    assert "  Foo " == "  " + "Foo" + " ";
    KeyIgnoresPadding("  ", "Foo", " ");
    LowerFoo();
  }

  lemma LowerFoo()
    ensures Lower("Foo") == "foo" && Lower("foo") == "foo"
  {
    assert Lower("Foo")[0] == 'f' && Lower("Foo")[1] == 'o' && Lower("Foo")[2] == 'o';
    assert Lower("foo")[0] == 'f' && Lower("foo")[1] == 'o' && Lower("foo")[2] == 'o';
  }

  /** In a loaded table a row is found by its own name: the lookup returns
      the price of the first row with that name up to case, which is this row
      or one before it. */
  lemma PriceOfOwnName(rows: seq<RawRow>, i: nat)
    requires i < |rows|
    ensures var table := LoadTable(rows);
            exists j | 0 <= j <= i ::
              && Lower(table[j].name) == Lower(table[i].name)
              && (forall k | 0 <= k < j :: Lower(table[k].name) != Lower(table[i].name))
              && GetItemPrice(table, table[i].name) == table[j].sellPrice
  {
    var table := LoadTable(rows);
    var name := table[i].name;
    LowerKeepsSpace(name);
    TrimOfTrimmed(Lower(name));
    assert Key(name) == Lower(name);
    var k := FirstWithKey(table, Key(name));
    assert k <= i;
  }

  // ---------------------------------------------------------------------
  // Lemmas: the recycle parser

  /** Parsing a concatenation of lines parses each part: the entries keep
      the order of their lines. */
  lemma {:induction false} EntriesAppend(a: seq<string>, b: seq<string>)
    ensures Entries(a + b) == Entries(a) + Entries(b)
    decreases |b|
  {
    if b == [] {
      assert a + b == a;
    } else {
      var b' := b[..|b| - 1];
      assert (a + b)[..|a + b| - 1] == a + b';
      assert (a + b)[|a + b| - 1] == b[|b| - 1];
      EntriesAppend(a, b');
    }
  }

  /** A line the pattern does not match adds no entry. */
  lemma SkipUnmatchedLine(a: seq<string>, line: string, b: seq<string>)
    requires MatchLine(line).None?
    ensures Entries(a + [line] + b) == Entries(a + b)
  {
    assert Entries([line]) == [] by { assert [line][..0] == []; }
    EntriesAppend(a, [line]);
    EntriesAppend(a + [line], b);
    EntriesAppend(a, b);
  }

  /** A line it matches adds exactly its component, in its place. */
  lemma KeepMatchedLine(a: seq<string>, line: string, b: seq<string>)
    requires MatchLine(line).Some?
    ensures Entries(a + [line] + b) == Entries(a) + [MatchLine(line).value] + Entries(b)
  {
    assert Entries([line]) == [MatchLine(line).value] by { assert [line][..0] == []; }
    EntriesAppend(a, [line]);
    EntriesAppend(a + [line], b);
  }

  /** The total is additive over the component list. */
  lemma {:induction false} TotalValueAppend(table: seq<Item>, a: seq<Component>, b: seq<Component>)
    ensures TotalValue(table, a + b) == TotalValue(table, a) + TotalValue(table, b)
    decreases |b|
  {
    if b == [] {
      assert a + b == a;
    } else {
      var b' := b[..|b| - 1];
      assert (a + b)[..|a + b| - 1] == a + b';
      TotalValueAppend(table, a, b');
    }
  }

  /** A component missing from the table adds nothing to the total and is
      listed as `"{qty}x {name} (0)"`. */
  lemma UnknownComponent(table: seq<Item>, cs: seq<Component>, c: Component)
    requires forall i | 0 <= i < |table| :: !NameEquals(table[i], c.name)
    ensures TotalValue(table, cs + [c]) == TotalValue(table, cs)
    ensures ComponentText(table, c) == NatToString(c.qty) + "x " + c.name + " (0)"
  {
    PriceOfUnknown(table, c.name);
    TimesIsProduct(c.qty, 0);
    TotalValueSnoc(table, cs, c);
    assert Group(0) == "0";
  }

  /** Entry `k` of the list is the display text `"{qty}x {name} ({value})"`
      of component `k`, valued at the table's prices. */
  lemma {:induction false} TextsAt(table: seq<Item>, cs: seq<Component>, k: nat)
    requires k < |cs|
    ensures Texts(table, cs)[k] == EntryText(cs[k].qty, cs[k].name, ComponentValue(table, cs[k]))
    decreases |cs|
  {
    if k < |cs| - 1 {
      TextsAt(table, cs[..|cs| - 1], k);
    }
  }

  /** Every display entry starts with the quantity's first digit. */
  lemma {:induction false} TextsStartWithDigit(table: seq<Item>, cs: seq<Component>, k: nat)
    requires k < |cs|
    ensures |Texts(table, cs)[k]| >= 1 && IsDigit(Texts(table, cs)[k][0])
    ensures Texts(table, cs)[k][0] == NatToString(cs[k].qty)[0]
    decreases |cs|
  {
    if k < |cs| - 1 {
      TextsStartWithDigit(table, cs[..|cs| - 1], k);
    } else {
      var s := NatToString(cs[k].qty);
      NatToStringFacts(cs[k].qty);
      assert Texts(table, cs)[k][0] == s[0];
    }
  }

  // ---------------------------------------------------------------------
  // Lemmas: the recommendation

  /** With a keep note neither value matters. */
  lemma KeepIgnoresValues(item: Item, recycleValue: nat, other: Item, otherValue: nat)
    requires HasKeepNote(item) && other.keep == item.keep
    ensures GetRecommendation(item, recycleValue) == GetRecommendation(other, otherValue)
  {
  }

  /** Equal values sell: the recycle test is strict. */
  lemma TieSells(item: Item)
    requires !HasKeepNote(item)
    ensures GetRecommendation(item, item.sellPrice).action == Sell
  {
  }

  // ---------------------------------------------------------------------
  // A worked example: "Widget" (sells for 100) recycles into two "Part"s
  // (60 each), so recycling yields 120 and wins by 20; with a keep note the
  // widget is kept instead.

  function ExampleTable(): seq<Item> {
    [Item("Widget", 100, Some("2x Part"), None), Item("Part", 60, None, None)]
  }

  /** The line "2x Part" reads as two of "Part". */
  lemma WidgetLineParses()
    ensures MatchLine("2x Part") == Some(Component(2, "Part"))
  {
    var line := "2x Part";
    WidgetLineMatch();
    assert line[0..1] == "2" && DigitsValue("2") == 2 by { assert "2"[..0] == []; }
    WidgetLineName();
  }

  lemma WidgetLineMatch()
    ensures FindMatch("2x Part", 0) == Some((0, 1))
  {
    var line := "2x Part";
    assert DigitRunEnd(line, 0) == 1 by {
      assert DigitRunEnd(line, 2) == 2;
      assert DigitRunEnd(line, 1) == 1;
    }
  }

  lemma WidgetLineName()
    ensures Trim("2x Part"[2..]) == "Part"
  {
    assert "2x Part"[2..] == " " + "Part" + "";
    TrimPadded(" ", "Part", "");
    TrimOfTrimmed("Part");
  }

  lemma PartPrice()
    ensures GetItemPrice(ExampleTable(), "Part") == 60
  {
    var table := ExampleTable();
    assert Lower("Part") == "part";
    TrimOfTrimmed("part");
    assert Key("Part") == "part";
    assert Lower(table[0].name) != "part" by { assert Lower("Widget")[0] == 'w'; }
    assert Lower(table[1].name) == "part";
    PriceIsFirstMatch(table, "Part", 1);
  }

  /** The field "2x Part" is not one of the sentinels. */
  lemma WidgetRecyclable()
    ensures !NotRecyclable(Some("2x Part"))
  {
    var line := "2x Part";
    NotContainsLonger(line, "Cannot be recycled");
    TrimOfTrimmed(line);
  }

  /** The field "2x Part" holds one component. */
  lemma WidgetEntries()
    ensures Entries(Split("2x Part", '\n')) == [Component(2, "Part")]
  {
    var line := "2x Part";
    assert '\n' !in line;
    SplitWithout(line, '\n');
    WidgetLineParses();
    assert Entries([line]) == [Component(2, "Part")] by { assert [line][..0] == []; }
  }

  lemma TwoPartsValue(table: seq<Item>)
    requires GetItemPrice(table, "Part") == 60
    ensures TotalValue(table, [Component(2, "Part")]) == 120
    ensures Texts(table, [Component(2, "Part")]) == ["2x Part (120)"]
  {
    var c := Component(2, "Part");
    TimesIsProduct(2, 60);
    GroupExamples();
    assert NatToString(2) == "2";
    assert ComponentText(table, c) == "2x Part (120)";
    assert [c][..0] == [];
  }

  /** In any table where "Part" sells for 60, the field "2x Part" is worth
      120 and lists one entry; ExampleTable is such a table (PartPrice). */
  lemma WidgetRecycleValue(table: seq<Item>)
    requires GetItemPrice(table, "Part") == 60
    ensures RecycleValue(table, Some("2x Part")) == (120, ["2x Part (120)"])
  {
    WidgetRecyclable();
    WidgetEntries();
    TwoPartsValue(table);
  }

  lemma WidgetRecommendation()
    ensures GetRecommendation(ExampleTable()[0], 120) ==
              Decision(Recycle, RecycleIcon, "Recycling is more profitable (+20 value)")
    ensures GetRecommendation(ExampleTable()[0].(keep := Some("Main Quest")), 120).action == Keep
  {
    GroupExamples();
    TrimOfTrimmed("Main Quest");
  }
}

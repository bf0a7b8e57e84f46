/** The item table and the normalization applied to it once, when the item
    manager window builds its table from the raw dataset rows. */
module Items {
  import opened Text
  import opened Numbers

  /** A value that may be absent: a missing cell (pandas NaN), or no match. */
  datatype Option<T> = None | Some(value: T)

  /** One row of the normalized table. `recyclesTo` is the free-text
      "Recycles To" cell and `keep` the "Keep for Quests/Workshop" cell. */
  datatype Item = Item(name: string, sellPrice: nat, recyclesTo: Option<string>, keep: Option<string>)

  /** One row of the raw dataset, with the name and sell price already in
      their `str(...)` forms. */
  datatype RawRow = RawRow(name: string, sellPrice: string, recyclesTo: Option<string>, keep: Option<string>)

  predicate IsQuoteOrComma(c: char) {
    c == '"' || c == ','
  }

  /** `str.replace(r'[",]', '', regex=True)`: every double quote and comma
      removed, every other character kept in order. */
  function StripQuotesAndCommas(s: string): (r: string)
    ensures |r| <= |s|
    ensures forall i | 0 <= i < |r| :: !IsQuoteOrComma(r[i])
    ensures (forall i | 0 <= i < |s| :: !IsQuoteOrComma(s[i])) ==> r == s
  {
    if s == [] then []
    else (if IsQuoteOrComma(s[0]) then [] else [s[0]]) + StripQuotesAndCommas(s[1..])
  }

  /** The sell price as the table holds it after loading: quotes and
      thousands separators dropped, then the digits read as a number; a
      cell that is not a run of digits becomes 0. */
  function NormalizePrice(raw: string): nat {
    ParseDigits(StripQuotesAndCommas(raw))
  }

  function NormalizeRow(raw: RawRow): Item {
    Item(Trim(raw.name), NormalizePrice(raw.sellPrice), raw.recyclesTo, raw.keep)
  }

  /** The table the item manager is given: one item per raw row, in the same
      order, with trimmed names and numeric sell prices. */
  function LoadTable(rows: seq<RawRow>): (table: seq<Item>)
    ensures |table| == |rows|
    ensures forall i | 0 <= i < |rows| :: table[i] == NormalizeRow(rows[i])
    ensures forall i | 0 <= i < |rows| :: IsTrimmed(table[i].name)
  {
    seq(|rows|, i requires 0 <= i < |rows| => NormalizeRow(rows[i]))
  }

  // ---------------------------------------------------------------------
  // Lemmas

  /** On one character: a quote or comma is deleted, anything else kept.
      With StripAppend this determines the function on every string. */
  lemma StripOne(c: char)
    ensures StripQuotesAndCommas([c]) == if IsQuoteOrComma(c) then [] else [c]
  {
  }

  /** Stripping distributes over concatenation, so it removes exactly the
      quotes and commas and keeps everything else in place. */
  lemma {:induction false} StripAppend(a: string, b: string)
    ensures StripQuotesAndCommas(a + b) == StripQuotesAndCommas(a) + StripQuotesAndCommas(b)
    decreases |a|
  {
    if a == [] {
      assert a + b == b;
    } else {
      assert (a + b)[1..] == a[1..] + b;
      StripAppend(a[1..], b);
    }
  }

  lemma StripDigits(s: string)
    requires AllDigits(s)
    ensures StripQuotesAndCommas(s) == s
  {
    assert forall i | 0 <= i < |s| :: !IsQuoteOrComma(s[i]);
  }

  /** Removing the separators from a grouped numeral leaves a digit run that
      reads back as the number. */
  lemma {:induction false} StripGroup(n: nat)
    ensures StripQuotesAndCommas(Group(n)) != []
    ensures AllDigits(StripQuotesAndCommas(Group(n)))
    ensures DigitsValue(StripQuotesAndCommas(Group(n))) == n
  {
    if n < 1000 {
      NatToStringFacts(n);
      StripDigits(Group(n));
    } else {
      var head, tail := Group(n / 1000), Pad3(n % 1000);
      assert Group(n) == head + "," + tail;
      StripGroup(n / 1000);
      StripAppend(head + ",", tail);
      StripAppend(head, ",");
      StripDigits(tail);
      assert StripQuotesAndCommas(",") == [];
      var sh := StripQuotesAndCommas(head);
      assert StripQuotesAndCommas(Group(n)) == sh + tail;
      DigitsValueAppend(sh, tail);
      assert Pow10(3) == 1000;
    }
  }

  /** Loading inverts the `{:,.0f}` display format: a price written the way
      the report prints it, bare or in quotes, loads as that price. */
  lemma NormalizeGrouped(n: nat)
    ensures NormalizePrice(Group(n)) == n
    ensures NormalizePrice("\"" + Group(n) + "\"") == n
  {
    StripGroup(n);
    StripAppend("\"" + Group(n), "\"");
    StripAppend("\"", Group(n));
    assert StripQuotesAndCommas("\"") == [];
    assert StripQuotesAndCommas("\"" + Group(n) + "\"") == StripQuotesAndCommas(Group(n));
  }

  /** Quotes and commas are deleted wherever they stand, not only where the
      display format puts them. */
  lemma NormalizeScattered()
    ensures NormalizePrice("1,0,0") == 100
    ensures NormalizePrice("12\"3") == 123
  {
    StripScattered();
    HundredValues();
  }

  lemma StripScattered()
    ensures StripQuotesAndCommas("1,0,0") == "100"
    ensures StripQuotesAndCommas("12\"3") == "123"
  {
  }

  lemma HundredValues()
    ensures AllDigits("100") && DigitsValue("100") == 100
    ensures AllDigits("123") && DigitsValue("123") == 123
  {
    assert "100"[..2] == "10" && "10"[..1] == "1";
    assert "123"[..2] == "12" && "12"[..1] == "1";
  }

  /** A sell-price cell holding any character other than a digit, a quote or
      a comma loads as 0. */
  lemma NormalizeInvalid(raw: string, i: nat)
    requires i < |raw| && !IsDigit(raw[i]) && !IsQuoteOrComma(raw[i])
    ensures NormalizePrice(raw) == 0
  {
    assert raw == raw[..i] + [raw[i]] + raw[i + 1..];
    StripAppend(raw[..i] + [raw[i]], raw[i + 1..]);
    StripAppend(raw[..i], [raw[i]]);
    var s := StripQuotesAndCommas(raw);
    var k := |StripQuotesAndCommas(raw[..i])|;
    assert s[k] == raw[i];
  }

  /** A missing price (`str(None)`, `str(NaN)`) and an empty one load as 0. */
  lemma NormalizeMissing()
    ensures NormalizePrice("None") == 0
    ensures NormalizePrice("nan") == 0
    ensures NormalizePrice("") == 0
  {
    NormalizeInvalid("None", 0);
    NormalizeInvalid("nan", 0);
  }
}

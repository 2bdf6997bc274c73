/** Nested arrays as people write them, with any separators anywhere: what the parser and the polygon
    reader make of them, and of texts that break off or go wrong. */
module WrittenArrays {
  import opened ArrayParser
  import opened Numerals
  import opened PolygonText
  import opened Wrappers
  import opened WrittenNumbers

  /** Any run of commas, spaces and tabs. */
  predicate Gap(s: string) { forall k :: 0 <= k < |s| ==> s[k] == ',' || s[k] == ' ' || s[k] == '\t' }

  /** Any run of white space, line ends included. */
  predicate Blank(s: string) { forall k :: 0 <= k < |s| ==> IsSpace(s[k]) }

  /** A number with white space before it and separators behind it. */
  datatype Item = Item(space: string, number: Numeral, gap: string)

  /** A row: separators behind its opening bracket, the numbers, and separators behind its closing one. */
  datatype Row = Row(lead: string, items: seq<Item>, trail: string)

  datatype Source = Source(before: string, lead: string, rows: seq<Row>, after: string)

  /** Two numbers are kept apart by a separator, by white space or by the second one's sign. */
  predicate GoodItems(items: seq<Item>) {
    items != [] ==>
      && Blank(items[0].space) && WellFormed(items[0].number) && Gap(items[0].gap)
      && (|items| > 1 ==> items[0].gap != "" || items[1].space != "" || items[1].number.sign != "")
      && GoodItems(items[1..])
  }

  predicate GoodRow(r: Row) { Gap(r.lead) && GoodItems(r.items) && Gap(r.trail) }

  predicate GoodRows(rows: seq<Row>) { forall k :: 0 <= k < |rows| ==> GoodRow(rows[k]) }

  predicate Good(src: Source) { Gap(src.before) && Gap(src.lead) && GoodRows(src.rows) && Gap(src.after) }

  function ItemsText(items: seq<Item>): string {
    if items == [] then "" else items[0].space + (Text(items[0].number) + (items[0].gap + ItemsText(items[1..])))
  }

  function OpenRowText(r: Row): string { "[" + (r.lead + ItemsText(r.items)) }

  function WrittenRow(r: Row): string { OpenRowText(r) + ("]" + r.trail) }

  function WrittenRows(rows: seq<Row>): string {
    if rows == [] then "" else WrittenRow(rows[0]) + WrittenRows(rows[1..])
  }

  /** The text without its last bracket. */
  function OpenText(src: Source): string { src.before + ("[" + (src.lead + WrittenRows(src.rows))) }

  function SourceText(src: Source): string { OpenText(src) + ("]" + src.after) }

  function ItemValues(items: seq<Item>): seq<real>
    requires GoodItems(items)
  {
    if items == [] then [] else [Value(items[0].number)] + ItemValues(items[1..])
  }

  function Values(rows: seq<Row>): (v: Vvf)
    requires GoodRows(rows)
    ensures |v| == |rows|
  {
    seq(|rows|, k requires 0 <= k < |rows| => ItemValues(rows[k].items))
  }

  // ---- Step by step ----

  lemma {:induction false} ReadGap(gap: string, rest: string, depth: int, current: seq<real>, result: Vvf)
    requires Gap(gap)
    ensures ParseFrom(At(gap + rest, depth, current, result)) == ParseFrom(At(rest, depth, current, result))
  {
    if gap == "" {
      assert gap + rest == rest;
    } else {
      ReadGap(gap[1..], rest, depth, current, result);
      assert (gap + rest)[1..] == gap[1..] + rest;
      hide ParseFrom;
      OneSeparator(gap[0], gap[1..] + rest, depth, current, result);
      assert [gap[0]] + (gap[1..] + rest) == gap + rest;
    }
  }

  lemma OneSeparator(c: char, rest: string, depth: int, current: seq<real>, result: Vvf)
    requires c == ',' || c == ' ' || c == '\t'
    ensures ParseFrom(At([c] + rest, depth, current, result)) == ParseFrom(At(rest, depth, current, result))
  {
    assert ([c] + rest)[1..] == rest;
  }

  lemma TextStart(n: Numeral)
    requires WellFormed(n)
    ensures Text(n) != "" && (Text(n)[0] == '+' || Text(n)[0] == '-' || Text(n)[0] == '.' || IsDigit(Text(n)[0]))
    ensures n.sign != "" ==> Text(n)[0] == '+' || Text(n)[0] == '-'
  {
  }

  lemma {:induction false} SkipBlank(space: string, t: string)
    requires Blank(space) && t != "" && !IsSpace(t[0])
    ensures SkipSpace(space + t) == t
  {
    if space == "" {
      assert space + t == t;
    } else {
      SkipBlank(space[1..], t);
      assert (space + t)[1..] == space[1..] + t;
    }
  }

  /** Blanks and tabs are passed over by the parser, what follows them by the extraction of the number. */
  lemma {:induction false} ReadSpacedNumber(space: string, n: Numeral, rest: string, current: seq<real>, result: Vvf)
    requires Blank(space) && WellFormed(n) && Ends(n, rest) && rest != ""
    ensures ParseFrom(At(space + (Text(n) + rest), 2, current, result))
         == ParseFrom(At(rest, 2, current + [Value(n)], result))
  {
    hide ParseFrom, Text, Value, WellFormed;
    if space != "" && (space[0] == ' ' || space[0] == '\t') {
      var more := space[1..] + (Text(n) + rest);
      assert space + (Text(n) + rest) == [space[0]] + more;
      OneSeparator(space[0], more, 2, current, result);
      ReadSpacedNumber(space[1..], n, rest, current, result);
    } else {
      ExtractNumber(space, n, rest, current, result);
    }
  }

  lemma ExtractNumber(space: string, n: Numeral, rest: string, current: seq<real>, result: Vvf)
    requires Blank(space) && WellFormed(n) && Ends(n, rest) && rest != ""
    requires space == "" || (space[0] != ' ' && space[0] != '\t')
    ensures ParseFrom(At(space + (Text(n) + rest), 2, current, result))
         == ParseFrom(At(rest, 2, current + [Value(n)], result))
  {
    hide Text, ScanNumber, Value, WellFormed;
    ScanWritten(n, rest);
    TextStart(n);
    var t := Text(n) + rest;
    var s := space + t;
    assert t[0] == Text(n)[0];
    SkipBlank(space, t);
    assert s[0] == if space == "" then t[0] else space[0];
  }

  /** The text behind the items does not become part of the last number. */
  predicate Follows(items: seq<Item>, rest: string) {
    rest != "" &&
    (items != [] && items[|items| - 1].gap == "" ==> Ends(items[|items| - 1].number, rest))
  }

  lemma {:induction false} ReadItems(items: seq<Item>, rest: string, current: seq<real>, result: Vvf)
    requires GoodItems(items) && Follows(items, rest)
    ensures ParseFrom(At(ItemsText(items) + rest, 2, current, result))
         == ParseFrom(At(rest, 2, current + ItemValues(items), result))
  {
    hide ParseFrom, WellFormed, Text, Value, ItemsText, ItemValues, Ends, Gap, Blank;
    ItemsTextNext(items, rest);
    ItemValuesNext(items, current);
    if items != [] {
      var x, more := items[0], ItemsText(items[1..]) + rest;
      NextStart(items, rest);
      ReadItem(x, more, current, result);
      ReadItems(items[1..], rest, current + [Value(x.number)], result);
    }
  }

  lemma ReadItem(x: Item, more: string, current: seq<real>, result: Vvf)
    requires Blank(x.space) && WellFormed(x.number) && Gap(x.gap) && x.gap + more != "" && Ends(x.number, x.gap + more)
    ensures ParseFrom(At(x.space + (Text(x.number) + (x.gap + more)), 2, current, result))
         == ParseFrom(At(more, 2, current + [Value(x.number)], result))
  {
    hide ParseFrom, WellFormed, Text, Value, Ends, Gap, Blank;
    ReadSpacedNumber(x.space, x.number, x.gap + more, current, result);
    ReadGap(x.gap, more, 2, current + [Value(x.number)], result);
  }

  lemma ItemValuesNext(items: seq<Item>, current: seq<real>)
    requires GoodItems(items)
    ensures current + ItemValues(items)
         == if items == [] then current else (current + [Value(items[0].number)]) + ItemValues(items[1..])
  {
    hide Value, WellFormed, Gap;
  }

  lemma ItemsTextNext(items: seq<Item>, rest: string)
    ensures ItemsText(items) + rest
         == if items == [] then rest
            else items[0].space + (Text(items[0].number) + (items[0].gap + (ItemsText(items[1..]) + rest)))
  {
    hide Text;
  }

  /** What follows the first number ends it. */
  lemma NextStart(items: seq<Item>, rest: string)
    requires GoodItems(items) && items != [] && Follows(items, rest)
    ensures var follow := items[0].gap + (ItemsText(items[1..]) + rest);
      follow != "" && Ends(items[0].number, follow)
  {
    hide Text, WellFormed;
    var follow := items[0].gap + (ItemsText(items[1..]) + rest);
    if items[0].gap != "" {
      assert follow[0] == items[0].gap[0];
    } else if |items| > 1 {
      TextStart(items[1].number);
      assert follow[0] == if items[1].space != "" then items[1].space[0] else Text(items[1].number)[0];
    } else {
      assert follow == rest;
    }
  }

  lemma ReadWrittenRow(r: Row, rest: string, current: seq<real>, result: Vvf)
    requires GoodRow(r)
    ensures ParseFrom(At(WrittenRow(r) + rest, 1, current, result))
         == ParseFrom(At(rest, 1, ItemValues(r.items), result + [ItemValues(r.items)]))
  {
    hide ParseFrom, ItemsText, GoodItems, ItemValues;
    var tail := "]" + (r.trail + rest);
    var inner := ItemsText(r.items) + tail;
    assert WrittenRow(r) + rest == "[" + (r.lead + inner);
    StepOpen(r.lead + inner, 1, current, result);
    ReadGap(r.lead, inner, 2, [], result);
    ReadItems(r.items, tail, [], result);
    assert [] + ItemValues(r.items) == ItemValues(r.items);
    StepClose(r.trail + rest, 2, ItemValues(r.items), result);
    ReadGap(r.trail, rest, 1, ItemValues(r.items), result + [ItemValues(r.items)]);
  }

  function LastRow(rows: seq<Row>, current: seq<real>): seq<real>
    requires GoodRows(rows)
  {
    if rows == [] then current else ItemValues(rows[|rows| - 1].items)
  }

  lemma {:induction false} ReadWrittenRows(rows: seq<Row>, rest: string, current: seq<real>, result: Vvf)
    requires GoodRows(rows)
    ensures ParseFrom(At(WrittenRows(rows) + rest, 1, current, result))
         == ParseFrom(At(rest, 1, LastRow(rows, current), result + Values(rows)))
  {
    hide ParseFrom, WrittenRow, GoodItems, ItemValues;
    if rows == [] {
      assert WrittenRows(rows) + rest == rest;
      assert result + Values(rows) == result;
    } else {
      var v := ItemValues(rows[0].items);
      assert WrittenRows(rows) + rest == WrittenRow(rows[0]) + (WrittenRows(rows[1..]) + rest);
      ReadWrittenRow(rows[0], WrittenRows(rows[1..]) + rest, current, result);
      ReadWrittenRows(rows[1..], rest, v, result + [v]);
      assert result + Values(rows) == result + [v] + Values(rows[1..]);
    }
  }

  lemma ReadOpenText(src: Source, rest: string)
    requires Good(src)
    ensures Parse(OpenText(src) + rest) == ParseFrom(At(rest, 1, LastRow(src.rows, []), Values(src.rows)))
  {
    hide ParseFrom, WrittenRows, GoodRows, Values, LastRow;
    var inner := WrittenRows(src.rows) + rest;
    assert OpenText(src) + rest == src.before + ("[" + (src.lead + inner));
    ReadGap(src.before, "[" + (src.lead + inner), 0, [], []);
    StepOpen(src.lead + inner, 0, [], []);
    ReadGap(src.lead, inner, 1, [], []);
    ReadWrittenRows(src.rows, rest, [], []);
    assert [] + Values(src.rows) == Values(src.rows);
  }

  // ---- Whole texts ----

  lemma AtEnd(depth: int, current: seq<real>, result: Vvf)
    ensures ParseFrom(At("", depth, current, result)) == (result, if depth != 0 then Unterminated else NoError)
  {
    var m := At("", depth, current, result);
    assert ParseFrom(m) == ParseFrom(m.(input := m.input.(eof := true)));
  }

  lemma ReadToClose(src: Source, rest: string)
    requires Good(src)
    ensures Parse(SourceText(src) + rest) == ParseFrom(At(rest, 0, LastRow(src.rows, []), Values(src.rows)))
  {
    hide ParseFrom, OpenText, Values, LastRow, GoodRows;
    var c, v := LastRow(src.rows, []), Values(src.rows);
    assert SourceText(src) + rest == OpenText(src) + ("]" + (src.after + rest));
    ReadOpenText(src, "]" + (src.after + rest));
    StepClose(src.after + rest, 1, c, v);
    ReadGap(src.after, rest, 0, c, v);
  }

  /** Every nested array of numbers, however spaced, is read with the numbers' values. */
  lemma ParseWritten(src: Source)
    requires Good(src)
    ensures Parse(SourceText(src)) == (Values(src.rows), NoError)
  {
    ReadToClose(src, "");
    assert SourceText(src) + "" == SourceText(src);
    AtEnd(0, LastRow(src.rows, []), Values(src.rows));
  }

  // ---- Texts with an error: the rows read so far, and the error ----

  /** The text breaks off before its last bracket. */
  lemma BrokenOff(src: Source)
    requires Good(src)
    ensures Parse(OpenText(src)) == (Values(src.rows), Unterminated)
  {
    ReadOpenText(src, "");
    assert OpenText(src) + "" == OpenText(src);
    AtEnd(1, LastRow(src.rows, []), Values(src.rows));
  }

  /** A bracket is opened inside a row. */
  lemma OpenedTooDeep(src: Source, row: Row, rest: string)
    requires Good(src) && GoodRow(row)
    ensures Parse(OpenText(src) + (OpenRowText(row) + ("[" + rest))) == (Values(src.rows), TooDeep)
  {
    hide ParseFrom, OpenText, Values, LastRow, GoodRows, GoodItems, ItemsText, ItemValues;
    var t := "[" + rest;
    ReadOpenRow(src, row, t);
    OpenAtTwo(rest, ItemValues(row.items), Values(src.rows));
  }

  lemma ReadOpenRow(src: Source, row: Row, rest: string)
    requires Good(src) && GoodRow(row) && Follows(row.items, rest)
    ensures Parse(OpenText(src) + (OpenRowText(row) + rest))
         == ParseFrom(At(rest, 2, ItemValues(row.items), Values(src.rows)))
  {
    hide ParseFrom, OpenText, Values, LastRow, GoodRows, GoodItems, ItemsText, ItemValues;
    var inner := ItemsText(row.items) + rest;
    assert OpenRowText(row) + rest == "[" + (row.lead + inner);
    ReadOpenText(src, "[" + (row.lead + inner));
    StepOpen(row.lead + inner, 1, LastRow(src.rows, []), Values(src.rows));
    ReadGap(row.lead, inner, 2, [], Values(src.rows));
    ReadItems(row.items, rest, [], Values(src.rows));
    assert [] + ItemValues(row.items) == ItemValues(row.items);
  }

  lemma OpenAtTwo(rest: string, current: seq<real>, result: Vvf)
    ensures ParseFrom(At("[" + rest, 2, current, result)) == (result, TooDeep)
  {
  }

  /** More brackets are closed than opened. */
  lemma ClosedTooOften(src: Source, rest: string)
    requires Good(src)
    ensures Parse(SourceText(src) + ("]" + rest)) == (Values(src.rows), MoreClose)
  {
    ReadToClose(src, "]" + rest);
  }

  predicate Foreign(c: char) { c != '[' && c != ']' && c != ',' && c != ' ' && c != '\t' }

  /** Something else than brackets and separators stands outside the rows: between them, or behind the text. */
  lemma StandsOutside(src: Source, c: char, rest: string)
    requires Good(src) && Foreign(c)
    ensures Parse(OpenText(src) + ([c] + rest)) == (Values(src.rows), NumberOutside(c))
    ensures Parse(SourceText(src) + ([c] + rest)) == (Values(src.rows), NumberOutside(c))
  {
    ReadOpenText(src, [c] + rest);
    ReadToClose(src, [c] + rest);
  }

  /** Something that cannot start a number stands in a row, before the numbers or behind them. */
  lemma NoNumber(src: Source, row: Row, c: char, rest: string)
    requires Good(src) && GoodRow(row) && Follows(row.items, [c] + rest)
    requires Foreign(c) && !IsDigit(c) && !IsSpace(c) && c != '+' && c != '-' && c != '.'
    ensures Parse(OpenText(src) + (OpenRowText(row) + ([c] + rest))) == (Values(src.rows), Unterminated)
  {
    hide OpenText, Values, LastRow, GoodRows, GoodItems, OpenRowText, ParseFrom, Follows;
    ReadOpenRow(src, row, [c] + rest);
    NotTaken(c, rest, ItemValues(row.items), Values(src.rows));
  }

  /** A line end right before a closing bracket is taken for the start of a number and ends the parse. */
  lemma LineEndBeforeClose(src: Source, row: Row, space: string, rest: string)
    requires Good(src) && GoodRow(row) && Blank(space) && space != "" && space[0] != ' ' && space[0] != '\t'
    requires rest != "" && (rest[0] == ']' || rest[0] == '[')
    ensures Parse(OpenText(src) + (OpenRowText(row) + (space + rest))) == (Values(src.rows), Unterminated)
  {
    hide OpenText, Values, LastRow, GoodRows, GoodItems, OpenRowText, ParseFrom;
    var t := space + rest;
    assert t[0] == space[0];
    ReadOpenRow(src, row, t);
    SkipBlank(space, rest);
    NothingExtracted(t, rest, ItemValues(row.items), Values(src.rows));
  }

  lemma NothingExtracted(t: string, rest: string, current: seq<real>, result: Vvf)
    requires t != "" && Foreign(t[0]) && SkipSpace(t) == rest && rest != "" && (rest[0] == ']' || rest[0] == '[')
    ensures ParseFrom(At(t, 2, current, result)) == (result, Unterminated)
  {
    assert TakeSign(rest) == (false, rest) && TakeDigits(rest) == ("", rest) && TakeFraction(rest) == ("", rest);
    assert ScanNumber(rest) == Scan(rest, None);
  }

  lemma NotTaken(c: char, rest: string, current: seq<real>, result: Vvf)
    requires Foreign(c) && !IsDigit(c) && !IsSpace(c) && c != '+' && c != '-' && c != '.'
    ensures ParseFrom(At([c] + rest, 2, current, result)) == (result, Unterminated)
  {
    var s := [c] + rest;
    assert SkipSpace(s) == s;
    assert TakeSign(s) == (false, s) && TakeDigits(s) == ("", s) && TakeFraction(s) == ("", s);
    assert ScanNumber(s) == Scan(s, None);
  }

  // ---- Polygons ----

  predicate IsPolygon(rows: Vvf) { !(0 < |rows| < 3) && forall k :: 0 <= k < |rows| ==> |rows[k]| == 2 }

  /** Every written array is taken as the polygon of its pairs with z = 0, if it has no rows or at least
      three and all of them are pairs; otherwise the last polygon stays. */
  lemma MakePolygonWritten(src: Source, last: Polygon)
    requires Good(src)
    ensures var v, p := Values(src.rows), MakePolygon(SourceText(src), last);
      if IsPolygon(v)
      then |p| == |v| && forall k :: 0 <= k < |v| ==> p[k].x == v[k][0] && p[k].y == v[k][1] && p[k].z == 0.0
      else p == last
  {
    hide Parse, SourceText, Values, Good;
    ParseWritten(src);
  }

  /** A text in which brackets are missing or left over keeps the last polygon, whatever else it holds. */
  lemma UnbalancedKeepsLast(text: string, last: Polygon)
    requires CountBrackets(text).opens != CountBrackets(text).closes
    ensures MakePolygon(text, last) == last
  {
    if Parse(text).1 == NoError {
      AcceptedIsBalanced(text);
    }
  }
}

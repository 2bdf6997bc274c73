/** parseVVF: a bracket-depth machine over a character stream. The costmap package and the laser polygon
    filter hold the same code. */
module ArrayParser {
  import opened Numerals
  import opened Wrappers

  /** The messages of error_return; NoError is the empty string. */
  datatype VvfError = NoError | TooDeep | MoreClose | NumberOutside(c: char) | Unterminated

  /** A stringstream: what is left to read, eofbit and failbit. */
  datatype Stream = Stream(rest: string, eof: bool, fail: bool)

  datatype Machine = Machine(input: Stream, depth: int, current: seq<real>, result: seq<seq<real>>)

  type Vvf = seq<seq<real>>

  predicate Running(m: Machine) { !m.input.fail && !m.input.eof }

  function Advance(m: Machine): Machine
    requires m.input.rest != ""
  {
    m.(input := m.input.(rest := m.input.rest[1..]))
  }

  /** operator>> into a float, on a stream that is good and not at its end. */
  function Extract(s: Stream): (r: (Stream, Option<real>))
    requires s.rest != ""
    ensures LeftOf(r.0.rest, s.rest)
    ensures r.1.Some? <==> !r.0.fail
    ensures r.1.Some? ==> |r.0.rest| < |s.rest|
  {
    var t := SkipSpace(s.rest);
    if t == "" then (Stream("", true, true), None)
    else
      var n := ScanNumber(t);
      (Stream(n.rest, n.rest == "", n.value.None?), n.value)
  }

  predicate IsSeparator(c: char) { c == ',' || c == ' ' || c == '\t' }

  /** Remaining work: characters, and one for a stream that is still good. */
  function Fuel(m: Machine): nat { |m.input.rest| + if Running(m) then 1 else 0 }

  function ParseFrom(m: Machine): (Vvf, VvfError)
    decreases Fuel(m)
  {
    if !Running(m) then (m.result, if m.depth != 0 then Unterminated else NoError)
    else if m.input.rest == "" then ParseFrom(m.(input := m.input.(eof := true)))
    else
      var c := m.input.rest[0];
      if c == '[' then
        if m.depth + 1 > 2 then (m.result, TooDeep)
        else ParseFrom(Advance(m).(depth := m.depth + 1, current := []))
      else if c == ']' then
        if m.depth - 1 < 0 then (m.result, MoreClose)
        else
          var r := if m.depth - 1 == 1 then m.result + [m.current] else m.result;
          ParseFrom(Advance(m).(depth := m.depth - 1, result := r))
      else if IsSeparator(c) then ParseFrom(Advance(m))
      else if m.depth != 2 then (m.result, NumberOutside(c))
      else
        var (s, v) := Extract(m.input);
        ParseFrom(m.(input := s, current := if v.Some? then m.current + [v.value] else m.current))
  }

  function At(rest: string, depth: int, current: seq<real>, result: Vvf): Machine {
    Machine(Stream(rest, false, false), depth, current, result)
  }

  function Parse(input: string): (Vvf, VvfError) { ParseFrom(At(input, 0, [], [])) }

  method ParseVVF(input: string) returns (result: Vvf, error: VvfError)
    ensures (result, error) == Parse(input)
  {
    result := [];
    var stream := Stream(input, false, false);
    var depth := 0;
    var current: seq<real> := [];
    while !stream.fail && !stream.eof
      invariant ParseFrom(Machine(stream, depth, current, result)) == Parse(input)
      decreases Fuel(Machine(stream, depth, current, result))
    {
      if stream.rest == "" {
        stream := stream.(eof := true);
      } else {
        var c := stream.rest[0];
        match c {
          case '[' =>
            depth := depth + 1;
            if depth > 2 {
              return result, TooDeep;
            }
            stream := stream.(rest := stream.rest[1..]);
            current := [];
          case ']' =>
            depth := depth - 1;
            if depth < 0 {
              return result, MoreClose;
            }
            stream := stream.(rest := stream.rest[1..]);
            if depth == 1 {
              result := result + [current];
            }
          case _ =>
            if c == ',' || c == ' ' || c == '\t' {
              stream := stream.(rest := stream.rest[1..]);
            } else {
              if depth != 2 {
                return result, NumberOutside(c);
              }
              var (after, value) := Extract(stream);
              stream := after;
              if !stream.fail {
                current := current + [value.value];
              }
            }
        }
      }
    }
    error := if depth != 0 then Unterminated else NoError;
  }

  // ---- What an accepted text looks like ----

  /** Along every run, depth is the surplus of brackets opened so far; so an accepted text closes every
      bracket it opens. */
  lemma {:induction false} DepthIsSurplus(m: Machine)
    requires ParseFrom(m).1 == NoError
    ensures m.depth + CountBrackets(m.input.rest).opens == CountBrackets(m.input.rest).closes || !Running(m)
    ensures !Running(m) ==> m.depth == 0
    decreases Fuel(m)
  {
    if Running(m) && m.input.rest != "" {
      var c := m.input.rest[0];
      if c == '[' {
        DepthIsSurplus(Advance(m).(depth := m.depth + 1, current := []));
      } else if c == ']' {
        var r := if m.depth - 1 == 1 then m.result + [m.current] else m.result;
        DepthIsSurplus(Advance(m).(depth := m.depth - 1, result := r));
      } else if IsSeparator(c) {
        DepthIsSurplus(Advance(m));
      } else {
        var (s, v) := Extract(m.input);
        DepthIsSurplus(m.(input := s, current := if v.Some? then m.current + [v.value] else m.current));
      }
    }
  }

  lemma AcceptedIsBalanced(input: string)
    requires Parse(input).1 == NoError
    ensures CountBrackets(input).opens == CountBrackets(input).closes
  {
    DepthIsSurplus(At(input, 0, [], []));
  }

  // ---- Printing nested arrays, and reading them back ----

  function NumbersText(row: seq<real>): string {
    if row == [] then ""
    else if |row| == 1 then FixedText(row[0])
    else FixedText(row[0]) + (", " + NumbersText(row[1..]))
  }

  function RowText(row: seq<real>): string { "[" + (NumbersText(row) + "]") }

  function RowsText(rows: Vvf): string {
    if rows == [] then ""
    else if |rows| == 1 then RowText(rows[0])
    else RowText(rows[0]) + (", " + RowsText(rows[1..]))
  }

  function VvfText(rows: Vvf): string { "[" + (RowsText(rows) + "]") }

  function RoundedRow(row: seq<real>): seq<real> {
    seq(|row|, k requires 0 <= k < |row| => Rounded(row[k]))
  }

  function RoundedRows(rows: Vvf): Vvf {
    seq(|rows|, k requires 0 <= k < |rows| => RoundedRow(rows[k]))
  }

  lemma StepSeparators(rest: string, depth: int, current: seq<real>, result: Vvf)
    ensures ParseFrom(At(", " + rest, depth, current, result)) == ParseFrom(At(rest, depth, current, result))
  {
    assert (", " + rest)[1..] == " " + rest;
    assert (" " + rest)[1..] == rest;
    assert Advance(At(", " + rest, depth, current, result)) == At(" " + rest, depth, current, result);
    assert Advance(At(" " + rest, depth, current, result)) == At(rest, depth, current, result);
  }

  lemma StepOpen(rest: string, depth: int, current: seq<real>, result: Vvf)
    requires depth < 2
    ensures ParseFrom(At("[" + rest, depth, current, result)) == ParseFrom(At(rest, depth + 1, [], result))
  {
    assert ("[" + rest)[1..] == rest;
  }

  lemma StepClose(rest: string, depth: int, current: seq<real>, result: Vvf)
    requires depth > 0
    ensures ParseFrom(At("]" + rest, depth, current, result))
         == ParseFrom(At(rest, depth - 1, current, if depth == 2 then result + [current] else result))
  {
    assert ("]" + rest)[1..] == rest;
  }

  lemma StepNumber(x: real, rest: string, current: seq<real>, result: Vvf)
    requires rest != "" && EndsNumber(rest)
    ensures ParseFrom(At(FixedText(x) + rest, 2, current, result))
         == ParseFrom(At(rest, 2, current + [Rounded(x)], result))
  {
    hide FixedText, ScanNumber, Rounded;
    ScanPrinted(x, rest);
    var s := FixedText(x) + rest;
    assert s[0] == FixedText(x)[0];
    assert SkipSpace(s) == s;
  }

  lemma {:induction false} ReadNumbers(row: seq<real>, rest: string, current: seq<real>, result: Vvf)
    ensures ParseFrom(At(NumbersText(row) + ("]" + rest), 2, current, result))
         == ParseFrom(At("]" + rest, 2, current + RoundedRow(row), result))
  {
    hide FixedText, Rounded, ParseFrom;
    var tail := "]" + rest;
    if row == [] {
      assert NumbersText(row) + tail == tail;
      assert current + RoundedRow(row) == current;
    } else if |row| == 1 {
      StepNumber(row[0], tail, current, result);
      assert RoundedRow(row) == [Rounded(row[0])];
    } else {
      var more := NumbersText(row[1..]) + tail;
      assert NumbersText(row) + tail == FixedText(row[0]) + (", " + more);
      StepNumber(row[0], ", " + more, current, result);
      StepSeparators(more, 2, current + [Rounded(row[0])], result);
      ReadNumbers(row[1..], rest, current + [Rounded(row[0])], result);
      assert current + RoundedRow(row) == current + [Rounded(row[0])] + RoundedRow(row[1..]);
    }
  }

  lemma ReadRow(row: seq<real>, rest: string, current: seq<real>, result: Vvf)
    ensures ParseFrom(At(RowText(row) + rest, 1, current, result))
         == ParseFrom(At(rest, 1, RoundedRow(row), result + [RoundedRow(row)]))
  {
    hide ParseFrom, NumbersText;
    var inner := NumbersText(row) + ("]" + rest);
    assert RowText(row) + rest == "[" + inner;
    StepOpen(inner, 1, current, result);
    ReadNumbers(row, rest, [], result);
    assert [] + RoundedRow(row) == RoundedRow(row);
    StepClose(rest, 2, RoundedRow(row), result);
  }

  /** What current_vector holds after the rows. */
  function LeftOver(rows: Vvf, current: seq<real>): seq<real> {
    if rows == [] then current else RoundedRow(rows[|rows| - 1])
  }

  lemma {:induction false} ReadRows(rows: Vvf, rest: string, current: seq<real>, result: Vvf)
    ensures ParseFrom(At(RowsText(rows) + rest, 1, current, result))
         == ParseFrom(At(rest, 1, LeftOver(rows, current), result + RoundedRows(rows)))
  {
    hide ParseFrom, RowText, RoundedRow;
    if rows == [] {
      assert RowsText(rows) + rest == rest;
      assert result + RoundedRows(rows) == result;
    } else if |rows| == 1 {
      ReadRow(rows[0], rest, current, result);
      assert result + RoundedRows(rows) == result + [RoundedRow(rows[0])];
      assert RowsText(rows) == RowText(rows[0]);
    } else {
      var more := RowsText(rows[1..]) + rest;
      var r := RoundedRow(rows[0]);
      assert RowsText(rows) + rest == RowText(rows[0]) + (", " + more);
      ReadRow(rows[0], ", " + more, current, result);
      StepSeparators(more, 1, r, result + [r]);
      ReadRows(rows[1..], rest, r, result + [r]);
      assert result + RoundedRows(rows) == result + [r] + RoundedRows(rows[1..]);
    }
  }

  /** For all nested arrays, whatever the lengths of the rows: what is printed is read back, every
      number rounded to six decimals. */
  lemma ParsePrinted(rows: Vvf)
    ensures Parse(VvfText(rows)) == (RoundedRows(rows), NoError)
  {
    var inner := RowsText(rows) + "]";
    StepOpen(inner, 0, [], []);
    ReadRows(rows, "]", [], []);
    var c := LeftOver(rows, []);
    assert "]" == "]" + "";
    StepClose("", 1, c, RoundedRows(rows));
    assert [] + RoundedRows(rows) == RoundedRows(rows);
    var last := At("", 0, c, RoundedRows(rows));
    assert ParseFrom(last) == ParseFrom(last.(input := last.input.(eof := true)));
  }
}

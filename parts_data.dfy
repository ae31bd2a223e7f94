/**
 * The parts catalogue (src/data/partsData.ts): `parseCSV`, the quote-aware
 * CSV reader that turns the catalogue text into part records, plus
 * `getGridAreaName` and `getPartsByPriority`.
 *
 * The CSV text arrives through a bundler import; here it is the parameter
 * `csv`, and the exported `partsData` is the parameter of the functions that
 * read it.
 */
module PartsData {
  import opened Wrappers
  import opened Builtins
  import Sorting

  /** A part record. Missing fields are `undefined` in the source: None here; a priority of None is NaN. */
  datatype PartData = PartData(
    id: string,
    name: Option<string>,
    description: Option<string>,
    iconSrc: string,
    priority: Option<int>)

  const IconDirectory: string := "/src/assets/images/"

  // ===========================================================================
  // One line: the quote-aware field splitter

  /** What one step of the line scanner does with the characters it reads. */
  datatype Token =
    | Literal(c: char)  // a character appended to the current field
    | Separator         // a comma outside quotes: the field ends
    | QuoteToggle       // a quote that opens or closes a quoted stretch

  /**
   * The scanner's steps over `line` starting in quote mode `inQuotes`: inside
   * quotes `""` is one literal quote, any other `"` toggles the mode, a comma
   * outside quotes separates, and everything else is literal.
   */
  function Tokens(line: string, inQuotes: bool): seq<Token>
    decreases |line|
  {
    if line == [] then []
    else if line[0] == '"' && |line| > 1 && line[1] == '"' && inQuotes then [Literal('"')] + Tokens(line[2..], inQuotes)
    else if line[0] == '"' then [QuoteToggle] + Tokens(line[1..], !inQuotes)
    else if line[0] == ',' && !inQuotes then [Separator] + Tokens(line[1..], inQuotes)
    else [Literal(line[0])] + Tokens(line[1..], inQuotes)
  }

  /** The fields that `tokens` produce after the finished fields `values` and the partial field `current`. */
  function Assemble(values: seq<string>, current: string, tokens: seq<Token>): (r: seq<string>)
    ensures |r| >= |values| + 1
    decreases |tokens|
  {
    if tokens == [] then values + [current]
    else
      match tokens[0]
      case Separator => Assemble(values + [current], [], tokens[1..])
      case Literal(c) => Assemble(values, current + [c], tokens[1..])
      case QuoteToggle => Assemble(values, current, tokens[1..])
  }

  /** The fields of one CSV line. */
  function Fields(line: string): (r: seq<string>)
    ensures |r| >= 1
  {
    Assemble([], [], Tokens(line, false))
  }

  /** The inner loop of parseCSV: scan `line` once, character by character. */
  method ParseLine(line: string) returns (values: seq<string>)
    ensures values == Fields(line)
  {
    values := [];
    var currentValue: string := [];
    var inQuotes := false;
    var j := 0;
    while j < |line|
      invariant 0 <= j <= |line|
      invariant Assemble(values, currentValue, Tokens(line[j..], inQuotes)) == Fields(line)
      decreases |line| - j
    {
      var ch := line[j];
      ghost var rest := line[j..];
      assert rest[0] == ch && rest[1..] == line[j + 1..];
      if ch == '"' && j + 1 < |line| && line[j + 1] == '"' && inQuotes {
        assert rest[1] == '"' && rest[2..] == line[j + 2..];
        currentValue := currentValue + ['"'];
        j := j + 1;
      } else if ch == '"' {
        inQuotes := !inQuotes;
      } else if ch == ',' && !inQuotes {
        values := values + [currentValue];
        currentValue := [];
      } else {
        currentValue := currentValue + [ch];
      }
      j := j + 1;
    }
    assert line[j..] == [];
    values := values + [currentValue];
  }

  // ---------------------------------------------------------------------------
  // What the fields of a line are

  function CountSeparators(tokens: seq<Token>): nat {
    if tokens == [] then 0 else (if tokens[0] == Separator then 1 else 0) + CountSeparators(tokens[1..])
  }

  /** The characters the scanner keeps: literal tokens, in order. */
  function Literals(tokens: seq<Token>): string {
    if tokens == [] then [] else (if tokens[0].Literal? then [tokens[0].c] else []) + Literals(tokens[1..])
  }

  /** All fields run together. */
  function Concat(values: seq<string>): string {
    if values == [] then [] else Concat(values[..|values| - 1]) + values[|values| - 1]
  }

  lemma ConcatAppend(values: seq<string>, s: string)
    ensures Concat(values + [s]) == Concat(values) + s
  {
    assert (values + [s])[..|values|] == values;
  }

  lemma {:induction false} AssembleCount(values: seq<string>, current: string, tokens: seq<Token>)
    ensures |Assemble(values, current, tokens)| == |values| + CountSeparators(tokens) + 1
    decreases |tokens|
  {
    if tokens != [] {
      match tokens[0]
      case Separator => AssembleCount(values + [current], [], tokens[1..]);
      case Literal(c) => AssembleCount(values, current + [c], tokens[1..]);
      case QuoteToggle => AssembleCount(values, current, tokens[1..]);
    }
  }

  /** A line has one field more than it has commas outside quotes. */
  lemma FieldCount(line: string)
    ensures |Fields(line)| == CountSeparators(Tokens(line, false)) + 1
  {
    AssembleCount([], [], Tokens(line, false));
  }

  lemma {:induction false} AssembleConcat(values: seq<string>, current: string, tokens: seq<Token>)
    ensures Concat(Assemble(values, current, tokens)) == Concat(values) + current + Literals(tokens)
    decreases |tokens|
  {
    if tokens == [] {
      ConcatAppend(values, current);
      assert Literals(tokens) == [];
    } else {
      match tokens[0]
      case Separator =>
        AssembleConcat(values + [current], [], tokens[1..]);
        ConcatSeparatorStep(values, current, tokens);
      case Literal(c) =>
        AssembleConcat(values, current + [c], tokens[1..]);
        ConcatLiteralStep(values, current, tokens);
      case QuoteToggle =>
        AssembleConcat(values, current, tokens[1..]);
        ConcatQuoteStep(values, current, tokens);
    }
  }

  lemma ConcatSeparatorStep(values: seq<string>, current: string, tokens: seq<Token>)
    requires tokens != [] && tokens[0] == Separator
    requires Concat(Assemble(values + [current], [], tokens[1..])) == Concat(values + [current]) + [] + Literals(tokens[1..])
    ensures Concat(Assemble(values, current, tokens)) == Concat(values) + current + Literals(tokens)
  {
    ConcatAppend(values, current);
    assert Literals(tokens) == Literals(tokens[1..]);
    assert Concat(values + [current]) + [] == Concat(values) + current;
  }

  lemma ConcatLiteralStep(values: seq<string>, current: string, tokens: seq<Token>)
    requires tokens != [] && tokens[0].Literal?
    requires Concat(Assemble(values, current + [tokens[0].c], tokens[1..])) == Concat(values) + (current + [tokens[0].c]) + Literals(tokens[1..])
    ensures Concat(Assemble(values, current, tokens)) == Concat(values) + current + Literals(tokens)
  {
    var c := tokens[0].c;
    assert Literals(tokens) == [c] + Literals(tokens[1..]);
    calc {
      Concat(values) + (current + [c]) + Literals(tokens[1..]);
      Concat(values) + current + ([c] + Literals(tokens[1..]));
    }
  }

  lemma ConcatQuoteStep(values: seq<string>, current: string, tokens: seq<Token>)
    requires tokens != [] && tokens[0] == QuoteToggle
    requires Concat(Assemble(values, current, tokens[1..])) == Concat(values) + current + Literals(tokens[1..])
    ensures Concat(Assemble(values, current, tokens)) == Concat(values) + current + Literals(tokens)
  {
    assert Literals(tokens) == Literals(tokens[1..]);
  }

  /** The fields run together are exactly the literal characters: separators and quote marks are dropped, and `""` inside quotes counts once. */
  lemma FieldsConcat(line: string)
    ensures Concat(Fields(line)) == Literals(Tokens(line, false))
  {
    AssembleConcat([], [], Tokens(line, false));
  }

  lemma {:induction false} AssembleUnquoted(values: seq<string>, current: string, s: string)
    requires '"' !in s
    ensures Assemble(values, current, Tokens(s, false))
         == values + [current + Split(s, ',')[0]] + Split(s, ',')[1..]
    decreases |s|
  {
    var pieces := Split(s, ',');
    if s != [] {
      var rest := Split(s[1..], ',');
      assert '"' !in s[1..] by { assert forall k :: 0 <= k < |s[1..]| ==> s[1..][k] == s[k + 1]; }
      var t := Tokens(s, false);
      if s[0] == ',' {
        assert t[0] == Separator && t[1..] == Tokens(s[1..], false);
        assert pieces[0] == [] && pieces[1..] == rest;
        calc {
          Assemble(values, current, t);
          Assemble(values + [current], [], Tokens(s[1..], false));
          { AssembleUnquoted(values + [current], [], s[1..]); }
          values + [current] + [[] + rest[0]] + rest[1..];
          { assert [] + rest[0] == rest[0]; }
          (values + [current]) + [rest[0]] + rest[1..];
          { assert [rest[0]] + rest[1..] == rest; }
          (values + [current]) + rest;
          { assert current + pieces[0] == current; }
          values + [current + pieces[0]] + pieces[1..];
        }
      } else {
        assert t[0] == Literal(s[0]) && t[1..] == Tokens(s[1..], false);
        assert pieces[0] == [s[0]] + rest[0] && pieces[1..] == rest[1..];
        calc {
          Assemble(values, current, t);
          Assemble(values, current + [s[0]], Tokens(s[1..], false));
          { AssembleUnquoted(values, current + [s[0]], s[1..]); }
          values + [current + [s[0]] + rest[0]] + rest[1..];
          { assert current + [s[0]] + rest[0] == current + pieces[0]; }
          values + [current + pieces[0]] + pieces[1..];
        }
      }
    } else {
      assert pieces == [[]];
      assert current + [] == current;
    }
  }

  /** Without quote marks a line is split at every comma, exactly as `split(',')` does. */
  lemma UnquotedFields(line: string)
    requires '"' !in line
    ensures Fields(line) == Split(line, ',')
  {
    var pieces := Split(line, ',');
    AssembleUnquoted([], [], line);
    assert [] + pieces[0] == pieces[0];
    assert [pieces[0]] + pieces[1..] == pieces;
  }

  // ---------------------------------------------------------------------------
  // Writing fields that the reader gives back

  /** A field with each quote mark doubled. */
  function Escape(field: string): string {
    if field == [] then []
    else (if field[0] == '"' then "\"\"" else [field[0]]) + Escape(field[1..])
  }

  /** A field written between quote marks. */
  function Quote(field: string): string {
    "\"" + Escape(field) + "\""
  }

  /** Fields written quoted and joined by commas. */
  function QuotedLine(fields: seq<string>): string
    requires |fields| >= 1
  {
    if |fields| == 1 then Quote(fields[0]) else Quote(fields[0]) + "," + QuotedLine(fields[1..])
  }

  function LiteralTokens(field: string): (r: seq<Token>)
   {
    if field == [] then [] else [Literal(field[0])] + LiteralTokens(field[1..])
  }

  /** Inside quotes, the first character of an escaped field, doubled quote or not, is one literal. */
  lemma EscapedHead(field: string, rest: string)
    requires field != []
    ensures Tokens(Escape(field) + rest, true) == [Literal(field[0])] + Tokens(Escape(field[1..]) + rest, true)
  {
    var s := Escape(field) + rest;
    var tail := Escape(field[1..]) + rest;
    if field[0] == '"' {
      assert s == "\"\"" + tail && s[2..] == tail;
    } else {
      assert s == [field[0]] + tail && s[1..] == tail;
    }
  }

  /** Inside quotes, a quote mark not followed by another one closes the field. */
  lemma ClosingQuote(rest: string)
    requires rest == [] || rest[0] != '"'
    ensures Tokens("\"" + rest, true) == [QuoteToggle] + Tokens(rest, false)
  {
    var s := "\"" + rest;
    assert s[0] == '"' && s[1..] == rest;
  }

  lemma {:induction false} TokensOfEscaped(field: string, rest: string)
    requires rest == [] || rest[0] != '"'
    ensures Tokens(Escape(field) + "\"" + rest, true) == LiteralTokens(field) + [QuoteToggle] + Tokens(rest, false)
  {
    var closed := "\"" + rest;
    var after := [QuoteToggle] + Tokens(rest, false);
    assert Escape(field) + "\"" + rest == Escape(field) + closed;
    if field == [] {
      assert Escape(field) + closed == closed;
      ClosingQuote(rest);
      assert LiteralTokens(field) + [QuoteToggle] + Tokens(rest, false) == after;
    } else {
      EscapedHead(field, closed);
      assert Escape(field[1..]) + "\"" + rest == Escape(field[1..]) + closed;
      TokensOfEscaped(field[1..], rest);
      Associative(LiteralTokens(field), [QuoteToggle], Tokens(rest, false));
      Associative(LiteralTokens(field[1..]), [QuoteToggle], Tokens(rest, false));
      Associative([Literal(field[0])], LiteralTokens(field[1..]), after);
    }
  }

  lemma {:induction false} AssembleLiterals(values: seq<string>, current: string, field: string, tokens: seq<Token>)
    ensures Assemble(values, current, LiteralTokens(field) + tokens) == Assemble(values, current + field, tokens)
    decreases |field|
  {
    if field != [] {
      var t := LiteralTokens(field) + tokens;
      assert t[0] == Literal(field[0]);
      assert t[1..] == LiteralTokens(field[1..]) + tokens;
      AssembleLiterals(values, current + [field[0]], field[1..], tokens);
      assert current + [field[0]] + field[1..] == current + field;
    } else {
      assert LiteralTokens(field) + tokens == tokens && current + field == current;
    }
  }

  lemma TokensOfQuoted(f: string, rest: string)
    requires rest == [] || rest[0] != '"'
    ensures Tokens(Quote(f) + rest, false) == [QuoteToggle] + (LiteralTokens(f) + ([QuoteToggle] + Tokens(rest, false)))
  {
    var line := Quote(f) + rest;
    var inner := Escape(f) + "\"" + rest;
    assert line == "\"" + inner;
    assert line[0] == '"' && line[1..] == inner;
    calc {
      Tokens(line, false);
      [QuoteToggle] + Tokens(inner, true);
      { TokensOfEscaped(f, rest); }
      [QuoteToggle] + (LiteralTokens(f) + [QuoteToggle] + Tokens(rest, false));
      { Associative(LiteralTokens(f), [QuoteToggle], Tokens(rest, false)); }
      [QuoteToggle] + (LiteralTokens(f) + ([QuoteToggle] + Tokens(rest, false)));
    }
  }

  /** A quoted field contributes exactly its text to the current field and leaves quote mode. */
  lemma AssembleQuotedField(values: seq<string>, f: string, rest: string)
    requires rest == [] || rest[0] != '"'
    ensures Assemble(values, [], Tokens(Quote(f) + rest, false)) == Assemble(values, f, Tokens(rest, false))
  {
    TokensOfQuoted(f, rest);
    var afterField := [QuoteToggle] + Tokens(rest, false);
    var t := [QuoteToggle] + (LiteralTokens(f) + afterField);
    assert t[0] == QuoteToggle && t[1..] == LiteralTokens(f) + afterField;
    AssembleLiterals(values, [], f, afterField);
    assert [] + f == f;
    assert afterField[0] == QuoteToggle && afterField[1..] == Tokens(rest, false);
  }

  lemma {:induction false} AssembleQuotedLine(values: seq<string>, fields: seq<string>)
    requires |fields| >= 1
    ensures Assemble(values, [], Tokens(QuotedLine(fields), false)) == values + fields
    decreases |fields|
  {
    var f := fields[0];
    if |fields| == 1 {
      AssembleQuotedField(values, f, "");
      assert Quote(f) + "" == QuotedLine(fields);
      assert fields == [f];
    } else {
      var rest := "," + QuotedLine(fields[1..]);
      AssembleQuotedField(values, f, rest);
      assert Quote(f) + rest == QuotedLine(fields);
      var t := Tokens(rest, false);
      assert t[0] == Separator && t[1..] == Tokens(QuotedLine(fields[1..]), false) by {
        assert rest[1..] == QuotedLine(fields[1..]);
      }
      AssembleQuotedLine(values + [f], fields[1..]);
      assert values + [f] + fields[1..] == values + fields;
    }
  }

  /** Any fields, quoted with doubled inner quotes and joined by commas, read back as themselves. */
  lemma QuotedRoundTrip(fields: seq<string>)
    requires |fields| >= 1
    ensures Fields(QuotedLine(fields)) == fields
  {
    AssembleQuotedLine([], fields);
  }

  // ===========================================================================
  // Records

  /** `values[k]`, or None (`undefined`) past the end. */
  function FieldAt(values: seq<string>, k: nat): Option<string> {
    if k < |values| then Some(values[k]) else None
  }

  /** A value interpolated into a template literal: `undefined` is spelled out. */
  function TemplateText(v: Option<string>): string {
    match v
    case Some(s) => s
    case None => "undefined"
  }

  /** `parseInt(values[4])`; `parseInt(undefined)` reads the text "undefined" and is NaN. */
  function ParsePriority(v: Option<string>): Option<int> {
    ParseInt(TemplateText(v))
  }

  /** The record built from the fields of one line. */
  function ToPart(values: seq<string>): PartData
    requires |values| >= 1
  {
    PartData(values[0], FieldAt(values, 1), FieldAt(values, 2),
             IconDirectory + TemplateText(FieldAt(values, 3)), ParsePriority(FieldAt(values, 4)))
  }

  /** The records of the lines that are not blank once trimmed, in order. */
  function LineParts(lines: seq<string>): (r: seq<PartData>)
    ensures |r| <= |lines|
  {
    if lines == [] then []
    else
      var line := Trim(lines[0]);
      (if line == [] then [] else [ToPart(Fields(line))]) + LineParts(lines[1..])
  }

  /** The records whose id has not been seen before, keeping the first of each id. */
  function KeepFirst(parts: seq<PartData>, seen: set<string>): (r: seq<PartData>)
    ensures |r| <= |parts|
  {
    if parts == [] then []
    else if parts[0].id in seen then KeepFirst(parts[1..], seen)
    else [parts[0]] + KeepFirst(parts[1..], seen + {parts[0].id})
  }

  /** The lines after the header. */
  function DataLines(csv: string): seq<string> {
    Split(Trim(csv), '\n')[1..]
  }

  /** What `parseCSV(csv)` returns. */
  function ParsedParts(csv: string): seq<PartData> {
    KeepFirst(LineParts(DataLines(csv)), {})
  }

  /** One turn of the line loop, on the specification side. */
  lemma LoopStep(lines: seq<string>, i: nat, seen: set<string>)
    requires i < |lines|
    ensures var line, rest := Trim(lines[i]), LineParts(lines[i + 1..]);
      KeepFirst(LineParts(lines[i..]), seen) ==
        if line == [] then KeepFirst(rest, seen)
        else if ToPart(Fields(line)).id in seen then KeepFirst(rest, seen)
        else [ToPart(Fields(line))] + KeepFirst(rest, seen + {ToPart(Fields(line)).id})
  {
    assert lines[i..][0] == lines[i];
    assert lines[i..][1..] == lines[i + 1..];
    var line := Trim(lines[i]);
    if line == [] {
      assert LineParts(lines[i..]) == LineParts(lines[i + 1..]);
    } else {
      var rows := [ToPart(Fields(line))] + LineParts(lines[i + 1..]);
      assert LineParts(lines[i..]) == rows;
      assert rows != [] && rows[0] == ToPart(Fields(line)) && rows[1..] == LineParts(lines[i + 1..]);
    }
  }

  /** parseCSV: the line loop, with the set of ids already taken. */
  method ParseCsv(csv: string) returns (data: seq<PartData>)
    ensures data == ParsedParts(csv)
  {
    var lines := Split(Trim(csv), '\n');
    data := [];
    var seenIds: set<string> := {};
    ghost var parsed := ParsedParts(csv);
    for i := 1 to |lines|
      invariant data + KeepFirst(LineParts(lines[i..]), seenIds) == parsed
    {
      LoopStep(lines, i, seenIds);
      var line := Trim(lines[i]);
      if line == [] {
        continue;
      }
      var values := ParseLine(line);
      var id := values[0];
      if id in seenIds {
        continue;
      }
      seenIds := seenIds + {id};
      var part := ToPart(values);
      Associative(data, [part], KeepFirst(LineParts(lines[i + 1..]), seenIds));
      data := data + [part];
    }
    EmptyTail(lines, data, seenIds);
  }

  /** At the end of the lines nothing is left to add. */
  lemma EmptyTail(lines: seq<string>, data: seq<PartData>, seen: set<string>)
    ensures data + KeepFirst(LineParts(lines[|lines|..]), seen) == data
  {
    assert lines[|lines|..] == [];
    assert data + [] == data;
  }

  // ---------------------------------------------------------------------------
  // Properties of the parsed catalogue

  ghost predicate DistinctIds(parts: seq<PartData>) {
    forall i, j :: 0 <= i < j < |parts| ==> parts[i].id != parts[j].id
  }

  /** The position of the first record with `id`, or -1. */
  function FirstWithId(parts: seq<PartData>, id: string): (k: int)
    ensures -1 <= k < |parts|
    ensures k >= 0 ==> parts[k].id == id
    ensures forall i :: 0 <= i < |parts| && (k < 0 || i < k) ==> parts[i].id != id
  {
    if parts == [] then -1
    else if parts[0].id == id then 0
    else
      var k := FirstWithId(parts[1..], id);
      if k < 0 then -1 else k + 1
  }

  /** KeepFirst yields pairwise distinct ids, none of them already seen. */
  lemma {:induction false} KeepFirstDistinct(parts: seq<PartData>, seen: set<string>)
    ensures var r := KeepFirst(parts, seen);
      DistinctIds(r) && forall k :: 0 <= k < |r| ==> r[k].id !in seen
  {
    if parts != [] {
      if parts[0].id in seen {
        KeepFirstDistinct(parts[1..], seen);
      } else {
        KeepFirstDistinct(parts[1..], seen + {parts[0].id});
      }
    }
  }

  /** Some record of `parts` has `id`. */
  predicate HasId(parts: seq<PartData>, id: string) {
    exists k :: 0 <= k < |parts| && parts[k].id == id
  }

  /** Every id of the input that was not already seen is kept. */
  lemma {:induction false} KeepFirstComplete(parts: seq<PartData>, seen: set<string>)
    ensures forall i :: 0 <= i < |parts| && parts[i].id !in seen ==> HasId(KeepFirst(parts, seen), parts[i].id)
  {
    if parts != [] {
      var p, tail := parts[0], parts[1..];
      var seen' := if p.id in seen then seen else seen + {p.id};
      KeepFirstComplete(tail, seen');
      var r', r := KeepFirst(tail, seen'), KeepFirst(parts, seen);
      forall i | 0 <= i < |parts| && parts[i].id !in seen
        ensures HasId(r, parts[i].id)
      {
        if parts[i].id == p.id {
          assert r[0] == p;
        } else {
          assert tail[i - 1] == parts[i];
          assert HasId(r', parts[i].id);
          var k :| 0 <= k < |r'| && r'[k].id == parts[i].id;
          if p.id in seen {
            assert r[k] == r'[k];
          } else {
            assert r[k + 1] == r'[k];
          }
        }
      }
    }
  }

  /**
   * Every record of `r` is the first record of `parts` with its id, and the
   * records of `r` stand in the order of those first positions.
   */
  predicate FirstOccurrencesInOrder(parts: seq<PartData>, r: seq<PartData>) {
    && (forall k :: 0 <= k < |r| ==> FirstWithId(parts, r[k].id) >= 0 && r[k] == parts[FirstWithId(parts, r[k].id)])
    && (forall k, k' :: 0 <= k < k' < |r| ==> FirstWithId(parts, r[k].id) < FirstWithId(parts, r[k'].id))
  }

  /**
   * Each kept record is the first record of the input with its id, and the
   * kept records stand in the order of those first positions.
   */
  lemma {:induction false} KeepFirstFirstInOrder(parts: seq<PartData>, seen: set<string>)
    ensures FirstOccurrencesInOrder(parts, KeepFirst(parts, seen))
  {
    if parts != [] {
      var p, tail := parts[0], parts[1..];
      assert parts == [p] + tail;
      var seen' := if p.id in seen then seen else seen + {p.id};
      KeepFirstFirstInOrder(tail, seen');
      KeepFirstDistinct(tail, seen');
      var r' := KeepFirst(tail, seen');
      FirstOccurrencesBehind(p, tail, r');
      if p.id !in seen {
        FirstOccurrenceInFront(p, tail, r');
      }
    }
  }

  /** Ids other than that of `p` are first found one place later behind `p`. */
  lemma FirstWithIdCons(p: PartData, tail: seq<PartData>, id: string)
    requires id != p.id
    ensures FirstWithId([p] + tail, id) == (if FirstWithId(tail, id) < 0 then -1 else FirstWithId(tail, id) + 1)
  {
    assert ([p] + tail)[1..] == tail;
  }

  lemma FirstOccurrencesBehind(p: PartData, tail: seq<PartData>, r: seq<PartData>)
    requires FirstOccurrencesInOrder(tail, r)
    requires forall k :: 0 <= k < |r| ==> r[k].id != p.id
    ensures FirstOccurrencesInOrder([p] + tail, r)
  {
    forall k | 0 <= k < |r|
      ensures FirstWithId([p] + tail, r[k].id) == FirstWithId(tail, r[k].id) + 1
    {
      FirstWithIdCons(p, tail, r[k].id);
    }
  }

  lemma FirstOccurrenceInFront(p: PartData, tail: seq<PartData>, r: seq<PartData>)
    requires FirstOccurrencesInOrder([p] + tail, r)
    requires forall k :: 0 <= k < |r| ==> r[k].id != p.id
    ensures FirstOccurrencesInOrder([p] + tail, [p] + r)
  {
    var parts, r2 := [p] + tail, [p] + r;
    assert parts[0] == p && r2[0] == p;
    assert FirstWithId(parts, p.id) == 0;
    forall k | 0 < k < |r2|
      ensures r2[k] == r[k - 1] && FirstWithId(parts, r2[k].id) > 0
    {
      assert FirstWithId(parts, r[k - 1].id) >= 0 && parts[FirstWithId(parts, r[k - 1].id)].id == r[k - 1].id;
    }
  }

  /** The ids in the parsed catalogue are pairwise distinct. */
  lemma ParsedIdsDistinct(csv: string)
    ensures DistinctIds(ParsedParts(csv))
  {
    KeepFirstDistinct(LineParts(DataLines(csv)), {});
  }

  /** Every id among the non-blank data lines has a record in the parsed catalogue. */
  lemma ParsedKeepsEveryId(csv: string)
    ensures forall i :: 0 <= i < |LineParts(DataLines(csv))| ==>
      HasId(ParsedParts(csv), LineParts(DataLines(csv))[i].id)
  {
    KeepFirstComplete(LineParts(DataLines(csv)), {});
  }

  /**
   * Every record of the parsed catalogue is the first record with its id
   * among the non-blank data lines, and records follow the order of the lines.
   */
  lemma ParsedKeepsFirstInOrder(csv: string)
    ensures FirstOccurrencesInOrder(LineParts(DataLines(csv)), ParsedParts(csv))
  {
    KeepFirstFirstInOrder(LineParts(DataLines(csv)), {});
  }

  lemma {:induction false} LinePartsAppend(a: seq<string>, b: seq<string>)
    ensures LineParts(a + b) == LineParts(a) + LineParts(b)
  {
    if a != [] {
      var line := Trim(a[0]);
      var head := if line == [] then [] else [ToPart(Fields(line))];
      assert (a + b)[0] == a[0] && (a + b)[1..] == a[1..] + b;
      calc {
        LineParts(a + b);
        head + LineParts(a[1..] + b);
        { LinePartsAppend(a[1..], b); }
        head + (LineParts(a[1..]) + LineParts(b));
        { Associative(head, LineParts(a[1..]), LineParts(b)); }
        (head + LineParts(a[1..])) + LineParts(b);
        LineParts(a) + LineParts(b);
      }
    } else {
      assert a + b == b;
    }
  }

  /** A line that is blank once trimmed gives no record. */
  lemma BlankLineParts(blank: string)
    requires AllSpace(blank)
    ensures LineParts([blank]) == []
  {
    TrimEmpty(blank);
    assert [blank][0] == blank && [blank][1..] == [];
  }

  /** A line that is blank once trimmed contributes no record, wherever it stands. */
  lemma BlankLineSkipped(before: seq<string>, blank: string, after: seq<string>)
    requires AllSpace(blank)
    ensures LineParts(before + [blank] + after) == LineParts(before + after)
  {
    BlankLineParts(blank);
    LinePartsAppend(before + [blank], after);
    LinePartsAppend(before, [blank]);
    LinePartsAppend(before, after);
    assert LineParts(before) + [] == LineParts(before);
  }

  /** The header: the first line of the trimmed text, whatever it holds, never becomes a record. */
  lemma DataLinesAfterHeader(header: string, body: string)
    requires '\n' !in header && header != [] && !IsSpace(header[0])
    requires !AllSpace(body)
    ensures DataLines(header + "\n" + body) == Split(TrimEnd(body), '\n')
  {
    var csv := header + "\n" + body;
    assert csv[0] == header[0];
    assert TrimStart(csv) == csv;
    TrimEndKeepsPrefix(header + "\n", body);
    assert Trim(csv) == header + ['\n'] + TrimEnd(body);
    SplitAfterPiece(header, '\n', TrimEnd(body));
  }

  /** Two catalogues that differ only in their header parse alike. */
  lemma HeaderIgnored(header1: string, header2: string, body: string)
    requires '\n' !in header1 && header1 != [] && !IsSpace(header1[0])
    requires '\n' !in header2 && header2 != [] && !IsSpace(header2[0])
    requires !AllSpace(body)
    ensures ParsedParts(header1 + "\n" + body) == ParsedParts(header2 + "\n" + body)
  {
    DataLinesAfterHeader(header1, body);
    DataLinesAfterHeader(header2, body);
  }

  /** A text with no line break after trimming is a header alone and gives no records. */
  lemma HeaderOnly(csv: string)
    requires '\n' !in Trim(csv)
    ensures ParsedParts(csv) == []
  {
    SplitWithoutSeparator(Trim(csv), '\n');
    assert DataLines(csv) == [Trim(csv)][1..] == [];
  }

  /**
   * A catalogue row written with every field quoted reads back as the record
   * with those fields: name and description from fields 1 and 2, the icon
   * path from field 3, the priority parsed from field 4.
   */
  lemma CatalogueRowFields(id: string, name: string, description: string, icon: string, priority: string)
    ensures ToPart(Fields(QuotedLine([id, name, description, icon, priority])))
         == PartData(id, Some(name), Some(description), IconDirectory + icon, ParseInt(priority))
  {
    QuotedRoundTrip([id, name, description, icon, priority]);
  }

  // ===========================================================================
  // Layout helpers

  /** getGridAreaName: `part${index + 1}`. */
  function GridAreaName(index: int): (name: string)
    ensures |name| > 4 && name[..4] == "part"
    ensures ParseInt(name[4..]) == Some(index + 1)
    ensures index >= -1 ==> AllDigits(name[4..]) && (|name| > 5 ==> name[4] != '0')
    ensures index < -1 ==> |name| > 5 && name[4] == '-' && AllDigits(name[5..]) && (|name| > 6 ==> name[5] != '0')
  {
    ParseIntOfDecimal(index + 1);
    var name := "part" + IntToDecimal(index + 1);
    assert name[4..] == IntToDecimal(index + 1);
    assert index < -1 ==> name[5..] == NatToDecimal(-(index + 1));
    name
  }

  /** Distinct indices get distinct grid areas. */
  lemma GridAreaNamesDistinct(i: int, j: int)
    requires i != j
    ensures GridAreaName(i) != GridAreaName(j)
  {
  }

  /** The sort key of the comparator `(a, b) => a.priority - b.priority`. */
  function PriorityKey(p: PartData): int {
    p.priority.GetOr(0)
  }

  /** Every record has a numeric priority. */
  predicate AllNumeric(parts: seq<PartData>) {
    forall i :: 0 <= i < |parts| ==> parts[i].priority.Some?
  }

  /** Non-decreasing by priority, every priority being numeric. */
  predicate AscendingPriority(parts: seq<PartData>) {
    forall i, j :: 0 <= i < j < |parts| ==>
      parts[i].priority.Some? && parts[j].priority.Some? && parts[i].priority.value <= parts[j].priority.value
  }

  /**
   * getPartsByPriority: a sorted copy of the catalogue. It is a permutation,
   * and when every priority is a number it is non-decreasing by priority.
   */
  function PartsByPriority(partsData: seq<PartData>): (r: seq<PartData>)
    ensures multiset(r) == multiset(partsData)
    ensures AllNumeric(partsData) ==> AscendingPriority(r)
  {
    var sorted := Sorting.SortBy(partsData, PriorityKey);
    NumericPrioritiesSorted(partsData, sorted);
    sorted
  }

  lemma NumericPrioritiesSorted(partsData: seq<PartData>, r: seq<PartData>)
    requires multiset(r) == multiset(partsData) && Sorting.SortedBy(r, PriorityKey)
    ensures AllNumeric(partsData) ==> AscendingPriority(r)
  {
    if AllNumeric(partsData) {
      forall i | 0 <= i < |r| ensures r[i].priority.Some? {
        assert r[i] in multiset(partsData);
      }
    }
  }

  /**
   * Records whose priorities compare equal keep their catalogue order: the
   * sort is stable, as Array.prototype.sort is required to be.
   */
  lemma PartsByPriorityStable(partsData: seq<PartData>, priority: int)
    ensures Sorting.WithKey(PartsByPriority(partsData), PriorityKey, priority)
         == Sorting.WithKey(partsData, PriorityKey, priority)
  {
    Sorting.SortByStable(partsData, PriorityKey, priority);
  }

  /** A catalogue already in priority order comes back unchanged. */
  lemma PartsByPriorityOfSorted(partsData: seq<PartData>)
    requires AscendingPriority(partsData)
    ensures PartsByPriority(partsData) == partsData
  {
    assert Sorting.SortedBy(partsData, PriorityKey);
    Sorting.SortByOfSorted(partsData, PriorityKey);
  }
}

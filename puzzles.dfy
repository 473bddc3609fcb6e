/**
 * The bulk puzzle generator of generate-puzzles.js: generatePuzzles draws
 * 100 puzzles for each of the three levels, and formatPuzzles writes them as
 * the JavaScript text of puzzles.js. Beside the formatter sits a decoder of
 * that text, and the round trip ParseFile(Render(library)) == Some(library)
 * is proved piece by piece: decimals, compact JSON grids, records, levels.
 */
module PuzzleFile {
  import opened SudokuGrid
  import opened SudokuGenerator
  import opened Wrappers

  // ---------------------------------------------------------------------------
  // generatePuzzles

  /** The keys of PUZZLE_COUNTS, in their insertion order. */
  const Levels: seq<string> := ["intermediate", "hard", "expert"]

  /** PUZZLE_COUNTS gives every level 100 puzzles. */
  const PuzzleCount := 100

  /** One stored puzzle: generate's result without its difficulty. */
  datatype Record = Record(puzzle: Grid, solution: Grid, clueCount: int)

  /** The array of records stored under one key of the puzzles object. */
  datatype Level = Level(difficulty: string, records: seq<Record>)

  /** What generate promises about the puzzle of a record drawn for difficulty. */
  ghost predicate GoodRecord(r: Record, difficulty: string) {
    && Solved(r.solution) && IsGrid(r.puzzle)
    && Reduces(r.solution, r.puzzle) && !Full(r.puzzle)
    && (forall s :: Completion(r.puzzle, s) <==> s == r.solution)
    && r.clueCount == |Clues(r.puzzle)|
    && (ClueTarget(difficulty).ClueBand? ==> ClueTarget(difficulty).min <= r.clueCount)
    && r.clueCount < 81
  }

  /**
   * generatePuzzles: for each level in key order, 100 calls of generate, each
   * result pushed as a record of the puzzle, the solution and the clue count.
   */
  method GeneratePuzzles() returns (puzzles: seq<Level>)
    ensures |puzzles| == |Levels|
    ensures forall k :: 0 <= k < |Levels| ==> puzzles[k].difficulty == Levels[k] && |puzzles[k].records| == PuzzleCount
    ensures forall k, i :: 0 <= k < |Levels| && 0 <= i < PuzzleCount ==> GoodRecord(puzzles[k].records[i], Levels[k])
  {
    puzzles := [Level("intermediate", []), Level("hard", []), Level("expert", [])];
    for k := 0 to |Levels|
      invariant |puzzles| == |Levels|
      invariant forall j :: 0 <= j < |Levels| ==> puzzles[j].difficulty == Levels[j]
      invariant forall j :: 0 <= j < |Levels| ==> |puzzles[j].records| == if j < k then PuzzleCount else 0
      invariant forall j, i :: 0 <= j < k && 0 <= i < PuzzleCount ==> GoodRecord(puzzles[j].records[i], Levels[j])
    {
      var difficulty := Levels[k];
      for i := 0 to PuzzleCount
        invariant |puzzles| == |Levels|
        invariant forall j :: 0 <= j < |Levels| ==> puzzles[j].difficulty == Levels[j]
        invariant forall j :: 0 <= j < |Levels| ==> |puzzles[j].records| == if j < k then PuzzleCount else if j == k then i else 0
        invariant forall j, n :: 0 <= j < k && 0 <= n < PuzzleCount ==> GoodRecord(puzzles[j].records[n], Levels[j])
        invariant forall n :: 0 <= n < i ==> GoodRecord(puzzles[k].records[n], difficulty)
      {
        var puzzle := Generate(difficulty);
        var record := Record(puzzle.puzzle, puzzle.solution, puzzle.clueCount);
        assert GoodRecord(record, difficulty);
        puzzles := puzzles[k := Level(difficulty, puzzles[k].records + [record])];
      }
    }
  }

  // ---------------------------------------------------------------------------
  // Decimal numbers: `${n}` and JSON.stringify of an integer

  predicate IsDigit(c: char) {
    '0' <= c <= '9'
  }

  function DigitChar(d: nat): (c: char)
    requires d < 10
    ensures IsDigit(c)
  {
    ('0' as int + d) as char
  }

  function DigitValue(c: char): (d: nat)
    requires IsDigit(c)
    ensures d < 10 && DigitChar(d) == c
  {
    c as int - '0' as int
  }

  /** The decimal digits of n, with no leading zero. */
  function NatToString(n: nat): (r: string)
    ensures |r| > 0 && forall i :: 0 <= i < |r| ==> IsDigit(r[i])
    ensures r[0] == '0' ==> n == 0
  {
    if n < 10 then [DigitChar(n)] else NatToString(n / 10) + [DigitChar(n % 10)]
  }

  /** The decimal form of an integer: a minus sign exactly when it is negative. */
  function IntToString(n: int): (r: string)
    ensures |r| > 0 && (r[0] == '-') == (n < 0)
    ensures n >= 0 ==> IsDigit(r[0])
  {
    if n < 0 then "-" + NatToString(-n) else NatToString(n)
  }

  /** The value of a string of decimal digits. */
  function ReadNat(s: string): nat
    requires forall i :: 0 <= i < |s| ==> IsDigit(s[i])
  {
    if |s| == 0 then 0 else ReadNat(s[..|s| - 1]) * 10 + DigitValue(s[|s| - 1])
  }

  lemma {:induction false} NatRoundTrip(n: nat)
    ensures ReadNat(NatToString(n)) == n
  {
    if n >= 10 {
      var r := NatToString(n);
      assert r[..|r| - 1] == NatToString(n / 10);
      NatRoundTrip(n / 10);
    }
  }

  /** The number of decimal digits at the front of s. */
  function DigitRun(s: string): (k: nat)
    ensures k <= |s| && forall i :: 0 <= i < k ==> IsDigit(s[i])
    ensures k < |s| ==> !IsDigit(s[k])
  {
    if |s| > 0 && IsDigit(s[0]) then 1 + DigitRun(s[1..]) else 0
  }

  lemma {:induction false} DigitsThenRest(d: string, rest: string)
    requires forall i :: 0 <= i < |d| ==> IsDigit(d[i])
    requires rest == [] || !IsDigit(rest[0])
    ensures DigitRun(d + rest) == |d|
  {
    if |d| > 0 {
      assert (d + rest)[1..] == d[1..] + rest;
      DigitsThenRest(d[1..], rest);
    }
  }

  /** Splitting a sequence at i, stated for any element type so that no element equality is unfolded. */
  lemma ConsSlice<T>(xs: seq<T>, i: nat)
    requires i < |xs|
    ensures [xs[i]] + xs[i + 1..] == xs[i..]
    ensures i == |xs| - 1 ==> xs[i..] == [xs[i]]
  {
  }

  lemma WholeSlice<T>(xs: seq<T>)
    ensures xs[0..] == xs
  {
  }

  /** A parsed value and the text after it. */
  datatype Parsed<T> = Parsed(value: T, rest: string)

  /** Reads the longest run of digits at the front, which must not be empty. */
  function ParseNat(s: string): (r: Option<Parsed<nat>>)
    ensures r.Some? ==> |r.value.rest| < |s|
  {
    var k := DigitRun(s);
    if k == 0 then None else Some(Parsed(ReadNat(s[..k]), s[k..]))
  }

  /** Reads an optional minus sign and the digits after it. */
  function ParseInt(s: string): (r: Option<Parsed<int>>)
    ensures r.Some? ==> |r.value.rest| < |s|
  {
    if |s| > 0 && s[0] == '-' then
      match ParseNat(s[1..])
      case None => None
      case Some(p) => Some(Parsed(-(p.value as int), p.rest))
    else
      match ParseNat(s)
      case None => None
      case Some(p) => Some(Parsed(p.value as int, p.rest))
  }

  /** Splitting a concatenation where its halves meet, for any element type. */
  lemma Halves<T>(a: seq<T>, b: seq<T>)
    ensures (a + b)[..|a|] == a && (a + b)[|a|..] == b
  {
  }

  /** ParseNat on a run of digits followed by a non-digit. */
  lemma ParseDigits(d: string, rest: string)
    requires |d| > 0 && forall i :: 0 <= i < |d| ==> IsDigit(d[i])
    requires rest == [] || !IsDigit(rest[0])
    ensures ParseNat(d + rest) == Some(Parsed(ReadNat(d), rest))
  {
    DigitsThenRest(d, rest);
    Halves(d, rest);
  }

  /** An integer written in decimal reads back, whatever non-digit text follows it. */
  lemma IntRoundTrip(n: int, rest: string)
    requires rest == [] || !IsDigit(rest[0])
    ensures ParseInt(IntToString(n) + rest) == Some(Parsed(n, rest))
  {
    if n < 0 {
      var d := NatToString(-n);
      Appended("-", d, rest);
      var s := "-" + (d + rest);
      assert s[0] == '-' && s[1..] == d + rest;
      ParseDigits(d, rest);
      NatRoundTrip(-n);
    } else {
      var d := NatToString(n);
      assert (d + rest)[0] == d[0];
      ParseDigits(d, rest);
      NatRoundTrip(n);
    }
  }

  // ---------------------------------------------------------------------------
  // JSON.stringify of a grid: [[1,2,...],...] with no spaces

  /** The elements of an integer array, separated by commas. */
  function JsonInts(xs: seq<int>): (r: string)
    ensures |xs| > 0 ==> |r| > 0 && r[0] != ']'
  {
    if |xs| == 0 then ""
    else if |xs| == 1 then IntToString(xs[0])
    else IntToString(xs[0]) + "," + JsonInts(xs[1..])
  }

  function JsonRow(xs: seq<int>): (r: string)
    ensures |r| >= 2 && r[0] == '['
  {
    "[" + JsonInts(xs) + "]"
  }

  /** The rows of a grid, separated by commas. */
  function JsonRows(g: Grid): (r: string)
    ensures |g| > 0 ==> |r| > 0 && r[0] == '['
  {
    if |g| == 0 then ""
    else if |g| == 1 then JsonRow(g[0])
    else JsonRow(g[0]) + "," + JsonRows(g[1..])
  }

  function JsonGrid(g: Grid): (r: string)
    ensures |r| >= 2 && r[0] == '['
  {
    "[" + JsonRows(g) + "]"
  }

  /** Integers separated by commas, up to and including the closing bracket. */
  function ParseIntItems(s: string): (r: Option<Parsed<seq<int>>>)
    ensures r.Some? ==> |r.value.rest| < |s|
    decreases |s|
  {
    match ParseInt(s)
    case None => None
    case Some(p) =>
      if |p.rest| > 0 && p.rest[0] == ',' then
        match ParseIntItems(p.rest[1..])
        case None => None
        case Some(q) => Some(Parsed([p.value] + q.value, q.rest))
      else if |p.rest| > 0 && p.rest[0] == ']' then Some(Parsed([p.value], p.rest[1..]))
      else None
  }

  /** An integer array: an opening bracket, then the items or at once the closing bracket. */
  function ParseRow(s: string): (r: Option<Parsed<seq<int>>>)
    ensures r.Some? ==> |r.value.rest| < |s|
  {
    if |s| < 2 || s[0] != '[' then None
    else if s[1] == ']' then Some(Parsed([], s[2..]))
    else ParseIntItems(s[1..])
  }

  /** Rows separated by commas, up to and including the closing bracket. */
  function ParseRowItems(s: string): (r: Option<Parsed<Grid>>)
    ensures r.Some? ==> |r.value.rest| < |s|
    decreases |s|
  {
    match ParseRow(s)
    case None => None
    case Some(p) =>
      if |p.rest| > 0 && p.rest[0] == ',' then
        match ParseRowItems(p.rest[1..])
        case None => None
        case Some(q) => Some(Parsed([p.value] + q.value, q.rest))
      else if |p.rest| > 0 && p.rest[0] == ']' then Some(Parsed([p.value], p.rest[1..]))
      else None
  }

  function ParseGrid(s: string): (r: Option<Parsed<Grid>>)
    ensures r.Some? ==> |r.value.rest| < |s|
  {
    if |s| < 2 || s[0] != '[' then None
    else if s[1] == ']' then Some(Parsed([], s[2..]))
    else ParseRowItems(s[1..])
  }

  /** Splitting a non-empty sequence into its head and tail, for any element type. */
  lemma Uncons<T>(xs: seq<T>)
    requires |xs| > 0
    ensures [xs[0]] + xs[1..] == xs
    ensures |xs| == 1 ==> [xs[0]] == xs
  {
  }

  /** How a list of two or more items and what follows it split after the first item. */
  lemma ItemsLayout(head: string, more: string, rest: string)
    ensures head + "," + more + "]" + rest == head + ("," + (more + "]" + rest))
  {
    Appended(head + "," + more, "]", rest);
    Appended(head + ",", more, "]" + rest);
    Appended(head, ",", more + ("]" + rest));
    Appended(more, "]", rest);
  }

  /** How a bracketed list and what follows it split after the opening bracket. */
  lemma Bracketed(inner: string, rest: string)
    ensures "[" + inner + "]" + rest == "[" + (inner + "]" + rest)
  {
    Appended("[" + inner, "]", rest);
    Appended("[", inner, "]" + rest);
    Appended(inner, "]", rest);
  }

  /** The item loop of ParseIntItems after an integer and a comma. */
  lemma IntItemsMore(s: string, t: string)
    requires ParseInt(s).Some? && ParseInt(s).value.rest == "," + t && ParseIntItems(t).Some?
    ensures ParseIntItems(s)
         == Some(Parsed([ParseInt(s).value.value] + ParseIntItems(t).value.value, ParseIntItems(t).value.rest))
  {
    assert ("," + t)[1..] == t;
  }

  /** The item loop of ParseIntItems after an integer and the closing bracket. */
  lemma IntItemsLast(s: string, t: string)
    requires ParseInt(s).Some? && ParseInt(s).value.rest == "]" + t
    ensures ParseIntItems(s) == Some(Parsed([ParseInt(s).value.value], t))
  {
    assert ("]" + t)[1..] == t;
  }

  lemma {:induction false} IntItemsRoundTrip(xs: seq<int>, rest: string)
    requires |xs| > 0
    ensures ParseIntItems(JsonInts(xs) + "]" + rest) == Some(Parsed(xs, rest))
  {
    var head := IntToString(xs[0]);
    Uncons(xs);
    if |xs| == 1 {
      Appended(head, "]", rest);
      IntRoundTrip(xs[0], "]" + rest);
      IntItemsLast(head + ("]" + rest), rest);
    } else {
      var tail := JsonInts(xs[1..]) + "]" + rest;
      ItemsLayout(head, JsonInts(xs[1..]), rest);
      IntRoundTrip(xs[0], "," + tail);
      IntItemsRoundTrip(xs[1..], rest);
      IntItemsMore(head + ("," + tail), tail);
    }
  }

  lemma RowRoundTrip(xs: seq<int>, rest: string)
    ensures ParseRow(JsonRow(xs) + rest) == Some(Parsed(xs, rest))
  {
    var inner := JsonInts(xs) + "]" + rest;
    Bracketed(JsonInts(xs), rest);
    var s := "[" + inner;
    assert s[1..] == inner;
    if |xs| == 0 {
      assert inner == "]" + rest;
      assert s[2..] == rest;
    } else {
      assert s[1] == JsonInts(xs)[0];
      IntItemsRoundTrip(xs, rest);
    }
  }

  /** The item loop of ParseRowItems after a row and a comma. */
  lemma RowItemsMore(s: string, t: string)
    requires ParseRow(s).Some? && ParseRow(s).value.rest == "," + t && ParseRowItems(t).Some?
    ensures ParseRowItems(s)
         == Some(Parsed([ParseRow(s).value.value] + ParseRowItems(t).value.value, ParseRowItems(t).value.rest))
  {
    assert ("," + t)[1..] == t;
  }

  /** The item loop of ParseRowItems after a row and the closing bracket. */
  lemma RowItemsLast(s: string, t: string)
    requires ParseRow(s).Some? && ParseRow(s).value.rest == "]" + t
    ensures ParseRowItems(s) == Some(Parsed([ParseRow(s).value.value], t))
  {
    assert ("]" + t)[1..] == t;
  }

  lemma {:induction false} RowItemsRoundTrip(g: Grid, rest: string)
    requires |g| > 0
    ensures ParseRowItems(JsonRows(g) + "]" + rest) == Some(Parsed(g, rest))
  {
    var head := JsonRow(g[0]);
    Uncons(g);
    if |g| == 1 {
      Appended(head, "]", rest);
      RowRoundTrip(g[0], "]" + rest);
      RowItemsLast(head + ("]" + rest), rest);
    } else {
      var tail := JsonRows(g[1..]) + "]" + rest;
      ItemsLayout(head, JsonRows(g[1..]), rest);
      RowRoundTrip(g[0], "," + tail);
      RowItemsRoundTrip(g[1..], rest);
      RowItemsMore(head + ("," + tail), tail);
    }
  }

  /** The compact JSON of a grid reads back as the grid, whatever follows it. */
  lemma GridRoundTrip(g: Grid, rest: string)
    ensures ParseGrid(JsonGrid(g) + rest) == Some(Parsed(g, rest))
  {
    var inner := JsonRows(g) + "]" + rest;
    Bracketed(JsonRows(g), rest);
    var s := "[" + inner;
    assert s[1..] == inner;
    if |g| == 0 {
      assert inner == "]" + rest;
      assert s[2..] == rest;
    } else {
      assert s[1] == JsonRows(g)[0];
      RowItemsRoundTrip(g, rest);
    }
  }

  // ---------------------------------------------------------------------------
  // formatPuzzles

  /** The two comment lines, the blank line and the opening of the PUZZLES object. */
  const Preamble: string := "// Pre-generated Sudoku Puzzles\n"
    + "// 100 puzzles each for Intermediate, Hard, and Expert difficulties\n\n"
    + "const PUZZLES = {\n"
  const Closing: string := "};\n"

  const RecordOpen: string := "    {\n"
  const PuzzleKey: string := "      puzzle: "
  const SolutionKey: string := "      solution: "
  const CountKey: string := "      clueCount: "
  const FieldEnd: string := ",\n"
  const RecordClose: string := "    }"
  const LevelEnd: string := "  ]"

  /** A record whose fields are already rendered, from its opening brace to its closing brace: one field per line. */
  function Lines(puzzle: string, solution: string, count: string): string {
    RecordOpen + PuzzleKey + puzzle + FieldEnd + SolutionKey + solution + FieldEnd + CountKey + count + "\n" + RecordClose
  }

  function RecordText(r: Record): string {
    Lines(JsonGrid(r.puzzle), JsonGrid(r.solution), IntToString(r.clueCount))
  }

  lemma Appended(o: string, t: string, y: string)
    ensures (o + t) + y == o + (t + y)
  {
  }

  /** Appending a record's lines one piece at a time appends the record. */
  lemma AppendLines(o: string, a: string, b: string, c: string)
    ensures o + RecordOpen + PuzzleKey + a + FieldEnd + SolutionKey + b + FieldEnd + CountKey + c + "\n" + RecordClose
         == o + Lines(a, b, c)
  {
    var t1 := RecordOpen + PuzzleKey;
    Appended(o, RecordOpen, PuzzleKey);
    Appended(o, t1, a);
    var t2 := t1 + a;
    Appended(o, t2, FieldEnd);
    var t3 := t2 + FieldEnd;
    Appended(o, t3, SolutionKey);
    var t4 := t3 + SolutionKey;
    Appended(o, t4, b);
    var t5 := t4 + b;
    Appended(o, t5, FieldEnd);
    var t6 := t5 + FieldEnd;
    Appended(o, t6, CountKey);
    var t7 := t6 + CountKey;
    Appended(o, t7, c);
    var t8 := t7 + c;
    Appended(o, t8, "\n");
    var t9 := t8 + "\n";
    Appended(o, t9, RecordClose);
  }

  /** A record's lines followed by more text, grouped the way the decoder reads them. */
  lemma LinesThen(a: string, b: string, c: string, rest: string)
    ensures Lines(a, b, c) + rest
         == (RecordOpen + PuzzleKey) + (a + ((FieldEnd + SolutionKey) + (b + ((FieldEnd + CountKey) + (c + (("\n" + RecordClose) + rest))))))
  {
    var l1 := RecordOpen + PuzzleKey + a;
    var l2 := l1 + FieldEnd;
    var l3 := l2 + SolutionKey;
    var l4 := l3 + b;
    var l5 := l4 + FieldEnd;
    var l6 := l5 + CountKey;
    var l7 := l6 + c;
    var l8 := l7 + "\n";
    var s4 := ("\n" + RecordClose) + rest;
    var s3 := c + s4;
    var s2 := b + ((FieldEnd + CountKey) + s3);
    var s1 := a + ((FieldEnd + SolutionKey) + s2);
    Appended(l8, RecordClose, rest);
    Appended(l7, "\n", RecordClose + rest);
    Appended("\n", RecordClose, rest);
    Appended(l6, c, s4);
    Appended(l5, CountKey, s3);
    Appended(l4, FieldEnd, CountKey + s3);
    Appended(FieldEnd, CountKey, s3);
    Appended(l3, b, (FieldEnd + CountKey) + s3);
    Appended(l2, SolutionKey, s2);
    Appended(l1, FieldEnd, SolutionKey + s2);
    Appended(FieldEnd, SolutionKey, s2);
    Appended(RecordOpen + PuzzleKey, a, (FieldEnd + SolutionKey) + s2);
  }

  /** The records of a level from index i on: ",\n" after each record but the last, "\n" after the last. */
  function RecordsFrom(rs: seq<Record>, i: nat): string
    decreases |rs| - i
  {
    if i >= |rs| then ""
    else RecordText(rs[i]) + RecordSeparator(rs, i) + RecordsFrom(rs, i + 1)
  }

  function RecordSeparator(rs: seq<Record>, i: nat): string {
    if i < |rs| - 1 then ",\n" else "\n"
  }

  /** A level's key, its opening bracket, its rendered records and its closing bracket. */
  function LevelLines(name: string, records: string): string {
    "  " + name + ": [\n" + records + LevelEnd
  }

  function LevelText(l: Level): string {
    LevelLines(l.difficulty, RecordsFrom(l.records, 0))
  }

  lemma AppendLevel(o: string, name: string, records: string)
    ensures o + "  " + name + ": [\n" + records + LevelEnd == o + LevelLines(name, records)
  {
    Appended(o, "  ", name);
    Appended(o, "  " + name, ": [\n");
    Appended(o, "  " + name + ": [\n", records);
    Appended(o, "  " + name + ": [\n" + records, LevelEnd);
  }

  /** A level's lines followed by more text, grouped the way the decoder reads them. */
  lemma LevelLinesThen(name: string, records: string, rest: string)
    ensures LevelLines(name, records) + rest == "  " + (name + (": [\n" + (records + (LevelEnd + rest))))
  {
    AppendLevel([], name, records);
    assert [] + "  " == "  ";
    Appended("  ", name, ": [\n");
    Appended("  " + name, ": [\n", records);
    Appended("  " + name + ": [\n", records, LevelEnd);
    Appended("  " + name + ": [\n" + records, LevelEnd, rest);
    Appended("  " + name + ": [\n", records, LevelEnd + rest);
    Appended("  " + name, ": [\n", records + (LevelEnd + rest));
    Appended("  ", name, ": [\n" + (records + (LevelEnd + rest)));
  }

  /** What follows a level's closing bracket: ",\n" unless the key is expert, whatever its position. */
  function LevelSeparator(difficulty: string): string {
    if difficulty != "expert" then ",\n" else "\n"
  }

  function LevelsFrom(ls: seq<Level>, k: nat): string
    decreases |ls| - k
  {
    if k >= |ls| then "" else LevelText(ls[k]) + LevelSeparator(ls[k].difficulty) + LevelsFrom(ls, k + 1)
  }

  /** The whole of puzzles.js. */
  function Render(ls: seq<Level>): string {
    Preamble + LevelsFrom(ls, 0) + Closing
  }

  /** One round of the record loop: the record's lines and its separator. */
  method FormatRecord(output: string, rs: seq<Record>, i: nat) returns (r: string)
    requires i < |rs|
    ensures r + RecordsFrom(rs, i + 1) == output + RecordsFrom(rs, i)
  {
    var p := rs[i];
    r := output + "    {\n";
    r := r + "      puzzle: " + JsonGrid(p.puzzle) + ",\n";
    r := r + "      solution: " + JsonGrid(p.solution) + ",\n";
    r := r + "      clueCount: " + IntToString(p.clueCount) + "\n";
    r := r + "    }";
    AppendLines(output, JsonGrid(p.puzzle), JsonGrid(p.solution), IntToString(p.clueCount));
    var sep := if i < |rs| - 1 then ",\n" else "\n";
    assert sep == RecordSeparator(rs, i);
    r := r + sep;
    Appended(output, RecordText(p), sep);
    Appended(output, RecordText(p) + sep, RecordsFrom(rs, i + 1));
  }

  /** One round of the level loop: the key line, the records, the closing bracket and the separator. */
  method FormatLevel(output: string, ls: seq<Level>, k: nat) returns (r: string)
    requires k < |ls|
    ensures r + LevelsFrom(ls, k + 1) == output + LevelsFrom(ls, k)
  {
    var level := ls[k];
    var rs := level.records;
    r := output + "  " + level.difficulty + ": [\n";
    ghost var start := r;
    for i := 0 to |rs|
      invariant r + RecordsFrom(rs, i) == start + RecordsFrom(rs, 0)
    {
      r := FormatRecord(r, rs, i);
    }
    ghost var records := RecordsFrom(rs, 0);
    assert RecordsFrom(rs, |rs|) == [];
    assert r == start + records;
    r := r + "  ]";
    AppendLevel(output, level.difficulty, records);
    assert r == output + LevelText(level);
    var sep := if level.difficulty != "expert" then ",\n" else "\n";
    assert sep == LevelSeparator(level.difficulty);
    r := r + sep;
    ghost var next := LevelsFrom(ls, k + 1);
    assert LevelsFrom(ls, k) == LevelText(level) + sep + next;
    Appended(output, LevelText(level), sep);
    Appended(output, LevelText(level) + sep, next);
  }

  /** formatPuzzles: the text is Render of the library. */
  method FormatPuzzles(puzzles: seq<Level>) returns (output: string)
    ensures output == Render(puzzles)
  {
    output := "// Pre-generated Sudoku Puzzles\n";
    output := output + "// 100 puzzles each for Intermediate, Hard, and Expert difficulties\n\n";
    output := output + "const PUZZLES = {\n";
    for k := 0 to |puzzles|
      invariant output + LevelsFrom(puzzles, k) == Preamble + LevelsFrom(puzzles, 0)
    {
      output := FormatLevel(output, puzzles, k);
    }
    output := output + "};\n";
  }

  // ---------------------------------------------------------------------------
  // Reading puzzles.js back

  /** Strips the literal lit from the front of s. */
  function Expect(s: string, lit: string): (r: Option<string>)
    ensures r.Some? ==> |r.value| == |s| - |lit|
  {
    if |lit| <= |s| && s[..|lit|] == lit then Some(s[|lit|..]) else None
  }

  lemma ExpectLiteral(lit: string, rest: string)
    ensures Expect(lit + rest, lit) == Some(rest)
  {
    assert (lit + rest)[..|lit|] == lit;
    assert (lit + rest)[|lit|..] == rest;
  }

  /** A text that differs from lit at some position does not start with lit. */
  lemma Mismatch(s: string, lit: string, i: nat)
    requires i < |lit| && i < |s| && s[i] != lit[i]
    ensures Expect(s, lit).None?
  {
  }

  function ParseRecord(s: string): (r: Option<Parsed<Record>>)
    ensures r.Some? ==> |r.value.rest| < |s|
  {
    match Expect(s, RecordOpen + PuzzleKey)
    case None => None
    case Some(s1) =>
      match ParseGrid(s1)
      case None => None
      case Some(puzzle) =>
        match Expect(puzzle.rest, FieldEnd + SolutionKey)
        case None => None
        case Some(s2) =>
          match ParseGrid(s2)
          case None => None
          case Some(solution) =>
            match Expect(solution.rest, FieldEnd + CountKey)
            case None => None
            case Some(s3) =>
              match ParseInt(s3)
              case None => None
              case Some(count) =>
                match Expect(count.rest, "\n" + RecordClose)
                case None => None
                case Some(s4) => Some(Parsed(Record(puzzle.value, solution.value, count.value), s4))
  }

  /** A record's text reads back as the record, whatever follows it. */
  lemma RecordRoundTrip(r: Record, rest: string)
    ensures ParseRecord(RecordText(r) + rest) == Some(Parsed(r, rest))
  {
    var a, b, c := JsonGrid(r.puzzle), JsonGrid(r.solution), IntToString(r.clueCount);
    var s4 := ("\n" + RecordClose) + rest;
    var s3 := c + s4;
    var s2 := b + ((FieldEnd + CountKey) + s3);
    var s1 := a + ((FieldEnd + SolutionKey) + s2);
    LinesThen(a, b, c, rest);
    ExpectLiteral(RecordOpen + PuzzleKey, s1);
    GridRoundTrip(r.puzzle, (FieldEnd + SolutionKey) + s2);
    ExpectLiteral(FieldEnd + SolutionKey, s2);
    GridRoundTrip(r.solution, (FieldEnd + CountKey) + s3);
    ExpectLiteral(FieldEnd + CountKey, s3);
    IntRoundTrip(r.clueCount, s4);
    ExpectLiteral("\n" + RecordClose, rest);
  }

  /** Records up to the closing bracket of their level, which is left unread. */
  function ParseRecords(s: string): (r: Option<Parsed<seq<Record>>>)
    ensures r.Some? ==> |r.value.rest| <= |s|
    decreases |s|
  {
    if Expect(s, LevelEnd).Some? then Some(Parsed([], s))
    else match ParseRecord(s)
      case None => None
      case Some(p) =>
        match Expect(p.rest, ",\n")
        case Some(s1) =>
          (match ParseRecords(s1)
           case None => None
           case Some(q) => Some(Parsed([p.value] + q.value, q.rest)))
        case None =>
          match Expect(p.rest, "\n")
          case None => None
          case Some(s1) => Some(Parsed([p.value], s1))
  }

  /** How the records from index i on and what follows them split after record i and its separator. */
  lemma RecordsLayout(rs: seq<Record>, i: nat, rest: string)
    requires i < |rs|
    ensures RecordsFrom(rs, i) + LevelEnd + rest
         == RecordText(rs[i]) + (RecordSeparator(rs, i) + (RecordsFrom(rs, i + 1) + LevelEnd + rest))
  {
    var text, sep, next := RecordText(rs[i]), RecordSeparator(rs, i), RecordsFrom(rs, i + 1);
    Appended(text + sep + next, LevelEnd, rest);
    Appended(text + sep, next, LevelEnd + rest);
    Appended(text, sep, next + (LevelEnd + rest));
    Appended(next, LevelEnd, rest);
  }

  /** A record's text does not start with the closing bracket of a level. */
  lemma RecordStart(r: Record, rest: string)
    ensures Expect(RecordText(r) + rest, LevelEnd).None?
  {
    var a, b, c := JsonGrid(r.puzzle), JsonGrid(r.solution), IntToString(r.clueCount);
    LinesThen(a, b, c, rest);
    var s := RecordText(r) + rest;
    assert s[2] == (RecordOpen + PuzzleKey)[2] == RecordOpen[2];
    Mismatch(s, LevelEnd, 2);
  }

  /** The record loop of ParseRecords after a record and a comma. */
  lemma RecordsMore(s: string, t: string)
    requires Expect(s, LevelEnd).None? && ParseRecord(s).Some?
    requires Expect(ParseRecord(s).value.rest, ",\n") == Some(t) && ParseRecords(t).Some?
    ensures ParseRecords(s)
         == Some(Parsed([ParseRecord(s).value.value] + ParseRecords(t).value.value, ParseRecords(t).value.rest))
  {
  }

  /** The record loop of ParseRecords after the last record of a level. */
  lemma RecordsLast(s: string, t: string)
    requires Expect(s, LevelEnd).None? && ParseRecord(s).Some?
    requires Expect(ParseRecord(s).value.rest, ",\n").None? && Expect(ParseRecord(s).value.rest, "\n") == Some(t)
    ensures ParseRecords(s) == Some(Parsed([ParseRecord(s).value.value], t))
  {
  }

  lemma {:induction false} RecordsRoundTrip(rs: seq<Record>, i: nat, rest: string)
    requires i <= |rs|
    ensures ParseRecords(RecordsFrom(rs, i) + LevelEnd + rest) == Some(Parsed(rs[i..], LevelEnd + rest))
    decreases |rs| - i
  {
    var s := RecordsFrom(rs, i) + LevelEnd + rest;
    if i == |rs| {
      assert s == LevelEnd + rest;
      ExpectLiteral(LevelEnd, rest);
    } else {
      var after := RecordsFrom(rs, i + 1) + LevelEnd + rest;
      var sep := RecordSeparator(rs, i);
      RecordsLayout(rs, i, rest);
      RecordStart(rs[i], sep + after);
      RecordRoundTrip(rs[i], sep + after);
      ConsSlice(rs, i);
      if i < |rs| - 1 {
        ExpectLiteral(",\n", after);
        RecordsRoundTrip(rs, i + 1, rest);
        RecordsMore(s, after);
      } else {
        assert after == LevelEnd + rest;
        Mismatch("\n" + after, ",\n", 0);
        ExpectLiteral("\n", after);
        RecordsLast(s, after);
      }
    }
  }

  /** The number of characters before the first colon. */
  function NameRun(s: string): (k: nat)
    ensures k <= |s|
  {
    if |s| > 0 && s[0] != ':' then 1 + NameRun(s[1..]) else 0
  }

  lemma {:induction false} NameThenColon(name: string, rest: string)
    requires ':' !in name
    requires |rest| > 0 && rest[0] == ':'
    ensures NameRun(name + rest) == |name|
  {
    if |name| > 0 {
      assert (name + rest)[1..] == name[1..] + rest;
      assert name[0] in name;
      NameThenColon(name[1..], rest);
    }
  }

  /** A key, its records and its closing bracket; the separator after them is left unread. */
  function ParseLevel(s: string): (r: Option<Parsed<Level>>)
    ensures r.Some? ==> |r.value.rest| < |s|
  {
    match Expect(s, "  ")
    case None => None
    case Some(s1) =>
      var n := NameRun(s1);
      match Expect(s1[n..], ": [\n")
      case None => None
      case Some(s2) =>
        match ParseRecords(s2)
        case None => None
        case Some(q) =>
          match Expect(q.rest, LevelEnd)
          case None => None
          case Some(s3) => Some(Parsed(Level(s1[..n], q.value), s3))
  }

  /** ParseLevel in terms of its stages: the indent, the key up to its colon, the records, the closing bracket. */
  lemma LevelStages(s: string, s1: string, s2: string, s3: string)
    requires Expect(s, "  ") == Some(s1)
    requires Expect(s1[NameRun(s1)..], ": [\n") == Some(s2)
    requires ParseRecords(s2).Some? && Expect(ParseRecords(s2).value.rest, LevelEnd) == Some(s3)
    ensures ParseLevel(s) == Some(Parsed(Level(s1[..NameRun(s1)], ParseRecords(s2).value.value), s3))
  {
  }

  lemma LevelRoundTrip(l: Level, rest: string)
    requires ':' !in l.difficulty
    ensures ParseLevel(LevelText(l) + rest) == Some(Parsed(l, rest))
  {
    var name := l.difficulty;
    var records := RecordsFrom(l.records, 0);
    var s2 := records + (LevelEnd + rest);
    var s1 := name + (": [\n" + s2);
    LevelLinesThen(name, records, rest);
    ExpectLiteral("  ", s1);
    NameThenColon(name, ": [\n" + s2);
    Halves(name, ": [\n" + s2);
    ExpectLiteral(": [\n", s2);
    Appended(records, LevelEnd, rest);
    RecordsRoundTrip(l.records, 0, rest);
    WholeSlice(l.records);
    ExpectLiteral(LevelEnd, rest);
    LevelStages(LevelText(l) + rest, s1, s2, rest);
  }

  /** Levels up to the closing brace, which is left unread. */
  function ParseLevels(s: string): (r: Option<Parsed<seq<Level>>>)
    ensures r.Some? ==> |r.value.rest| <= |s|
    decreases |s|
  {
    if s == Closing then Some(Parsed([], s))
    else match ParseLevel(s)
      case None => None
      case Some(p) =>
        match Expect(p.rest, ",\n")
        case Some(s1) =>
          (match ParseLevels(s1)
           case None => None
           case Some(q) => Some(Parsed([p.value] + q.value, q.rest)))
        case None =>
          match Expect(p.rest, "\n")
          case None => None
          case Some(s1) => Some(Parsed([p.value], s1))
  }

  /** Reads the text of puzzles.js: the preamble, the levels, and the closing brace with nothing after it. */
  function ParseFile(s: string): Option<seq<Level>> {
    match Expect(s, Preamble)
    case None => None
    case Some(s1) =>
      match ParseLevels(s1)
      case None => None
      case Some(q) => if q.rest == Closing then Some(q.value) else None
  }

  /**
   * The keys formatPuzzles can write so that the text reads back: no colon
   * in a key, and "expert" as the last key and nowhere else. Any other order
   * puts the wrong separator after a closing bracket.
   */
  predicate WellNamed(ls: seq<Level>) {
    forall k :: 0 <= k < |ls| ==> ':' !in ls[k].difficulty && (ls[k].difficulty == "expert" <==> k == |ls| - 1)
  }

  /** How the levels from index k on and the closing brace split after level k and its separator. */
  lemma LevelsLayout(ls: seq<Level>, k: nat)
    requires k < |ls|
    ensures LevelsFrom(ls, k) + Closing
         == LevelText(ls[k]) + (LevelSeparator(ls[k].difficulty) + (LevelsFrom(ls, k + 1) + Closing))
  {
    var text, sep, next := LevelText(ls[k]), LevelSeparator(ls[k].difficulty), LevelsFrom(ls, k + 1);
    Appended(text + sep, next, Closing);
    Appended(text, sep, next + Closing);
  }

  /** A level's text is not the closing brace, whatever follows it. */
  lemma LevelStart(l: Level, rest: string)
    ensures LevelText(l) + rest != Closing
  {
    LevelLinesThen(l.difficulty, RecordsFrom(l.records, 0), rest);
    assert (LevelText(l) + rest)[0] == ' ' != Closing[0];
  }

  /** The level loop of ParseLevels after a level and a comma. */
  lemma LevelsMore(s: string, t: string)
    requires s != Closing && ParseLevel(s).Some?
    requires Expect(ParseLevel(s).value.rest, ",\n") == Some(t) && ParseLevels(t).Some?
    ensures ParseLevels(s)
         == Some(Parsed([ParseLevel(s).value.value] + ParseLevels(t).value.value, ParseLevels(t).value.rest))
  {
  }

  /** The level loop of ParseLevels after the last level. */
  lemma LevelsLast(s: string, t: string)
    requires s != Closing && ParseLevel(s).Some?
    requires Expect(ParseLevel(s).value.rest, ",\n").None? && Expect(ParseLevel(s).value.rest, "\n") == Some(t)
    ensures ParseLevels(s) == Some(Parsed([ParseLevel(s).value.value], t))
  {
  }

  lemma {:induction false} LevelsRoundTrip(ls: seq<Level>, k: nat)
    requires WellNamed(ls) && k <= |ls|
    ensures ParseLevels(LevelsFrom(ls, k) + Closing) == Some(Parsed(ls[k..], Closing))
    decreases |ls| - k
  {
    var s := LevelsFrom(ls, k) + Closing;
    if k == |ls| {
      assert s == Closing;
    } else {
      var after := LevelsFrom(ls, k + 1) + Closing;
      var sep := LevelSeparator(ls[k].difficulty);
      LevelsLayout(ls, k);
      LevelStart(ls[k], sep + after);
      LevelRoundTrip(ls[k], sep + after);
      ConsSlice(ls, k);
      if k < |ls| - 1 {
        ExpectLiteral(",\n", after);
        LevelsRoundTrip(ls, k + 1);
        LevelsMore(s, after);
      } else {
        assert after == Closing;
        Mismatch("\n" + after, ",\n", 0);
        ExpectLiteral("\n", after);
        LevelsLast(s, after);
      }
    }
  }

  /** The text formatPuzzles writes for a well-named library reads back as that library. */
  lemma RenderRoundTrip(ls: seq<Level>)
    requires WellNamed(ls)
    ensures ParseFile(Render(ls)) == Some(ls)
  {
    var rest := LevelsFrom(ls, 0) + Closing;
    Appended(Preamble, LevelsFrom(ls, 0), Closing);
    ExpectLiteral(Preamble, rest);
    LevelsRoundTrip(ls, 0);
    WholeSlice(ls);
  }

  /** The three keys of PUZZLE_COUNTS, in their order, are well named. */
  lemma LevelsWellNamed(ls: seq<Level>)
    requires |ls| == |Levels| && forall k :: 0 <= k < |Levels| ==> ls[k].difficulty == Levels[k]
    ensures WellNamed(ls)
  {
  }

  /**
   * The script: generate the library and format it. The text written to
   * puzzles.js reads back as exactly the generated library.
   */
  method GenerateFile() returns (puzzles: seq<Level>, output: string)
    ensures |puzzles| == |Levels|
    ensures forall k :: 0 <= k < |Levels| ==> puzzles[k].difficulty == Levels[k] && |puzzles[k].records| == PuzzleCount
    ensures forall k, i :: 0 <= k < |Levels| && 0 <= i < PuzzleCount ==> GoodRecord(puzzles[k].records[i], Levels[k])
    ensures output == Render(puzzles) && ParseFile(output) == Some(puzzles)
  {
    puzzles := GeneratePuzzles();
    output := FormatPuzzles(puzzles);
    LevelsWellNamed(puzzles);
    RenderRoundTrip(puzzles);
  }
}

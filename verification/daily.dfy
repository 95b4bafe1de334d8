/** Daily game selection from the games table (`getGameForDifficulty` in
    app/page.tsx). The day number is a parameter: it stands for
    `Math.floor(Date.now() / 86400000)`. */
module Daily {
  import opened Text
  import opened Wrappers

  datatype Difficulty = Easy | Hard

  function DifficultyName(d: Difficulty): string
  {
    match d
    case Easy => "easy"
    case Hard => "hard"
  }

  /** The game picked for a difficulty. */
  datatype GameData = GameData(game: string, team: string, difficulty: string, formation: string,
                               lineup: seq<string>, gameId: int)

  /** Removes one trailing carriage return. */
  function DropCR(s: string): (r: string)
    ensures r == s || (|s| > 0 && s[|s| - 1] == '\r' && r == s[..|s| - 1])
  {
    if |s| > 0 && s[|s| - 1] == '\r' then s[..|s| - 1] else s
  }

  /** `text.split(/\r?\n/)`: pieces between line feeds; a carriage return
      right before a line feed belongs to the separator. */
  function Lines(text: string): (lines: seq<string>)
    ensures |lines| == Count(text, '\n') + 1
    ensures forall i :: 0 <= i < |lines| ==> '\n' !in lines[i]
  {
    SplitCount(text, '\n');
    var pieces := Split(text, '\n');
    seq(|pieces|, i requires 0 <= i < |pieces| => if i < |pieces| - 1 then DropCR(pieces[i]) else pieces[i])
  }

  /** A text without a line feed is one line, a trailing carriage return
      included: only a carriage return before a line feed is separator. */
  lemma LinesSingle(a: string)
    requires '\n' !in a
    ensures Lines(a) == [a]
  {
    SplitCount(a, '\n');
    CountBound(a, '\n');
    JoinSplit(a, '\n');
  }

  /** The first line feed ends the first line, which loses one trailing
      carriage return; the lines after it are those of the rest. With
      `LinesSingle` this determines `Lines` on every text. */
  lemma LinesCons(a: string, b: string)
    requires '\n' !in a
    ensures Lines(a + ['\n'] + b) == [DropCR(a)] + Lines(b)
  {
    var s := ['\n'] + b;
    SplitPrefix(a, s, '\n');
    SplitCons('\n', b, '\n');
    assert a + ['\n'] + b == a + s;
    var pieces := Split(a + s, '\n');
    assert Split(s, '\n')[0] == [] && Split(s, '\n')[1..] == Split(b, '\n');
    assert a + [] == a;
    assert pieces == [a] + Split(b, '\n');
    var l := Lines(a + ['\n'] + b);
    assert |l| == |pieces|;
    forall i | 0 <= i < |l| ensures l[i] == ([DropCR(a)] + Lines(b))[i] {
      if i > 0 {
        assert pieces[i] == Split(b, '\n')[i - 1];
      }
    }
  }

  /** Text without carriage returns is restored by joining its lines. */
  lemma LinesJoin(text: string)
    requires '\r' !in text
    ensures Join(Lines(text), '\n') == text
  {
    SplitAvoids(text, '\n', '\r');
    assert Lines(text) == Split(text, '\n');
    JoinSplit(text, '\n');
  }

  /** `s.split(",")`, the comma-separated fields of a row. */
  function Fields(s: string): (parts: seq<string>)
    ensures |parts| == Count(s, ',') + 1
    ensures forall i :: 0 <= i < |parts| ==> ',' !in parts[i]
  {
    SplitCount(s, ',');
    Split(s, ',')
  }

  /** The lineup column: every field from the fifth on, re-joined with commas. */
  function LineupColumn(parts: seq<string>): string
  {
    if |parts| <= 4 then [] else Join(parts[4..], ',')
  }

  /** The row filter: non-blank, at least five fields, the trimmed third
      field names the difficulty, and the lineup column has eleven
      semicolon-separated entries. */
  predicate Keep(line: string, difficulty: Difficulty)
  {
    var trimmed := Trim(line);
    && |trimmed| > 0
    && |Fields(trimmed)| >= 5
    && Trim(Fields(trimmed)[2]) == DifficultyName(difficulty)
    && |Split(LineupColumn(Fields(trimmed)), ';')| == 11
  }

  /** `lines.filter(keep)`: the lines that pass `keep`, in order. */
  function FilterBy(lines: seq<string>, keep: string -> bool): seq<string>
  {
    if |lines| == 0 then []
    else (if keep(lines[0]) then [lines[0]] else []) + FilterBy(lines[1..], keep)
  }

  /** The row filter for one difficulty, as a callback. */
  function KeepFor(difficulty: Difficulty): string -> bool
  {
    line => Keep(line, difficulty)
  }

  function Filter(lines: seq<string>, difficulty: Difficulty): seq<string>
  {
    FilterBy(lines, KeepFor(difficulty))
  }

  /** The candidate rows for a difficulty: the kept lines after the header. */
  function Pool(csvText: string, difficulty: Difficulty): seq<string>
  {
    Filter(Lines(Trim(csvText))[1..], difficulty)
  }

  /** The save key of a day's game: easy games even, hard games odd. */
  function GameId(dayIndex: nat, difficulty: Difficulty): nat
  {
    dayIndex * 2 + (if difficulty == Easy then 0 else 1)
  }

  /** Field `i`, trimmed, or the empty string when the row is shorter. */
  function FieldOr(parts: seq<string>, i: nat): string
  {
    if i < |parts| then Trim(parts[i]) else []
  }

  /** Reads the chosen row into a game. */
  function ParseRow(line: string, difficulty: Difficulty, dayIndex: nat): GameData
  {
    var parts := Fields(line);
    var lineupString := Trim(LineupColumn(parts));
    var lineup := if |lineupString| > 0 then Split(lineupString, ';') else [];
    GameData(FieldOr(parts, 0), FieldOr(parts, 1), FieldOr(parts, 2), FieldOr(parts, 3), lineup,
             GameId(dayIndex, difficulty))
  }

  /** `getGameForDifficulty(csvText, difficulty)` on day `dayIndex`: an
      error when no row qualifies, otherwise the pool row at `dayIndex`
      modulo the pool size, with an eleven-player lineup, the requested
      difficulty and the day's game id. */
  function GetGameForDifficulty(csvText: string, difficulty: Difficulty, dayIndex: nat): (r: Result<GameData, string>)
    ensures r.Failure? <==> |Pool(csvText, difficulty)| == 0
    ensures r.Failure? ==> r.error == "No valid game rows found for difficulty: " + DifficultyName(difficulty)
    ensures r.Success? ==> |r.value.lineup| == 11
    ensures r.Success? ==> r.value.difficulty == DifficultyName(difficulty)
    ensures r.Success? ==> r.value.gameId == 2 * dayIndex + (if difficulty == Easy then 0 else 1)
  {
    var pool := Pool(csvText, difficulty);
    if |pool| == 0 then Failure("No valid game rows found for difficulty: " + DifficultyName(difficulty))
    else
      var line := pool[dayIndex % |pool|];
      PoolRowsKept(Lines(Trim(csvText))[1..], difficulty, line);
      KeptRowParses(line, difficulty, dayIndex);
      Success(ParseRow(line, difficulty, dayIndex))
  }

  // ---------------------------------------------------------------------

  lemma {:induction false} FilterByMember(lines: seq<string>, keep: string -> bool, line: string)
    ensures line in FilterBy(lines, keep) <==> line in lines && keep(line)
  {
    if |lines| > 0 {
      FilterByMember(lines[1..], keep, line);
      assert lines == [lines[0]] + lines[1..];
    }
  }

  lemma {:induction false} FilterByAppend(a: seq<string>, b: seq<string>, keep: string -> bool)
    ensures FilterBy(a + b, keep) == FilterBy(a, keep) + FilterBy(b, keep)
    decreases |a|
  {
    if |a| == 0 {
      assert a + b == b;
    } else {
      assert (a + b)[0] == a[0];
      assert (a + b)[1..] == a[1..] + b;
      FilterByAppend(a[1..], b, keep);
    }
  }

  /** A line is in the filtered list exactly when it is one of the lines and
      passes the filter. */
  lemma PoolRowsKept(lines: seq<string>, difficulty: Difficulty, line: string)
    ensures line in Filter(lines, difficulty) <==> line in lines && Keep(line, difficulty)
  {
    FilterByMember(lines, KeepFor(difficulty), line);
    assert KeepFor(difficulty)(line) == Keep(line, difficulty);
  }

  /** Filtering works line by line: the kept lines of a concatenation are
      the kept lines of each part, in order. */
  lemma FilterAppend(a: seq<string>, b: seq<string>, difficulty: Difficulty)
    ensures Filter(a + b, difficulty) == Filter(a, difficulty) + Filter(b, difficulty)
  {
    FilterByAppend(a, b, KeepFor(difficulty));
  }

  /** A single line is kept, once, exactly when it passes the filter. With
      `FilterAppend` this fixes the pool's order and repeats, which decide
      the row `pool[dayIndex % |pool|]`. */
  lemma FilterSingle(line: string, difficulty: Difficulty)
    ensures Filter([line], difficulty) == if Keep(line, difficulty) then [line] else []
  {
    var keep := KeepFor(difficulty);
    assert [line][1..] == [];
    assert keep(line) == Keep(line, difficulty);
    var head := if keep(line) then [line] else [];
    assert FilterBy([line], keep) == head + FilterBy([], keep);
    assert head + [] == head;
  }

  /** The pool is exactly the data lines after the header that pass the filter. */
  lemma PoolIsFilteredDataLines(csvText: string, difficulty: Difficulty)
    ensures forall line :: line in Pool(csvText, difficulty) <==>
      line in Lines(Trim(csvText))[1..] && Keep(line, difficulty)
  {
    forall line {
      PoolRowsKept(Lines(Trim(csvText))[1..], difficulty, line);
    }
  }

  /** Framing a row with separator-free text on both sides changes only its
      first and last fields. */
  lemma FramedFields(line: string, lead: string, t: string, trail: string)
    requires line == lead + t + trail
    requires ',' !in lead && ',' !in trail
    ensures var raw := Fields(line); var parts := Fields(t);
      && |raw| == |parts|
      && (forall i :: 0 < i < |parts| - 1 ==> raw[i] == parts[i])
      && (|parts| >= 2 ==> raw[|parts| - 1] == parts[|parts| - 1] + trail)
      && (|parts| >= 2 ==> raw[0] == lead + parts[0])
      && (|parts| == 1 ==> raw[0] == lead + parts[0] + trail)
  {
    var parts := Fields(t);
    var n := |parts|;
    SplitSuffix(t, trail, ',');
    var a := Split(t + trail, ',');
    assert a == parts[..n - 1] + [parts[n - 1] + trail];
    assert lead + t + trail == lead + (t + trail);
    SplitPrefix(lead, t + trail, ',');
    var raw := Fields(line);
    assert raw == [lead + a[0]] + a[1..];
  }

  /** Splitting an untrimmed row gives the fields of the trimmed row, except
      that the first field gains the leading whitespace and the last one the
      trailing whitespace. */
  lemma RawFields(line: string) returns (lead: string, trail: string)
    ensures AllWhitespace(lead) && AllWhitespace(trail)
    ensures var raw := Fields(line); var parts := Fields(Trim(line));
      && |raw| == |parts|
      && (forall i :: 0 < i < |parts| - 1 ==> raw[i] == parts[i])
      && (|parts| >= 2 ==> raw[|parts| - 1] == parts[|parts| - 1] + trail)
      && (|parts| >= 2 ==> raw[0] == lead + parts[0])
      && (|parts| == 1 ==> raw[0] == lead + parts[0] + trail)
  {
    lead, trail := TrimDecompose(line);
    var m := Trim(line);
    assert ',' !in lead by { NoSeparatorInWhitespace(lead, ','); }
    assert ',' !in trail by { NoSeparatorInWhitespace(trail, ','); }
    FramedFields(line, lead, m, trail);
  }

  /** The lineup column read from the untrimmed row, once trimmed, has as
      many semicolons as the one the filter looked at. */
  lemma RawLineupSemicolons(line: string)
    requires |Fields(Trim(line))| >= 5
    ensures Count(Trim(LineupColumn(Fields(line))), ';') == Count(LineupColumn(Fields(Trim(line))), ';')
  {
    var lead, trail := RawFields(line);
    var raw := Fields(line);
    var parts := Fields(Trim(line));
    var n := |parts|;
    assert raw[4..] == parts[4..][..n - 5] + [parts[4..][n - 5] + trail];
    JoinAppendLast(parts[4..], trail, ',');
    var column := LineupColumn(parts);
    assert LineupColumn(raw) == column + trail;
    CountAppend(column, trail, ';');
    WhitespaceCountZero(trail, ';');
    TrimKeepsCount(column + trail, ';');
  }

  /** A row that passed the filter reads back with its difficulty and an
      eleven-entry lineup, although it is read without the trimming the
      filter applied. */
  lemma KeptRowParses(line: string, difficulty: Difficulty, dayIndex: nat)
    requires Keep(line, difficulty)
    ensures |ParseRow(line, difficulty, dayIndex).lineup| == 11
    ensures ParseRow(line, difficulty, dayIndex).difficulty == DifficultyName(difficulty)
  {
    var lead, trail := RawFields(line);
    RawLineupSemicolons(line);
    SplitCount(LineupColumn(Fields(Trim(line))), ';');
    var lineupString := Trim(LineupColumn(Fields(line)));
    CountBound(lineupString, ';');
    SplitCount(lineupString, ';');
  }

  /** The lineup column keeps its commas: the row is its first four fields,
      a comma, and the lineup column verbatim. */
  lemma LineupColumnIsRowTail(line: string)
    requires |Fields(line)| >= 5
    ensures line == Join(Fields(line)[..4], ',') + [','] + LineupColumn(Fields(line))
  {
    var parts := Fields(line);
    JoinSplit(line, ',');
    assert parts == parts[..4] + parts[4..];
    JoinConcat(parts[..4], parts[4..], ',');
  }

  /** The row chosen on day `dayIndex`. */
  lemma ChosenRow(csvText: string, difficulty: Difficulty, dayIndex: nat) returns (line: string)
    requires |Pool(csvText, difficulty)| > 0
    ensures line == Pool(csvText, difficulty)[dayIndex % |Pool(csvText, difficulty)|]
    ensures line in Lines(Trim(csvText))[1..] && Keep(line, difficulty)
    ensures GetGameForDifficulty(csvText, difficulty, dayIndex) == Success(ParseRow(line, difficulty, dayIndex))
  {
    line := Pool(csvText, difficulty)[dayIndex % |Pool(csvText, difficulty)|];
    PoolRowsKept(Lines(Trim(csvText))[1..], difficulty, line);
  }

  /** A one-row pool yields its row whatever the day. */
  lemma SingleRowPool(csvText: string, difficulty: Difficulty, dayIndex: nat)
    requires |Pool(csvText, difficulty)| == 1
    ensures GetGameForDifficulty(csvText, difficulty, dayIndex)
      == Success(ParseRow(Pool(csvText, difficulty)[0], difficulty, dayIndex))
  {
  }

  /** Easy ids are even, hard ids odd, and no two (day, difficulty) pairs
      share an id. */
  lemma GameIdsDistinct(d1: nat, x1: Difficulty, d2: nat, x2: Difficulty)
    ensures GameId(d1, Easy) % 2 == 0 && GameId(d1, Hard) % 2 == 1
    ensures GameId(d1, x1) == GameId(d2, x2) ==> d1 == d2 && x1 == x2
  {
  }
}

/** The pitch (components/formation.tsx): the lineup laid out in rows, a
    one-player goalkeeper row first, and the per-player progress table. */
module Formation {
  import opened Wrappers
  import opened GameTypes
  import opened Positions
  import Names
  import Dialog

  /** `formationRows`: the goalkeeper row, then one row per code segment. */
  function FormationRows(formation: string): (rows: seq<Num>)
    ensures |rows| == |ParseFormation(formation)| + 1
    ensures rows[0] == Num(1) && rows[1..] == ParseFormation(formation)
  {
    [Num(1)] + ParseFormation(formation)
  }

  /** `startIndex += rowCounts[i]` over the rows before `r`; NaN is sticky. */
  function StartIndex(counts: seq<Num>, r: nat): Num
    requires r <= |counts|
  {
    if r == 0 then Num(0)
    else
      var before := StartIndex(counts, r - 1);
      if before.Num? && counts[r - 1].Num? then Num(before.value + counts[r - 1].value) else NaN
  }

  function Clamp(i: nat, len: nat): nat { if i <= len then i else len }

  /** `players.slice(startIndex, startIndex + rowCounts[rowIndex])`. A NaN
      bound reads as 0, which leaves the row empty. */
  function PlayersByRow<T>(counts: seq<Num>, r: nat, players: seq<T>): seq<T>
    requires r < |counts|
  {
    var start := StartIndex(counts, r);
    if start.Num? && counts[r].Num? then
      players[Clamp(start.value, |players|)..Clamp(start.value + counts[r].value, |players|)]
    else []
  }

  /** Every row count is a number. */
  predicate AllNum(counts: seq<Num>)
  {
    forall i :: 0 <= i < |counts| ==> counts[i].Num?
  }

  /** A count's value, NaN read as 0. */
  function Value(n: Num): nat
  {
    if n.Num? then n.value else 0
  }

  /** The sum of the first `r` counts. */
  function Sum(counts: seq<Num>, r: nat): nat
    requires r <= |counts|
  {
    if r == 0 then 0 else Sum(counts, r - 1) + Value(counts[r - 1])
  }

  /** The rows `0 .. r-1`, concatenated. */
  function RowsUpTo<T>(counts: seq<Num>, r: nat, players: seq<T>): seq<T>
    requires r <= |counts|
  {
    if r == 0 then [] else RowsUpTo(counts, r - 1, players) + PlayersByRow(counts, r - 1, players)
  }

  // ---------------------------------------------------------------------

  lemma {:induction false} StartIsSum(counts: seq<Num>, r: nat)
    requires r <= |counts|
    requires AllNum(counts)
    ensures StartIndex(counts, r) == Num(Sum(counts, r))
  {
    if r > 0 {
      StartIsSum(counts, r - 1);
    }
  }

  /** Row `r` is the slice of the lineup that starts after the players of
      the rows before it and is as long as the row count, when that fits. */
  lemma RowIsSlice<T>(counts: seq<Num>, r: nat, players: seq<T>)
    requires r < |counts|
    requires AllNum(counts)
    requires Sum(counts, r) + Value(counts[r]) <= |players|
    ensures PlayersByRow(counts, r, players) == players[Sum(counts, r)..Sum(counts, r) + Value(counts[r])]
  {
    StartIsSum(counts, r);
    ClampSpan(Sum(counts, r), Value(counts[r]), |players|);
  }

  /** A row never holds more players than its count: the slice is clipped at
      the lineup's end. */
  lemma RowNoLonger<T>(counts: seq<Num>, r: nat, players: seq<T>)
    requires r < |counts|
    ensures |PlayersByRow(counts, r, players)| <= Value(counts[r])
  {
    var start := StartIndex(counts, r);
    if start.Num? && counts[r].Num? {
      ClampSpan(start.value, counts[r].value, |players|);
    }
  }

  /** Clamping both ends of a span to `len` keeps it in order and no longer
      than before, and changes nothing when the span already fits. */
  lemma ClampSpan(start: nat, count: nat, len: nat)
    ensures Clamp(start, len) <= Clamp(start + count, len) <= len
    ensures Clamp(start + count, len) - Clamp(start, len) <= count
    ensures start + count <= len ==> Clamp(start, len) == start && Clamp(start + count, len) == start + count
  {
  }

  /** A NaN count empties its own row and every later one. */
  lemma NaNRowsEmpty<T>(counts: seq<Num>, k: nat, r: nat, players: seq<T>)
    requires k <= r < |counts| && counts[k] == NaN
    ensures PlayersByRow(counts, r, players) == []
  {
    if r > k {
      NaNStartSticky(counts, k, r);
    }
  }

  lemma {:induction false} NaNStartSticky(counts: seq<Num>, k: nat, r: nat)
    requires k < r <= |counts| && counts[k] == NaN
    ensures StartIndex(counts, r) == NaN
  {
    if r - 1 > k {
      NaNStartSticky(counts, k, r - 1);
    }
  }

  /** The goalkeeper row holds exactly the first player. */
  lemma GoalkeeperRow<T>(formation: string, players: seq<T>)
    requires |players| >= 1
    ensures PlayersByRow(FormationRows(formation), 0, players) == [players[0]]
  {
  }

  /** When the counts are numbers that add up to the lineup size, the rows in
      order are the lineup: every player appears once, in order. */
  lemma RowsCoverLineup<T>(counts: seq<Num>, players: seq<T>)
    requires AllNum(counts)
    requires Sum(counts, |counts|) == |players|
    ensures RowsUpTo(counts, |counts|, players) == players
  {
    RowsPrefix(counts, |counts|, players);
  }

  lemma {:induction false} RowsPrefix<T>(counts: seq<Num>, r: nat, players: seq<T>)
    requires r <= |counts|
    requires AllNum(counts)
    requires Sum(counts, r) <= |players|
    ensures RowsUpTo(counts, r, players) == players[..Sum(counts, r)]
  {
    if r > 0 {
      RowsPrefix(counts, r - 1, players);
      RowStep(counts, r, players);
    } else {
      assert players[..0] == [];
    }
  }

  lemma RowStep<T>(counts: seq<Num>, r: nat, players: seq<T>)
    requires 0 < r <= |counts|
    requires AllNum(counts)
    requires Sum(counts, r) <= |players|
    requires RowsUpTo(counts, r - 1, players) == players[..Sum(counts, r - 1)]
    ensures RowsUpTo(counts, r, players) == players[..Sum(counts, r)]
  {
    var a := Sum(counts, r - 1);
    var b := Sum(counts, r);
    assert b == a + Value(counts[r - 1]);
    RowIsSlice(counts, r - 1, players);
    var row := PlayersByRow(counts, r - 1, players);
    assert row == players[a..b];
    assert RowsUpTo(counts, r, players) == players[..a] + row;
    CutAt(players, a, b);
  }

  lemma CutAt<T>(s: seq<T>, a: nat, b: nat)
    requires a <= b <= |s|
    ensures s[..b] == s[..a] + s[a..b]
  {
  }

  /** Every known code lays an eleven-player lineup out row by row, each
      player exactly once, behind a one-player goalkeeper row. */
  lemma KnownFormationRows<T>(formation: string, players: seq<T>)
    requires formation in KnownCodes && |players| == 11
    ensures RowsUpTo(FormationRows(formation), |FormationRows(formation)|, players) == players
  {
    KnownRowCounts(formation);
    RowsCoverLineup(FormationRows(formation), players);
  }

  /** The rows of a known code are numbers that add up to eleven. */
  lemma KnownRowCounts(formation: string)
    requires formation in KnownCodes
    ensures AllNum(FormationRows(formation))
    ensures Sum(FormationRows(formation), |FormationRows(formation)|) == 11
  {
    var rows := FormationRows(formation);
    KnownFormation(formation, 11);
    var groups := KnownGroups(formation);
    forall i | 0 <= i < |rows| ensures rows[i].Num? {
      if i > 0 {
        assert rows[i] == ParseFormation(formation)[i - 1];
      }
    }
    forall i | 0 <= i < |groups| ensures rows[i + 1] == Num(|groups[i]|) {
      assert rows[i + 1] == ParseFormation(formation)[i];
    }
    SumIsFlattenLength(rows, groups, |groups|);
    assert groups[..|groups|] == groups;
  }

  lemma {:induction false} SumIsFlattenLength(rows: seq<Num>, groups: seq<seq<string>>, k: nat)
    requires k <= |groups| && |rows| == |groups| + 1 && rows[0] == Num(1)
    requires AllNum(rows)
    requires forall i :: 0 <= i < |groups| ==> rows[i + 1] == Num(|groups[i]|)
    ensures Sum(rows, k + 1) == 1 + |Flatten(groups[..k])|
  {
    if k > 0 {
      SumIsFlattenLength(rows, groups, k - 1);
      FlattenSnoc(groups[..k - 1], groups[k - 1]);
      assert groups[..k] == groups[..k - 1] + [groups[k - 1]];
    } else {
      assert groups[..0] == [];
    }
    if k == |groups| {
      assert groups[..k] == groups;
    }
  }

  lemma {:induction false} FlattenSnoc(gs: seq<seq<string>>, g: seq<string>)
    ensures |Flatten(gs + [g])| == |Flatten(gs)| + |g|
  {
    if |gs| > 0 {
      FlattenSnoc(gs[1..], g);
      assert (gs + [g])[1..] == gs[1..] + [g];
    } else {
      assert gs + [g] == [g];
    }
  }

  // ---------------------------------------------------------------------

  /** The pitch's state: the player whose dialog is open and the saved
      progress per player id. */
  datatype Pitch = Pitch(selected: Option<PlayerData>, states: map<int, PlayerState>)

  /** `handleGuessComplete`: records the reported progress and closes the dialog. */
  function HandleGuessComplete(p: Pitch, playerId: int, guesses: seq<string>, isComplete: bool): (q: Pitch)
    ensures q.selected == None
    ensures playerId in q.states && q.states[playerId] == PlayerState(guesses, isComplete)
    ensures q.states.Keys == p.states.Keys + {playerId}
    ensures forall id :: id in p.states && id != playerId ==> q.states[id] == p.states[id]
  {
    Pitch(None, p.states[playerId := PlayerState(guesses, isComplete)])
  }

  /** Saved progress that follows the dialog's rules: for every player whose
      name is known, a well-formed history that is complete only when its
      last guess matched the normalised name. */
  predicate SavedValid(names: map<int, string>, states: map<int, PlayerState>)
  {
    forall id :: id in states && id in names ==>
      && Dialog.ValidHistory(Names.Normalize(names[id]), states[id].guesses)
      && (states[id].isComplete ==>
            |states[id].guesses| > 0 && states[id].guesses[|states[id].guesses| - 1] == Names.Normalize(names[id]))
  }

  /** Recording what the dialog reports, on a key or on closing, keeps the
      saved progress well formed; in particular nobody ever has more than
      eight saved guesses. */
  lemma ReportsKeepSavedValid(p: Pitch, names: map<int, string>, props: Dialog.Props, s: Dialog.Session,
                              key: string, normalizeKeyInput: string -> Option<char>)
    requires SavedValid(names, p.states)
    requires Dialog.Valid(props, s)
    requires props.player.id in names ==> names[props.player.id] == props.player.name
    ensures var r := Dialog.OnKey(props, s, key, normalizeKeyInput).report;
      r.Some? ==> SavedValid(names, HandleGuessComplete(p, r.value.playerId, r.value.guesses, r.value.isComplete).states)
    ensures var r := Dialog.OnClose(props, s, false);
      r.Some? ==> SavedValid(names, HandleGuessComplete(p, r.value.playerId, r.value.guesses, r.value.isComplete).states)
  {
    Dialog.OnKeyKeepsValid(props, s, key, normalizeKeyInput);
    Dialog.CloseReport(props, s);
  }
}

/** The jersey shown for each player (components/jersey.tsx): progress
    glyph, attempt badge, label below the shirt, colours and gradient id.
    The team colour table of lib/teams.ts is a parameter. */
module Jersey {
  import opened Text
  import opened Wrappers
  import opened GameTypes
  import opened Names

  datatype Pattern = Solid | Striped | Half

  /** A team's shirt colours; the pattern is optional. */
  datatype TeamConfig = TeamConfig(primary: string, secondary: string, pattern: Option<Pattern>)

  /** The attempt badge: the count and the circle colour. */
  datatype Badge = Badge(count: nat, colour: string)

  /** The label under the shirt: the raw name, or the number of letters to guess. */
  datatype Label = NameLabel(name: string) | LengthLabel(length: nat)

  datatype JerseyView = JerseyView(glyph: char, badge: Option<Badge>, caption: Label,
                                   primary: string, secondary: string, pattern: Pattern, teamId: string)

  const CheckMark: char := '\U{2713}'
  const CrossMark: char := '\U{2717}'

  function GuessCount(state: Option<PlayerState>): nat
  {
    if state.Some? then |state.value.guesses| else 0
  }

  predicate IsSolved(state: Option<PlayerState>)
  {
    state.Some? && state.value.isComplete
  }

  predicate IsFailed(state: Option<PlayerState>)
  {
    GuessCount(state) >= MaxGuesses && !(state.Some? && state.value.isComplete)
  }

  /** `team.replace(/\s+/g, '-')`: each whitespace run becomes one hyphen. */
  function ReplaceWhitespaceRuns(s: string): (r: string)
    ensures forall i :: 0 <= i < |r| ==> !IsWhitespace(r[i])
    decreases |s|
  {
    if |s| == 0 then []
    else if IsWhitespace(s[0]) then
      var rest := TrimStart(s);
      ['-'] + ReplaceWhitespaceRuns(rest)
    else [s[0]] + ReplaceWhitespaceRuns(s[1..])
  }

  /** The gradient id suffix: the team name with whitespace runs replaced,
      or "default" when there is no team name. */
  function TeamId(team: Option<string>): string
  {
    if team.Some? && |team.value| > 0 then ReplaceWhitespaceRuns(team.value) else "default"
  }

  /** The team's colours, or the default colours for a missing or unknown team. */
  function TeamConfigFor(team: Option<string>, configs: map<string, TeamConfig>, fallback: TeamConfig): TeamConfig
  {
    if team.Some? && |team.value| > 0 && team.value in configs then configs[team.value] else fallback
  }

  /** The jersey for `player` with saved progress `state`. */
  function Render(player: PlayerData, state: Option<PlayerState>, team: Option<string>,
                  configs: map<string, TeamConfig>, fallback: TeamConfig): JerseyView
  {
    var solved := IsSolved(state);
    var failed := IsFailed(state);
    var isGoalkeeper := player.position == Some("GK");
    var config := TeamConfigFor(team, configs, fallback);
    var glyph := if solved then CheckMark else if failed then CrossMark else '?';
    var badge :=
      if GuessCount(state) > 0 then
        Some(Badge(GuessCount(state), if solved then "#059669" else if failed then "#dc2626" else "#d97706"))
      else None;
    var caption := if solved || failed then NameLabel(player.name) else LengthLabel(|Normalize(player.name)|);
    JerseyView(glyph, badge, caption,
               if isGoalkeeper then "#0EA5E9" else config.primary,
               if isGoalkeeper then "#082F49" else config.secondary,
               if isGoalkeeper then Solid else config.pattern.GetOr(Solid),
               TeamId(team))
  }

  // ---------------------------------------------------------------------

  /** Solved and failed never hold together. */
  lemma SolvedFailedExclusive(state: Option<PlayerState>)
    ensures !(IsSolved(state) && IsFailed(state))
    ensures IsFailed(state) <==> GuessCount(state) >= MaxGuesses && !IsSolved(state)
  {
  }

  /** The glyph is a check mark when solved, a cross when failed, a question
      mark otherwise; the badge appears exactly when there are guesses, shows
      their number and is coloured solved, then failed, then in progress. */
  lemma GlyphAndBadge(player: PlayerData, state: Option<PlayerState>, team: Option<string>,
                      configs: map<string, TeamConfig>, fallback: TeamConfig)
    ensures var v := Render(player, state, team, configs, fallback);
      && (v.glyph == CheckMark <==> IsSolved(state))
      && (v.glyph == CrossMark <==> IsFailed(state))
      && (v.glyph == '?' <==> !IsSolved(state) && !IsFailed(state))
      && (v.badge.Some? <==> GuessCount(state) > 0)
      && (v.badge.Some? ==> v.badge.value.count == GuessCount(state))
      && (v.badge.Some? && IsSolved(state) ==> v.badge.value.colour == "#059669")
      && (v.badge.Some? && IsFailed(state) ==> v.badge.value.colour == "#dc2626")
      && (v.badge.Some? && !IsSolved(state) && !IsFailed(state) ==> v.badge.value.colour == "#d97706")
  {
  }

  /** The raw name is revealed once the puzzle is over; until then the label
      gives the number of letters to guess, punctuation not counted. */
  lemma LabelChoice(player: PlayerData, state: Option<PlayerState>, team: Option<string>,
                    configs: map<string, TeamConfig>, fallback: TeamConfig)
    ensures var v := Render(player, state, team, configs, fallback);
      && (IsSolved(state) || IsFailed(state) ==> v.caption == NameLabel(player.name))
      && (!IsSolved(state) && !IsFailed(state) ==>
            v.caption.LengthLabel? && v.caption.length + SpecialCount(player.name) == |player.name|)
  {
    NormalizeLength(player.name);
  }

  /** A goalkeeper always wears the fixed solid goalkeeper colours; others
      wear their team's colours and pattern (solid when the team has none),
      or the default ones when the team is missing, empty or unknown. An
      empty team name is falsy, so it gets the defaults even when the table
      has an entry for it. */
  lemma Colours(player: PlayerData, state: Option<PlayerState>, team: Option<string>,
                configs: map<string, TeamConfig>, fallback: TeamConfig)
    ensures var v := Render(player, state, team, configs, fallback);
      && (player.position == Some("GK") ==> v.primary == "#0EA5E9" && v.secondary == "#082F49" && v.pattern == Solid)
      && (player.position != Some("GK") && team.Some? && team.value in configs && |team.value| > 0 ==>
            && v.primary == configs[team.value].primary && v.secondary == configs[team.value].secondary
            && v.pattern == configs[team.value].pattern.GetOr(Solid))
      && (player.position != Some("GK") && (team.None? || |team.value| == 0 || team.value !in configs) ==>
            && v.primary == fallback.primary && v.secondary == fallback.secondary
            && v.pattern == fallback.pattern.GetOr(Solid))
  {
  }

  /** A name without whitespace is its own id. */
  lemma {:induction false} ReplaceKeepsPlain(s: string)
    requires forall i :: 0 <= i < |s| ==> !IsWhitespace(s[i])
    ensures ReplaceWhitespaceRuns(s) == s
  {
    if |s| > 0 {
      ReplaceKeepsPlain(s[1..]);
    }
  }

  /** Replacing runs keeps every character other than whitespace and the
      hyphen, each as often as before. */
  lemma {:induction false} ReplaceKeepsCount(s: string, c: char)
    requires !IsWhitespace(c) && c != '-'
    ensures Count(ReplaceWhitespaceRuns(s), c) == Count(s, c)
    decreases |s|
  {
    if |s| > 0 {
      if IsWhitespace(s[0]) {
        var rest := TrimStart(s);
        ReplaceKeepsCount(rest, c);
        CountCons('-', ReplaceWhitespaceRuns(rest), c);
        var cut := s[..|s| - |rest|];
        assert s == cut + rest;
        CountAppend(cut, rest, c);
        WhitespaceCountZero(cut, c);
      } else {
        ReplaceKeepsCount(s[1..], c);
        CountCons(s[0], ReplaceWhitespaceRuns(s[1..]), c);
        CountCons(s[0], s[1..], c);
        assert s == [s[0]] + s[1..];
      }
    }
  }

  /** Replacement works piece by piece wherever the seam does not cut
      through a whitespace run. */
  lemma {:induction false} ReplaceAppend(a: string, b: string)
    requires |a| == 0 || |b| == 0 || !IsWhitespace(a[|a| - 1]) || !IsWhitespace(b[0])
    ensures ReplaceWhitespaceRuns(a + b) == ReplaceWhitespaceRuns(a) + ReplaceWhitespaceRuns(b)
    decreases |a|
  {
    if |a| == 0 {
      assert a + b == b;
    } else if !IsWhitespace(a[0]) {
      assert (a + b)[0] == a[0];
      assert (a + b)[1..] == a[1..] + b;
      ReplaceAppend(a[1..], b);
    } else {
      assert (a + b)[0] == a[0];
      TrimStartAppend(a, b);
      if AllWhitespace(a) {
        TrimStartAppend(a, []);
        assert a + [] == a;
      } else {
        var t := TrimStart(a);
        assert t[|t| - 1] == a[|a| - 1];
        ReplaceAppend(t, b);
      }
    }
  }

  /** A whole whitespace run becomes exactly one hyphen. */
  lemma ReplaceRun(w: string)
    requires |w| > 0 && AllWhitespace(w)
    ensures ReplaceWhitespaceRuns(w) == "-"
  {
    TrimStartAppend(w, []);
    assert w + [] == w;
  }

  /** `a + w + b` with `w` a maximal whitespace run: the run turns into one
      hyphen between the replaced neighbours. With `ReplaceKeepsPlain` this
      determines the result on every string. */
  lemma ReplaceRunBetween(a: string, w: string, b: string)
    requires |w| > 0 && AllWhitespace(w)
    requires |a| == 0 || !IsWhitespace(a[|a| - 1])
    requires |b| == 0 || !IsWhitespace(b[0])
    ensures ReplaceWhitespaceRuns(a + w + b)
      == ReplaceWhitespaceRuns(a) + "-" + ReplaceWhitespaceRuns(b)
  {
    ReplaceAppend(a, w);
    ReplaceRun(w);
    ReplaceAppend(a + w, b);
  }

  /** The id is "default" when there is no team name, and otherwise
      holds no whitespace. */
  lemma TeamIdShape(team: Option<string>)
    ensures (team.None? || team.value == []) ==> TeamId(team) == "default"
    ensures forall i :: 0 <= i < |TeamId(team)| ==> !IsWhitespace(TeamId(team)[i])
  {
  }
}

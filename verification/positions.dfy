/** Formation codes and position labels (`parseFormation` and
    `assignPositions` in lib/api.ts). */
module Positions {
  import opened Text
  import opened Wrappers
  import opened GameTypes

  /** A JavaScript number read from a segment of a formation code. */
  datatype Num = Num(value: nat) | NaN

  /** `Number(segment)` on the segments formation codes are made of: the
      empty string reads as 0, a run of decimal digits as its value, and
      anything else as NaN. */
  function NumberOf(segment: string): Num
  {
    if |segment| == 0 then Num(0)
    else if AllDigits(segment) then Num(DecimalValue(segment))
    else NaN
  }

  /** `parseFormation`: one number per "-"-separated segment. */
  function ParseFormation(formation: string): (counts: seq<Num>)
    ensures |counts| == Count(formation, '-') + 1
  {
    var segments := Split(formation, '-');
    SplitCount(formation, '-');
    seq(|segments|, i requires 0 <= i < |segments| => NumberOf(segments[i]))
  }

  /** The outfield lines of the five three-line formations with a fixed table. */
  function ThreeLineGroups(formation: string): Option<seq<seq<string>>>
  {
    if formation == "4-3-3" then
      Some([["LB", "CB", "CB", "RB"], ["CM", "CM", "CM"], ["LW", "ST", "RW"]])
    else if formation == "4-4-2" then
      Some([["LB", "CB", "CB", "RB"], ["LM", "CM", "CM", "RM"], ["ST", "ST"]])
    else if formation == "3-5-2" then
      Some([["CB", "CB", "CB"], ["LWB", "CM", "CM", "CM", "RWB"], ["ST", "ST"]])
    else if formation == "3-4-3" then
      Some([["CB", "CB", "CB"], ["LM", "CM", "CM", "RM"], ["LW", "ST", "RW"]])
    else if formation == "5-3-2" then
      Some([["LWB", "CB", "CB", "CB", "RWB"], ["CM", "CM", "CM"], ["ST", "ST"]])
    else None
  }

  /** The outfield lines of "4-2-3-1". */
  const FourTwoThreeOne: seq<seq<string>> := [["LB", "CB", "CB", "RB"], ["CDM", "CDM"], ["LM", "CAM", "RM"], ["ST"]]

  function Flatten(groups: seq<seq<string>>): seq<string>
  {
    if |groups| == 0 then [] else groups[0] + Flatten(groups[1..])
  }

  /** The fallback labels "P1" .. "Pn". */
  function Generic(n: nat): (labels: seq<string>)
    ensures |labels| == n
  {
    seq(n, i requires 0 <= i < n => "P" + DecimalString(i + 1))
  }

  /** The position list `assignPositions` builds for a lineup of `n` names.
      A three-segment code pushes "GK" before it looks the code up, so an
      unknown three-segment code gets "GK" followed by "P1" .. "Pn". */
  function PositionTable(formation: string, n: nat): seq<string>
  {
    if |Split(formation, '-')| == 3 then
      ["GK"] + (match ThreeLineGroups(formation)
                case Some(groups) => Flatten(groups)
                case None => Generic(n))
    else if formation == "4-2-3-1" then ["GK"] + Flatten(FourTwoThreeOne)
    else Generic(n)
  }

  /** `assignPositions`: each name with its index as id and the table's
      label at that index, if the table is long enough. */
  function AssignPositions(formation: string, lineup: seq<string>): seq<PlayerData>
  {
    var table := PositionTable(formation, |lineup|);
    seq(|lineup|, i requires 0 <= i < |lineup| =>
      PlayerData(i, lineup[i], if i < |table| then Some(table[i]) else None))
  }

  // ---------------------------------------------------------------------

  /** The codes with a fixed table. */
  const KnownCodes: seq<string> := ["4-3-3", "4-4-2", "3-5-2", "3-4-3", "5-3-2", "4-2-3-1"]

  /** The outfield lines of a known code. */
  function KnownGroups(formation: string): seq<seq<string>>
    requires formation in KnownCodes
  {
    if formation == "4-2-3-1" then FourTwoThreeOne else ThreeLineGroups(formation).value
  }

  /** A code written as single digits joined by "-" reads as those digits. */
  lemma DigitCode(formation: string, digits: seq<string>, groups: seq<seq<string>>)
    requires |digits| == |groups| >= 1
    requires forall i :: 0 <= i < |digits| ==>
      |digits[i]| == 1 && IsDigit(digits[i][0]) && digits[i][0] as int - '0' as int == |groups[i]|
    requires formation == Join(digits, '-')
    ensures Split(formation, '-') == digits
    ensures |groups| == |ParseFormation(formation)|
    ensures forall k :: 0 <= k < |groups| ==> ParseFormation(formation)[k] == Num(|groups[k]|)
  {
    SplitJoin(digits, '-');
    forall k | 0 <= k < |groups|
      ensures ParseFormation(formation)[k] == Num(|groups[k]|)
    {
      var d := digits[k];
      assert d[..0] == [];
      assert DecimalValue(d) == d[0] as int - '0' as int;
    }
  }

  /** What a known code promises: eleven positions starting with "GK", whose
      outfield labels form lines with the sizes the code's numbers give. */
  predicate KnownShape(formation: string, n: nat)
    requires formation in KnownCodes
  {
    var table := PositionTable(formation, n);
    var groups := KnownGroups(formation);
    && |table| == 11 && table[0] == "GK"
    && table[1..] == Flatten(groups)
    && |groups| == |ParseFormation(formation)|
    && forall k :: 0 <= k < |groups| ==> ParseFormation(formation)[k] == Num(|groups[k]|)
  }

  /** Every known code gives eleven positions starting with "GK", and the
      outfield labels form lines whose sizes are the code's numbers. */
  lemma KnownFormation(formation: string, n: nat)
    requires formation in KnownCodes
    ensures KnownShape(formation, n)
  {
    if formation == "4-3-3" {
      Code433(n);
    } else if formation == "4-4-2" {
      Code442(n);
    } else if formation == "3-5-2" {
      Code352(n);
    } else if formation == "3-4-3" {
      Code343(n);
    } else if formation == "5-3-2" {
      Code532(n);
    } else {
      Code4231(n);
    }
  }

  // One lemma per known code, all of the same shape: each fixes the
  // literal code so that the solver unfolds `Split` on one literal at a
  // time; a single lemma dispatching on all six codes is too costly.

  lemma Code433(n: nat)
    ensures KnownShape("4-3-3", n)
  {
    DigitCode("4-3-3", ["4", "3", "3"], KnownGroups("4-3-3"));
  }

  lemma Code442(n: nat)
    ensures KnownShape("4-4-2", n)
  {
    DigitCode("4-4-2", ["4", "4", "2"], KnownGroups("4-4-2"));
  }

  lemma Code352(n: nat)
    ensures KnownShape("3-5-2", n)
  {
    DigitCode("3-5-2", ["3", "5", "2"], KnownGroups("3-5-2"));
  }

  lemma Code343(n: nat)
    ensures KnownShape("3-4-3", n)
  {
    DigitCode("3-4-3", ["3", "4", "3"], KnownGroups("3-4-3"));
  }

  lemma Code532(n: nat)
    ensures KnownShape("5-3-2", n)
  {
    DigitCode("5-3-2", ["5", "3", "2"], KnownGroups("5-3-2"));
  }

  lemma Code4231(n: nat)
    ensures KnownShape("4-2-3-1", n)
  {
    DigitCode("4-2-3-1", ["4", "2", "3", "1"], KnownGroups("4-2-3-1"));
  }

  /** An unknown three-segment code gets "GK" then "P1" .. "Pn". */
  lemma UnknownThreeSegmentCode(formation: string, n: nat)
    requires |Split(formation, '-')| == 3 && formation !in KnownCodes
    ensures PositionTable(formation, n) == ["GK"] + Generic(n)
  {
  }

  /** Any other unknown code gets "P1" .. "Pn". */
  lemma UnknownOtherCode(formation: string, n: nat)
    requires |Split(formation, '-')| != 3 && formation !in KnownCodes
    ensures PositionTable(formation, n) == Generic(n)
  {
  }

  /** The fallback labels are pairwise distinct. */
  lemma GenericLabelsDistinct(n: nat, i: nat, j: nat)
    requires i < n && j < n && i != j
    ensures Generic(n)[i] != Generic(n)[j]
  {
    DecimalStringInjective(i + 1, j + 1);
    assert Generic(n)[i][1..] == DecimalString(i + 1);
    assert Generic(n)[j][1..] == DecimalString(j + 1);
  }

  /** One player per name, with the index as id, the name unchanged, and a
      position exactly where the table has an entry. */
  lemma AssignPositionsShape(formation: string, lineup: seq<string>)
    ensures var players := AssignPositions(formation, lineup); var table := PositionTable(formation, |lineup|);
      && |players| == |lineup|
      && forall i :: 0 <= i < |lineup| ==>
           && players[i].id == i && players[i].name == lineup[i]
           && (players[i].position.Some? <==> i < |table|)
           && (i < |table| ==> players[i].position == Some(table[i]))
  {
  }

  /** With a known code and eleven names, every player gets a position and
      player 0 is the goalkeeper. */
  lemma KnownFormationFullLineup(formation: string, lineup: seq<string>)
    requires formation in KnownCodes && |lineup| == 11
    ensures forall i :: 0 <= i < 11 ==> AssignPositions(formation, lineup)[i].position.Some?
    ensures AssignPositions(formation, lineup)[0].position == Some("GK")
  {
    KnownFormation(formation, 11);
  }
}

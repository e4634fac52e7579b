/**
 * The TV screen's poll step: from each fetched leaderboard it records every
 * name's rank, the movement of every name against the previous poll, and
 * the leader, firing confetti when the leader changes. The screen shows the
 * first five entries, each with a movement chip.
 */
module TvMode {
  import opened Wrappers
  import opened JsNumber

  /** A leaderboard entry as the screen reads it from the response. */
  datatype Player = Player(rank: int, name: string, weeklyScore: int)

  /**
   * The record `r` after `for (const p of lb) r[p.name] = value(p)`,
   * starting from `{}`: a later entry with the same name overwrites an
   * earlier one.
   */
  function ByName(lb: seq<Player>, value: Player -> int): map<string, int>
  {
    if lb == [] then map[]
    else ByName(lb[..|lb| - 1], value)[lb[|lb| - 1].name := value(lb[|lb| - 1])]
  }

  function RankOf(p: Player): int
  {
    p.rank
  }

  /** `typeof prev[p.name] === "number" ? prevRank - p.rank : 0`: positive when the player moved up. */
  function DeltaOf(prev: map<string, int>, p: Player): int
  {
    if p.name in prev then prev[p.name] - p.rank else 0
  }

  function DeltaAgainst(prev: map<string, int>): Player -> int
  {
    p => DeltaOf(prev, p)
  }

  /** `nextRanks`. */
  function RanksOf(lb: seq<Player>): map<string, int>
  {
    ByName(lb, RankOf)
  }

  /** `nextDeltas`, against the ranks stored by the previous poll. */
  function DeltasOf(prev: map<string, int>, lb: seq<Player>): map<string, int>
  {
    ByName(lb, DeltaAgainst(prev))
  }

  /** `json.leaderboard?.[0]?.name ?? null`. */
  function Top1Of(lb: seq<Player>): Option<string>
  {
    if lb == [] then None else Some(lb[0].name)
  }

  /** JavaScript truthiness of a nullable name: present and not the empty text. */
  predicate Truthy(n: Option<string>)
  {
    n.Some? && n.value != ""
  }

  /** `top1Name && prev && top1Name !== prev`. */
  predicate Fires(prevTop1: Option<string>, top1: Option<string>)
  {
    Truthy(top1) && Truthy(prevTop1) && top1.value != prevTop1.value
  }

  // ------------------------------------------------------ the poll state

  /** The screen's three state cells: `prevRanks`, `deltas` and `prevTop1`. */
  class RankTracker {
    var prevRanks: map<string, int>
    var deltas: map<string, int>
    var prevTop1: Option<string>

    /** The state before the first poll: empty records and no leader. */
    constructor ()
      ensures prevRanks == map[] && deltas == map[] && prevTop1 == None
    {
      prevRanks := map[];
      deltas := map[];
      prevTop1 := None;
    }

    /**
     * One poll: rebuilds the rank and delta records from `lb` with the two
     * loops, stores the new leader and reports whether confetti fires.
     */
    method Poll(lb: seq<Player>) returns (fired: bool)
      modifies this
      ensures prevRanks == RanksOf(lb)
      ensures deltas == DeltasOf(old(prevRanks), lb)
      ensures prevTop1 == Top1Of(lb)
      ensures fired == Fires(old(prevTop1), Top1Of(lb))
    {
      var nextRanks := NextRanks(lb);
      var nextDeltas := NextDeltas(prevRanks, lb);
      deltas := nextDeltas;
      prevRanks := nextRanks;
      var top1Name := if |lb| > 0 then Some(lb[0].name) else None;
      fired := top1Name.Some? && top1Name.value != "" && prevTop1.Some? && prevTop1.value != "" &&
        top1Name.value != prevTop1.value;
      prevTop1 := top1Name;
    }
  }

  /** The loop that fills `nextRanks`. */
  method NextRanks(lb: seq<Player>) returns (nextRanks: map<string, int>)
    ensures nextRanks == RanksOf(lb)
  {
    nextRanks := map[];
    for i := 0 to |lb|
      invariant nextRanks == ByName(lb[..i], RankOf)
    {
      assert lb[..i + 1][..i] == lb[..i];
      nextRanks := nextRanks[lb[i].name := lb[i].rank];
    }
    assert lb[..|lb|] == lb;
  }

  /** The loop that fills `nextDeltas` from the ranks of the previous poll. */
  method NextDeltas(prev: map<string, int>, lb: seq<Player>) returns (nextDeltas: map<string, int>)
    ensures nextDeltas == DeltasOf(prev, lb)
  {
    nextDeltas := map[];
    for i := 0 to |lb|
      invariant nextDeltas == ByName(lb[..i], DeltaAgainst(prev))
    {
      var p := lb[i];
      assert lb[..i + 1][..i] == lb[..i];
      nextDeltas := nextDeltas[p.name := if p.name in prev then prev[p.name] - p.rank else 0];
    }
    assert lb[..|lb|] == lb;
  }

  // ------------------------------------------------------ the fold's laws

  /** The record's keys are exactly the names on the leaderboard. */
  lemma {:induction false} ByNameKeys(lb: seq<Player>, value: Player -> int)
    ensures forall n :: n in ByName(lb, value) <==> exists i :: 0 <= i < |lb| && lb[i].name == n
  {
    if lb != [] {
      var init := lb[..|lb| - 1];
      ByNameKeys(init, value);
      forall n ensures n in ByName(lb, value) <==> exists i :: 0 <= i < |lb| && lb[i].name == n {
        if exists i :: 0 <= i < |init| && init[i].name == n {
          var i :| 0 <= i < |init| && init[i].name == n;
          assert lb[i].name == n;
        }
        if exists i :: 0 <= i < |lb| && lb[i].name == n {
          var i :| 0 <= i < |lb| && lb[i].name == n;
          if i < |init| {
            assert init[i].name == n;
          }
        }
      }
    }
  }

  /** The value recorded for a name is the one of its last entry. */
  lemma {:induction false} ByNameLast(lb: seq<Player>, value: Player -> int, i: nat)
    requires i < |lb| && forall j :: i < j < |lb| ==> lb[j].name != lb[i].name
    ensures lb[i].name in ByName(lb, value) && ByName(lb, value)[lb[i].name] == value(lb[i])
  {
    if i < |lb| - 1 {
      var init := lb[..|lb| - 1];
      assert init[i] == lb[i];
      ByNameLast(init, value, i);
    }
  }

  // ------------------------------------------------------ ranks and deltas

  /** After a poll the rank record holds exactly the new names, each with the rank of its last entry. */
  lemma RanksOfSpec(lb: seq<Player>)
    ensures forall n :: n in RanksOf(lb) <==> exists i :: 0 <= i < |lb| && lb[i].name == n
    ensures forall i :: 0 <= i < |lb| && (forall j :: i < j < |lb| ==> lb[j].name != lb[i].name) ==>
      RanksOf(lb)[lb[i].name] == lb[i].rank
  {
    ByNameKeys(lb, RankOf);
    forall i | 0 <= i < |lb| && (forall j :: i < j < |lb| ==> lb[j].name != lb[i].name)
      ensures RanksOf(lb)[lb[i].name] == lb[i].rank
    {
      ByNameLast(lb, RankOf, i);
    }
  }

  /** The delta record has exactly the new names as keys, each with its last entry's movement. */
  lemma DeltasOfSpec(prev: map<string, int>, lb: seq<Player>)
    ensures forall n :: n in DeltasOf(prev, lb) <==> exists i :: 0 <= i < |lb| && lb[i].name == n
    ensures forall i :: 0 <= i < |lb| && (forall j :: i < j < |lb| ==> lb[j].name != lb[i].name) ==>
      DeltasOf(prev, lb)[lb[i].name] == DeltaOf(prev, lb[i])
  {
    ByNameKeys(lb, DeltaAgainst(prev));
    forall i | 0 <= i < |lb| && (forall j :: i < j < |lb| ==> lb[j].name != lb[i].name)
      ensures DeltasOf(prev, lb)[lb[i].name] == DeltaOf(prev, lb[i])
    {
      ByNameLast(lb, DeltaAgainst(prev), i);
    }
  }

  /** A positive delta means a smaller rank number than last time: the player moved up. */
  lemma DeltaDirection(prev: map<string, int>, p: Player)
    ensures DeltaOf(prev, p) > 0 <==> p.name in prev && p.rank < prev[p.name]
    ensures DeltaOf(prev, p) < 0 <==> p.name in prev && p.rank > prev[p.name]
    ensures DeltaOf(prev, p) == 0 <==> p.name !in prev || p.rank == prev[p.name]
  {
  }

  /** Names missing from `deltas` render as 0. */
  function DisplayDelta(deltas: map<string, int>, name: string): (d: int)
    ensures name in deltas ==> d == deltas[name]
    ensures name !in deltas ==> d == 0
  {
    if name in deltas then deltas[name] else 0
  }

  /** The same leaderboard polled twice shows no movement, duplicates included. */
  lemma RepeatedPollNoMovement(lb: seq<Player>)
    ensures forall n :: n in DeltasOf(RanksOf(lb), lb) ==> DeltasOf(RanksOf(lb), lb)[n] == 0
  {
    var prev := RanksOf(lb);
    RanksOfSpec(lb);
    DeltasOfSpec(prev, lb);
    forall n | n in DeltasOf(prev, lb) ensures DeltasOf(prev, lb)[n] == 0 {
      var i := LastIndex(lb, n);
      assert DeltasOf(prev, lb)[lb[i].name] == DeltaOf(prev, lb[i]);
    }
  }

  /** The index of the last entry named `n`, or -1 when no entry has that name. */
  function LastIndex(lb: seq<Player>, n: string): (i: int)
    ensures -1 <= i < |lb|
    ensures i >= 0 ==> lb[i].name == n && forall j :: i < j < |lb| ==> lb[j].name != n
    ensures i < 0 ==> forall j :: 0 <= j < |lb| ==> lb[j].name != n
  {
    if lb == [] then -1
    else if lb[|lb| - 1].name == n then |lb| - 1
    else LastIndex(lb[..|lb| - 1], n)
  }

  /** The first poll has nothing to compare against: every delta is 0. */
  lemma FirstPollNoMovement(lb: seq<Player>)
    ensures forall n :: n in DeltasOf(map[], lb) ==> DeltasOf(map[], lb)[n] == 0
  {
    DeltasOfSpec(map[], lb);
    ByNameKeys(lb, DeltaAgainst(map[]));
    forall n | n in DeltasOf(map[], lb) ensures DeltasOf(map[], lb)[n] == 0 {
      var i := LastIndex(lb, n);
      assert DeltasOf(map[], lb)[lb[i].name] == DeltaOf(map[], lb[i]);
    }
  }

  // -------------------------------------------------------------- confetti

  /** Confetti fires exactly when a named leader replaces a different named leader. */
  lemma FiresSpec(prevTop1: Option<string>, lb: seq<Player>)
    ensures Fires(prevTop1, Top1Of(lb)) <==>
      lb != [] && lb[0].name != "" && prevTop1.Some? && prevTop1.value != "" && lb[0].name != prevTop1.value
  {
  }

  /** The same leader twice in a row, or no earlier leader, never fires. */
  lemma NoFireWithoutChange(lb: seq<Player>)
    ensures !Fires(Top1Of(lb), Top1Of(lb)) && !Fires(None, Top1Of(lb))
  {
  }

  // --------------------------------------------------------- the display

  /** The movement chip: its direction and its text. */
  datatype Chip = Chip(up: bool, text: string)

  const UpPrefix: string := "▲ +"
  const DownPrefix: string := "▼ "

  function Abs(d: int): nat
  {
    if d < 0 then -d else d
  }

  /** No chip for 0; otherwise "▲ +d" going up and "▼ |d|" going down. */
  function ChipOf(delta: int): (c: Option<Chip>)
    ensures c.None? <==> delta == 0
    ensures c.Some? ==> c.value.up == (delta > 0)
  {
    if delta == 0 then None
    else if delta > 0 then Some(Chip(true, UpPrefix + StringOf(delta)))
    else Some(Chip(false, DownPrefix + StringOf(Abs(delta))))
  }

  /** Reads a chip back as the movement it shows, or None when its text is not a chip's. */
  function ChipDelta(c: Chip): Option<int>
  {
    var prefix := if c.up then UpPrefix else DownPrefix;
    if |c.text| < |prefix| || c.text[..|prefix|] != prefix then None
    else
      var digits := c.text[|prefix|..];
      if !AllDigits(digits) then None
      else
        var v: int := DigitsValue(digits);
        if c.up then Some(v) else Some(-v)
  }

  /** A chip with a direction's prefix and the digits of `m` reads back as `m` in that direction. */
  lemma ChipDeltaOfText(up: bool, m: nat)
    ensures var prefix := if up then UpPrefix else DownPrefix;
      ChipDelta(Chip(up, prefix + NatText(m))) == Some(if up then m as int else -(m as int))
  {
    var prefix := if up then UpPrefix else DownPrefix;
    var text := prefix + NatText(m);
    assert text[..|prefix|] == prefix && text[|prefix|..] == NatText(m);
  }

  /** A chip's text reads back as the delta it was drawn for. */
  lemma ChipRoundTrip(delta: int)
    requires delta != 0
    ensures ChipOf(delta).Some? && ChipDelta(ChipOf(delta).value) == Some(delta)
  {
    if delta > 0 {
      assert StringOf(delta) == NatText(delta);
      ChipDeltaOfText(true, delta);
    } else {
      ChipDeltaOfText(false, Abs(delta));
    }
  }

  /** `data.leaderboard.slice(0, 5)`. */
  function TopFive(lb: seq<Player>): (r: seq<Player>)
    ensures |r| == if |lb| < 5 then |lb| else 5
    ensures r == lb[..|r|]
  {
    if |lb| < 5 then lb else lb[..5]
  }

  /** Every displayed entry has a delta from the same poll, so the `?? 0` fallback is never needed for it. */
  lemma DisplayedHaveDeltas(prev: map<string, int>, lb: seq<Player>)
    ensures forall k :: 0 <= k < |TopFive(lb)| ==> TopFive(lb)[k].name in DeltasOf(prev, lb)
  {
    ByNameKeys(lb, DeltaAgainst(prev));
    forall k | 0 <= k < |TopFive(lb)| ensures TopFive(lb)[k].name in DeltasOf(prev, lb) {
      assert TopFive(lb)[k] == lb[k];
    }
  }
}

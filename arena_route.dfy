/**
 * The leaderboard computed by the `GET /api/arena` handler: sheet rows are
 * normalised (`toInt`, `isTrueLike`), nameless rows dropped, submitted
 * players sorted by score with three tie-breaks and ranked by position, the
 * active roster reconciled against the ranked names ("missed"), and the
 * totals assembled. The two CSV payloads arrive as sequences of rows whose
 * cells may be absent; the `week` query parameter may be absent too.
 */
module ArenaRoute {
  import opened Wrappers
  import opened JsString
  import opened JsNumber
  import opened JsArray
  import opened JsSort

  /** A row of the ARENA_WEEKLY sheet, cell by cell, as the CSV parser hands it over. */
  datatype WeeklyRow = WeeklyRow(
    employeeName: Option<string>,
    submitted: Option<string>,
    pagesAdded: Option<string>,
    finishBonus: Option<string>,
    streakBonus: Option<string>,
    weeklyScore: Option<string>,
    rank: Option<string>,
    booksFinishedWeek: Option<string>,
    finishedTotal: Option<string>)

  /** A row of the Employees sheet. */
  datatype EmployeeRow = EmployeeRow(employeeName: Option<string>, active: Option<string>)

  /** A sheet row after normalisation. */
  datatype Player = Player(
    name: string,
    submitted: bool,
    pagesAdded: int,
    finishBonus: int,
    streakBonus: int,
    weeklyScore: int,
    booksFinishedWeek: int,
    finishedTotal: int,
    sheetRank: int)

  /** One leaderboard entry of the response. */
  datatype RankedEntry = RankedEntry(
    rank: int,
    name: string,
    weeklyScore: int,
    pages: int,
    totalPages: int,
    booksFinishedWeek: int,
    finishedTotal: int,
    finishBonus: int,
    streakBonus: int,
    sheetRank: Option<int>,
    week: string)

  /** A roster row after normalisation. */
  datatype Employee = Employee(name: string, active: bool)

  datatype Totals = Totals(totalEmployees: nat, submitted: nat, missed: nat)

  /** The JSON body of a successful response, without its `updatedAt` clock reading. */
  datatype ArenaResponse = ArenaResponse(
    week: string,
    totals: Totals,
    leaderboard: seq<RankedEntry>,
    missed: seq<string>,
    newFinishers: seq<string>)

  /** `String(x ?? "")` for a cell that is a string or absent. */
  function Text(x: Option<string>): string
  {
    x.GetOr("")
  }

  /** The text `toInt` hands to `Number`: trimmed, first ',' made '.', every other symbol deleted. */
  function CleanNumeric(s: string): (r: string)
    ensures forall k :: 0 <= k < |r| ==> IsNumeric(r[k])
  {
    KeepNumeric(ReplaceFirst(Trim(s), ',', '.'))
  }

  /**
   * `toInt`: the floor of the cleaned text's numeric value, and 0 when the
   * cleaned text is not a number.
   */
  function ToInt(x: Option<string>): (r: int)
    ensures var n := NumberOf(CleanNumeric(Text(x)));
      && (n.None? ==> r == 0)
      && (n.Some? ==> r as real <= n.value < r as real + 1.0)
  {
    match NumberOf(CleanNumeric(Text(x)))
    case Some(v) => v.Floor
    case None => 0
  }

  /** `isTrueLike`: the trimmed, lower-cased text is one of the five accepted spellings. */
  predicate IsTrueLike(v: Option<string>)
  {
    var s := ToLowerCase(Trim(Text(v)));
    s == "true" || s == "1" || s == "yes" || s == "y" || s == "iya"
  }

  function NormalizeRow(r: WeeklyRow): Player
  {
    Player(
      Trim(Text(r.employeeName)),
      IsTrueLike(r.submitted),
      ToInt(r.pagesAdded),
      ToInt(r.finishBonus),
      ToInt(r.streakBonus),
      ToInt(r.weeklyScore),
      ToInt(r.booksFinishedWeek),
      ToInt(r.finishedTotal),
      ToInt(r.rank))
  }

  predicate HasName(p: Player)
  {
    p.name != ""
  }

  predicate IsSubmitted(p: Player)
  {
    p.submitted
  }

  /** Every sheet row normalised, in sheet order. */
  function NormalizedRows(rows: seq<WeeklyRow>): seq<Player>
  {
    seq(|rows|, i requires 0 <= i < |rows| => NormalizeRow(rows[i]))
  }

  /** The normalised rows with a name (the handler's `submittedRows`). */
  function NamedRows(rows: seq<WeeklyRow>): seq<Player>
  {
    Filter(NormalizedRows(rows), HasName)
  }

  /** The named rows whose `submitted` flag is true-like (the handler's `playersRaw`). */
  function SubmittedPlayers(rows: seq<WeeklyRow>): seq<Player>
  {
    Filter(NamedRows(rows), IsSubmitted)
  }

  /**
   * The comparator handed to `sort`: weekly score descending, then books
   * finished this week descending, then pages added descending, then name
   * ascending. Each `||` moves on only when the difference before it is 0.
   */
  function ComparePlayers(a: Player, b: Player): int
  {
    if b.weeklyScore - a.weeklyScore != 0 then b.weeklyScore - a.weeklyScore
    else if b.booksFinishedWeek - a.booksFinishedWeek != 0 then b.booksFinishedWeek - a.booksFinishedWeek
    else if b.pagesAdded - a.pagesAdded != 0 then b.pagesAdded - a.pagesAdded
    else CompareStrings(a.name, b.name)
  }

  /** `playersRaw` after `playersRaw.sort(...)`. */
  function SortPlayers(players: seq<Player>): seq<Player>
  {
    InsertionSort(players, ComparePlayers)
  }

  /** The entry for `p` at `rank`; a sheet rank of 0 is reported as null. */
  function Entry(p: Player, rank: int, week: string): RankedEntry
  {
    RankedEntry(
      rank, p.name, p.weeklyScore, p.pagesAdded, 0, p.booksFinishedWeek,
      p.finishedTotal, p.finishBonus, p.streakBonus,
      if p.sheetRank == 0 then None else Some(p.sheetRank), week)
  }

  /** `playersRaw.map((p, i) => ({ rank: i + 1, ... }))`. */
  function Rank(players: seq<Player>, week: string): seq<RankedEntry>
  {
    seq(|players|, i requires 0 <= i < |players| => Entry(players[i], i + 1, week))
  }

  function NormalizeEmployee(e: EmployeeRow): Employee
  {
    Employee(Trim(Text(e.employeeName)), IsTrueLike(e.active))
  }

  predicate IsActiveNamed(e: Employee)
  {
    e.name != "" && e.active
  }

  /** Every roster row normalised, in roster order. */
  function NormalizedRoster(employees: seq<EmployeeRow>): seq<Employee>
  {
    seq(|employees|, i requires 0 <= i < |employees| => NormalizeEmployee(employees[i]))
  }

  /** The names of a list of roster entries. */
  function EmployeeNames(kept: seq<Employee>): seq<string>
  {
    seq(|kept|, i requires 0 <= i < |kept| => kept[i].name)
  }

  /** The names of the active, named roster rows, in roster order, duplicates kept. */
  function ActiveEmployees(employees: seq<EmployeeRow>): seq<string>
  {
    EmployeeNames(Filter(NormalizedRoster(employees), IsActiveNamed))
  }

  /** The set of ranked names (`submittedSet`). */
  function NameSet(ranked: seq<RankedEntry>): set<string>
  {
    set k | 0 <= k < |ranked| :: ranked[k].name
  }

  /** The test `!submittedSet.has(name)`. */
  function NotIn(names: set<string>): string -> bool
  {
    n => n !in names
  }

  /** The active names not in `names`, in roster order. */
  function Unsubmitted(active: seq<string>, names: set<string>): seq<string>
  {
    Filter(active, NotIn(names))
  }

  /** The `missed` list: the unsubmitted active names, sorted by `localeCompare`. */
  function Missed(active: seq<string>, names: set<string>): seq<string>
  {
    InsertionSort(Unsubmitted(active, names), CompareStrings)
  }

  predicate IsNewFinisher(e: RankedEntry)
  {
    e.booksFinishedWeek > 0
  }

  /** The ranked entries with at least one book finished this week, in rank order. */
  function FinisherEntries(ranked: seq<RankedEntry>): seq<RankedEntry>
  {
    Filter(ranked, IsNewFinisher)
  }

  /** `newFinishers`: the names of `FinisherEntries`. */
  function NewFinishers(ranked: seq<RankedEntry>): seq<string>
  {
    var f := FinisherEntries(ranked);
    seq(|f|, i requires 0 <= i < |f| => f[i].name)
  }

  /** The trimmed `week` parameter, or "CURRENT" when it is absent or blank. */
  function EffectiveWeek(weekParam: Option<string>): string
  {
    var w := Trim(Text(weekParam));
    if w == "" then "CURRENT" else w
  }

  /** The whole response body as a function of the two sheets and the `week` parameter. */
  function Arena(rows: seq<WeeklyRow>, employees: seq<EmployeeRow>, weekParam: Option<string>): ArenaResponse
  {
    var week := EffectiveWeek(weekParam);
    var ranked := Rank(SortPlayers(SubmittedPlayers(rows)), week);
    var active := ActiveEmployees(employees);
    var missed := Missed(active, NameSet(ranked));
    ArenaResponse(week, Totals(|active|, |ranked|, |missed|), ranked, missed, NewFinishers(ranked))
  }

  /** `new Set(leaderboard.map((p) => p.name))`, built one name at a time. */
  method BuildNameSet(ranked: seq<RankedEntry>) returns (names: set<string>)
    ensures names == NameSet(ranked)
  {
    names := {};
    for i := 0 to |ranked|
      invariant names == set k | 0 <= k < i :: ranked[k].name
    {
      names := names + {ranked[i].name};
    }
  }

  /**
   * The handler's steps as it runs them: the submitted players sorted in an
   * array, the set of ranked names built one name at a time, the missed
   * names sorted in an array.
   */
  method Get(rows: seq<WeeklyRow>, employees: seq<EmployeeRow>, weekParam: Option<string>)
    returns (resp: ArenaResponse)
    ensures resp == Arena(rows, employees, weekParam)
  {
    var weekText := Trim(Text(weekParam));
    var effectiveWeek := if weekText == "" then "CURRENT" else weekText;
    var playersRaw := SortedCopy(SubmittedPlayers(rows), ComparePlayers);
    var ranked := Rank(playersRaw, effectiveWeek);
    var active := ActiveEmployees(employees);
    var submittedSet := BuildNameSet(ranked);
    var missed := SortedCopy(Unsubmitted(active, submittedSet), CompareStrings);
    resp := ArenaResponse(effectiveWeek, Totals(|active|, |ranked|, |missed|), ranked, missed, NewFinishers(ranked));
  }
}

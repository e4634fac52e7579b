/** What the `GET /api/arena` handler guarantees about the order, contents and counts of its response. */
module ArenaLeaderboard {
  import opened Wrappers
  import opened JsString
  import opened JsArray
  import opened JsSort
  import opened ArenaRoute

  // ---------------------------------------------------------- comparators

  /** `localeCompare`, read as code-point order, is a total preorder. */
  lemma CompareStringsPreorder()
    ensures IsTotalPreorder(CompareStrings)
  {
    forall a: string, b: string ensures CompareStrings(a, b) <= 0 || CompareStrings(b, a) <= 0 {
      CompareStringsFlip(a, b);
    }
    forall a: string, b: string, c: string | Le(CompareStrings, a, b) && Le(CompareStrings, b, c)
      ensures CompareStrings(a, c) <= 0
    {
      CompareStringsTransitive(a, b, c);
    }
  }

  /**
   * The order the leaderboard promises: a higher weekly score first, then
   * more books finished this week, then more pages, then the name that
   * sorts first.
   */
  ghost predicate KeysAhead(score: int, books: int, pages: int, name: string,
                            score': int, books': int, pages': int, name': string)
  {
    || score > score'
    || (score == score' && books > books')
    || (score == score' && books == books' && pages > pages')
    || (score == score' && books == books' && pages == pages' && LexLess(name, name'))
  }

  /** `a` ranks ahead of `b` on the players' four sort keys. */
  ghost predicate RanksAhead(a: Player, b: Player)
  {
    KeysAhead(a.weeklyScore, a.booksFinishedWeek, a.pagesAdded, a.name,
              b.weeklyScore, b.booksFinishedWeek, b.pagesAdded, b.name)
  }

  /** The four sort keys agree. */
  ghost predicate SameKeys(a: Player, b: Player)
  {
    a.weeklyScore == b.weeklyScore && a.booksFinishedWeek == b.booksFinishedWeek &&
    a.pagesAdded == b.pagesAdded && a.name == b.name
  }

  /** The comparator puts `a` first exactly when `a` ranks ahead. */
  lemma ComparePlayersLess(a: Player, b: Player)
    ensures ComparePlayers(a, b) < 0 <==> RanksAhead(a, b)
  {
    CompareStringsLess(a.name, b.name);
  }

  /** The comparator reports a tie exactly when all four keys agree. */
  lemma ComparePlayersZero(a: Player, b: Player)
    ensures ComparePlayers(a, b) == 0 <==> SameKeys(a, b)
  {
    CompareStringsZero(a.name, b.name);
  }

  /** Swapping the players negates the comparison. */
  lemma ComparePlayersFlip(a: Player, b: Player)
    ensures ComparePlayers(b, a) == -ComparePlayers(a, b)
  {
    CompareStringsFlip(a.name, b.name);
  }

  /** `a` may stay before `b`: it ranks ahead or ties on every key. */
  lemma ComparePlayersLe(a: Player, b: Player)
    ensures ComparePlayers(a, b) <= 0 <==> RanksAhead(a, b) || SameKeys(a, b)
  {
    ComparePlayersLess(a, b);
    ComparePlayersZero(a, b);
  }

  lemma ComparePlayersTransitive(a: Player, b: Player, c: Player)
    requires ComparePlayers(a, b) <= 0 && ComparePlayers(b, c) <= 0
    ensures ComparePlayers(a, c) <= 0
  {
    if a.weeklyScore == b.weeklyScore == c.weeklyScore &&
       a.booksFinishedWeek == b.booksFinishedWeek == c.booksFinishedWeek &&
       a.pagesAdded == b.pagesAdded == c.pagesAdded
    {
      CompareStringsTransitive(a.name, b.name, c.name);
    }
  }

  /** The leaderboard comparator is a total preorder, so the sort's result is well defined. */
  lemma ComparePlayersPreorder()
    ensures IsTotalPreorder(ComparePlayers)
  {
    forall a: Player, b: Player ensures ComparePlayers(a, b) <= 0 || ComparePlayers(b, a) <= 0 {
      ComparePlayersFlip(a, b);
    }
    forall a: Player, b: Player, c: Player | Le(ComparePlayers, a, b) && Le(ComparePlayers, b, c)
      ensures ComparePlayers(a, c) <= 0
    {
      ComparePlayersTransitive(a, b, c);
    }
  }

  // ---------------------------------------------------------- leaderboard

  /** No player of the sorted list ranks ahead of one placed before it. */
  lemma SortPlayersOrdered(ps: seq<Player>)
    ensures var s := SortPlayers(ps);
      forall i, j :: 0 <= i < j < |s| ==> !RanksAhead(s[j], s[i])
  {
    var s := SortPlayers(ps);
    ComparePlayersPreorder();
    InsertionSortSorted(ps, ComparePlayers);
    SortedIsPairwise(s, ComparePlayers);
    forall i, j | 0 <= i < j < |s| ensures !RanksAhead(s[j], s[i]) {
      ComparePlayersFlip(s[i], s[j]);
      ComparePlayersLess(s[j], s[i]);
    }
  }

  /** Sorting neither adds, drops nor duplicates a player. */
  lemma SortPlayersPermutes(ps: seq<Player>)
    ensures multiset(SortPlayers(ps)) == multiset(ps)
  {
    InsertionSortPermutes(ps, ComparePlayers);
  }

  /** Players that tie on all four keys keep the order they had in the sheet. */
  lemma SortPlayersStable(ps: seq<Player>, x: Player)
    ensures Filter(SortPlayers(ps), p => SameKeys(p, x)) == Filter(ps, p => SameKeys(p, x))
  {
    var s := SortPlayers(ps);
    var eq := EquivalentTo(ComparePlayers, x);
    var same := (p: Player) => SameKeys(p, x);
    ComparePlayersPreorder();
    InsertionSortStable(ps, ComparePlayers, x);
    forall k | 0 <= k < |s| ensures eq(s[k]) == same(s[k]) {
      ComparePlayersFlip(s[k], x);
      ComparePlayersZero(s[k], x);
    }
    forall k | 0 <= k < |ps| ensures eq(ps[k]) == same(ps[k]) {
      ComparePlayersFlip(ps[k], x);
      ComparePlayersZero(ps[k], x);
    }
    FilterExt(s, eq, same);
    FilterExt(ps, eq, same);
  }

  /** Of two players, the one that ranks ahead comes first whatever their sheet order. */
  lemma SortTwoPlayers(a: Player, b: Player)
    requires RanksAhead(a, b)
    ensures SortPlayers([a, b]) == [a, b] && SortPlayers([b, a]) == [a, b]
  {
    ComparePlayersLess(a, b);
    ComparePlayersFlip(a, b);
    assert [a, b][..1] == [a] && [b, a][..1] == [b];
    assert InsertionSort([a], ComparePlayers) == [a];
    assert InsertionSort([b], ComparePlayers) == [b];
  }

  /** A tie on the weekly score goes to the player with more books finished this week. */
  lemma TieBrokenByBooks(a: Player, b: Player)
    requires a.weeklyScore == b.weeklyScore && a.booksFinishedWeek > b.booksFinishedWeek
    ensures SortPlayers([b, a]) == [a, b]
  {
    SortTwoPlayers(a, b);
  }

  /** How the response is assembled from its parts. */
  lemma ArenaParts(rows: seq<WeeklyRow>, employees: seq<EmployeeRow>, weekParam: Option<string>)
    ensures var resp := Arena(rows, employees, weekParam);
      && resp.week == EffectiveWeek(weekParam)
      && resp.leaderboard == Rank(SortPlayers(SubmittedPlayers(rows)), resp.week)
      && resp.missed == Missed(ActiveEmployees(employees), NameSet(resp.leaderboard))
      && resp.newFinishers == NewFinishers(resp.leaderboard)
      && resp.totals == Totals(|ActiveEmployees(employees)|, |resp.leaderboard|, |resp.missed|)
  {
  }

  /**
   * Ranking numbers the players from 1, copies each player's figures,
   * reports `totalPages` as 0 and a sheet rank of 0 as null, and tags each
   * entry with the week.
   */
  lemma RankNumbers(s: seq<Player>, week: string)
    ensures var ranked := Rank(s, week);
      && |ranked| == |s|
      && forall i :: 0 <= i < |ranked| ==>
        && ranked[i].rank == i + 1 && ranked[i].week == week && ranked[i].name == s[i].name
        && ranked[i].weeklyScore == s[i].weeklyScore && ranked[i].pages == s[i].pagesAdded
        && ranked[i].totalPages == 0 && ranked[i].booksFinishedWeek == s[i].booksFinishedWeek
        && ranked[i].finishedTotal == s[i].finishedTotal && ranked[i].finishBonus == s[i].finishBonus
        && ranked[i].streakBonus == s[i].streakBonus
        && ranked[i].sheetRank == (if s[i].sheetRank == 0 then None else Some(s[i].sheetRank))
  {
  }

  /** The response's leaderboard: rank `i + 1` at position `i`, one entry per named submitted row, all tagged with the week. */
  lemma LeaderboardRanks(rows: seq<WeeklyRow>, employees: seq<EmployeeRow>, weekParam: Option<string>)
    ensures var resp := Arena(rows, employees, weekParam);
      && |resp.leaderboard| == |SubmittedPlayers(rows)| == resp.totals.submitted
      && forall i :: 0 <= i < |resp.leaderboard| ==>
           resp.leaderboard[i].rank == i + 1 && resp.leaderboard[i].week == resp.week
  {
    ArenaParts(rows, employees, weekParam);
    RankNumbers(SortPlayers(SubmittedPlayers(rows)), EffectiveWeek(weekParam));
  }

  /** An entry ranks ahead of another: the leaderboard order stated on the entries' own fields. */
  ghost predicate EntryAhead(a: RankedEntry, b: RankedEntry)
  {
    KeysAhead(a.weeklyScore, a.booksFinishedWeek, a.pages, a.name,
              b.weeklyScore, b.booksFinishedWeek, b.pages, b.name)
  }

  /** No leaderboard entry ranks ahead of an entry listed above it. */
  lemma LeaderboardOrdered(rows: seq<WeeklyRow>, employees: seq<EmployeeRow>, weekParam: Option<string>)
    ensures var lb := Arena(rows, employees, weekParam).leaderboard;
      forall i, j :: 0 <= i < j < |lb| ==> !EntryAhead(lb[j], lb[i])
  {
    ArenaParts(rows, employees, weekParam);
    SortPlayersOrdered(SubmittedPlayers(rows));
    RankOrdered(SortPlayers(SubmittedPlayers(rows)), EffectiveWeek(weekParam));
  }

  /** Ranking a sorted list keeps its order on the entries. */
  lemma RankOrdered(s: seq<Player>, week: string)
    requires forall i, j :: 0 <= i < j < |s| ==> !RanksAhead(s[j], s[i])
    ensures var lb := Rank(s, week);
      forall i, j :: 0 <= i < j < |lb| ==> !EntryAhead(lb[j], lb[i])
  {
  }

  // ----------------------------------------------------------- membership

  /** Some normalised row of the weekly sheet has the name `n` and a true-like `submitted` flag. */
  ghost predicate SubmittedName(rows: seq<WeeklyRow>, n: string)
  {
    exists p :: p in NormalizedRows(rows) && p.name == n && n != "" && p.submitted
  }

  /** Some normalised roster row has the name `n` and a true-like `active` flag. */
  ghost predicate ActiveName(employees: seq<EmployeeRow>, n: string)
  {
    exists e :: e in NormalizedRoster(employees) && e.name == n && n != "" && e.active
  }

  /** The submitted players are exactly the normalised rows that carry a name and a true-like flag. */
  lemma SubmittedPlayersMembers(rows: seq<WeeklyRow>)
    ensures forall p :: p in SubmittedPlayers(rows) <==> p in NormalizedRows(rows) && p.name != "" && p.submitted
  {
    FilterMembers(NormalizedRows(rows), HasName);
    FilterMembers(NamedRows(rows), IsSubmitted);
  }

  /** The active roster names are exactly the names of roster rows with a true-like `active` flag. */
  lemma ActiveEmployeesMembers(employees: seq<EmployeeRow>)
    ensures forall n :: n in ActiveEmployees(employees) <==> ActiveName(employees, n)
  {
    var all := NormalizedRoster(employees);
    var kept := Filter(all, IsActiveNamed);
    var names := EmployeeNames(kept);
    FilterMembers(all, IsActiveNamed);
    forall n ensures n in names <==> ActiveName(employees, n) {
      if n in names {
        var k :| 0 <= k < |kept| && names[k] == n;
        assert kept[k] in all;
      }
      if ActiveName(employees, n) {
        var e :| e in all && e.name == n && n != "" && e.active;
        assert e in kept;
        var k :| 0 <= k < |kept| && kept[k] == e;
        assert names[k] == n;
      }
    }
  }

  /** The names of a ranked list are the names of the players ranked. */
  lemma RankNames(s: seq<Player>, week: string)
    ensures forall n :: n in NameSet(Rank(s, week)) <==> exists p :: p in s && p.name == n
  {
    var ranked := Rank(s, week);
    forall n | exists p :: p in s && p.name == n ensures n in NameSet(ranked) {
      var p :| p in s && p.name == n;
      var k :| 0 <= k < |s| && s[k] == p;
      assert ranked[k].name == n;
    }
  }

  /** Ranking keeps every player's name and adds none. */
  lemma RankedNamesOf(ps: seq<Player>, week: string)
    ensures forall n :: n in NameSet(Rank(SortPlayers(ps), week)) <==> exists p :: p in ps && p.name == n
  {
    RankNames(SortPlayers(ps), week);
    InsertionSortMembers(ps, ComparePlayers);
  }

  /** The ranked names are exactly the names of the submitted rows. */
  lemma RankedNames(rows: seq<WeeklyRow>, week: string)
    ensures forall n :: n in NameSet(Rank(SortPlayers(SubmittedPlayers(rows)), week)) <==> SubmittedName(rows, n)
  {
    RankedNamesOf(SubmittedPlayers(rows), week);
    SubmittedPlayersMembers(rows);
  }

  // --------------------------------------------------------------- missed

  /** A name is missed exactly when it is on the active roster and not among the ranked names. */
  lemma MissedMembers(active: seq<string>, names: set<string>)
    ensures forall n :: n in Missed(active, names) <==> n in active && n !in names
  {
    InsertionSortMembers(Unsubmitted(active, names), CompareStrings);
    FilterMembers(active, NotIn(names));
  }

  /** A missed name occurs as often as the roster lists it: duplicates are kept, not merged. */
  lemma MissedCounts(active: seq<string>, names: set<string>)
    ensures forall n :: multiset(Missed(active, names))[n] == if n in names then 0 else multiset(active)[n]
  {
    InsertionSortPermutes(Unsubmitted(active, names), CompareStrings);
    FilterMultiset(active, NotIn(names));
  }

  /** The missed names are in `localeCompare` order. */
  lemma MissedSorted(active: seq<string>, names: set<string>)
    ensures var m := Missed(active, names);
      forall i, j :: 0 <= i < j < |m| ==> CompareStrings(m[i], m[j]) <= 0
  {
    CompareStringsPreorder();
    InsertionSortSorted(Unsubmitted(active, names), CompareStrings);
    SortedIsPairwise(Missed(active, names), CompareStrings);
  }

  /** The response's missed list holds exactly the active roster names that no submitted row carries. */
  lemma ArenaMissed(rows: seq<WeeklyRow>, employees: seq<EmployeeRow>, weekParam: Option<string>)
    ensures var resp := Arena(rows, employees, weekParam);
      forall n :: n in resp.missed <==> ActiveName(employees, n) && !SubmittedName(rows, n)
  {
    ArenaParts(rows, employees, weekParam);
    var week := EffectiveWeek(weekParam);
    var ranked := Rank(SortPlayers(SubmittedPlayers(rows)), week);
    MissedMembers(ActiveEmployees(employees), NameSet(ranked));
    ActiveEmployeesMembers(employees);
    RankedNames(rows, week);
  }

  /** Nobody is both on the leaderboard and in the missed list. */
  lemma MissedNotRanked(rows: seq<WeeklyRow>, employees: seq<EmployeeRow>, weekParam: Option<string>)
    ensures var resp := Arena(rows, employees, weekParam);
      forall k, n :: 0 <= k < |resp.leaderboard| && n in resp.missed ==> resp.leaderboard[k].name != n
  {
    ArenaParts(rows, employees, weekParam);
    var resp := Arena(rows, employees, weekParam);
    MissedMembers(ActiveEmployees(employees), NameSet(resp.leaderboard));
  }

  // --------------------------------------------------------------- totals

  /** Every normalised sheet row carries its name trimmed. */
  lemma NormalizedNamesTrimmed(rows: seq<WeeklyRow>)
    ensures forall p :: p in NormalizedRows(rows) ==> Trim(p.name) == p.name
  {
    forall p | p in NormalizedRows(rows) ensures Trim(p.name) == p.name {
      var i :| 0 <= i < |rows| && NormalizedRows(rows)[i] == p;
      TrimIdempotent(Text(rows[i].employeeName));
    }
  }

  /** Every normalised roster row carries its name trimmed. */
  lemma NormalizedRosterTrimmed(employees: seq<EmployeeRow>)
    ensures forall e :: e in NormalizedRoster(employees) ==> Trim(e.name) == e.name
  {
    forall e | e in NormalizedRoster(employees) ensures Trim(e.name) == e.name {
      var i :| 0 <= i < |employees| && NormalizedRoster(employees)[i] == e;
      TrimIdempotent(Text(employees[i].employeeName));
    }
  }

  /** Every leaderboard name is non-empty and carries no surrounding white space. */
  lemma LeaderboardNamesTrimmed(rows: seq<WeeklyRow>, employees: seq<EmployeeRow>, weekParam: Option<string>)
    ensures var lb := Arena(rows, employees, weekParam).leaderboard;
      forall k :: 0 <= k < |lb| ==> lb[k].name != "" && Trim(lb[k].name) == lb[k].name
  {
    ArenaParts(rows, employees, weekParam);
    var lb := Arena(rows, employees, weekParam).leaderboard;
    RankedNames(rows, EffectiveWeek(weekParam));
    NormalizedNamesTrimmed(rows);
    forall k | 0 <= k < |lb| ensures lb[k].name != "" && Trim(lb[k].name) == lb[k].name {
      assert lb[k].name in NameSet(lb);
      assert SubmittedName(rows, lb[k].name);
    }
  }

  /** Every missed name is non-empty and carries no surrounding white space. */
  lemma MissedNamesTrimmed(rows: seq<WeeklyRow>, employees: seq<EmployeeRow>, weekParam: Option<string>)
    ensures var m := Arena(rows, employees, weekParam).missed;
      forall k :: 0 <= k < |m| ==> m[k] != "" && Trim(m[k]) == m[k]
  {
    var m := Arena(rows, employees, weekParam).missed;
    ArenaMissed(rows, employees, weekParam);
    NormalizedRosterTrimmed(employees);
    forall k | 0 <= k < |m| ensures m[k] != "" && Trim(m[k]) == m[k] {
      assert m[k] in m;
      assert ActiveName(employees, m[k]);
    }
  }

  /** The test `submittedSet.has(name)`. */
  function IsIn(names: set<string>): string -> bool
  {
    n => n in names
  }

  /**
   * The totals count the active roster, the leaderboard and the missed list,
   * and every active roster row is either ranked or missed.
   */
  lemma ArenaTotals(rows: seq<WeeklyRow>, employees: seq<EmployeeRow>, weekParam: Option<string>)
    ensures var resp := Arena(rows, employees, weekParam);
      var active := ActiveEmployees(employees);
      && resp.totals.totalEmployees == |active|
      && resp.totals.submitted == |SubmittedPlayers(rows)| == |resp.leaderboard|
      && resp.totals.missed == |resp.missed|
      && resp.totals.missed + |Filter(active, IsIn(NameSet(resp.leaderboard)))| == resp.totals.totalEmployees
  {
    ArenaParts(rows, employees, weekParam);
    var resp := Arena(rows, employees, weekParam);
    var names := NameSet(resp.leaderboard);
    FilterSplitCount(ActiveEmployees(employees), IsIn(names), NotIn(names));
  }

  // -------------------------------------------------------- new finishers

  /** `newFinishers` names exactly the ranked entries with a book finished this week. */
  lemma NewFinishersMembers(ranked: seq<RankedEntry>)
    ensures forall n :: n in NewFinishers(ranked) <==>
      exists k :: 0 <= k < |ranked| && ranked[k].name == n && ranked[k].booksFinishedWeek > 0
  {
    var f := FinisherEntries(ranked);
    FilterMembers(ranked, IsNewFinisher);
    forall n ensures n in NewFinishers(ranked) <==>
      exists k :: 0 <= k < |ranked| && ranked[k].name == n && ranked[k].booksFinishedWeek > 0
    {
      if n in NewFinishers(ranked) {
        var i :| 0 <= i < |f| && f[i].name == n;
        assert f[i] in ranked;
      }
      if exists k :: 0 <= k < |ranked| && ranked[k].name == n && ranked[k].booksFinishedWeek > 0 {
        var k :| 0 <= k < |ranked| && ranked[k].name == n && ranked[k].booksFinishedWeek > 0;
        assert ranked[k] in f;
        var i :| 0 <= i < |f| && f[i] == ranked[k];
        assert NewFinishers(ranked)[i] == n;
      }
    }
  }

  /** The new finishers are listed in leaderboard order. */
  lemma NewFinishersInRankOrder(s: seq<Player>, week: string)
    ensures var f := FinisherEntries(Rank(s, week));
      forall i, j :: 0 <= i < j < |f| ==> f[i].rank < f[j].rank
  {
    FilterKeepsOrder(Rank(s, week), IsNewFinisher, (a: RankedEntry, b: RankedEntry) => a.rank < b.rank);
  }

  /** The response's `newFinishers`: the leaderboard names with a book finished this week, in rank order. */
  lemma ArenaNewFinishers(rows: seq<WeeklyRow>, employees: seq<EmployeeRow>, weekParam: Option<string>)
    ensures var resp := Arena(rows, employees, weekParam);
      var lb := resp.leaderboard;
      && (forall n :: n in resp.newFinishers <==>
            exists k :: 0 <= k < |lb| && lb[k].name == n && lb[k].booksFinishedWeek > 0)
      && (forall i, j :: 0 <= i < j < |FinisherEntries(lb)| ==> FinisherEntries(lb)[i].rank < FinisherEntries(lb)[j].rank)
  {
    ArenaParts(rows, employees, weekParam);
    var resp := Arena(rows, employees, weekParam);
    NewFinishersMembers(resp.leaderboard);
    NewFinishersInRankOrder(SortPlayers(SubmittedPlayers(rows)), resp.week);
  }

  // ------------------------------------------------------------ scenarios

  /** A week nobody submitted: an empty leaderboard, and the whole active roster, sorted, missed. */
  lemma NoActivity(employees: seq<EmployeeRow>, weekParam: Option<string>)
    ensures var resp := Arena([], employees, weekParam);
      && resp.leaderboard == [] && resp.newFinishers == []
      && resp.missed == InsertionSort(ActiveEmployees(employees), CompareStrings)
      && resp.totals.submitted == 0 && resp.totals.missed == resp.totals.totalEmployees
  {
    ArenaParts([], employees, weekParam);
    var active := ActiveEmployees(employees);
    assert NormalizedRows([]) == [];
    assert NameSet([]) == {};
    FilterAll(active, NotIn({}));
  }

  /** A single named, submitted row is the whole list of submitted players. */
  lemma SubmittedSingle(r: WeeklyRow)
    requires NormalizeRow(r).name != "" && NormalizeRow(r).submitted
    ensures SubmittedPlayers([r]) == [NormalizeRow(r)]
  {
    var p := NormalizeRow(r);
    assert NormalizedRows([r]) == [p];
    assert Filter([p], HasName) == [p];
    assert Filter([p], IsSubmitted) == [p];
  }

  /** Two active, named roster rows give their two names, in roster order. */
  lemma ActivePair(e1: EmployeeRow, e2: EmployeeRow)
    requires IsActiveNamed(NormalizeEmployee(e1)) && IsActiveNamed(NormalizeEmployee(e2))
    ensures ActiveEmployees([e1, e2]) == [NormalizeEmployee(e1).name, NormalizeEmployee(e2).name]
  {
    var a, b := NormalizeEmployee(e1), NormalizeEmployee(e2);
    assert NormalizedRoster([e1, e2]) == [a, b];
    FilterAll([a, b], IsActiveNamed);
  }

  /** Of two different roster names, missing all but the first leaves the second. */
  lemma MissedOfPair(a: string, b: string)
    requires a != b
    ensures Missed([a, b], {a}) == [b]
  {
    assert !NotIn({a})(a) && NotIn({a})(b);
    assert [a, b][1..] == [b] && [b][1..] == [];
    assert Filter([b], NotIn({a})) == [b];
    assert Filter([a, b], NotIn({a})) == Filter([b], NotIn({a}));
    assert InsertionSort([b], CompareStrings) == [b];
  }

  /**
   * One submitted row against a roster of two active names, one of them the
   * submitter's: a single entry at rank 1, and the other name missed.
   */
  lemma OneOfTwoSubmitted(r: WeeklyRow, e1: EmployeeRow, e2: EmployeeRow, weekParam: Option<string>)
    requires NormalizeRow(r).name != "" && NormalizeRow(r).submitted
    requires IsActiveNamed(NormalizeEmployee(e1)) && IsActiveNamed(NormalizeEmployee(e2))
    requires NormalizeEmployee(e1).name == NormalizeRow(r).name != NormalizeEmployee(e2).name
    ensures var resp := Arena([r], [e1, e2], weekParam);
      && resp.leaderboard == [Entry(NormalizeRow(r), 1, EffectiveWeek(weekParam))]
      && resp.missed == [NormalizeEmployee(e2).name]
      && resp.totals == Totals(2, 1, 1)
  {
    var p := NormalizeRow(r);
    var week := EffectiveWeek(weekParam);
    ArenaParts([r], [e1, e2], weekParam);
    SubmittedSingle(r);
    assert SortPlayers([p]) == [p];
    var ranked := Rank([p], week);
    assert ranked == [Entry(p, 1, week)];
    assert NameSet(ranked) == {p.name};
    ActivePair(e1, e2);
    MissedOfPair(p.name, NormalizeEmployee(e2).name);
  }
}

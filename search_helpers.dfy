/** The search-mode record filter: findMatches (event ID, time window,
    command line, user, operation and package gates) and
    searchForMatchingPackages. Regular expressions are predicates on
    strings; RFC 3339 timestamps are parsed by the parameter `parseTime`
    into instants. */
module SearchHelpers {
  import opened Types

  /** A compiled regular expression, as its MatchString. */
  type Pattern = string -> bool

  /** The parsed search options; an absent pattern is a nil *regexp.Regexp. */
  datatype SearchParameters = SearchParameters(
    eventID: string,
    startTimestamp: int,
    endTimestamp: int,
    pkgName: Option<Pattern>,
    pkgVersion: Option<Pattern>,
    operation: Option<Pattern>,
    cmdLine: Option<Pattern>,
    userName: Option<Pattern>,
    userID: int)

  /** findMatches' (searchMatched, matchedLogs, err): a match with the record
      to report, no match, or a record timestamp that does not parse. */
  datatype Outcome = NoMatch | Matched(record: LogJSON) | TimeError

  predicate NameHit(name: Option<Pattern>, p: PackageInfo) {
    name.Some? && name.value(p.name)
  }

  predicate VersionHit(version: Option<Pattern>, p: PackageInfo) {
    version.Some? && version.value(p.version)
  }

  // ---------------------------------------------------------------------------
  // searchForMatchingPackages
  // ---------------------------------------------------------------------------

  /** searchForMatchingPackages after the packages `pkgs`: whether any of them
      matched by name or by version, and those that matched by name. */
  function PackageSearch(pkgs: seq<PackageInfo>, name: Option<Pattern>, version: Option<Pattern>): (bool, seq<PackageInfo>) {
    if pkgs == [] then (false, [])
    else
      var (found, kept) := PackageSearch(pkgs[..|pkgs| - 1], name, version);
      var p := pkgs[|pkgs| - 1];
      if NameHit(name, p) then (true, kept + [p])
      else if VersionHit(version, p) then (true, kept)
      else (found, kept)
  }

  /** searchForMatchingPackages, as the loop it is. */
  method SearchForMatchingPackages(packages: seq<PackageInfo>, nameRegex: Option<Pattern>, versionRegex: Option<Pattern>)
    returns (searchMatched: bool, matchedPackages: seq<PackageInfo>)
    ensures (searchMatched, matchedPackages) == PackageSearch(packages, nameRegex, versionRegex)
  {
    searchMatched, matchedPackages := false, [];
    for i := 0 to |packages|
      invariant (searchMatched, matchedPackages) == PackageSearch(packages[..i], nameRegex, versionRegex)
    {
      var pkg := packages[i];
      assert packages[..i + 1][..i] == packages[..i];
      if nameRegex.Some? && nameRegex.value(pkg.name) {
        matchedPackages := matchedPackages + [pkg];
        searchMatched := true;
        continue;
      }
      if versionRegex.Some? && versionRegex.value(pkg.version) {
        searchMatched := true;
        continue;
      }
    }
    assert packages[..|packages|] == packages;
  }

  /** The packages whose name matches, in input order: a reference
      definition by head recursion. */
  function NameFilter(pkgs: seq<PackageInfo>, name: Option<Pattern>): seq<PackageInfo> {
    if pkgs == [] then []
    else (if NameHit(name, pkgs[0]) then [pkgs[0]] else []) + NameFilter(pkgs[1..], name)
  }

  lemma {:induction false} NameFilterSnoc(pkgs: seq<PackageInfo>, p: PackageInfo, name: Option<Pattern>)
    ensures NameFilter(pkgs + [p], name) == NameFilter(pkgs, name) + (if NameHit(name, p) then [p] else [])
  {
    if pkgs == [] {
      assert [] + [p] == [p];
      assert [p][1..] == [];
    } else {
      assert (pkgs + [p])[1..] == pkgs[1..] + [p];
      NameFilterSnoc(pkgs[1..], p, name);
      AppendAssoc(if NameHit(name, pkgs[0]) then [pkgs[0]] else [], NameFilter(pkgs[1..], name),
                  if NameHit(name, p) then [p] else []);
    }
  }

  lemma {:induction false} NameFilterMembers(pkgs: seq<PackageInfo>, name: Option<Pattern>)
    ensures forall p :: p in NameFilter(pkgs, name) <==> p in pkgs && NameHit(name, p)
  {
    if pkgs != [] {
      NameFilterMembers(pkgs[1..], name);
      assert pkgs == [pkgs[0]] + pkgs[1..];
    }
  }

  /** searchForMatchingPackages returns exactly the packages whose name
      matches, in input order; version-only matches are not returned. */
  lemma {:induction false} PackageSearchKeeps(pkgs: seq<PackageInfo>, name: Option<Pattern>, version: Option<Pattern>)
    ensures PackageSearch(pkgs, name, version).1 == NameFilter(pkgs, name)
    ensures forall p :: p in PackageSearch(pkgs, name, version).1 <==> p in pkgs && NameHit(name, p)
  {
    if pkgs != [] {
      var init := pkgs[..|pkgs| - 1];
      PackageSearchKeeps(init, name, version);
      NameFilterSnoc(init, pkgs[|pkgs| - 1], name);
      assert init + [pkgs[|pkgs| - 1]] == pkgs;
    }
    NameFilterMembers(pkgs, name);
  }

  /** Its flag is set exactly when some package matched by name or by
      version. */
  lemma {:induction false} PackageSearchFound(pkgs: seq<PackageInfo>, name: Option<Pattern>, version: Option<Pattern>)
    ensures PackageSearch(pkgs, name, version).0 <==> exists p :: p in pkgs && (NameHit(name, p) || VersionHit(version, p))
  {
    if pkgs != [] {
      var init := pkgs[..|pkgs| - 1];
      var last := pkgs[|pkgs| - 1];
      PackageSearchFound(init, name, version);
      assert forall p :: p in pkgs <==> p in init || p == last by {
        assert pkgs == init + [last];
      }
    }
  }

  // ---------------------------------------------------------------------------
  // findMatches
  // ---------------------------------------------------------------------------

  /** Whether an optional pattern lets a string through. */
  predicate Accepts(pattern: Option<Pattern>, s: string) {
    pattern.None? || pattern.value(s)
  }

  /** The fields findMatches copies into its result before the operation
      filter; the event ID and the error text are not among them. */
  function Copied(input: LogJSON): LogJSON {
    EmptyLog.(startTimestamp := input.startTimestamp, endTimeStamp := input.endTimeStamp,
              commandLine := input.commandLine, requestedBy := input.requestedBy,
              requestedByUID := input.requestedByUID, totalPackages := input.totalPackages,
              elapsedSeconds := input.elapsedSeconds)
  }

  /** The operation name the operation pattern is matched against, for the
      four lists it can select; Reinstall has none. */
  function OperationName(f: ListField): string {
    match f
    case Install => "install"
    case Reinstall => ""
    case Upgrade => "upgrade"
    case Remove => "remove"
    case Purge => "purge"
  }

  /** Whether the operation pattern selects list `f` of `input`. */
  predicate Selected(input: LogJSON, op: Pattern, f: ListField) {
    f != Reinstall && Flag(input, f) && op(OperationName(f))
  }

  /** The operation filter: without a pattern the whole record; with one,
      the copied fields plus each list (and its flag) whose operation flag is
      set and whose name the pattern matches, or None when there is none. */
  function SelectOperations(input: LogJSON, op: Option<Pattern>): (r: Option<LogJSON>) {
    if op.None? then Some(input)
    else
      var i := Selected(input, op.value, Install);
      var u := Selected(input, op.value, Upgrade);
      var rm := Selected(input, op.value, Remove);
      var pu := Selected(input, op.value, Purge);
      if !(i || u || rm || pu) then None
      else Some(Copied(input).(install := if i then input.install else [], installOperation := i,
                               upgrade := if u then input.upgrade else [], upgradeOperation := u,
                               remove := if rm then input.remove else [], removeOperation := rm,
                               purge := if pu then input.purge else [], purgeOperation := pu))
  }

  /** With an operation pattern, a list is kept whole, together with its
      flag, exactly when it is selected, and is empty otherwise; Reinstall is
      never kept. The record matches only when some list is selected. */
  lemma SelectOperationsSpec(input: LogJSON, op: Pattern)
    ensures SelectOperations(input, Some(op)).None? <==> forall f :: !Selected(input, op, f)
    ensures SelectOperations(input, Some(op)).Some? ==>
      var r := SelectOperations(input, Some(op)).value;
      && Strip(r).(installOperation := false, upgradeOperation := false,
                   removeOperation := false, purgeOperation := false) == Copied(input)
      && (forall f :: Get(r, f) == if Selected(input, op, f) then Get(input, f) else [])
      && (forall f :: f != Reinstall ==> Flag(r, f) == Selected(input, op, f))
      && !r.reinstallOperation
  {
    forall f ensures Selected(input, op, f) ==> f in {Install, Upgrade, Remove, Purge} {
    }
  }

  /** Without an operation pattern the result is the whole record. */
  lemma NoOperationFilterCopies(input: LogJSON)
    ensures SelectOperations(input, None) == Some(input)
  {
  }

  /** The four lists the package filter looks at, in the order of its map
      literal. */
  const PackageFields: seq<ListField> := [Install, Upgrade, Remove, Purge]

  /** Whether a package of list `f` matches the package patterns. */
  predicate Hit(log: LogJSON, f: ListField, name: Option<Pattern>, version: Option<Pattern>) {
    PackageSearch(Get(log, f), name, version).0
  }

  /** List `f` after the package filter: the name matches when the list
      matched at all, the list unchanged otherwise. */
  function Filtered(log: LogJSON, f: ListField, name: Option<Pattern>, version: Option<Pattern>): seq<PackageInfo> {
    var (hit, kept) := PackageSearch(Get(log, f), name, version);
    if hit then kept else Get(log, f)
  }

  /** The package filter, with the match decided by all four lists: the
      record matches when any list holds a matching package. */
  function PackageFilter(log: LogJSON, name: Option<Pattern>, version: Option<Pattern>): (bool, LogJSON) {
    (Hit(log, Install, name, version) || Hit(log, Upgrade, name, version) ||
     Hit(log, Remove, name, version) || Hit(log, Purge, name, version),
     log.(install := Filtered(log, Install, name, version), upgrade := Filtered(log, Upgrade, name, version),
          remove := Filtered(log, Remove, name, version), purge := Filtered(log, Purge, name, version)))
  }

  /** The package filter matches exactly when some package of the four
      lists matches by name or version. */
  lemma PackageFilterFound(log: LogJSON, name: Option<Pattern>, version: Option<Pattern>)
    ensures PackageFilter(log, name, version).0 <==>
      exists p :: p in log.install + log.upgrade + log.remove + log.purge && (NameHit(name, p) || VersionHit(version, p))
  {
    var all := log.install + log.upgrade + log.remove + log.purge;
    if PackageFilter(log, name, version).0 {
      var l := if Hit(log, Install, name, version) then log.install
               else if Hit(log, Upgrade, name, version) then log.upgrade
               else if Hit(log, Remove, name, version) then log.remove
               else log.purge;
      PackageSearchFound(l, name, version);
      var p :| p in l && (NameHit(name, p) || VersionHit(version, p));
      assert p in all;
    } else {
      forall p | p in all ensures !(NameHit(name, p) || VersionHit(version, p)) {
        PackageSearchFound(log.install, name, version);
        PackageSearchFound(log.upgrade, name, version);
        PackageSearchFound(log.remove, name, version);
        PackageSearchFound(log.purge, name, version);
      }
    }
  }

  /** findMatches, with the package match decided by all four lists. */
  function FindMatchesOf(input: LogJSON, search: SearchParameters, parseTime: string -> Option<int>): Outcome {
    if search.eventID != "" && search.eventID != input.eventID then NoMatch
    else if parseTime(input.startTimestamp).None? || parseTime(input.endTimeStamp).None? then TimeError
    else if parseTime(input.startTimestamp).value < search.startTimestamp then NoMatch
    else if parseTime(input.endTimeStamp).value > search.endTimestamp then NoMatch
    else if !Accepts(search.cmdLine, input.commandLine) then NoMatch
    else if !Accepts(search.userName, input.requestedBy) then NoMatch
    else if search.userID != 0 && search.userID != input.requestedByUID then NoMatch
    else
      match SelectOperations(input, search.operation)
      case None => NoMatch
      case Some(selected) =>
        if search.pkgName.None? && search.pkgVersion.None? then Matched(selected)
        else
          var (found, filtered) := PackageFilter(selected, search.pkgName, search.pkgVersion);
          if found then Matched(filtered) else NoMatch
  }

  /** findMatches: the gates in order, then the operation filter, then the
      loop over the four package lists. */
  method FindMatches(input: LogJSON, search: SearchParameters, parseTime: string -> Option<int>) returns (r: Outcome)
    ensures r == FindMatchesOf(input, search, parseTime)
  {
    if search.eventID != "" && search.eventID != input.eventID {
      return NoMatch;
    }
    var startTimestamp := parseTime(input.startTimestamp);
    if startTimestamp.None? {
      return TimeError;
    }
    var endTimestamp := parseTime(input.endTimeStamp);
    if endTimestamp.None? {
      return TimeError;
    }
    if startTimestamp.value < search.startTimestamp {
      return NoMatch;
    }
    if endTimestamp.value > search.endTimestamp {
      return NoMatch;
    }
    if search.cmdLine.Some? && !search.cmdLine.value(input.commandLine) {
      return NoMatch;
    }
    if search.userName.Some? && !search.userName.value(input.requestedBy) {
      return NoMatch;
    }
    if search.userID != 0 && search.userID != input.requestedByUID {
      return NoMatch;
    }
    var selected := SelectOperations(input, search.operation);
    if selected.None? {
      return NoMatch;
    }
    var matchedLogs := selected.value;
    if search.pkgName.Some? || search.pkgVersion.Some? {
      var packageMatchesSearch;
      packageMatchesSearch, matchedLogs := FilterPackages(matchedLogs, search.pkgName, search.pkgVersion);
      if !packageMatchesSearch {
        return NoMatch;
      }
    }
    return Matched(matchedLogs);
  }

  /** The position of list `f` in the package filter's order; Reinstall is
      not one of its lists. */
  function Position(f: ListField): int {
    match f
    case Install => 0
    case Upgrade => 1
    case Remove => 2
    case Purge => 3
    case Reinstall => 4
  }

  /** List `f` once the package filter has looked at its first `k` lists. */
  function FilteredUpTo(log: LogJSON, f: ListField, k: int, name: Option<Pattern>, version: Option<Pattern>): seq<PackageInfo> {
    if Position(f) < k then Filtered(log, f, name, version) else Get(log, f)
  }

  /** Whether one of the first `k` lists of the package filter matched. */
  predicate FoundUpTo(log: LogJSON, k: nat, name: Option<Pattern>, version: Option<Pattern>)
    requires k <= |PackageFields|
  {
    k > 0 && (FoundUpTo(log, k - 1, name, version) || Hit(log, PackageFields[k - 1], name, version))
  }

  /** Having looked at all four lists, the loop has found what the package
      filter finds. */
  lemma FoundUpToAll(log: LogJSON, name: Option<Pattern>, version: Option<Pattern>)
    ensures FoundUpTo(log, |PackageFields|, name, version) == PackageFilter(log, name, version).0
  {
    assert FoundUpTo(log, 1, name, version) == Hit(log, Install, name, version);
    assert FoundUpTo(log, 2, name, version) == FoundUpTo(log, 1, name, version) || Hit(log, Upgrade, name, version);
    assert FoundUpTo(log, 3, name, version) == FoundUpTo(log, 2, name, version) || Hit(log, Remove, name, version);
  }

  /** The loop of findMatches over the four package lists, taken from the
      record as it stood before the loop: each list that holds a match is
      cut down to the name matches, and the record matches when any list
      does. */
  method FilterPackages(selected: LogJSON, name: Option<Pattern>, version: Option<Pattern>)
    returns (packageMatchesSearch: bool, matchedLogs: LogJSON)
    ensures (packageMatchesSearch, matchedLogs) == PackageFilter(selected, name, version)
  {
    var install, upgrade, remove, purge := selected.install, selected.upgrade, selected.remove, selected.purge;
    packageMatchesSearch := false;
    for k := 0 to |PackageFields|
      invariant install == FilteredUpTo(selected, Install, k, name, version)
      invariant upgrade == FilteredUpTo(selected, Upgrade, k, name, version)
      invariant remove == FilteredUpTo(selected, Remove, k, name, version)
      invariant purge == FilteredUpTo(selected, Purge, k, name, version)
      invariant packageMatchesSearch == FoundUpTo(selected, k, name, version)
    {
      var operationType := PackageFields[k];
      assert Position(operationType) == k;
      var pkgList := Get(selected, operationType);
      if |pkgList| == 0 {
        assert !Hit(selected, operationType, name, version);
        continue;
      }
      var hit, matchedPackages := SearchForMatchingPackages(pkgList, name, version);
      assert hit == Hit(selected, operationType, name, version);
      if hit {
        match operationType {
          case Install => install := matchedPackages;
          case Upgrade => upgrade := matchedPackages;
          case Remove => remove := matchedPackages;
          case Purge => purge := matchedPackages;
        }
        packageMatchesSearch := true;
      }
    }
    matchedLogs := selected.(install := install, upgrade := upgrade, remove := remove, purge := purge);
    FoundUpToAll(selected, name, version);
  }

  // ---------------------------------------------------------------------------
  // Properties of findMatches
  // ---------------------------------------------------------------------------

  /** A search event ID other than the record's excludes the record. */
  lemma EventIDGate(input: LogJSON, search: SearchParameters, parseTime: string -> Option<int>)
    requires search.eventID != "" && search.eventID != input.eventID
    ensures FindMatchesOf(input, search, parseTime) == NoMatch
  {
  }

  /** A record that starts before the window or ends after it is excluded. */
  lemma TimeWindowGate(input: LogJSON, search: SearchParameters, parseTime: string -> Option<int>, start: int, end: int)
    requires parseTime(input.startTimestamp) == Some(start) && parseTime(input.endTimeStamp) == Some(end)
    requires start < search.startTimestamp || end > search.endTimestamp
    ensures FindMatchesOf(input, search, parseTime) == NoMatch
  {
  }

  /** A non-zero search user ID other than the record's excludes the record. */
  lemma UserIDGate(input: LogJSON, search: SearchParameters, parseTime: string -> Option<int>)
    requires search.userID != 0 && search.userID != input.requestedByUID
    ensures FindMatchesOf(input, search, parseTime).Matched? == false
  {
  }

  /** A matched record lies within the window, agrees with every gate, and
      keeps the copied fields; with no operation or package pattern it is
      the record itself. */
  lemma MatchedRecord(input: LogJSON, search: SearchParameters, parseTime: string -> Option<int>)
    requires FindMatchesOf(input, search, parseTime).Matched?
    ensures search.eventID == "" || search.eventID == input.eventID
    ensures parseTime(input.startTimestamp).Some? && parseTime(input.startTimestamp).value >= search.startTimestamp
    ensures parseTime(input.endTimeStamp).Some? && parseTime(input.endTimeStamp).value <= search.endTimestamp
    ensures Accepts(search.cmdLine, input.commandLine) && Accepts(search.userName, input.requestedBy)
    ensures search.userID == 0 || search.userID == input.requestedByUID
    ensures var r := FindMatchesOf(input, search, parseTime).record;
      && r.startTimestamp == input.startTimestamp && r.endTimeStamp == input.endTimeStamp
      && r.commandLine == input.commandLine && r.requestedBy == input.requestedBy
      && r.requestedByUID == input.requestedByUID && r.totalPackages == input.totalPackages
      && r.elapsedSeconds == input.elapsedSeconds
    ensures search.operation.None? && search.pkgName.None? && search.pkgVersion.None? ==>
      FindMatchesOf(input, search, parseTime) == Matched(input)
  {
  }

  // ---------------------------------------------------------------------------
  // The package filter as written
  // ---------------------------------------------------------------------------

  /** The package filter as written: it ranges over a map from operation
      names to the lists, whose iteration order Go leaves unspecified (the
      parameter `order`), and each non-empty list overwrites the match flag,
      so the last one visited decides whether the record matches. */
  function PackageFilterAsWritten(log: LogJSON, order: seq<ListField>, name: Option<Pattern>, version: Option<Pattern>): (bool, LogJSON) {
    if order == [] then (false, log)
    else
      var (flag, matched) := PackageFilterAsWritten(log, order[..|order| - 1], name, version);
      var f := order[|order| - 1];
      if |Get(log, f)| == 0 then (flag, matched)
      else
        var (hit, kept) := PackageSearch(Get(log, f), name, version);
        (hit, if hit then Set(matched, f, kept) else matched)
  }

  /** The lists the filter as written produces do not depend on the order:
      each is filtered on its own, as in PackageFilter. */
  lemma {:induction false} AsWrittenLists(log: LogJSON, order: seq<ListField>, name: Option<Pattern>, version: Option<Pattern>)
    ensures Strip(PackageFilterAsWritten(log, order, name, version).1) == Strip(log)
    ensures forall f :: Get(PackageFilterAsWritten(log, order, name, version).1, f) ==
                        if f in order then Filtered(log, f, name, version) else Get(log, f)
  {
    if order != [] {
      var init := order[..|order| - 1];
      AsWrittenLists(log, init, name, version);
      InitLast(order);
    }
  }

  /** The two orders below give different verdicts on the same record: one
      installed package that matches the name pattern and one upgraded
      package that does not. */
  lemma MapOrderMatters()
    ensures var log := EmptyLog.(install := [PackageInfo("vim", "amd64", "", "2")],
                                 upgrade := [PackageInfo("curl", "amd64", "7", "8")]);
      var name := Some((n: string) => n == "vim");
      && !PackageFilterAsWritten(log, [Install, Upgrade, Remove, Purge], name, None).0
      && PackageFilterAsWritten(log, [Upgrade, Install, Remove, Purge], name, None).0
      && PackageFilter(log, name, None).0
  {
    var log := EmptyLog.(install := [PackageInfo("vim", "amd64", "", "2")],
                         upgrade := [PackageInfo("curl", "amd64", "7", "8")]);
    var name := Some((n: string) => n == "vim");
    assert PackageSearch(log.install, name, None).0;
    assert !PackageSearch(log.upgrade, name, None).0;
  }
}

/** Turning one APT history event block into a LogJSON record: parseEvent,
    parseRequester and parsePackages. */
module Parsing {
  import opened Types
  import opened GoText

  /** The library calls of parseEvent that this model keeps opaque:
      parseTimestamp (a local "2006-01-02  15:04:05" time to RFC 3339, None on
      failure), calculateElaspedTime (None on failure) and generateUUID applied
      to the record as `%v` prints it. */
  datatype Externals = Externals(
    parseTimestamp: string -> Option<string>,
    elapsedSeconds: (string, string) -> Option<int>,
    eventUUID: LogJSON -> string)

  datatype ParseError =
    | MalformedField(line: string)
    | UnknownPrefix(prefix: string, value: string)
    | BadTimestamp(value: string)
    | BadUID(uid: string)
    | TooFewPackageFields
    | FieldFailed(prefix: string, cause: ParseError)
    | BadElapsedTime

  /** The field prefixes parseEvent recognises. */
  const KnownPrefixes: set<string> :=
    {"Start-Date", "End-Date", "Commandline", "Requested-By", "Error",
     "Install", "Reinstall", "Upgrade", "Remove", "Purge"}

  // ---------------------------------------------------------------------------
  // parseRequester
  // ---------------------------------------------------------------------------

  datatype Requester = Requester(name: string, uid: int, err: Option<ParseError>)

  /** parseRequester: the first space-separated token names the user; a UID is
      read only when there are exactly two tokens, from the second with one "("
      and one ")" trimmed. strings.Split never returns an empty slice, so the
      source's length-0 error cannot occur. */
  function ParseRequester(user: string): (r: Requester)
    ensures r.name <= user && ' ' !in r.name && (|r.name| < |user| ==> user[|r.name|] == ' ')
    ensures |Split(user, " ")| != 2 ==> r.uid == 0 && r.err == None
    ensures |Split(user, " ")| == 2 ==>
      var uid := ParseInt(UIDText(Split(user, " ")[1]));
      r.uid == uid.value && (r.err.None? <==> uid.err == NoError)
    ensures r.err.Some? ==> |Split(user, " ")| == 2 && r.err.value.BadUID?
    ensures r.err.None? && |Split(user, " ")| == 2 ==> MinI64 <= r.uid <= MaxI64
  {
    SplitHead(user, ' ');
    var userInfo := Split(user, " ");
    var requester := userInfo[0];
    if |userInfo| == 2 then
      var uidText := UIDText(userInfo[1]);
      var uid := ParseInt(uidText);
      Requester(requester, uid.value, if uid.err == NoError then None else Some(BadUID(uidText)))
    else
      Requester(requester, 0, None)
  }

  /** The second token of a Requested-By value with one "(" and one ")"
      trimmed. */
  function UIDText(token: string): string {
    TrimSuffix(TrimPrefix(token, "("), ")")
  }

  /** A name and a second token that is not a number once its parentheses
      are trimmed: the name is kept and the UID is an error. */
  lemma BadUIDToken(name: string, token: string)
    requires ' ' !in name && ' ' !in token
    requires ParseInt(UIDText(token)).err != NoError
    ensures ParseRequester(name + " " + token)
         == Requester(name, ParseInt(UIDText(token)).value, Some(BadUID(UIDText(token))))
  {
    TwoTokens(name, token);
  }

  /** "root (abc)" names root and fails on its UID. */
  lemma NonNumericUID()
    ensures ParseRequester("root (abc)") == Requester("root", 0, Some(BadUID("abc")))
  {
    assert "root (abc)" == "root" + " " + "(abc)";
    assert TrimPrefix("(abc)", "(") == "abc)";
    assert UIDText("(abc)") == "abc";
    AbcIsNotNumber();
    BadUIDToken("root", "(abc)");
  }

  lemma TwoTokens(a: string, b: string)
    requires ' ' !in a && ' ' !in b
    ensures Split(a + " " + b, " ") == [a, b]
  {
    NoOccurrence(b, " ");
    SplitNone(b, " ");
    SplitAtFirst(a, " ", b);
  }

  lemma AbcIsNotNumber()
    ensures ParseInt("abc") == Converted(0, ErrSyntax)
  {
    assert "abc"[..2] == "ab" && "ab"[..1] == "a" && "a"[..0] == "";
    assert ScanDigits("a") == Converted(0, ErrSyntax);
  }

  /** "name (uid)", as APT writes a Requested-By value, reads back as that name and UID. */
  lemma UIDTail(uid: int)
    requires MinI64 <= uid <= MaxI64
    ensures ' ' !in "(" + FormatInt(uid) + ")"
    ensures TrimSuffix(TrimPrefix("(" + FormatInt(uid) + ")", "("), ")") == FormatInt(uid)
  {
    var tail := "(" + FormatInt(uid) + ")";
    assert ' ' !in FormatInt(uid) by {
      if uid < 0 { assert FormatInt(uid)[1..] == Decimal(-uid); }
    }
    assert TrimPrefix(tail, "(") == FormatInt(uid) + ")";
    assert TrimSuffix(FormatInt(uid) + ")", ")") == FormatInt(uid);
  }

  lemma RequesterWithUID(name: string, uid: int)
    requires ' ' !in name && MinI64 <= uid <= MaxI64
    ensures ParseRequester(name + " (" + FormatInt(uid) + ")") == Requester(name, uid, None)
  {
    var tail := "(" + FormatInt(uid) + ")";
    assert name + " (" + FormatInt(uid) + ")" == name + " " + tail by {
      var f := FormatInt(uid);
      assert name + " (" + f + ")" == name + " " + ("(" + f + ")");
    }
    SplitAtFirst(name, " ", tail);
    UIDTail(uid);
    NoOccurrence(tail, " ");
    SplitNone(tail, " ");
    ParseIntFormat(uid);
  }

  /** A user name without a space reads back as itself with UID 0. */
  lemma RequesterNameOnly(name: string)
    requires ' ' !in name
    ensures ParseRequester(name) == Requester(name, 0, None)
  {
    NoOccurrence(name, " ");
    SplitNone(name, " ");
  }

  // ---------------------------------------------------------------------------
  // parsePackages
  // ---------------------------------------------------------------------------

  /** The separator rewriting parsePackages applies to one entry before
      splitting it into fields. */
  function CleanEntry(entry: string): string {
    var e := TrimSuffix(entry, ")");
    var e := ReplaceFirst(e, '(', "");
    var e := ReplaceFirst(e, ',', "");
    ReplaceFirst(e, ':', " ")
  }

  /** The package named by the fields of one entry: name and architecture
      first; with four fields the third is the version when the fourth is
      "automatic" and the old version otherwise; with three fields the third
      is the version; any further fields are ignored. None below two fields. */
  function PackageOfFields(f: seq<string>): (p: Option<PackageInfo>)
    ensures p.None? <==> |f| < 2
    ensures p.Some? ==> p.value.name == f[0] && p.value.arch == f[1]
  {
    if |f| < 2 then None
    else
      var p := PackageInfo(f[0], f[1], "", "");
      if |f| == 4 then
        if f[3] == "automatic" then Some(p.(version := f[2]))
        else Some(p.(oldVersion := f[2], version := f[3]))
      else if |f| == 3 then Some(p.(version := f[2]))
      else Some(p)
  }

  /** One entry of a package list. */
  function ParseEntry(entry: string): Option<PackageInfo> {
    PackageOfFields(Fields(CleanEntry(entry)))
  }

  /** The loop of parsePackages over its entries: it stops at the first entry
      with fewer than two fields and keeps what it had appended so far. */
  function PackagesOf(entries: seq<string>): (seq<PackageInfo>, Option<ParseError>)
  {
    if entries == [] then ([], None)
    else
      match ParseEntry(entries[0])
      case None => ([], Some(TooFewPackageFields))
      case Some(p) =>
        var rest := PackagesOf(entries[1..]);
        ([p] + rest.0, rest.1)
  }

  /** parsePackages */
  function PackageList(rawList: string): (seq<PackageInfo>, Option<ParseError>) {
    PackagesOf(Split(rawList, "), "))
  }

  /** parsePackages, as the loop it is. */
  method ParsePackages(rawList: string) returns (packageList: seq<PackageInfo>, err: Option<ParseError>)
    ensures (packageList, err) == PackageList(rawList)
  {
    var fullList := Split(rawList, "), ");
    packageList, err := [], None;
    assert fullList[0..] == fullList;
    assert [] + PackagesOf(fullList).0 == PackagesOf(fullList).0;
    for i := 0 to |fullList|
      invariant err == None
      invariant PackagesOf(fullList).0 == packageList + PackagesOf(fullList[i..]).0
      invariant PackagesOf(fullList).1 == PackagesOf(fullList[i..]).1
    {
      var pkg := fullList[i];
      pkg := CleanEntry(pkg);
      var pkgFields := Fields(pkg);
      ghost var rest := PackagesOf(fullList[i + 1..]);
      assert fullList[i..][0] == fullList[i] && fullList[i..][1..] == fullList[i + 1..];
      assert ParseEntry(fullList[i]) == PackageOfFields(pkgFields);
      if |pkgFields| < 2 {
        assert PackagesOf(fullList[i..]) == ([], Some(TooFewPackageFields));
        assert packageList + [] == packageList;
        err := Some(TooFewPackageFields);
        return;
      }
      var packageInfo := PackageInfo(pkgFields[0], pkgFields[1], "", "");
      if |pkgFields| == 4 {
        if pkgFields[3] == "automatic" {
          packageInfo := packageInfo.(version := pkgFields[2]);
        } else {
          packageInfo := packageInfo.(oldVersion := pkgFields[2], version := pkgFields[3]);
        }
      } else if |pkgFields| == 3 {
        packageInfo := packageInfo.(version := pkgFields[2]);
      }
      assert PackagesOf(fullList[i..]) == ([packageInfo] + rest.0, rest.1);
      AppendAssoc(packageList, [packageInfo], rest.0);
      packageList := packageList + [packageInfo];
    }
    assert fullList[|fullList|..] == [];
    assert packageList + [] == packageList;
  }

  /** parsePackages succeeds exactly when every entry has two fields, and
      then yields one package per entry. */
  lemma {:induction false} PackagesOfComplete(entries: seq<string>)
    ensures var r := PackagesOf(entries);
      && (r.1.None? <==> forall k :: 0 <= k < |entries| ==> ParseEntry(entries[k]).Some?)
      && (r.1.None? ==> |r.0| == |entries|)
  {
    if entries != [] {
      PackagesOfComplete(entries[1..]);
      forall k | 1 <= k < |entries| ensures entries[k] == entries[1..][k - 1] { }
    }
  }

  /** The packages parsePackages returns are those of its first entries, in
      order; on failure they stop right before the first entry with fewer
      than two fields. */
  lemma {:induction false} PackagesOfPrefix(entries: seq<string>)
    ensures var r := PackagesOf(entries);
      && |r.0| <= |entries|
      && (forall k :: 0 <= k < |r.0| ==> ParseEntry(entries[k]) == Some(r.0[k]))
      && (r.1.Some? ==> r.1 == Some(TooFewPackageFields) && |r.0| < |entries| && ParseEntry(entries[|r.0|]).None?)
  {
    if entries != [] && ParseEntry(entries[0]).Some? {
      PackagesOfPrefix(entries[1..]);
      var rest := PackagesOf(entries[1..]);
      var r := PackagesOf(entries);
      assert r.0 == [ParseEntry(entries[0]).value] + rest.0;
      forall k | 0 <= k < |r.0| ensures ParseEntry(entries[k]) == Some(r.0[k]) {
        if k > 0 { assert r.0[k] == rest.0[k - 1] && entries[k] == entries[1..][k - 1]; }
      }
      if r.1.Some? {
        assert entries[|r.0|] == entries[1..][|rest.0|];
      }
    }
  }

  /** Entries that all parse give exactly their packages. */
  lemma PackagesOfAll(entries: seq<string>, ps: seq<PackageInfo>)
    requires |entries| == |ps|
    requires forall k :: 0 <= k < |ps| ==> ParseEntry(entries[k]) == Some(ps[k])
    ensures PackagesOf(entries) == (ps, None)
  {
    PackagesOfComplete(entries);
    PackagesOfPrefix(entries);
    var r := PackagesOf(entries);
    assert r.0 == ps;
  }

  // APT's rendering of package entries, and the round trip through parsePackages.

  /** A package name: no space, and none of ':' '(' ',' ')'. */
  predicate NameToken(w: string) {
    w != [] && NoSpace(w) && ':' !in w && '(' !in w && ',' !in w && ')' !in w
  }

  /** An architecture or version: no space, and none of '(' ',' ')'; a version
      may carry an epoch colon. */
  predicate ValueToken(w: string) {
    w != [] && NoSpace(w) && '(' !in w && ',' !in w && ')' !in w
  }

  predicate WellFormedPackage(p: PackageInfo, automatic: bool) {
    && NameToken(p.name) && ValueToken(p.arch) && ValueToken(p.version)
    && (p.oldVersion != "" ==> ValueToken(p.oldVersion) && p.version != "automatic" && !automatic)
  }

  /** How APT writes one entry, without its closing parenthesis:
      "name:arch (version", "name:arch (version, automatic" or
      "name:arch (old, new". */
  function EntryBody(p: PackageInfo, automatic: bool): string {
    p.name + ":" + p.arch + " (" +
      (if p.oldVersion != "" then p.oldVersion + ", " + p.version
       else if automatic then p.version + ", " + "automatic"
       else p.version)
  }

  /** How APT writes a whole package list: entries separated by ", ", each
      closed by ")". */
  function PackageLine(ps: seq<PackageInfo>, automatic: seq<bool>): string
    requires |ps| == |automatic|
  {
    Join(EntryBodies(ps, automatic), "), ") + ")"
  }

  function EntryBodies(ps: seq<PackageInfo>, automatic: seq<bool>): (r: seq<string>)
    requires |ps| == |automatic|
    ensures |r| == |ps| && forall k :: 0 <= k < |ps| ==> r[k] == EntryBody(ps[k], automatic[k])
  {
    if ps == [] then [] else [EntryBody(ps[0], automatic[0])] + EntryBodies(ps[1..], automatic[1..])
  }

  lemma TrimClose(e: string, close: string)
    requires close == ")" || (close == "" && (e == [] || e[|e| - 1] != ')'))
    ensures TrimSuffix(e + close, ")") == e
  {
    if close == ")" {
      assert (e + ")")[..|e + ")"| - 1] == e;
    } else {
      assert e + close == e;
    }
  }

  lemma RewriteBody(n: string, a: string, body: string)
    requires ':' !in n && '(' !in n && ',' !in n && '(' !in a && ',' !in a
    ensures var e0 := n + ":" + a + " " + ['('] + body;
      ReplaceFirst(ReplaceFirst(ReplaceFirst(e0, '(', ""), ',', ""), ':', " ") == n + " " + a + " " + ReplaceFirst(body, ',', "")
  {
    var x := n + ":" + a + " ";
    ReplaceFirstAt(x, '(', body, "");
    var e1 := ReplaceFirst(x + ['('] + body, '(', "");
    assert e1 == x + body;
    ReplaceFirstSkip(x, body, ',', "");
    var b := ReplaceFirst(body, ',', "");
    var e2 := ReplaceFirst(e1, ',', "");
    assert e2 == n + [':'] + (a + " " + b);
    ReplaceFirstAt(n, ':', a + " " + b, " ");
    assert ReplaceFirst(e2, ':', " ") == n + " " + a + " " + b;
  }

  /** The separator rewriting of "name:arch (body" plus an optional ")". */
  lemma CleanBody(n: string, a: string, body: string, close: string)
    requires ':' !in n && '(' !in n && ',' !in n && '(' !in a && ',' !in a
    requires close == ")" || (close == "" && (body == [] || body[|body| - 1] != ')'))
    ensures CleanEntry(n + ":" + a + " (" + body + close) == n + " " + a + " " + ReplaceFirst(body, ',', "")
  {
    var e0 := n + ":" + a + " " + ['('] + body;
    assert n + ":" + a + " (" == n + ":" + a + " " + ['('];
    if body == [] { assert e0[|e0| - 1] == '('; } else { assert e0[|e0| - 1] == body[|body| - 1]; }
    TrimClose(e0, close);
    RewriteBody(n, a, body);
  }

  lemma JoinThree(w0: string, w1: string, w2: string)
    ensures Join([w0, w1, w2], " ") == w0 + " " + w1 + " " + w2
  {
    assert [w0, w1, w2][1..] == [w1, w2];
    assert [w1, w2][1..] == [w2];
    assert Join([w2], " ") == w2;
    assert Join([w1, w2], " ") == w1 + " " + w2;
    assert w0 + " " + (w1 + " " + w2) == w0 + " " + w1 + " " + w2;
  }

  lemma JoinFour(w0: string, w1: string, w2: string, w3: string)
    ensures Join([w0, w1, w2, w3], " ") == w0 + " " + w1 + " " + (w2 + " " + w3)
  {
    assert [w0, w1, w2, w3][1..] == [w1, w2, w3];
    JoinThree(w1, w2, w3);
    assert w0 + " " + (w1 + " " + w2 + " " + w3) == w0 + " " + w1 + " " + (w2 + " " + w3);
  }

  lemma DropComma(o: string, v: string)
    requires ',' !in o
    ensures ReplaceFirst(o + ", " + v, ',', "") == o + " " + v
  {
    assert o + ", " + v == o + [','] + (" " + v);
    ReplaceFirstAt(o, ',', " " + v, "");
    assert o + "" + (" " + v) == o + " " + v;
  }

  lemma UpgradeFields(n: string, a: string, o: string, v: string, close: string)
    requires NameToken(n) && ValueToken(a) && ValueToken(o) && ValueToken(v)
    requires close == "" || close == ")"
    ensures Fields(CleanEntry(n + ":" + a + " (" + (o + ", " + v) + close)) == [n, a, o, v]
  {
    assert (o + ", " + v)[|o + ", " + v| - 1] == v[|v| - 1];
    CleanBody(n, a, o + ", " + v, close);
    DropComma(o, v);
    JoinFour(n, a, o, v);
    FieldsOfJoin([n, a, o, v]);
  }

  lemma PlainFields(n: string, a: string, v: string, close: string)
    requires NameToken(n) && ValueToken(a) && ValueToken(v)
    requires close == "" || close == ")"
    ensures Fields(CleanEntry(n + ":" + a + " (" + v + close)) == [n, a, v]
  {
    CleanBody(n, a, v, close);
    ReplaceFirstAbsent(v, ',', "");
    JoinThree(n, a, v);
    FieldsOfJoin([n, a, v]);
  }

  /** An entry as APT writes it, closed or not, parses back to the package. */
  lemma EntryRoundTrip(p: PackageInfo, automatic: bool, close: string)
    requires WellFormedPackage(p, automatic)
    requires close == "" || close == ")"
    ensures ParseEntry(EntryBody(p, automatic) + close) == Some(p)
  {
    if p.oldVersion != "" {
      UpgradeFields(p.name, p.arch, p.oldVersion, p.version, close);
    } else if automatic {
      assert ValueToken("automatic");
      UpgradeFields(p.name, p.arch, p.version, "automatic", close);
    } else {
      PlainFields(p.name, p.arch, p.version, close);
    }
  }

  lemma {:induction false} SplitPackageLine(bodies: seq<string>)
    requires |bodies| >= 1
    requires forall k :: 0 <= k < |bodies| ==> ')' !in bodies[k]
    ensures Split(Join(bodies, "), ") + ")", "), ") == bodies[..|bodies| - 1] + [bodies[|bodies| - 1] + ")"]
  {
    var sep := "), ";
    if |bodies| == 1 {
      var s := bodies[0] + ")";
      assert Join(bodies, sep) + ")" == s;
      forall i ensures !OccursAt(s, sep, i) {
        if 0 <= i && i + |sep| <= |s| {
          assert s[i..i + |sep|][0] == s[i] == bodies[0][i];
          assert bodies[0][i] in bodies[0];
        }
      }
      SplitNone(s, sep);
    } else {
      var rest := Join(bodies[1..], sep) + ")";
      assert Join(bodies, sep) + ")" == bodies[0] + sep + rest;
      SplitAtFirst(bodies[0], sep, rest);
      SplitPackageLine(bodies[1..]);
      assert bodies[1..][..|bodies| - 2] == bodies[1..|bodies| - 1];
      assert bodies[..|bodies| - 1] == [bodies[0]] + bodies[1..|bodies| - 1];
    }
  }

  lemma EntryBodyUnclosed(p: PackageInfo, automatic: bool)
    requires WellFormedPackage(p, automatic)
    ensures ')' !in EntryBody(p, automatic)
  {
  }

  /** The entries strings.Split finds in APT's rendering of a package list,
      and the package each of them parses to. */
  lemma LineEntries(ps: seq<PackageInfo>, automatic: seq<bool>)
    requires |ps| == |automatic| >= 1
    requires forall k :: 0 <= k < |ps| ==> WellFormedPackage(ps[k], automatic[k])
    ensures var entries := Split(PackageLine(ps, automatic), "), ");
      |entries| == |ps| && forall k :: 0 <= k < |ps| ==> ParseEntry(entries[k]) == Some(ps[k])
  {
    var bodies := EntryBodies(ps, automatic);
    var n := |ps|;
    forall k | 0 <= k < n ensures ')' !in bodies[k] {
      EntryBodyUnclosed(ps[k], automatic[k]);
    }
    SplitPackageLine(bodies);
    var entries := bodies[..n - 1] + [bodies[n - 1] + ")"];
    forall k | 0 <= k < n ensures ParseEntry(entries[k]) == Some(ps[k]) {
      var close := if k < n - 1 then "" else ")";
      assert entries[k] == bodies[k] + close;
      EntryRoundTrip(ps[k], automatic[k], close);
    }
  }

  /** parsePackages inverts APT's rendering of a non-empty package list. */
  lemma PackageLineRoundTrip(ps: seq<PackageInfo>, automatic: seq<bool>)
    requires |ps| == |automatic| >= 1
    requires forall k :: 0 <= k < |ps| ==> WellFormedPackage(ps[k], automatic[k])
    ensures PackageList(PackageLine(ps, automatic)) == (ps, None)
  {
    LineEntries(ps, automatic);
    PackagesOfAll(Split(PackageLine(ps, automatic), "), "), ps);
  }

  // ---------------------------------------------------------------------------
  // parseEvent
  // ---------------------------------------------------------------------------

  /** `a` and `b` agree on the five operation flags. */
  predicate SameFlags(a: LogJSON, b: LogJSON) {
    && a.installOperation == b.installOperation
    && a.reinstallOperation == b.reinstallOperation
    && a.upgradeOperation == b.upgradeOperation
    && a.removeOperation == b.removeOperation
    && a.purgeOperation == b.purgeOperation
  }

  /** The switch of parseEvent on a field prefix: the updated record and the
      error of the field's own parser, before parseEvent wraps it. */
  function AssignField(log: LogJSON, prefix: string, value: string, ext: Externals): (r: (LogJSON, Option<ParseError>))
    ensures SameFlags(r.0, log) && r.0.eventID == log.eventID
    ensures prefix !in KnownPrefixes ==> r == (log, Some(UnknownPrefix(prefix, value)))
  {
    if prefix == "Start-Date" then
      var t := ext.parseTimestamp(value);
      (log.(startTimestamp := if t.Some? then t.value else ""), if t.Some? then None else Some(BadTimestamp(value)))
    else if prefix == "End-Date" then
      var t := ext.parseTimestamp(value);
      (log.(endTimeStamp := if t.Some? then t.value else ""), if t.Some? then None else Some(BadTimestamp(value)))
    else if prefix == "Commandline" then (log.(commandLine := value), None)
    else if prefix == "Requested-By" then
      var r := ParseRequester(value);
      (log.(requestedBy := r.name, requestedByUID := r.uid), r.err)
    else if prefix == "Error" then (log.(error := value), None)
    else if prefix == "Install" then var r := PackageList(value); (log.(install := r.0), r.1)
    else if prefix == "Reinstall" then var r := PackageList(value); (log.(reinstall := r.0), r.1)
    else if prefix == "Upgrade" then var r := PackageList(value); (log.(upgrade := r.0), r.1)
    else if prefix == "Remove" then var r := PackageList(value); (log.(remove := r.0), r.1)
    else if prefix == "Purge" then var r := PackageList(value); (log.(purge := r.0), r.1)
    else (log, Some(UnknownPrefix(prefix, value)))
  }

  /** One line of the block: empty lines are skipped; a line must split on ": "
      into exactly a prefix and a value. */
  function ApplyField(log: LogJSON, line: string, ext: Externals): (LogJSON, Option<ParseError>)
  {
    if line == "" then (log, None)
    else
      var field := Split(line, ": ");
      if |field| != 2 then (log, Some(MalformedField(line)))
      else
        var r := AssignField(log, field[0], field[1], ext);
        (r.0, if r.1.Some? then Some(FieldFailed(field[0], r.1.value)) else None)
  }

  /** The field loop of parseEvent, from record `log` on: it stops at the first
      failing line and returns the record as filled in so far. */
  function ApplyFields(log: LogJSON, lines: seq<string>, ext: Externals): (LogJSON, Option<ParseError>)
    decreases |lines|
  {
    if lines == [] then (log, None)
    else
      var r := ApplyField(log, lines[0], ext);
      if r.1.Some? then r else ApplyFields(r.0, lines[1..], ext)
  }

  /** What parseEvent does after the field loop: the operation flags, the
      event ID, the elapsed time and the package total. */
  function Finish(log: LogJSON, ext: Externals): (r: (LogJSON, Option<ParseError>))
    ensures SameListsAndFlags(r.0, MarkOperations(log))
  {
    var marked := MarkOperations(log);
    var id := ext.eventUUID(marked);
    var elapsed := ext.elapsedSeconds(log.startTimestamp, log.endTimeStamp);
    if elapsed.None? then (marked.(eventID := id, elapsedSeconds := 0), Some(BadElapsedTime))
    else (marked.(eventID := id, elapsedSeconds := elapsed.value, totalPackages := Total(log)), None)
  }

  /** The number of packages in the five lists. */
  function Total(log: LogJSON): int {
    |log.install| + |log.reinstall| + |log.upgrade| + |log.remove| + |log.purge|
  }

  /** After the field loop, parseEvent keeps the lists, raises the flag of
      each non-empty list, names the event by the UUID of the flagged record,
      and fails only when the elapsed time cannot be computed; otherwise it
      records the elapsed time and the sum of the five list lengths. */
  lemma FinishSpec(log: LogJSON, ext: Externals)
    ensures var r := Finish(log, ext);
      && (forall f :: Get(r.0, f) == Get(log, f))
      && (forall f :: Flag(r.0, f) <==> Flag(log, f) || |Get(log, f)| > 0)
      && r.0.eventID == ext.eventUUID(MarkOperations(log))
      && (r.1.None? <==> ext.elapsedSeconds(log.startTimestamp, log.endTimeStamp).Some?)
      && (r.1.Some? ==> r.1.value == BadElapsedTime && r.0.elapsedSeconds == 0)
      && (r.1.None? ==>
          && r.0.elapsedSeconds == ext.elapsedSeconds(log.startTimestamp, log.endTimeStamp).value
          && r.0.totalPackages == |log.install| + |log.reinstall| + |log.upgrade| + |log.remove| + |log.purge|)
  {
    SameListsAndFlagsAll(Finish(log, ext).0, MarkOperations(log));
  }

  /** `a` and `b` agree on the five lists and the five flags. */
  predicate SameListsAndFlags(a: LogJSON, b: LogJSON) {
    && a.install == b.install && a.reinstall == b.reinstall && a.upgrade == b.upgrade
    && a.remove == b.remove && a.purge == b.purge
    && SameFlags(a, b)
  }

  lemma SameListsAndFlagsAll(a: LogJSON, b: LogJSON)
    requires SameListsAndFlags(a, b)
    ensures forall f :: Get(a, f) == Get(b, f) && Flag(a, f) == Flag(b, f)
  {
    forall f ensures Get(a, f) == Get(b, f) && Flag(a, f) == Flag(b, f) {
      match f
      case Install =>
      case Reinstall =>
      case Upgrade =>
      case Remove =>
      case Purge =>
    }
  }

  /** The five flag assignments of parseEvent: a flag is raised when its list
      is non-empty and left alone otherwise. */
  function MarkOperations(log: LogJSON): (r: LogJSON)
    ensures forall f :: Get(r, f) == Get(log, f)
    ensures forall f :: Flag(r, f) <==> Flag(log, f) || |Get(log, f)| > 0
    ensures r.startTimestamp == log.startTimestamp && r.endTimeStamp == log.endTimeStamp
  {
    log.(installOperation := log.installOperation || |log.install| > 0,
         reinstallOperation := log.reinstallOperation || |log.reinstall| > 0,
         upgradeOperation := log.upgradeOperation || |log.upgrade| > 0,
         removeOperation := log.removeOperation || |log.remove| > 0,
         purgeOperation := log.purgeOperation || |log.purge| > 0)
  }

  /** parseEvent: the record and, on failure, the error; on failure the record
      is whatever had been filled in when parsing stopped. */
  function EventOf(event: string, ext: Externals): (LogJSON, Option<ParseError>)
  {
    var r := ApplyFields(EmptyLog, Split(event, "\n"), ext);
    if r.1.Some? then r else Finish(r.0, ext)
  }

  /** The switch on the field prefix inside the loop of parseEvent. */
  method SetField(log: LogJSON, fieldPrefix: string, fieldValue: string, ext: Externals)
    returns (newLog: LogJSON, fieldErr: Option<ParseError>)
    ensures (newLog, fieldErr) == AssignField(log, fieldPrefix, fieldValue, ext)
  {
    newLog, fieldErr := log, None;
    if fieldPrefix == "Start-Date" {
      var t := ext.parseTimestamp(fieldValue);
      newLog := newLog.(startTimestamp := if t.Some? then t.value else "");
      if t.None? { fieldErr := Some(BadTimestamp(fieldValue)); }
    } else if fieldPrefix == "End-Date" {
      var t := ext.parseTimestamp(fieldValue);
      newLog := newLog.(endTimeStamp := if t.Some? then t.value else "");
      if t.None? { fieldErr := Some(BadTimestamp(fieldValue)); }
    } else if fieldPrefix == "Commandline" {
      newLog := newLog.(commandLine := fieldValue);
    } else if fieldPrefix == "Requested-By" {
      var r := ParseRequester(fieldValue);
      newLog := newLog.(requestedBy := r.name, requestedByUID := r.uid);
      fieldErr := r.err;
    } else if fieldPrefix == "Error" {
      newLog := newLog.(error := fieldValue);
    } else if fieldPrefix == "Install" {
      var ps;
      ps, fieldErr := ParsePackages(fieldValue);
      newLog := newLog.(install := ps);
    } else if fieldPrefix == "Reinstall" {
      var ps;
      ps, fieldErr := ParsePackages(fieldValue);
      newLog := newLog.(reinstall := ps);
    } else if fieldPrefix == "Upgrade" {
      var ps;
      ps, fieldErr := ParsePackages(fieldValue);
      newLog := newLog.(upgrade := ps);
    } else if fieldPrefix == "Remove" {
      var ps;
      ps, fieldErr := ParsePackages(fieldValue);
      newLog := newLog.(remove := ps);
    } else if fieldPrefix == "Purge" {
      var ps;
      ps, fieldErr := ParsePackages(fieldValue);
      newLog := newLog.(purge := ps);
    } else {
      fieldErr := Some(UnknownPrefix(fieldPrefix, fieldValue));
    }
  }

  /** parseEvent, as the loop it is. */
  method ParseEvent(event: string, ext: Externals) returns (newLog: LogJSON, err: Option<ParseError>)
    ensures (newLog, err) == EventOf(event, ext)
  {
    var eventFields := Split(event, "\n");
    newLog, err := EmptyLog, None;
    for i := 0 to |eventFields|
      invariant ApplyFields(EmptyLog, eventFields, ext) == ApplyFields(newLog, eventFields[i..], ext)
    {
      var eventField := eventFields[i];
      assert eventFields[i..][0] == eventField && eventFields[i..][1..] == eventFields[i + 1..];
      ghost var step := ApplyField(newLog, eventField, ext);
      if eventField == "" {
        continue;
      }
      var field := Split(eventField, ": ");
      if |field| != 2 {
        err := Some(MalformedField(eventField));
        assert ApplyFields(EmptyLog, eventFields, ext) == (newLog, err);
        return;
      }
      var fieldPrefix, fieldValue := field[0], field[1];
      var fieldErr;
      newLog, fieldErr := SetField(newLog, fieldPrefix, fieldValue, ext);
      assert step.0 == newLog && (step.1.Some? <==> fieldErr.Some?);
      if fieldErr.Some? {
        err := Some(FieldFailed(fieldPrefix, fieldErr.value));
        assert ApplyFields(EmptyLog, eventFields, ext) == (newLog, err);
        return;
      }
    }
    assert eventFields[|eventFields|..] == [];
    assert ApplyFields(EmptyLog, eventFields, ext) == (newLog, None);
    var finished := Finish(newLog, ext);
    newLog, err := finished.0, finished.1;
  }

  // Properties of parseEvent.


  /** The field loop never sets an operation flag. */
  lemma {:induction false} ApplyFieldsKeepsFlags(log: LogJSON, lines: seq<string>, ext: Externals)
    ensures SameFlags(ApplyFields(log, lines, ext).0, log)
    decreases |lines|
  {
    if lines != [] {
      var r := ApplyField(log, lines[0], ext);
      assert SameFlags(r.0, log);
      if r.1.None? {
        ApplyFieldsKeepsFlags(r.0, lines[1..], ext);
      }
    }
  }

  /** A block that parses has each XOperation flag set exactly when its package
      list is non-empty, and TotalPackages is the sum of the five list lengths. */
  lemma EventSummary(event: string, ext: Externals)
    ensures var r := EventOf(event, ext);
      r.1.None? ==>
        && (forall f :: Flag(r.0, f) <==> |Get(r.0, f)| > 0)
        && r.0.totalPackages == |r.0.install| + |r.0.reinstall| + |r.0.upgrade| + |r.0.remove| + |r.0.purge|
  {
    var a := ApplyFields(EmptyLog, Split(event, "\n"), ext);
    ApplyFieldsKeepsFlags(EmptyLog, Split(event, "\n"), ext);
    if a.1.None? {
      var r := Finish(a.0, ext);
      forall f ensures Flag(r.0, f) <==> |Get(r.0, f)| > 0 {
        assert Flag(a.0, f) == Flag(EmptyLog, f);
        match f
        case Install =>
        case Reinstall =>
        case Upgrade =>
        case Remove =>
        case Purge =>
      }
    }
  }

  /** A line parseEvent accepts: empty, or "prefix: value" with a known prefix
      and no second ": ". */
  predicate AcceptedLine(line: string) {
    line == "" || (|Split(line, ": ")| == 2 && Split(line, ": ")[0] in KnownPrefixes)
  }

  lemma {:induction false} ApplyFieldsAccepted(log: LogJSON, lines: seq<string>, ext: Externals)
    requires ApplyFields(log, lines, ext).1.None?
    ensures forall k :: 0 <= k < |lines| ==> AcceptedLine(lines[k])
    decreases |lines|
  {
    if lines != [] {
      var r := ApplyField(log, lines[0], ext);
      ApplyFieldsAccepted(r.0, lines[1..], ext);
      forall k | 1 <= k < |lines| ensures AcceptedLine(lines[k]) {
        assert lines[k] == lines[1..][k - 1];
      }
    }
  }

  /** parseEvent succeeds only if every non-empty line of the block splits on
      ": " into exactly two parts and has a known prefix: a malformed line or
      an unknown prefix makes it fail. */
  lemma EventLinesAccepted(event: string, ext: Externals)
    requires EventOf(event, ext).1.None?
    ensures forall line :: line in Split(event, "\n") ==> AcceptedLine(line)
  {
    ApplyFieldsAccepted(EmptyLog, Split(event, "\n"), ext);
  }

  /** The empty block (what a stray End-Date line hands over) fails exactly
      when the elapsed time of two empty timestamps fails. */
  lemma EmptyEvent(ext: Externals)
    ensures EventOf("", ext).1.Some? <==> ext.elapsedSeconds("", "").None?
  {
    assert Split("", "\n") == [""];
    assert ApplyFields(EmptyLog, [""], ext) == (EmptyLog, None);
    var flagged := Finish(EmptyLog, ext).0;
    assert flagged.startTimestamp == "" && flagged.endTimeStamp == "";
  }
}

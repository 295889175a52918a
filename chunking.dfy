/** Splitting a record whose package lists are too large for one journald
    entry: splitLargeArray (recursive bisection of one list) and splitLog
    (assembly over the five lists). The length of the record's JSON encoding
    is the parameter `size`. */
module Chunking {
  import opened Types

  /** `tmp` of splitLargeArray: the record with every package list other than
      `f` emptied. */
  function ClearOthers(log: LogJSON, f: ListField): (r: LogJSON)
    ensures Get(r, f) == Get(log, f)
    ensures forall g :: g != f ==> Get(r, g) == []
    ensures Strip(r) == Strip(log)
  {
    Set(Strip(log), f, Get(log, f))
  }

  /** List `f` of every record of `chunks`, concatenated in order. */
  function Flatten(chunks: seq<LogJSON>, f: ListField): seq<PackageInfo> {
    if |chunks| == 0 then [] else Get(chunks[0], f) + Flatten(chunks[1..], f)
  }

  lemma {:induction false} FlattenAppend(a: seq<LogJSON>, b: seq<LogJSON>, f: ListField)
    ensures Flatten(a + b, f) == Flatten(a, f) + Flatten(b, f)
  {
    if a == [] {
      assert a + b == b;
    } else {
      assert (a + b)[1..] == a[1..] + b;
      FlattenAppend(a[1..], b, f);
    }
  }

  /** A half whose recursion returned nothing stands for itself. */
  function OrSelf<T>(parts: seq<T>, half: T): seq<T> {
    if parts == [] then [half] else parts
  }

  /** The recursion of splitLargeArray, stated on the list it bisects. Every
      record the recursion sees has its other lists cleared, so it is the
      stripped record with list `f` set to some slice `v`, and is determined
      by `v`; `fits(v)` says whether that record is small enough. The result
      is the slices that become chunks, in order. A one-package slice that
      still does not fit is returned as it is instead of being bisected
      again (see SlicesAsWritten). The empty result means "fits as it is". */
  function Slices(list: seq<PackageInfo>, fits: seq<PackageInfo> -> bool): (slices: seq<seq<PackageInfo>>)
    ensures slices == [] <==> list == [] || fits(list)
  {
    if |list| == 0 then []
    else if fits(list) then []
    else if |list| == 1 then [list]
    else
      var mid := |list| / 2;
      OrSelf(Slices(list[..mid], fits), list[..mid]) + OrSelf(Slices(list[mid..], fits), list[mid..])
  }

  function Concat(slices: seq<seq<PackageInfo>>): seq<PackageInfo> {
    if slices == [] then [] else slices[0] + Concat(slices[1..])
  }

  lemma {:induction false} ConcatAppend(a: seq<seq<PackageInfo>>, b: seq<seq<PackageInfo>>)
    ensures Concat(a + b) == Concat(a) + Concat(b)
  {
    if a == [] {
      assert a + b == b;
    } else {
      assert (a + b)[1..] == a[1..] + b;
      ConcatAppend(a[1..], b);
      AppendAssoc(a[0], Concat(a[1..]), Concat(b));
    }
  }

  /** The slices, concatenated, give back the list: nothing is lost,
      repeated or reordered. */
  lemma {:induction false} SlicesCover(list: seq<PackageInfo>, fits: seq<PackageInfo> -> bool)
    ensures Slices(list, fits) != [] ==> Concat(Slices(list, fits)) == list
  {
    if |list| >= 2 && !fits(list) {
      CoverStep(list, fits);
      SlicesCover(list[..|list| / 2], fits);
      SlicesCover(list[|list| / 2..], fits);
    }
  }

  /** One bisection step of SlicesCover: if both halves are covered by their
      slices, the list is covered by its own. */
  lemma CoverStep(list: seq<PackageInfo>, fits: seq<PackageInfo> -> bool)
    requires |list| >= 2 && !fits(list)
    ensures var l, r := list[..|list| / 2], list[|list| / 2..];
            (Slices(l, fits) != [] ==> Concat(Slices(l, fits)) == l) &&
            (Slices(r, fits) != [] ==> Concat(Slices(r, fits)) == r)
            ==> Concat(Slices(list, fits)) == list
  {
    var l, r := list[..|list| / 2], list[|list| / 2..];
    assert l + r == list;
    if (Slices(l, fits) != [] ==> Concat(Slices(l, fits)) == l) &&
       (Slices(r, fits) != [] ==> Concat(Slices(r, fits)) == r) {
      var ls, rs := OrSelf(Slices(l, fits), l), OrSelf(Slices(r, fits), r);
      assert Slices(list, fits) == ls + rs;
      OrSelfCover(Slices(l, fits), l);
      OrSelfCover(Slices(r, fits), r);
      ConcatAppend(ls, rs);
    }
  }

  /** A half's slices, or the half itself when it is not split, concatenate
      back to the half. */
  lemma OrSelfCover(slices: seq<seq<PackageInfo>>, half: seq<PackageInfo>)
    requires slices != [] ==> Concat(slices) == half
    ensures Concat(OrSelf(slices, half)) == half
  {
    if slices == [] {
      assert Concat([half]) == half + Concat([]);
    }
  }

  /** Every slice is non-empty, and fits unless it is a single package. */
  lemma {:induction false} SlicesShape(list: seq<PackageInfo>, fits: seq<PackageInfo> -> bool)
    ensures forall v :: v in Slices(list, fits) ==> v != [] && (fits(v) || |v| == 1)
  {
    if |list| >= 2 && !fits(list) {
      var mid := |list| / 2;
      SlicesShape(list[..mid], fits);
      SlicesShape(list[mid..], fits);
    }
  }

  /** Whether the record `log`, with list `f` set to `v` and the other lists
      cleared, is small enough. */
  function Fits(log: LogJSON, f: ListField, size: LogJSON -> nat): seq<PackageInfo> -> bool {
    v => size(Set(Strip(log), f, v)) <= JournalDMaxSize
  }

  /** The chunk records of the slices: `base` with list `f` set to each. */
  function Records(base: LogJSON, f: ListField, slices: seq<seq<PackageInfo>>): (chunks: seq<LogJSON>)
    ensures |chunks| == |slices|
    ensures forall i :: 0 <= i < |slices| ==> chunks[i] == Set(base, f, slices[i])
  {
    if slices == [] then [] else [Set(base, f, slices[0])] + Records(base, f, slices[1..])
  }

  lemma {:induction false} FlattenRecords(base: LogJSON, f: ListField, slices: seq<seq<PackageInfo>>)
    ensures Flatten(Records(base, f, slices), f) == Concat(slices)
  {
    if slices != [] {
      FlattenRecords(base, f, slices[1..]);
      assert Records(base, f, slices)[1..] == Records(base, f, slices[1..]);
    }
  }

  /** splitLargeArray: the chunks of list `f` of `log`; none when the list is
      empty or the record with the other lists cleared fits. */
  function SplitLargeArray(log: LogJSON, f: ListField, size: LogJSON -> nat): (chunks: seq<LogJSON>)
    ensures chunks == [] <==> Get(log, f) == [] || size(ClearOthers(log, f)) <= JournalDMaxSize
  {
    Records(Strip(log), f, Slices(Get(log, f), Fits(log, f, size)))
  }

  /** Concatenating list `f` across the chunks gives back the list, in order,
      with nothing lost or repeated. */
  lemma SplitLargeArrayCovers(log: LogJSON, f: ListField, size: LogJSON -> nat)
    ensures var chunks := SplitLargeArray(log, f, size);
      chunks != [] ==> Flatten(chunks, f) == Get(log, f)
  {
    var slices := Slices(Get(log, f), Fits(log, f, size));
    SlicesCover(Get(log, f), Fits(log, f, size));
    FlattenRecords(Strip(log), f, slices);
  }

  /** A chunk: the record `base` with a non-empty slice as list `f`; it fits
      unless it holds a single package. */
  ghost predicate Chunk(c: LogJSON, base: LogJSON, f: ListField, size: LogJSON -> nat) {
    c == Set(base, f, Get(c, f)) && Get(c, f) != [] &&
    (size(c) <= JournalDMaxSize || |Get(c, f)| == 1)
  }

  /** Every chunk keeps the non-list fields of `log`, has the other lists
      empty and a non-empty slice of list `f`, and fits unless it holds a
      single package. */
  lemma SplitLargeArrayShape(log: LogJSON, f: ListField, size: LogJSON -> nat)
    ensures forall c :: c in SplitLargeArray(log, f, size) ==> Chunk(c, Strip(log), f, size)
  {
    var slices := Slices(Get(log, f), Fits(log, f, size));
    SlicesShape(Get(log, f), Fits(log, f, size));
    var chunks := SplitLargeArray(log, f, size);
    forall c | c in chunks ensures Chunk(c, Strip(log), f, size) {
      var i :| 0 <= i < |chunks| && chunks[i] == c;
      assert slices[i] in slices;
    }
  }

  /** The recursion of splitLargeArray as written: a one-package slice that
      does not fit is bisected like any other. `depth` bounds the recursion;
      None means the recursion did not finish within it. */
  function SlicesAsWritten(list: seq<PackageInfo>, fits: seq<PackageInfo> -> bool, depth: nat): Option<seq<seq<PackageInfo>>>
    decreases depth
  {
    if |list| == 0 then Some([])
    else if fits(list) then Some([])
    else if depth == 0 then None
    else
      var mid := |list| / 2;
      Halves(SlicesAsWritten(list[..mid], fits, depth - 1), list[..mid],
             SlicesAsWritten(list[mid..], fits, depth - 1), list[mid..])
  }

  /** The left half's slices followed by the right half's, once both
      recursions have returned. */
  function Halves(lc: Option<seq<seq<PackageInfo>>>, left: seq<PackageInfo>,
                  rc: Option<seq<seq<PackageInfo>>>, right: seq<PackageInfo>): Option<seq<seq<PackageInfo>>> {
    if lc.None? || rc.None? then None
    else Some(OrSelf(lc.value, left) + OrSelf(rc.value, right))
  }

  /** splitLargeArray as written; None when it does not return within
      recursion depth `depth`. */
  function SplitLargeArrayAsWritten(log: LogJSON, f: ListField, size: LogJSON -> nat, depth: nat): Option<seq<LogJSON>> {
    match SlicesAsWritten(Get(log, f), Fits(log, f, size), depth)
    case None => None
    case Some(slices) => Some(Records(Strip(log), f, slices))
  }

  /** A one-package slice that does not fit is bisected into an empty left
      half and a right half equal to the whole: splitLargeArray calls itself
      with the same arguments again and never returns, however deep the
      recursion is allowed to go. */
  lemma {:induction false} SingleOversizedDiverges(list: seq<PackageInfo>, fits: seq<PackageInfo> -> bool, depth: nat)
    requires |list| == 1 && !fits(list)
    ensures SlicesAsWritten(list, fits, depth) == None
    decreases depth
  {
    if depth > 0 {
      assert |list| / 2 == 0 && list[0..] == list;
      SingleOversizedDiverges(list, fits, depth - 1);
      var left := SlicesAsWritten(list[..0], fits, depth - 1);
      assert SlicesAsWritten(list, fits, depth) == Halves(left, list[..0], None, list);
    }
  }

  /** A concrete input: one installed package, and a record that encodes to
      20000 bytes whatever it holds. */
  lemma OnePackageNeverSplits(depth: nat)
    ensures SplitLargeArrayAsWritten(EmptyLog.(install := [PackageInfo("pkg", "amd64", "", "1.0")]),
                                     Install, _ => 20000, depth) == None
  {
    var log := EmptyLog.(install := [PackageInfo("pkg", "amd64", "", "1.0")]);
    SingleOversizedDiverges(Get(log, Install), Fits(log, Install, _ => 20000), depth);
  }

  /** Every one-package slice of `list` fits. */
  ghost predicate SingletonsFit(list: seq<PackageInfo>, fits: seq<PackageInfo> -> bool) {
    |list| == 0 || (fits(list[..1]) && SingletonsFit(list[1..], fits))
  }

  /** SingletonsFit, from its statement about each package. */
  lemma {:induction false} SingletonsFitEach(list: seq<PackageInfo>, fits: seq<PackageInfo> -> bool)
    requires forall p :: p in list ==> fits([p])
    ensures SingletonsFit(list, fits)
  {
    if |list| > 0 {
      assert list[0] in list;
      assert list[..1] == [list[0]];
      forall p | p in list[1..] ensures fits([p]) {
        assert p in list;
      }
      SingletonsFitEach(list[1..], fits);
    }
  }

  lemma {:induction false} SingletonsFitSlices(list: seq<PackageInfo>, fits: seq<PackageInfo> -> bool, mid: nat)
    requires SingletonsFit(list, fits) && mid <= |list|
    ensures SingletonsFit(list[..mid], fits) && SingletonsFit(list[mid..], fits)
  {
    if mid == 0 {
      assert list[..0] == [] && list[0..] == list;
    } else {
      var tail := list[1..];
      SingletonsFitSlices(tail, fits, mid - 1);
      assert list[..mid][..1] == list[..1];
      assert list[..mid][1..] == tail[..mid - 1];
      assert list[mid..] == tail[mid - 1..];
    }
  }

  /** The recursion as written returns within `depth` and agrees with Slices. */
  ghost predicate Agrees(list: seq<PackageInfo>, fits: seq<PackageInfo> -> bool, depth: nat) {
    SlicesAsWritten(list, fits, depth) == Some(Slices(list, fits))
  }

  /** A list of two or more packages whose record does not fit: the case
      that both recursions bisect. */
  ghost predicate Oversized(list: seq<PackageInfo>, fits: seq<PackageInfo> -> bool) {
    |list| >= 2 && !fits(list)
  }

  /** When every single package fits, the recursion as written returns
      within depth |list| and agrees with Slices. */
  lemma {:induction false} AsWrittenAgrees(list: seq<PackageInfo>, fits: seq<PackageInfo> -> bool, depth: nat)
    requires SingletonsFit(list, fits)
    requires depth >= |list|
    ensures Agrees(list, fits, depth)
    decreases |list|, 1
  {
    if |list| == 1 {
      SingleFits(list, fits);
    }
    if |list| <= 1 || fits(list) {
      AgreeBase(list, fits, depth);
    } else {
      AgreeSplit(list, fits, depth);
    }
  }

  /** The bisection case of AsWrittenAgrees: both halves agree, by induction,
      and so does the whole. */
  lemma {:induction false} AgreeSplit(list: seq<PackageInfo>, fits: seq<PackageInfo> -> bool, depth: nat)
    requires SingletonsFit(list, fits)
    requires depth >= |list| && Oversized(list, fits)
    ensures Agrees(list, fits, depth)
    decreases |list|, 0
  {
    AgreeStep(list, fits, depth);
    SingletonsFitSlices(list, fits, |list| / 2);
    AsWrittenAgrees(list[..|list| / 2], fits, depth - 1);
    AsWrittenAgrees(list[|list| / 2..], fits, depth - 1);
  }

  lemma SingleFits(list: seq<PackageInfo>, fits: seq<PackageInfo> -> bool)
    requires |list| == 1 && SingletonsFit(list, fits)
    ensures fits(list)
  {
    assert list[..1] == list;
  }

  /** The base case of AsWrittenAgrees: nothing to split. */
  lemma AgreeBase(list: seq<PackageInfo>, fits: seq<PackageInfo> -> bool, depth: nat)
    requires |list| == 0 || fits(list)
    ensures Agrees(list, fits, depth)
  {
  }

  /** One bisection step of AsWrittenAgrees, from the agreement on the halves. */
  lemma AgreeStep(list: seq<PackageInfo>, fits: seq<PackageInfo> -> bool, depth: nat)
    requires Oversized(list, fits) && depth >= 1
    ensures Agrees(list[..|list| / 2], fits, depth - 1) && Agrees(list[|list| / 2..], fits, depth - 1)
            ==> Agrees(list, fits, depth)
  {
  }

  /** splitLargeArray as written returns, and agrees with SplitLargeArray,
      whenever every one-package record fits. */
  lemma SplitLargeArrayAsWrittenAgrees(log: LogJSON, f: ListField, size: LogJSON -> nat, depth: nat)
    requires forall p :: p in Get(log, f) ==> size(Set(Strip(log), f, [p])) <= JournalDMaxSize
    requires depth >= |Get(log, f)|
    ensures SplitLargeArrayAsWritten(log, f, size, depth) == Some(SplitLargeArray(log, f, size))
  {
    SingletonsFitEach(Get(log, f), Fits(log, f, size));
    AsWrittenAgrees(Get(log, f), Fits(log, f, size), depth);
  }

  // ---------------------------------------------------------------------------
  // splitLog
  // ---------------------------------------------------------------------------

  /** baseLog after the loop of splitLog has visited the fields `fs`: every
      list that needed splitting is emptied. */
  function Base(log: LogJSON, size: LogJSON -> nat, fs: seq<ListField>): LogJSON {
    if fs == [] then log
    else
      var b := Base(log, size, fs[..|fs| - 1]);
      var f := fs[|fs| - 1];
      if SplitLargeArray(log, f, size) != [] then Set(b, f, []) else b
  }

  /** The chunks splitLargeArray makes of each list of `log`. */
  function ChunksOf(log: LogJSON, size: LogJSON -> nat): ListField -> seq<LogJSON> {
    f => SplitLargeArray(log, f, size)
  }

  /** extraLogs after the loop of splitLog has visited the fields `fs`, the
      chunks of field `f` being `chunksOf(f)`. */
  function Extras(chunksOf: ListField -> seq<LogJSON>, fs: seq<ListField>): seq<LogJSON> {
    if fs == [] then []
    else Extras(chunksOf, fs[..|fs| - 1]) + chunksOf(fs[|fs| - 1])
  }

  /** splitLog: the base record first, then the chunks of every list that
      needed splitting, in field declaration order. */
  function SplitLogOf(log: LogJSON, size: LogJSON -> nat): seq<LogJSON> {
    [Base(log, size, ListFields)] + Extras(ChunksOf(log, size), ListFields)
  }

  /** splitLog, as the loop it is. */
  method SplitLog(log: LogJSON, size: LogJSON -> nat) returns (chunks: seq<LogJSON>)
    ensures chunks == SplitLogOf(log, size)
  {
    var baseLog := log;
    var extraLogs: seq<LogJSON> := [];
    for i := 0 to |ListFields|
      invariant baseLog == Base(log, size, ListFields[..i])
      invariant extraLogs == Extras(ChunksOf(log, size), ListFields[..i])
    {
      var f := ListFields[i];
      ghost var visited := ListFields[..i + 1];
      assert visited[..|visited| - 1] == ListFields[..i] && visited[|visited| - 1] == f;
      var fieldChunks := SplitLargeArray(log, f, size);
      if fieldChunks != [] {
        baseLog := Set(baseLog, f, []);
        extraLogs := extraLogs + fieldChunks;
      }
      assert Extras(ChunksOf(log, size), visited) == Extras(ChunksOf(log, size), ListFields[..i]) + fieldChunks;
    }
    assert ListFields[..|ListFields|] == ListFields;
    chunks := [baseLog] + extraLogs;
  }

  /** Whether splitLog splits list `f` of `log`. */
  predicate Splits(log: LogJSON, size: LogJSON -> nat, f: ListField) {
    SplitLargeArray(log, f, size) != []
  }

  /** No field occurs twice in `fs`. */
  ghost predicate Distinct(fs: seq<ListField>) {
    |fs| == 0 || (fs[|fs| - 1] !in fs[..|fs| - 1] && Distinct(fs[..|fs| - 1]))
  }

  lemma {:induction false} BaseFields(log: LogJSON, size: LogJSON -> nat, fs: seq<ListField>)
    ensures Strip(Base(log, size, fs)) == Strip(log)
    ensures forall f :: Get(Base(log, size, fs), f) == if f in fs && Splits(log, size, f) then [] else Get(log, f)
  {
    if fs != [] {
      BaseFields(log, size, fs[..|fs| - 1]);
      InitLast(fs);
    }
  }

  lemma ExtrasCover(log: LogJSON, size: LogJSON -> nat, fs: seq<ListField>, f: ListField)
    requires Distinct(fs)
    ensures Flatten(Extras(ChunksOf(log, size), fs), f) == if f in fs && Splits(log, size, f) then Get(log, f) else []
  {
    var chunksOf := ChunksOf(log, size);
    forall g | g != f ensures Flatten(chunksOf(g), f) == [] {
      OtherListsEmpty(log, g, size, f);
    }
    if !Splits(log, size, f) {
      assert Flatten(chunksOf(f), f) == [];
    } else {
      SplitLargeArrayCovers(log, f, size);
    }
    FlattenExtras(chunksOf, fs, f, if Splits(log, size, f) then Get(log, f) else []);
  }

  /** Flattening the extra chunks on field `f` keeps what the chunks of `f`
      hold, provided the chunks of every other field hold nothing of `f`. */
  lemma {:induction false} FlattenExtras(chunksOf: ListField -> seq<LogJSON>, fs: seq<ListField>, f: ListField, own: seq<PackageInfo>)
    requires Distinct(fs)
    requires forall g :: g != f ==> Flatten(chunksOf(g), f) == []
    requires Flatten(chunksOf(f), f) == own
    ensures Flatten(Extras(chunksOf, fs), f) == if f in fs then own else []
  {
    if fs != [] {
      var init := fs[..|fs| - 1];
      var g := fs[|fs| - 1];
      assert fs == init + [g];
      var prev := Extras(chunksOf, init);
      assert Extras(chunksOf, fs) == prev + chunksOf(g);
      FlattenExtras(chunksOf, init, f, own);
      FlattenAppend(prev, chunksOf(g), f);
      if f == g {
        assert Flatten(prev, f) == [];
        assert [] + own == own;
      } else {
        assert Flatten(chunksOf(g), f) == [];
        assert Flatten(prev, f) + [] == Flatten(prev, f);
      }
    }
  }

  lemma {:induction false} ExtrasFrom(log: LogJSON, size: LogJSON -> nat, fs: seq<ListField>)
    ensures forall c :: c in Extras(ChunksOf(log, size), fs) ==>
      exists f :: f in fs && c in SplitLargeArray(log, f, size)
  {
    if fs != [] {
      var init := fs[..|fs| - 1];
      ExtrasFrom(log, size, init);
      InitLast(fs);
    }
  }

  /** The chunks of list `g` hold nothing in any other list. */
  lemma OtherListsEmpty(log: LogJSON, g: ListField, size: LogJSON -> nat, f: ListField)
    requires f != g
    ensures Flatten(SplitLargeArray(log, g, size), f) == []
  {
    var chunks := SplitLargeArray(log, g, size);
    SplitLargeArrayShape(log, g, size);
    forall c | c in chunks ensures Get(c, f) == [] {
      assert Chunk(c, Strip(log), g, size);
    }
    FlattenEmpty(chunks, f);
  }

  lemma {:induction false} FlattenEmpty(chunks: seq<LogJSON>, f: ListField)
    requires forall c :: c in chunks ==> Get(c, f) == []
    ensures Flatten(chunks, f) == []
  {
    if chunks != [] {
      assert chunks[0] in chunks;
      FlattenEmpty(chunks[1..], f);
    }
  }

  lemma ListFieldsDistinct()
    ensures Distinct(ListFields)
    ensures forall f :: f in ListFields
  {
    var s1 := [Install];
    var s2 := s1 + [Reinstall];
    var s3 := s2 + [Upgrade];
    var s4 := s3 + [Remove];
    assert s1[..0] == [] && Distinct(s1);
    assert s2[..1] == s1 && Distinct(s2);
    assert s3[..2] == s2 && Distinct(s3);
    assert s4[..3] == s3 && Distinct(s4);
    assert ListFields[..4] == s4;
    forall f ensures f in ListFields {
      match f
      case Install => assert ListFields[0] == f;
      case Reinstall => assert ListFields[1] == f;
      case Upgrade => assert ListFields[2] == f;
      case Remove => assert ListFields[3] == f;
      case Purge => assert ListFields[4] == f;
    }
  }

  /** splitLog loses no package and duplicates none: list `f` of its records,
      concatenated in order, is list `f` of the input. */
  lemma SplitLogCoverage(log: LogJSON, size: LogJSON -> nat, f: ListField)
    ensures Flatten(SplitLogOf(log, size), f) == Get(log, f)
  {
    var base, extras := Base(log, size, ListFields), Extras(ChunksOf(log, size), ListFields);
    var chunks := SplitLogOf(log, size);
    assert chunks[0] == base && chunks[1..] == extras;
    assert Flatten(chunks, f) == Get(base, f) + Flatten(extras, f);
    ListFieldsDistinct();
    assert f in ListFields;
    BaseFields(log, size, ListFields);
    ExtrasCover(log, size, ListFields, f);
    if Splits(log, size, f) {
      assert Get(base, f) == [] && Flatten(extras, f) == Get(log, f);
    } else {
      assert Get(base, f) == Get(log, f) && Flatten(extras, f) == [];
    }
  }

  /** The first record is the input with every list that needed splitting
      emptied; every record keeps the non-list fields of the input. */
  lemma SplitLogShape(log: LogJSON, size: LogJSON -> nat)
    ensures var chunks := SplitLogOf(log, size);
      && (forall f :: Get(chunks[0], f) == if Splits(log, size, f) then [] else Get(log, f))
      && (forall c :: c in chunks ==> Strip(c) == Strip(log))
  {
    BaseFields(log, size, ListFields);
    ExtrasFrom(log, size, ListFields);
    forall c | c in Extras(ChunksOf(log, size), ListFields) ensures Strip(c) == Strip(log) {
      var f :| f in ListFields && c in SplitLargeArray(log, f, size);
      SplitLargeArrayShape(log, f, size);
      assert Chunk(c, Strip(log), f, size);
      StripStrip(log);
    }
  }

  /** Every record after the first holds packages of a single list, and fits
      unless it holds only one package. */
  lemma SplitLogChunksFit(log: LogJSON, size: LogJSON -> nat)
    ensures forall c :: c in SplitLogOf(log, size)[1..] ==> exists f :: Chunk(c, Strip(log), f, size)
  {
    ExtrasFrom(log, size, ListFields);
    assert SplitLogOf(log, size)[1..] == Extras(ChunksOf(log, size), ListFields);
    forall c | c in Extras(ChunksOf(log, size), ListFields) ensures exists f :: Chunk(c, Strip(log), f, size) {
      var f :| f in ListFields && c in SplitLargeArray(log, f, size);
      SplitLargeArrayShape(log, f, size);
      assert Chunk(c, Strip(log), f, size);
    }
  }

  lemma {:induction false} ExtrasNone(log: LogJSON, size: LogJSON -> nat, fs: seq<ListField>)
    requires forall f :: !Splits(log, size, f)
    ensures Extras(ChunksOf(log, size), fs) == []
  {
    if fs != [] {
      var init := fs[..|fs| - 1];
      ExtrasNone(log, size, init);
      assert !Splits(log, size, fs[|fs| - 1]);
      assert Extras(ChunksOf(log, size), fs) == Extras(ChunksOf(log, size), init) + SplitLargeArray(log, fs[|fs| - 1], size);
    }
  }

  /** When no list needs splitting, splitLog returns the input alone. */
  lemma SplitLogUnsplit(log: LogJSON, size: LogJSON -> nat)
    requires forall f :: Get(log, f) == [] || size(ClearOthers(log, f)) <= JournalDMaxSize
    ensures SplitLogOf(log, size) == [log]
  {
    BaseFields(log, size, ListFields);
    ExtrasNone(log, size, ListFields);
    StripEq(Base(log, size, ListFields), log);
  }
}

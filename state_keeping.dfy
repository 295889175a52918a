/** The position state file: what getLastPosition makes of the state file's
    content, and the "%d %d" text savePosition writes. File access is left
    out: the content read and the log file's stat are parameters. */
module StateKeeping {
  import opened Types
  import opened GoText

  /** getLastPosition reads the state file into a 128-byte buffer, once. */
  const ReadLimit: int := 128

  /** What os.Stat reports about the log file: its size and its inode. */
  datatype LogStat = LogStat(size: int, inode: U64)

  /** getLastPosition's result: the inode and offset to resume from and
      whether the state file was truncated as invalid; or the failure to
      stat the log file, which leaves inode and offset 0. */
  datatype Loaded = Loaded(inode: int, position: int, truncated: bool) | StatFailed

  /** The state file's content as getLastPosition classifies it. */
  datatype Stored = Blank | Invalid | Stored(inode: int, position: int)

  /** The bytes a single read into the 128-byte buffer returns. */
  function ReadPrefix(file: string): (data: string)
    ensures |data| <= ReadLimit && data <= file
    ensures |file| <= ReadLimit ==> data == file
  {
    if |file| <= ReadLimit then file else file[..ReadLimit]
  }

  /** The state file's content as getLastPosition inspects it: what one read
      returns, with surrounding white space trimmed. */
  function Content(file: string): string {
    TrimSpace(ReadPrefix(file))
  }

  /** Non-blank content that is not exactly two fields. */
  predicate Malformed(content: string) {
    content != "" && |Fields(content)| != 2
  }

  /** Two fields, but the first is not an unsigned or the second not a
      signed 64-bit decimal. */
  predicate NotDecimal(content: string) {
    var parts := Fields(content);
    |parts| == 2 && (ParseUint(parts[0]).err != NoError || ParseInt(parts[1]).err != NoError)
  }

  /** The content checks of getLastPosition: blank after trimming; not two
      fields; an inode that is not an unsigned or an offset that is not a
      signed 64-bit decimal; or the stored pair. */
  function ParseState(file: string): (s: Stored)
    ensures s.Stored? ==> 0 <= s.inode <= MaxU64 && MinI64 <= s.position <= MaxI64
    ensures s.Blank? <==> Content(file) == ""
    ensures s.Invalid? <==> Malformed(Content(file)) || NotDecimal(Content(file))
    ensures s.Stored? ==> var parts := Fields(Content(file));
      |parts| == 2 && ParseUint(parts[0]) == Converted(s.inode, NoError) && ParseInt(parts[1]) == Converted(s.position, NoError)
  {
    var content := Content(file);
    if content == "" then Blank
    else
      var parts := Fields(content);
      if |parts| != 2 then Invalid
      else
        var inodeParsed := ParseUint(parts[0]);
        var posParsed := ParseInt(parts[1]);
        if inodeParsed.err != NoError || posParsed.err != NoError then Invalid
        else Stored(inodeParsed.value, posParsed.value)
  }

  /** getLastPosition as written, given the state file's content and the
      stat of the log file (None when os.Stat fails). The comparison of the
      offset with the file size tests the result variable before anything
      has been assigned to it, when it is still 0, and whatever it assigns
      is overwritten on both branches that follow: the size plays no part
      (see ClampIsInert). Invalid content is truncated and read as (0, 0). */
  function GetLastPosition(file: string, stat: Option<LogStat>): (r: Loaded)
    ensures r.Loaded? && r.truncated <==> ParseState(file).Invalid?
    ensures r.Loaded? && r.truncated ==> r.inode == 0 && r.position == 0
    ensures r.StatFailed? <==> ParseState(file).Stored? && stat.None?
    ensures r.Loaded? && (r.inode != 0 || r.position != 0) ==> stat.Some? && r.inode == stat.value.inode
    ensures r.StatFailed? ==> stat.None?
    ensures ParseState(file).Stored? && stat.Some? ==>
      var stored := ParseState(file);
      r == if stored.inode == stat.value.inode then Loaded(stored.inode, stored.position, false)
           else Loaded(stat.value.inode, 0, false)
  {
    match ParseState(file)
    case Blank => Loaded(0, 0, false)
    case Invalid => Loaded(0, 0, true)
    case Stored(inodeParsed, posParsed) =>
      if stat.None? then StatFailed
      else if inodeParsed == stat.value.inode then Loaded(inodeParsed, posParsed, false)
      else Loaded(stat.value.inode, 0, false)
  }

  /** getLastPosition with the clamp it evidently intends: a stored offset
      beyond the end of the log file is replaced by the file size. */
  function GetLastPositionClamped(file: string, stat: Option<LogStat>): (r: Loaded)
    ensures r.Loaded? && r.truncated <==> ParseState(file).Invalid?
    ensures r.Loaded? && r.truncated ==> r.inode == 0 && r.position == 0
    ensures r.StatFailed? <==> ParseState(file).Stored? && stat.None?
    ensures r.Loaded? && (r.inode != 0 || r.position != 0) ==> stat.Some? && r.inode == stat.value.inode
    ensures r.StatFailed? ==> stat.None?
    ensures r.Loaded? && stat.Some? && stat.value.size >= 0 ==> r.position <= stat.value.size
    ensures ParseState(file).Stored? && stat.Some? ==>
      var stored := ParseState(file);
      r == if stored.inode == stat.value.inode
           then Loaded(stored.inode, if stored.position > stat.value.size then stat.value.size else stored.position, false)
           else Loaded(stat.value.inode, 0, false)
  {
    match ParseState(file)
    case Blank => Loaded(0, 0, false)
    case Invalid => Loaded(0, 0, true)
    case Stored(inodeParsed, posParsed) =>
      if stat.None? then StatFailed
      else if inodeParsed == stat.value.inode then
        Loaded(inodeParsed, if posParsed > stat.value.size then stat.value.size else posParsed, false)
      else Loaded(stat.value.inode, 0, false)
  }

  /** savePosition: the state file, truncated, holds exactly "inode offset". */
  function Encode(inode: U64, position: I64): string {
    Decimal(inode) + " " + FormatInt(position)
  }

  function Pow10(k: nat): nat {
    if k == 0 then 1 else 10 * Pow10(k - 1)
  }

  lemma {:induction false} Pow10Add(a: nat, b: nat)
    ensures Pow10(a + b) == Pow10(a) * Pow10(b)
  {
    if a > 0 {
      Pow10Add(a - 1, b);
      calc {
        Pow10(a + b);
        10 * Pow10(a - 1 + b);
        10 * (Pow10(a - 1) * Pow10(b));
        (10 * Pow10(a - 1)) * Pow10(b);
      }
    }
  }

  lemma Pow10Of20()
    ensures Pow10(20) == 100000000000000000000
  {
    assert Pow10(1) == 10;
    Pow10Add(1, 1);
    Pow10Add(2, 2);
    Pow10Add(1, 4);
    Pow10Add(5, 5);
    Pow10Add(10, 10);
  }

  lemma {:induction false} DecimalLength(n: nat, k: nat)
    requires 1 <= k && n < Pow10(k)
    ensures |Decimal(n)| <= k
    decreases n
  {
    if n >= 10 {
      DecimalLength(n / 10, k - 1);
    }
  }

  /** An encoded position fits in the buffer getLastPosition reads. */
  lemma EncodeFits(inode: U64, position: I64)
    ensures |Encode(inode, position)| <= ReadLimit
  {
    Pow10Of20();
    DecimalLength(inode, 20);
    var m: int := position;
    if m < 0 {
      DecimalLength(-m, 20);
    } else {
      DecimalLength(m, 20);
    }
  }

  lemma DecimalNoSpace(n: nat)
    ensures NoSpace(Decimal(n))
  {
    var d := Decimal(n);
    forall k | 0 <= k < |d| ensures !IsSpace(d[k]) {
      assert IsDigit(d[k]);
    }
  }

  /** The decimal text of a signed number has no spaces and ends in a digit. */
  lemma FormatIntWord(i: int)
    ensures FormatInt(i) != [] && NoSpace(FormatInt(i))
    ensures IsDigit(FormatInt(i)[|FormatInt(i)| - 1])
  {
    var f := FormatInt(i);
    if i < 0 {
      var d := Decimal(-i);
      DecimalNoSpace(-i);
      assert f == "-" + d;
      forall k | 0 <= k < |f| ensures !IsSpace(f[k]) {
        if k > 0 { assert f[k] == d[k - 1]; }
      }
      assert f[|f| - 1] == d[|d| - 1];
    } else {
      DecimalNoSpace(i);
    }
  }

  lemma EncodeWords(inode: U64, position: I64)
    ensures Fields(Encode(inode, position)) == [Decimal(inode), FormatInt(position)]
  {
    var words := [Decimal(inode), FormatInt(position)];
    assert words[1..] == [FormatInt(position)];
    assert Join(words, " ") == Encode(inode, position);
    DecimalNoSpace(inode);
    FormatIntWord(position);
    FieldsOfJoin(words);
  }

  /** A saved position reads back as the stored pair. */
  lemma {:induction false} ParseEncode(inode: U64, position: I64)
    ensures ParseState(Encode(inode, position)) == Stored(inode, position)
  {
    var s := Encode(inode, position);
    EncodeFits(inode, position);
    EncodeWords(inode, position);
    FormatIntWord(position);
    var f := FormatInt(position);
    assert s[0] == Decimal(inode)[0];
    assert s[|s| - 1] == f[|f| - 1];
    TrimLeftNone(s);
    TrimRightNone(s);
    ParseUintDecimal(inode);
    ParseIntFormat(position);
  }

  /** Round trip: what savePosition writes, getLastPosition reads back for the
      same inode, whatever the size of the log file. */
  lemma RoundTrip(inode: U64, position: I64, size: int)
    ensures GetLastPosition(Encode(inode, position), Some(LogStat(size, inode))) == Loaded(inode, position, false)
  {
    ParseEncode(inode, position);
  }

  /** With the clamp, the same round trip gives the offset bounded by the size. */
  lemma RoundTripClamped(inode: U64, position: I64, size: int)
    ensures GetLastPositionClamped(Encode(inode, position), Some(LogStat(size, inode)))
         == Loaded(inode, if position > size then size else position, false)
  {
    ParseEncode(inode, position);
  }

  /** A log file with another inode (rotated or replaced) restarts at offset 0. */
  lemma InodeChanged(inode: U64, position: I64, stat: LogStat)
    requires stat.inode != inode
    ensures GetLastPosition(Encode(inode, position), Some(stat)) == Loaded(stat.inode, 0, false)
    ensures GetLastPositionClamped(Encode(inode, position), Some(stat)) == Loaded(stat.inode, 0, false)
  {
    ParseEncode(inode, position);
  }

  /** An offset past the end of a 100-byte log file is handed back unchanged. */
  lemma ClampIsInert()
    ensures GetLastPosition(Encode(12345, 999999999), Some(LogStat(100, 12345))).position == 999999999
  {
    RoundTrip(12345, 999999999, 100);
  }

  lemma {:induction false} TrimAllSpace(s: string)
    requires forall k :: 0 <= k < |s| ==> IsSpace(s[k])
    ensures TrimLeftSpace(s) == ""
    decreases |s|
  {
    if s != [] {
      TrimAllSpace(s[1..]);
    }
  }

  /** A state file holding only white space (or nothing) reads as a fresh
      start, without truncation and without consulting the log file. */
  lemma BlankStateFile(file: string, stat: Option<LogStat>)
    requires forall k :: 0 <= k < |file| ==> IsSpace(file[k])
    ensures GetLastPosition(file, stat) == Loaded(0, 0, false)
    ensures GetLastPositionClamped(file, stat) == Loaded(0, 0, false)
  {
    TrimAllSpace(ReadPrefix(file));
  }

  /** Content that is not blank and is not two fields is truncated, and
      reading starts from the beginning of the log. */
  lemma MalformedResets(file: string, stat: Option<LogStat>)
    requires Malformed(Content(file))
    ensures GetLastPosition(file, stat) == Loaded(0, 0, true)
    ensures GetLastPositionClamped(file, stat) == Loaded(0, 0, true)
  {
  }

  /** Two fields that are not a 64-bit unsigned and a 64-bit signed decimal
      are treated as malformed content. */
  lemma NotDecimalResets(file: string, stat: Option<LogStat>)
    requires NotDecimal(Content(file))
    ensures GetLastPosition(file, stat) == Loaded(0, 0, true)
    ensures GetLastPositionClamped(file, stat) == Loaded(0, 0, true)
  {
  }

  /** Three words of text are not a state. */
  lemma BadDataResets(stat: Option<LogStat>)
    ensures GetLastPosition("bad data here", stat) == Loaded(0, 0, true)
  {
    var file := "bad data here";
    TrimLeftNone(file);
    TrimRightNone(file);
    var words := ["bad", "data", "here"];
    assert Join(words, " ") == file;
    FieldsOfJoin(words);
  }

  /** An inode that is not a number is rejected even beside a valid offset. */
  lemma NonNumericInodeResets(stat: Option<LogStat>)
    ensures GetLastPosition("abc 42", stat) == Loaded(0, 0, true)
  {
    var file := "abc 42";
    TrimLeftNone(file);
    TrimRightNone(file);
    var words := ["abc", "42"];
    assert Join(words, " ") == file;
    FieldsOfJoin(words);
    assert ParseUint("abc").err != NoError;
  }

  /** A single number, however valid, is not a state: the file is truncated
      and reading starts from the beginning. */
  lemma {:induction false} OneFieldIsInvalid(inode: U64, stat: Option<LogStat>)
    ensures GetLastPosition(Decimal(inode), stat) == Loaded(0, 0, true)
  {
    var s := Decimal(inode);
    EncodeFits(inode, 0);
    assert |s| <= ReadLimit;
    TrimLeftNone(s);
    TrimRightNone(s);
    DecimalNoSpace(inode);
    FieldsOfJoin([s]);
  }
}

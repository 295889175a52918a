/** The block framer of the log readers: the line-driven state machine that
    both readers run over the scanned lines of the APT history log, and the
    two scan loops around it (continuous mode and search mode). */
module LogReading {
  import opened Types
  import opened GoText
  import Parsing
  import SearchHelpers

  const StartMarker: string := "Start-Date: "
  const EndMarker: string := "End-Date: "

  predicate IsStart(line: string) { HasPrefix(line, StartMarker) }
  predicate IsEnd(line: string) { HasPrefix(line, EndMarker) }

  /** No line opens and closes a block at once: the markers differ in their
      first character. */
  lemma MarkersExclusive(line: string)
    ensures !(IsStart(line) && IsEnd(line))
  {
    if IsStart(line) {
      assert line[0] == line[..|StartMarker|][0] == 'S';
      OtherFirstChar(line, EndMarker);
    }
  }

  /** A string whose first character differs from that of `prefix` does
      not begin with it. */
  lemma OtherFirstChar(s: string, prefix: string)
    requires prefix != [] && (s == [] || s[0] != prefix[0])
    ensures !HasPrefix(s, prefix)
  {
    if |prefix| <= |s| {
      assert s[..|prefix|][0] == s[0];
    }
  }

  // ---------------------------------------------------------------------------
  // The framer as a function of its state
  // ---------------------------------------------------------------------------

  /** What the framing loop carries from one line to the next. */
  datatype FrameState = FrameState(eventBlock: string, blockHasStarted: bool)

  /** The state before the first line, and after every End-Date line. */
  const Idle: FrameState := FrameState("", false)

  /** The states the framing loop can be in: nothing is buffered outside a
      block, and a buffered block begins with its Start-Date line. */
  predicate Framed(s: FrameState) {
    && (!s.blockHasStarted ==> s.eventBlock == "")
    && (s.blockHasStarted ==> HasPrefix(s.eventBlock, StartMarker))
  }

  /** One line through the framing loop: the new state, and the block handed
      to parseEvent when the line is an End-Date line. */
  function Step(s: FrameState, line: string): (r: (FrameState, Option<string>))
    ensures r.1.Some? <==> IsEnd(line)
    ensures Framed(s) ==> Framed(r.0)
  {
    var entered := if IsStart(line) then FrameState("", true) else s;
    var buffered := if entered.blockHasStarted then entered.(eventBlock := entered.eventBlock + line + "\n") else entered;
    if IsEnd(line) then (Idle, Some(buffered.eventBlock)) else (buffered, None)
  }

  /** The number of End-Date lines among `lines`. */
  function EndLines(lines: seq<string>): nat {
    if lines == [] then 0
    else EndLines(lines[..|lines| - 1]) + (if IsEnd(lines[|lines| - 1]) then 1 else 0)
  }

  /** The framing loop over `lines` from state `s`: the state it ends in and
      the blocks it handed to parseEvent, one per End-Date line, in order. */
  function Frame(s: FrameState, lines: seq<string>): (FrameState, seq<string>)
  {
    if lines == [] then (s, [])
    else
      var prefix := Frame(s, lines[..|lines| - 1]);
      var (next, block) := Step(prefix.0, lines[|lines| - 1]);
      (next, if block.Some? then prefix.1 + [block.value] else prefix.1)
  }

  /** The framer hands over one block per End-Date line and stays in the
      states described by Framed. */
  lemma {:induction false} FrameCount(s: FrameState, lines: seq<string>)
    ensures |Frame(s, lines).1| == EndLines(lines)
    ensures Framed(s) ==> Framed(Frame(s, lines).0)
  {
    if lines != [] {
      FrameCount(s, lines[..|lines| - 1]);
    }
  }

  /** The text a block of lines leaves in the buffer: each line followed by
      a newline. */
  function Lines(lines: seq<string>): string {
    if lines == [] then "" else Lines(lines[..|lines| - 1]) + lines[|lines| - 1] + "\n"
  }

  // ---------------------------------------------------------------------------
  // Properties of the framer
  // ---------------------------------------------------------------------------

  /** A Start-Date line discards whatever was buffered and opens a block
      holding just itself. */
  lemma StartWipes(s: FrameState, line: string)
    requires IsStart(line)
    ensures Step(s, line) == (FrameState(line + "\n", true), None)
  {
    MarkersExclusive(line);
    assert "" + line + "\n" == line + "\n";
  }

  /** Outside a block, a line that is no marker changes nothing and is not
      buffered. */
  lemma OutsideIgnored(s: FrameState, line: string)
    requires Framed(s) && !s.blockHasStarted
    requires !IsStart(line) && !IsEnd(line)
    ensures Step(s, line) == (Idle, None)
  {
  }

  /** Inside a block, a line that is no marker is appended verbatim with a
      newline. */
  lemma InsideAppends(s: FrameState, line: string)
    requires s.blockHasStarted
    requires !IsStart(line) && !IsEnd(line)
    ensures Step(s, line) == (s.(eventBlock := s.eventBlock + line + "\n"), None)
  {
  }

  /** An End-Date line closes the block: it hands over the buffer with
      itself appended and leaves the framer idle. A stray End-Date line
      outside a block hands over the empty string. */
  lemma EndCloses(s: FrameState, line: string)
    requires Framed(s) && IsEnd(line)
    ensures Step(s, line) == (Idle, Some(if s.blockHasStarted then s.eventBlock + line + "\n" else ""))
  {
    MarkersExclusive(line);
  }

  /** Framing one more line: one more step of the loop. */
  lemma FrameSnoc(s: FrameState, lines: seq<string>, line: string)
    ensures Frame(s, lines + [line]).0 == Step(Frame(s, lines).0, line).0
    ensures Frame(s, lines + [line]).1 ==
      Frame(s, lines).1 + (if IsEnd(line) then [Step(Frame(s, lines).0, line).1.value] else [])
  {
    assert (lines + [line])[..|lines|] == lines;
  }

  /** Framing is a left fold: scanning `a` and then `b` from the state `a`
      left behind is scanning `a + b`. This is why the buffer and the flag,
      kept across wake-ups of the continuous reader, lose nothing. */
  lemma {:induction false} FrameAppend(s: FrameState, a: seq<string>, b: seq<string>)
    ensures Frame(s, a + b).0 == Frame(Frame(s, a).0, b).0
    ensures Frame(s, a + b).1 == Frame(s, a).1 + Frame(Frame(s, a).0, b).1
    decreases |b|
  {
    if |b| == 0 {
      assert a + b == a && b == [];
    } else {
      var b', last := b[..|b| - 1], b[|b| - 1];
      assert b' + [last] == b;
      AppendStep(s, a, b', last);
      FrameAppend(s, a, b');
    }
  }

  /** The step of FrameAppend: the fold property for `b'` extends to
      `b' + [last]`. */
  lemma AppendStep(s: FrameState, a: seq<string>, b': seq<string>, last: string)
    ensures Frame(s, a + b').0 == Frame(Frame(s, a).0, b').0 &&
            Frame(s, a + b').1 == Frame(s, a).1 + Frame(Frame(s, a).0, b').1
        ==> Frame(s, a + (b' + [last])).0 == Frame(Frame(s, a).0, b' + [last]).0 &&
            Frame(s, a + (b' + [last])).1 == Frame(s, a).1 + Frame(Frame(s, a).0, b' + [last]).1
  {
    assert a + (b' + [last]) == (a + b') + [last];
    FrameSnoc(s, a + b', last);
    FrameSnoc(Frame(s, a).0, b', last);
    var head, mid := Frame(s, a).1, Frame(Frame(s, a).0, b').1;
    var tail := if IsEnd(last) then [Step(Frame(s, a + b').0, last).1.value] else [];
    assert head + mid + tail == head + (mid + tail);
  }

  /** Inside a block, lines that are no markers are all buffered, in order,
      and nothing is handed over: an unterminated block is withheld and
      kept. */
  lemma {:induction false} BodyBuffered(s: FrameState, body: seq<string>)
    requires s.blockHasStarted
    requires forall k :: 0 <= k < |body| ==> !IsStart(body[k]) && !IsEnd(body[k])
    ensures Frame(s, body) == (s.(eventBlock := s.eventBlock + Lines(body)), [])
  {
    if body != [] {
      var init, last := body[..|body| - 1], body[|body| - 1];
      forall k | 0 <= k < |init| ensures !IsStart(init[k]) && !IsEnd(init[k]) {
        assert init[k] == body[k];
      }
      assert !IsStart(last) && !IsEnd(last);
      BodyBuffered(s, init);
      FrameSnoc(s, init, last);
      assert init + [last] == body;
      InsideAppends(Frame(s, init).0, last);
      assert s.eventBlock + Lines(init) + last + "\n" == s.eventBlock + Lines(body);
    } else {
      assert s.eventBlock + Lines(body) == s.eventBlock;
    }
  }

  /** A well-formed block: a Start-Date line, lines that are no markers,
      and an End-Date line. */
  predicate Block(lines: seq<string>) {
    && |lines| >= 2
    && IsStart(lines[0])
    && IsEnd(lines[|lines| - 1])
    && forall k :: 0 < k < |lines| - 1 ==> !IsStart(lines[k]) && !IsEnd(lines[k])
  }

  /** A Start-Date line followed by lines that are no markers leaves
      exactly those lines in the buffer of an open block. */
  lemma OpenBlock(s: FrameState, start: string, body: seq<string>)
    requires IsStart(start)
    requires forall k :: 0 <= k < |body| ==> !IsStart(body[k]) && !IsEnd(body[k])
    ensures Frame(s, [start] + body) == (FrameState(Lines([start] + body), true), [])
  {
    var entered := FrameState(start + "\n", true);
    StartWipes(s, start);
    FrameSnoc(s, [], start);
    assert [] + [start] == [start];
    BodyBuffered(entered, body);
    FrameAppend(s, [start], body);
    assert Lines([start]) == start + "\n" by {
      assert [start][..0] == [];
    }
    LinesAppend([start], body);
  }

  /** Whatever state the framer is in, a well-formed block is handed over
      whole, each of its lines followed by a newline, and the framer ends
      idle. */
  lemma FrameBlock(s: FrameState, lines: seq<string>)
    requires Framed(s) && Block(lines)
    ensures Frame(s, lines) == (Idle, [Lines(lines)])
  {
    var n := |lines|;
    var pre, last := lines[..n - 1], lines[n - 1];
    var body := lines[1..n - 1];
    forall k | 0 <= k < |body| ensures !IsStart(body[k]) && !IsEnd(body[k]) {
      assert body[k] == lines[k + 1];
    }
    OpenBlock(s, lines[0], body);
    assert [lines[0]] + body == pre;
    var open := FrameState(Lines(pre), true);
    assert Frame(s, pre) == (open, []);
    FrameCount(s, pre);
    EndCloses(open, last);
    assert Step(open, last) == (Idle, Some(Lines(pre) + last + "\n"));
    FrameSnoc(s, pre, last);
    assert pre + [last] == lines;
    assert Frame(s, lines).0 == Idle;
    assert Frame(s, lines).1 == [Lines(pre) + last + "\n"];
    assert Lines(lines) == Lines(pre) + last + "\n";
  }

  lemma {:induction false} LinesAppend(a: seq<string>, b: seq<string>)
    ensures Lines(a + b) == Lines(a) + Lines(b)
    decreases |b|
  {
    if b == [] {
      assert a + b == a;
    } else {
      var b' := b[..|b| - 1];
      assert (a + b)[..|a + b| - 1] == a + b';
      LinesAppend(a, b');
    }
  }

  function Concat(blocks: seq<seq<string>>): seq<string> {
    if blocks == [] then [] else Concat(blocks[..|blocks| - 1]) + blocks[|blocks| - 1]
  }

  /** A log made of well-formed blocks, read from the start, is handed over
      block by block, in file order, each block's text exactly its lines. */
  lemma {:induction false} FrameLog(blocks: seq<seq<string>>)
    requires forall k :: 0 <= k < |blocks| ==> Block(blocks[k])
    ensures Frame(Idle, Concat(blocks)).0 == Idle
    ensures Frame(Idle, Concat(blocks)).1 == seq(|blocks|, k requires 0 <= k < |blocks| => Lines(blocks[k]))
  {
    if blocks != [] {
      var init := blocks[..|blocks| - 1];
      var last := blocks[|blocks| - 1];
      FrameLog(init);
      FrameAppend(Idle, Concat(init), last);
      FrameBlock(Idle, last);
    }
  }

  /** Lines with no End-Date line hand nothing over. */
  lemma {:induction false} NoEndNoBlock(s: FrameState, lines: seq<string>)
    requires forall k :: 0 <= k < |lines| ==> !IsEnd(lines[k])
    ensures Frame(s, lines).1 == []
  {
    if lines != [] {
      var init := lines[..|lines| - 1];
      forall k | 0 <= k < |init| ensures !IsEnd(init[k]) {
        assert init[k] == lines[k];
      }
      NoEndNoBlock(s, init);
    }
  }

  /** Whatever was buffered or left unterminated before a well-formed
      block, the block is handed over exactly as its own lines: an earlier
      unfinished block is discarded. */
  lemma RestartDiscardsPartial(s: FrameState, partial: seq<string>, block: seq<string>)
    requires Framed(s) && Block(block)
    requires forall k :: 0 <= k < |partial| ==> !IsEnd(partial[k])
    ensures Frame(s, partial + block).0 == Idle
    ensures Frame(s, partial + block).1 == [Lines(block)]
  {
    NoEndNoBlock(s, partial);
    FrameCount(s, partial);
    var mid := Frame(s, partial).0;
    FrameBlock(mid, block);
    FrameAppend(s, partial, block);
    assert Frame(s, partial + block).1 == [] + [Lines(block)];
  }

  /** Feeding [Start, "a", Start, "b", End] hands over one block, the
      second one. */
  lemma RestartDiscards()
    ensures Frame(Idle, ["Start-Date: 1", "a", "Start-Date: 2", "b", "End-Date: 3"]).1
         == ["Start-Date: 2\nb\nEnd-Date: 3\n"]
  {
    var partial := ["Start-Date: 1", "a"];
    var block := ["Start-Date: 2", "b", "End-Date: 3"];
    assert partial + block == ["Start-Date: 1", "a", "Start-Date: 2", "b", "End-Date: 3"];
    OtherFirstChar(partial[0], EndMarker);
    OtherFirstChar(partial[1], EndMarker);
    OtherFirstChar(block[1], EndMarker);
    OtherFirstChar(block[1], StartMarker);
    assert IsStart(block[0]) && IsEnd(block[2]);
    RestartDiscardsPartial(Idle, partial, block);
    BlockText();
  }

  lemma BlockText()
    ensures Lines(["Start-Date: 2", "b", "End-Date: 3"]) == "Start-Date: 2\nb\nEnd-Date: 3\n"
  {
    var block := ["Start-Date: 2", "b", "End-Date: 3"];
    assert block[..2] == ["Start-Date: 2", "b"] && block[..2][..1] == ["Start-Date: 2"];
    assert block[..2][..1][..0] == [];
    assert Lines(block[..2][..1]) == "Start-Date: 2\n";
    assert Lines(block[..2]) == "Start-Date: 2\nb\n";
  }

  // ---------------------------------------------------------------------------
  // The framer as an object
  // ---------------------------------------------------------------------------

  /** The framing loop's two variables, updated line by line. */
  class Framer {
    var eventBlock: string
    var blockHasStarted: bool

    function State(): FrameState
      reads this
    {
      FrameState(eventBlock, blockHasStarted)
    }

    constructor ()
      ensures State() == Idle
    {
      eventBlock := "";
      blockHasStarted := false;
    }

    /** One iteration of the scan loop's framing part: returns the block to
        parse when `line` is an End-Date line. */
    method Feed(line: string) returns (block: Option<string>)
      modifies this
      ensures (State(), block) == Step(old(State()), line)
      ensures Framed(old(State())) ==> Framed(State())
    {
      if HasPrefix(line, StartMarker) {
        eventBlock := "";
        blockHasStarted := true;
      }
      if blockHasStarted {
        eventBlock := eventBlock + line + "\n";
      }
      block := None;
      if HasPrefix(line, EndMarker) {
        blockHasStarted := false;
        block := Some(eventBlock);
        eventBlock := "";
      }
    }
  }

  // ---------------------------------------------------------------------------
  // Continuous mode
  // ---------------------------------------------------------------------------

  /** The record emitted for each handed block: the parsed record, emitted
      whether or not parsing failed. */
  function Emitted(blocks: seq<string>, ext: Parsing.Externals): (r: seq<LogJSON>)
    ensures |r| == |blocks|
  {
    if blocks == [] then []
    else Emitted(blocks[..|blocks| - 1], ext) + [Parsing.EventOf(blocks[|blocks| - 1], ext).0]
  }

  /** The saved position after scanning `lines`: the cursor reported after
      the last End-Date line, or `position` when there is none. */
  function LastEnd(lines: seq<string>, cursor: seq<int>, position: int): int
    requires |cursor| == |lines|
  {
    if lines == [] then position
    else if IsEnd(lines[|lines| - 1]) then cursor[|lines| - 1]
    else LastEnd(lines[..|lines| - 1], cursor[..|lines| - 1], position)
  }

  /** The position moves only at the end of a block: with no End-Date line
      it stays, and otherwise it is the cursor after the last one. */
  lemma PositionAtBlockEnd(lines: seq<string>, cursor: seq<int>, position: int)
    requires |cursor| == |lines|
    ensures (forall k :: 0 <= k < |lines| ==> !IsEnd(lines[k])) ==> LastEnd(lines, cursor, position) == position
    ensures forall j :: 0 <= j < |lines| && IsEnd(lines[j]) && (forall k :: j < k < |lines| ==> !IsEnd(lines[k])) ==>
      LastEnd(lines, cursor, position) == cursor[j]
  {
    if forall k :: 0 <= k < |lines| ==> !IsEnd(lines[k]) {
      PositionStays(lines, cursor, position);
    }
    forall j | 0 <= j < |lines| && IsEnd(lines[j]) && (forall k :: j < k < |lines| ==> !IsEnd(lines[k]))
      ensures LastEnd(lines, cursor, position) == cursor[j]
    {
      PositionAtLastEnd(lines, cursor, position, j);
    }
  }

  lemma {:induction false} PositionStays(lines: seq<string>, cursor: seq<int>, position: int)
    requires |cursor| == |lines|
    requires forall k :: 0 <= k < |lines| ==> !IsEnd(lines[k])
    ensures LastEnd(lines, cursor, position) == position
  {
    if lines != [] {
      var n := |lines|;
      var init := lines[..n - 1];
      assert !IsEnd(lines[n - 1]);
      assert forall k :: 0 <= k < |init| ==> init[k] == lines[k];
      PositionStays(init, cursor[..n - 1], position);
    }
  }

  lemma {:induction false} PositionAtLastEnd(lines: seq<string>, cursor: seq<int>, position: int, j: int)
    requires |cursor| == |lines|
    requires 0 <= j < |lines| && IsEnd(lines[j])
    requires forall k :: j < k < |lines| ==> !IsEnd(lines[k])
    ensures LastEnd(lines, cursor, position) == cursor[j]
  {
    var n := |lines|;
    if j < n - 1 {
      var init := lines[..n - 1];
      assert !IsEnd(lines[n - 1]);
      assert forall k :: 0 <= k < |init| ==> init[k] == lines[k];
      PositionAtLastEnd(init, cursor[..n - 1], position, j);
    }
  }

  /** One pass of the continuous reader's inner loop over the lines scanned
      since the last wake-up. `cursor[i]` is the file offset the reader
      reports after scanning line `i`; each handed block is parsed and its
      record emitted even when parsing fails, and only then is the position
      moved. The framer's state is kept for the next pass. */
  method ScanContinuous(framer: Framer, lines: seq<string>, cursor: seq<int>, position: int, ext: Parsing.Externals)
    returns (emitted: seq<LogJSON>, newPosition: int)
    requires |cursor| == |lines|
    modifies framer
    ensures framer.State() == Frame(old(framer.State()), lines).0
    ensures emitted == Emitted(Frame(old(framer.State()), lines).1, ext)
    ensures newPosition == LastEnd(lines, cursor, position)
  {
    ghost var start := framer.State();
    emitted, newPosition := [], position;
    for i := 0 to |lines|
      invariant framer.State() == Frame(start, lines[..i]).0
      invariant emitted == Emitted(Frame(start, lines[..i]).1, ext)
      invariant newPosition == LastEnd(lines[..i], cursor[..i], position)
    {
      var line := lines[i];
      assert lines[..i + 1][..i] == lines[..i] && cursor[..i + 1][..i] == cursor[..i];
      var block := framer.Feed(line);
      if block.Some? {
        var newLog, err := Parsing.ParseEvent(block.value, ext);
        emitted := emitted + [newLog];
        newPosition := cursor[i];
      }
    }
    assert lines[..|lines|] == lines && cursor[..|lines|] == cursor;
  }

  // ---------------------------------------------------------------------------
  // Search mode
  // ---------------------------------------------------------------------------

  datatype ScanError = ParseFailed(cause: Parsing.ParseError) | SearchFailed

  /** What the search loop does with one handed block: abort the scan,
      skip the block, or keep a matched record. */
  datatype Verdict = Abort(err: ScanError) | Skip | Keep(record: LogJSON)

  /** The block is parsed, then matched. */
  function VerdictOf(block: string, search: SearchHelpers.SearchParameters, ext: Parsing.Externals,
                     parseTime: string -> Option<int>): Verdict
  {
    Judge(Parsing.EventOf(block, ext), search, parseTime)
  }

  /** A parse error or a match error aborts; otherwise the match decides. */
  function Judge(parsed: (LogJSON, Option<Parsing.ParseError>), search: SearchHelpers.SearchParameters,
                 parseTime: string -> Option<int>): Verdict
  {
    var (newLog, err) := parsed;
    if err.Some? then Abort(ParseFailed(err.value))
    else
      match SearchHelpers.FindMatchesOf(newLog, search, parseTime)
      case TimeError => Abort(SearchFailed)
      case NoMatch => Skip
      case Matched(r) => Keep(r)
  }

  function Verdicts(blocks: seq<string>, search: SearchHelpers.SearchParameters, ext: Parsing.Externals,
                    parseTime: string -> Option<int>): (v: seq<Verdict>)
    ensures |v| == |blocks|
  {
    if blocks == [] then []
    else Verdicts(blocks[..|blocks| - 1], search, ext, parseTime) + [VerdictOf(blocks[|blocks| - 1], search, ext, parseTime)]
  }

  lemma {:induction false} VerdictsAppend(a: seq<string>, b: seq<string>, search: SearchHelpers.SearchParameters,
                                          ext: Parsing.Externals, parseTime: string -> Option<int>)
    ensures Verdicts(a + b, search, ext, parseTime) == Verdicts(a, search, ext, parseTime) + Verdicts(b, search, ext, parseTime)
    decreases |b|
  {
    if b == [] {
      assert a + b == a;
    } else {
      var b' := b[..|b| - 1];
      assert (a + b)[..|a + b| - 1] == a + b';
      VerdictsAppend(a, b', search, ext, parseTime);
    }
  }

  /** The search loop over the verdicts of the handed blocks: the records
      kept so far, and the error the scan stopped at, if any. */
  function Gather(verdicts: seq<Verdict>): (seq<LogJSON>, Option<ScanError>)
  {
    if verdicts == [] then ([], None)
    else
      var prefix := Gather(verdicts[..|verdicts| - 1]);
      if prefix.1.Some? then prefix
      else
        match verdicts[|verdicts| - 1]
        case Abort(e) => (prefix.0, Some(e))
        case Skip => prefix
        case Keep(r) => (prefix.0 + [r], None)
  }

  /** The records of the kept blocks, in file order. */
  function Kept(verdicts: seq<Verdict>): seq<LogJSON> {
    if verdicts == [] then []
    else Kept(verdicts[..|verdicts| - 1]) + (if verdicts[|verdicts| - 1].Keep? then [verdicts[|verdicts| - 1].record] else [])
  }

  /** The search fails exactly when some block aborts, and then with the
      first block's error; when it succeeds, its records are those of the
      matched blocks, in file order. */
  lemma {:induction false} GatherOutcome(verdicts: seq<Verdict>)
    ensures Gather(verdicts).1.None? <==> forall k :: 0 <= k < |verdicts| ==> !verdicts[k].Abort?
    ensures Gather(verdicts).1.Some? ==> exists k :: 0 <= k < |verdicts| && verdicts[k] == Abort(Gather(verdicts).1.value) &&
                                                     forall j :: 0 <= j < k ==> !verdicts[j].Abort?
    ensures Gather(verdicts).1.None? ==> Gather(verdicts).0 == Kept(verdicts)
  {
    if verdicts != [] {
      var n := |verdicts|;
      var init := verdicts[..n - 1];
      GatherOutcome(init);
      if Gather(init).1.Some? {
        var k :| 0 <= k < n - 1 && init[k] == Abort(Gather(init).1.value) && forall j :: 0 <= j < k ==> !init[j].Abort?;
        assert verdicts[k] == init[k];
        forall j | 0 <= j < k ensures !verdicts[j].Abort? {
          assert verdicts[j] == init[j];
        }
      } else {
        forall j | 0 <= j < n - 1 ensures !verdicts[j].Abort? {
          assert verdicts[j] == init[j];
        }
      }
    }
  }

  /** Once the search has failed, later blocks change nothing. */
  lemma {:induction false} GatherAborts(verdicts: seq<Verdict>, more: seq<Verdict>)
    requires Gather(verdicts).1.Some?
    ensures Gather(verdicts + more) == Gather(verdicts)
    decreases |more|
  {
    if more == [] {
      assert verdicts + more == verdicts;
    } else {
      var more' := more[..|more| - 1];
      assert (verdicts + more)[..|verdicts + more| - 1] == verdicts + more';
      GatherAborts(verdicts, more');
    }
  }

  /** The search reader's loop: frames the lines from an idle framer,
      parses and matches each handed block, and stops at the first error. */
  method ScanSearch(lines: seq<string>, search: SearchHelpers.SearchParameters, ext: Parsing.Externals,
                    parseTime: string -> Option<int>)
    returns (parsedBuffer: seq<LogJSON>, err: Option<ScanError>)
    ensures (parsedBuffer, err) == Gather(Verdicts(Frame(Idle, lines).1, search, ext, parseTime))
  {
    var framer := new Framer();
    parsedBuffer, err := [], None;
    ghost var verdicts: seq<Verdict> := [];
    for i := 0 to |lines|
      invariant framer.State() == Frame(Idle, lines[..i]).0
      invariant verdicts == Verdicts(Frame(Idle, lines[..i]).1, search, ext, parseTime)
      invariant (parsedBuffer, None) == Gather(verdicts)
    {
      ScanStep(lines, i, search, ext, parseTime);
      var block := framer.Feed(lines[i]);
      if block.Some? {
        var newLog, parseErr := Parsing.ParseEvent(block.value, ext);
        ghost var verdict := Judge((newLog, parseErr), search, parseTime);
        assert verdict == VerdictOf(block.value, search, ext, parseTime);
        GatherSnoc(verdicts, verdict);
        verdicts := verdicts + [verdict];
        if parseErr.Some? {
          err := Some(ParseFailed(parseErr.value));
          Finished(lines, i + 1, search, ext, parseTime);
          return;
        }
        var outcome := SearchHelpers.FindMatches(newLog, search, parseTime);
        if outcome.TimeError? {
          err := Some(SearchFailed);
          Finished(lines, i + 1, search, ext, parseTime);
          return;
        }
        if outcome.Matched? {
          parsedBuffer := parsedBuffer + [outcome.record];
        }
      }
    }
    assert lines[..|lines|] == lines;
  }

  /** One line of the search loop: the framer's next state, and the verdicts
      of the blocks handed so far, extended by the verdict of the block the
      line hands over, if any. */
  lemma ScanStep(lines: seq<string>, i: nat, search: SearchHelpers.SearchParameters, ext: Parsing.Externals,
                 parseTime: string -> Option<int>)
    requires i < |lines|
    ensures var prev := Frame(Idle, lines[..i]);
            var step := Step(prev.0, lines[i]);
            var now := Frame(Idle, lines[..i + 1]);
            && now.0 == step.0
            && Verdicts(now.1, search, ext, parseTime)
               == Verdicts(prev.1, search, ext, parseTime)
                  + (if step.1.Some? then [VerdictOf(step.1.value, search, ext, parseTime)] else [])
  {
    var prev := Frame(Idle, lines[..i]);
    assert lines[..i + 1][..i] == lines[..i];
    var step := Step(prev.0, lines[i]);
    if step.1.Some? {
      var handed := prev.1 + [step.1.value];
      assert handed[..|handed| - 1] == prev.1;
    }
  }

  /** Gathering one more verdict after a scan that has not failed. */
  lemma GatherSnoc(verdicts: seq<Verdict>, v: Verdict)
    requires Gather(verdicts).1.None?
    ensures Gather(verdicts + [v]) == match v
      case Abort(e) => (Gather(verdicts).0, Some(e))
      case Skip => Gather(verdicts)
      case Keep(r) => (Gather(verdicts).0 + [r], None)
  {
    assert (verdicts + [v])[..|verdicts|] == verdicts;
  }

  /** A search that failed on the first `i` lines has failed, with the same
      result, on all of them. */
  lemma Finished(lines: seq<string>, i: nat, search: SearchHelpers.SearchParameters, ext: Parsing.Externals,
                 parseTime: string -> Option<int>)
    requires i <= |lines|
    requires Gather(Verdicts(Frame(Idle, lines[..i]).1, search, ext, parseTime)).1.Some?
    ensures Gather(Verdicts(Frame(Idle, lines).1, search, ext, parseTime))
         == Gather(Verdicts(Frame(Idle, lines[..i]).1, search, ext, parseTime))
  {
    var a, b := lines[..i], lines[i..];
    assert a + b == lines;
    FrameAppend(Idle, a, b);
    var handedA, handedB := Frame(Idle, a).1, Frame(Frame(Idle, a).0, b).1;
    VerdictsAppend(handedA, handedB, search, ext, parseTime);
    GatherAborts(Verdicts(handedA, search, ext, parseTime), Verdicts(handedB, search, ext, parseTime));
  }
}

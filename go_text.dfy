/** The part of Go's `strings` and `strconv` packages that the logger relies on,
    written out so that the rest of the model can reason about it. */
module GoText {

  const MaxU64: int := 18446744073709551615
  const MaxI64: int := 9223372036854775807
  const MinI64: int := -9223372036854775808

  /** Go's `uint64` and `int64` value ranges. */
  type U64 = x: int | 0 <= x <= MaxU64
  type I64 = x: int | MinI64 <= x <= MaxI64

  // ---------------------------------------------------------------------------
  // Characters and prefixes
  // ---------------------------------------------------------------------------

  /** unicode.IsSpace: the Unicode White_Space characters. */
  predicate IsSpace(c: char) {
    c == ' ' || ('\t' <= c <= '\r') || c == '\U{85}' || c == '\U{A0}' || c == '\U{1680}'
    || ('\U{2000}' <= c <= '\U{200A}') || c == '\U{2028}' || c == '\U{2029}'
    || c == '\U{202F}' || c == '\U{205F}' || c == '\U{3000}'
  }

  predicate NoSpace(s: string) {
    forall i :: 0 <= i < |s| ==> !IsSpace(s[i])
  }

  predicate HasPrefix(s: string, prefix: string) {
    |prefix| <= |s| && s[..|prefix|] == prefix
  }

  predicate HasSuffix(s: string, suffix: string) {
    |suffix| <= |s| && s[|s| - |suffix|..] == suffix
  }

  function TrimPrefix(s: string, prefix: string): string {
    if HasPrefix(s, prefix) then s[|prefix|..] else s
  }

  function TrimSuffix(s: string, suffix: string): string {
    if HasSuffix(s, suffix) then s[..|s| - |suffix|] else s
  }

  /** strings.Replace(s, string(target), repl, 1): the first occurrence of `target` becomes `repl`. */
  function ReplaceFirst(s: string, target: char, repl: string): string {
    if s == [] then []
    else if s[0] == target then repl + s[1..]
    else [s[0]] + ReplaceFirst(s[1..], target, repl)
  }

  lemma {:induction false} ReplaceFirstAt(x: string, target: char, y: string, repl: string)
    requires target !in x
    ensures ReplaceFirst(x + [target] + y, target, repl) == x + repl + y
  {
    if x == [] {
      assert x + [target] + y == [target] + y;
    } else {
      assert (x + [target] + y)[1..] == x[1..] + [target] + y;
      ReplaceFirstAt(x[1..], target, y, repl);
      assert [x[0]] + (x[1..] + repl + y) == x + repl + y;
    }
  }

  lemma {:induction false} ReplaceFirstSkip(x: string, y: string, target: char, repl: string)
    requires target !in x
    ensures ReplaceFirst(x + y, target, repl) == x + ReplaceFirst(y, target, repl)
  {
    if x == [] {
      assert x + y == y;
    } else {
      assert (x + y)[1..] == x[1..] + y;
      ReplaceFirstSkip(x[1..], y, target, repl);
      assert [x[0]] + (x[1..] + ReplaceFirst(y, target, repl)) == x + ReplaceFirst(y, target, repl);
    }
  }

  lemma {:induction false} ReplaceFirstAbsent(s: string, target: char, repl: string)
    requires target !in s
    ensures ReplaceFirst(s, target, repl) == s
  {
    if s != [] {
      ReplaceFirstAbsent(s[1..], target, repl);
      assert [s[0]] + s[1..] == s;
    }
  }

  // ---------------------------------------------------------------------------
  // strings.Split
  // ---------------------------------------------------------------------------

  /** strings.Split(s, sep) for a non-empty separator: the pieces between the
      leftmost non-overlapping occurrences of `sep`; never empty. */
  function Split(s: string, sep: string): (parts: seq<string>)
    requires sep != []
    ensures |parts| >= 1
    decreases |s|
  {
    if HasPrefix(s, sep) then [""] + Split(s[|sep|..], sep)
    else if s == [] then [""]
    else
      var rest := Split(s[1..], sep);
      [[s[0]] + rest[0]] + rest[1..]
  }

  /** The first piece of a split on one character is the longest prefix
      without that character. */
  lemma {:induction false} SplitHead(s: string, c: char)
    ensures var head := Split(s, [c])[0];
      head <= s && c !in head && (|head| < |s| ==> s[|head|] == c)
    decreases |s|
  {
    if !HasPrefix(s, [c]) && s != [] {
      SplitHead(s[1..], c);
      assert s[0] != c;
    }
  }

  /** strings.Join */
  function Join(parts: seq<string>, sep: string): string {
    if parts == [] then ""
    else if |parts| == 1 then parts[0]
    else parts[0] + sep + Join(parts[1..], sep)
  }

  predicate OccursAt(s: string, sep: string, i: int) {
    0 <= i && i + |sep| <= |s| && s[i..i + |sep|] == sep
  }

  ghost predicate Contains(s: string, sep: string) {
    exists i :: OccursAt(s, sep, i)
  }

  /** A string in which the separator does not occur splits into itself. */
  lemma {:induction false} SplitNone(s: string, sep: string)
    requires sep != [] && !Contains(s, sep)
    ensures Split(s, sep) == [s]
    decreases |s|
  {
    assert !OccursAt(s, sep, 0);
    if s != [] {
      forall i | OccursAt(s[1..], sep, i) ensures OccursAt(s, sep, i + 1) {
        assert s[1..][i..i + |sep|] == s[i + 1..i + 1 + |sep|];
      }
      SplitNone(s[1..], sep);
      assert [s[0]] + s[1..] == s;
    }
  }

  /** A separator whose first character is absent does not occur. */
  lemma NoOccurrence(s: string, sep: string)
    requires sep != [] && sep[0] !in s
    ensures !Contains(s, sep)
  {
    forall i ensures !OccursAt(s, sep, i) {
      if 0 <= i && i + |sep| <= |s| {
        assert s[i..i + |sep|][0] == s[i];
        assert s[i] in s;
      }
    }
  }

  /** When the first character of the separator does not occur in `a`, the
      first piece of `a + sep + b` is exactly `a`. */
  lemma {:induction false} SplitAtFirst(a: string, sep: string, b: string)
    requires sep != [] && sep[0] !in a
    ensures Split(a + sep + b, sep) == [a] + Split(b, sep)
  {
    var s := a + sep + b;
    if a == [] {
      assert s == sep + b && HasPrefix(s, sep);
      assert s[|sep|..] == b;
    } else {
      assert s[0] == a[0] != sep[0];
      assert !HasPrefix(s, sep);
      assert s[1..] == a[1..] + sep + b;
      SplitAtFirst(a[1..], sep, b);
      assert [a[0]] + a[1..] == a;
    }
  }

  // ---------------------------------------------------------------------------
  // strings.Fields and strings.TrimSpace
  // ---------------------------------------------------------------------------

  /** strings.Fields: the maximal runs of non-space characters, in order. */
  function Fields(s: string): seq<string> {
    FieldsFrom(s, "")
  }

  /** Fields of `s`, where `word` holds the non-space characters already read
      of a field that is still open. */
  function FieldsFrom(s: string, word: string): seq<string>
    decreases |s|
  {
    if s == [] then (if word == [] then [] else [word])
    else if IsSpace(s[0]) then (if word == [] then [] else [word]) + FieldsFrom(s[1..], [])
    else FieldsFrom(s[1..], word + [s[0]])
  }

  lemma {:induction false} FieldsFromWord(w: string, rest: string, word: string)
    requires NoSpace(w)
    ensures FieldsFrom(w + rest, word) == FieldsFrom(rest, word + w)
  {
    if w != [] {
      assert (w + rest)[0] == w[0];
      assert (w + rest)[1..] == w[1..] + rest;
      FieldsFromWord(w[1..], rest, word + [w[0]]);
      assert word + [w[0]] + w[1..] == word + w;
    } else {
      assert w + rest == rest && word + w == word;
    }
  }

  /** Words without spaces joined by single spaces split back into the same words. */
  lemma {:induction false} FieldsOfJoin(words: seq<string>)
    requires forall k :: 0 <= k < |words| ==> words[k] != [] && NoSpace(words[k])
    ensures Fields(Join(words, " ")) == words
  {
    if words == [] {
    } else if |words| == 1 {
      var w := words[0];
      assert Join(words, " ") == w + [];
      FieldsFromWord(w, [], []);
      assert [] + w == w;
      assert FieldsFrom([], w) == [w];
    } else {
      var rest := Join(words[1..], " ");
      assert Join(words, " ") == words[0] + (" " + rest);
      FieldsFromWord(words[0], " " + rest, []);
      assert [] + words[0] == words[0];
      assert (" " + rest)[1..] == rest;
      FieldsOfJoin(words[1..]);
      assert words == [words[0]] + words[1..];
    }
  }

  function TrimLeftSpace(s: string): string
    decreases |s|
  {
    if s != [] && IsSpace(s[0]) then TrimLeftSpace(s[1..]) else s
  }

  function TrimRightSpace(s: string): string
    decreases |s|
  {
    if s != [] && IsSpace(s[|s| - 1]) then TrimRightSpace(s[..|s| - 1]) else s
  }

  /** strings.TrimSpace */
  function TrimSpace(s: string): string {
    TrimRightSpace(TrimLeftSpace(s))
  }

  // ---------------------------------------------------------------------------
  // Decimal formatting (fmt's %d) and strconv parsing
  // ---------------------------------------------------------------------------

  predicate IsDigit(c: char) {
    '0' <= c <= '9'
  }

  function DigitChar(d: nat): char
    requires d < 10
  {
    (48 + d) as char
  }

  function DigitValue(c: char): int {
    c as int - 48
  }

  /** The decimal digits of `n`, as fmt prints an unsigned integer with %d. */
  function Decimal(n: nat): (s: string)
    ensures |s| >= 1
    ensures forall i :: 0 <= i < |s| ==> IsDigit(s[i])
    decreases n
  {
    if n < 10 then [DigitChar(n)] else Decimal(n / 10) + [DigitChar(n % 10)]
  }

  /** fmt's %d for a signed integer. */
  function FormatInt(i: int): string {
    if i < 0 then "-" + Decimal(-i) else Decimal(i)
  }

  datatype NumError = NoError | ErrSyntax | ErrRange

  /** strconv returns a value together with an error: 0 on a syntax error and
      the clamped bound on a range error. */
  datatype Converted = Converted(value: int, err: NumError)

  /** The digit loop of strconv.ParseUint in base 10, on successive prefixes of
      `s`: the first non-digit is a syntax error, the first prefix whose value
      exceeds MaxU64 a range error, whichever comes first. */
  function ScanDigits(s: string): (r: Converted)
    ensures r.err == NoError ==> 0 <= r.value <= MaxU64
    ensures r.err == ErrRange ==> r.value == MaxU64
    ensures r.err == NoError ==> forall i :: 0 <= i < |s| ==> IsDigit(s[i])
  {
    if s == [] then Converted(0, NoError)
    else
      var p := ScanDigits(s[..|s| - 1]);
      var c := s[|s| - 1];
      if p.err != NoError then p
      else if !IsDigit(c) then Converted(0, ErrSyntax)
      else if p.value * 10 + DigitValue(c) > MaxU64 then Converted(MaxU64, ErrRange)
      else Converted(p.value * 10 + DigitValue(c), NoError)
  }

  /** strconv.ParseUint(s, 10, 64) */
  function ParseUint(s: string): (r: Converted)
    ensures r.err == NoError ==> s != [] && 0 <= r.value <= MaxU64
    ensures r.err == ErrRange ==> r.value == MaxU64
  {
    if s == [] then Converted(0, ErrSyntax) else ScanDigits(s)
  }

  /** strconv.ParseInt(s, 10, 64); strconv.Atoi behaves the same on a 64-bit platform. */
  function ParseInt(s: string): (r: Converted)
    ensures r.err == NoError ==> MinI64 <= r.value <= MaxI64
    ensures r.err == ErrRange ==> r.value == MinI64 || r.value == MaxI64
    ensures r.err == ErrSyntax ==> r.value == 0
  {
    if s == [] then Converted(0, ErrSyntax)
    else
      var neg := s[0] == '-';
      var body := if s[0] == '+' || s[0] == '-' then s[1..] else s;
      var un := ParseUint(body);
      if un.err == ErrSyntax then Converted(0, ErrSyntax)
      else if !neg && un.value >= MaxI64 + 1 then Converted(MaxI64, ErrRange)
      else if neg && un.value > MaxI64 + 1 then Converted(MinI64, ErrRange)
      else Converted(if neg then -un.value else un.value, NoError)
  }

  lemma {:induction false} ScanDecimal(n: nat)
    requires n <= MaxU64
    ensures ScanDigits(Decimal(n)) == Converted(n, NoError)
    decreases n
  {
    var s := Decimal(n);
    if n < 10 {
      assert s[..|s| - 1] == [];
    } else {
      ScanDecimal(n / 10);
      assert s[..|s| - 1] == Decimal(n / 10);
      assert DigitValue(DigitChar(n % 10)) == n % 10;
    }
  }

  /** Reading back what %d printed gives the same unsigned number. */
  lemma ParseUintDecimal(n: nat)
    requires n <= MaxU64
    ensures ParseUint(Decimal(n)) == Converted(n, NoError)
  {
    ScanDecimal(n);
  }

  /** Reading back what %d printed gives the same signed number. */
  lemma ParseIntFormat(i: int)
    requires MinI64 <= i <= MaxI64
    ensures ParseInt(FormatInt(i)) == Converted(i, NoError)
  {
    var s := FormatInt(i);
    if i < 0 {
      assert s[1..] == Decimal(-i);
      ParseUintDecimal(-i);
    } else {
      assert IsDigit(s[0]);
      ParseUintDecimal(i);
    }
  }

  lemma {:induction false} TrimLeftNone(s: string)
    requires s != [] && !IsSpace(s[0])
    ensures TrimLeftSpace(s) == s
  {
  }

  lemma {:induction false} TrimRightNone(s: string)
    requires s != [] && !IsSpace(s[|s| - 1])
    ensures TrimRightSpace(s) == s
  {
  }
}

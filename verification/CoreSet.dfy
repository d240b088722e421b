/** The core-set notation: a comma-separated list of core IDs and ranges, with optional spaces. The
    string helpers follow Go's strings, strconv and fmt packages as the parser uses them. */
module CoreSet {
  import opened GoTypes

  // ---------- The string helpers ----------

  /** Unicode white space. */
  predicate IsSpace(c: char) {
    var u := c as int;
    9 <= u <= 13 || u == 32 || u == 0x85 || u == 0xA0 || u == 0x1680 || 0x2000 <= u <= 0x200A
    || u == 0x2028 || u == 0x2029 || u == 0x202F || u == 0x205F || u == 0x3000
  }

  predicate IsBlank(s: string) {
    forall i | 0 <= i < |s| :: IsSpace(s[i])
  }

  function TrimLeft(s: string): string {
    if s != "" && IsSpace(s[0]) then TrimLeft(s[1..]) else s
  }

  function TrimRight(s: string): string {
    if s != "" && IsSpace(s[|s| - 1]) then TrimRight(s[..|s| - 1]) else s
  }

  function TrimSpace(s: string): string {
    TrimRight(TrimLeft(s))
  }

  function Split(s: string, sep: char): (parts: seq<string>)
    ensures parts != []
  {
    if s == "" then [""]
    else if s[0] == sep then [""] + Split(s[1..], sep)
    else
      var rest := Split(s[1..], sep);
      [[s[0]] + rest[0]] + rest[1..]
  }

  predicate IsDigit(c: char) {
    '0' <= c <= '9'
  }

  predicate AllDigits(s: string) {
    forall i | 0 <= i < |s| :: IsDigit(s[i])
  }

  function Decimal(s: string): (n: int)
    requires AllDigits(s)
    ensures n >= 0
  {
    if s == "" then 0 else 10 * Decimal(s[..|s| - 1]) + (s[|s| - 1] as int - '0' as int)
  }

  /** A signed decimal that fits 64 bits. */
  function SignedDecimal(negative: bool, digits: string): Option<int>
    requires AllDigits(digits)
  {
    if digits == "" then None
    else if negative then if Decimal(digits) <= MAX_INT64 + 1 then Some(-Decimal(digits)) else None
    else if Decimal(digits) <= MAX_INT64 then Some(Decimal(digits)) else None
  }

  predicate HasSign(s: string) {
    s != "" && (s[0] == '+' || s[0] == '-')
  }

  /** strconv.Atoi: the whole string must be a number. */
  function Atoi(s: string): Option<int> {
    var digits := if HasSign(s) then s[1..] else s;
    if AllDigits(digits) then SignedDecimal(HasSign(s) && s[0] == '-', digits) else None
  }

  function DigitPrefix(s: string): (digits: string)
    ensures AllDigits(digits)
  {
    if s != "" && IsDigit(s[0]) then [s[0]] + DigitPrefix(s[1..]) else ""
  }

  /** fmt.Sscanf with "%d" on a string without leading space: a number at the start, the rest ignored. */
  function ScanInt(s: string): Option<int> {
    var rest := if HasSign(s) then s[1..] else s;
    SignedDecimal(HasSign(s) && s[0] == '-', DigitPrefix(rest))
  }

  // ---------- What a core set denotes ----------

  function Range(lo: int, hi: int): (ids: seq<int>)
    ensures forall id :: id in ids <==> lo <= id <= hi
    ensures |ids| == if lo <= hi then hi - lo + 1 else 0
    ensures forall k | 0 <= k < |ids| :: ids[k] == lo + k
    decreases hi - lo
  {
    if lo > hi then [] else [lo] + Range(lo + 1, hi)
  }

  function PartIDs(part: string): seq<int> {
    var trimmed := TrimSpace(part);
    if '-' in trimmed then
      var ends := Split(trimmed, '-');
      if |ends| == 2 then
        var lo, hi := Atoi(TrimSpace(ends[0])), Atoi(TrimSpace(ends[1]));
        if lo.Some? && hi.Some? then Range(lo.value, hi.value) else []
      else []
    else
      var id := ScanInt(trimmed);
      if id.Some? then [id.value] else []
  }

  function PartsIDs(parts: seq<string>): seq<int> {
    if parts == [] then [] else PartIDs(parts[0]) + PartsIDs(parts[1..])
  }

  function CoreIDs(coreStr: string): seq<int> {
    if coreStr == "" then [] else PartsIDs(Split(coreStr, ','))
  }

  method ParseCoreSet(coreStr: string) returns (cores: seq<int>)
    ensures cores == CoreIDs(coreStr)
  {
    cores := [];
    if coreStr == "" {
      return;
    }
    var parts := Split(coreStr, ',');
    for k := 0 to |parts|
      invariant cores == PartsIDs(parts[..k])
    {
      cores := AppendPart(cores, parts[k]);
      PartsIDsNext(parts, k);
    }
    assert parts[..|parts|] == parts;
  }

  lemma {:induction false} PartsIDsNext(parts: seq<string>, k: nat)
    requires k < |parts|
    ensures PartsIDs(parts[..k + 1]) == PartsIDs(parts[..k]) + PartIDs(parts[k])
  {
    if k == 0 {
      assert parts[..1] == [parts[0]] && parts[..1][1..] == [];
    } else {
      assert parts[..k + 1][1..] == parts[1..][..k] && parts[..k][1..] == parts[1..][..k - 1];
      PartsIDsNext(parts[1..], k - 1);
    }
  }

  /** The body of the loop: one comma-separated part. */
  method AppendPart(cores0: seq<int>, part0: string) returns (cores: seq<int>)
    ensures cores == cores0 + PartIDs(part0)
  {
    cores := cores0;
    var part := TrimSpace(part0);
    if '-' in part {
      var ends := Split(part, '-');
      if |ends| == 2 {
        var lo, hi := Atoi(TrimSpace(ends[0])), Atoi(TrimSpace(ends[1]));
        if lo.Some? && hi.Some? {
          cores := AppendRange(cores, lo.value, hi.value);
        }
      }
    } else {
      var id := ScanInt(part);
      if id.Some? {
        cores := cores + [id.value];
      }
    }
  }

  method AppendRange(cores0: seq<int>, lo: int, hi: int) returns (cores: seq<int>)
    ensures cores == cores0 + Range(lo, hi)
  {
    cores := cores0;
    var i := lo;
    while i <= hi
      invariant cores + Range(i, hi) == cores0 + Range(lo, hi)
      decreases hi - i
    {
      cores := cores + [i];
      i := i + 1;
    }
  }

  // ---------- Every ID is a core number ----------

  lemma {:induction false} SplitPartsAvoid(s: string, sep: char)
    ensures forall part | part in Split(s, sep) :: sep !in part
  {
    if s != "" {
      SplitPartsAvoid(s[1..], sep);
    }
  }

  lemma {:induction false} TrimRightKeeps(s: string, c: char)
    requires c !in s
    ensures c !in TrimRight(s)
  {
    if s != "" && IsSpace(s[|s| - 1]) {
      TrimRightKeeps(s[..|s| - 1], c);
    }
  }

  lemma {:induction false} TrimSpaceKeeps(s: string, c: char)
    requires c !in s
    ensures c !in TrimSpace(s)
    decreases |s|
  {
    if s != "" && IsSpace(s[0]) {
      TrimSpaceKeeps(s[1..], c);
    } else {
      TrimRightKeeps(s, c);
    }
  }

  /** No input whatsoever yields a negative core ID: a minus sign is always read as a range. */
  lemma PartIDsNonNegative(part: string)
    ensures forall id | id in PartIDs(part) :: id >= 0
  {
    var trimmed := TrimSpace(part);
    if '-' in trimmed {
      SplitPartsAvoid(trimmed, '-');
      var ends := Split(trimmed, '-');
      if |ends| == 2 {
        TrimSpaceKeeps(ends[0], '-');
        TrimSpaceKeeps(ends[1], '-');
      }
    }
  }

  lemma {:induction false} PartsIDsNonNegative(parts: seq<string>)
    ensures forall id | id in PartsIDs(parts) :: id >= 0
  {
    if parts != [] {
      PartIDsNonNegative(parts[0]);
      PartsIDsNonNegative(parts[1..]);
    }
  }

  lemma CoreIDsNonNegative(coreStr: string)
    ensures forall id | id in CoreIDs(coreStr) :: id >= 0
  {
    if coreStr != "" {
      PartsIDsNonNegative(Split(coreStr, ','));
    }
  }

  // ---------- Writing core sets ----------

  function Digit(d: nat): char
    requires d < 10
  {
    ('0' as int + d) as char
  }

  /** The "%d" rendering of a non-negative number. */
  function Written(n: nat): (s: string)
    ensures s != "" && AllDigits(s)
  {
    if n < 10 then [Digit(n)] else Written(n / 10) + [Digit(n % 10)]
  }

  /** One entry of a core set, with the spaces around its numbers. */
  datatype Entry =
    | One(before: string, id: nat, after: string)
    | Span(before: string, lo: nat, beforeDash: string, afterDash: string, hi: nat, after: string)
  {
    predicate Legal() {
      match this
      case One(_, _, _) => IsBlank(before) && id <= MAX_INT64 && IsBlank(after)
      case Span(_, _, _, _, _, _) =>
        && IsBlank(before) && lo <= MAX_INT64 && IsBlank(beforeDash)
        && IsBlank(afterDash) && hi <= MAX_INT64 && IsBlank(after)
    }

    function Text(): string {
      match this
      case One(_, _, _) => before + Written(id) + after
      case Span(_, _, _, _, _, _) => before + (Written(lo) + beforeDash + "-" + afterDash + Written(hi)) + after
    }

    function IDs(): seq<int> {
      match this
      case One(_, _, _) => [id]
      case Span(_, _, _, _, _, _) => Range(lo, hi)
    }
  }

  function Text(entries: seq<Entry>): string {
    if entries == [] then ""
    else if |entries| == 1 then entries[0].Text()
    else entries[0].Text() + "," + Text(entries[1..])
  }

  function IDs(entries: seq<Entry>): seq<int> {
    if entries == [] then [] else entries[0].IDs() + IDs(entries[1..])
  }

  lemma {:induction false} WrittenDecimal(n: nat)
    ensures Decimal(Written(n)) == n
  {
    if n >= 10 {
      WrittenDecimal(n / 10);
      assert Written(n)[..|Written(n)| - 1] == Written(n / 10);
    }
  }

  lemma {:induction false} DigitPrefixOfDigits(s: string)
    requires AllDigits(s)
    ensures DigitPrefix(s) == s
  {
    if s != "" {
      DigitPrefixOfDigits(s[1..]);
    }
  }

  lemma NumberRoundTrip(n: nat)
    requires n <= MAX_INT64
    ensures Atoi(Written(n)) == Some(n) && ScanInt(Written(n)) == Some(n)
  {
    var s := Written(n);
    assert IsDigit(s[0]);
    WrittenDecimal(n);
    DigitPrefixOfDigits(s);
  }

  lemma {:induction false} TrimLeftBlank(blank: string, s: string)
    requires IsBlank(blank)
    ensures TrimLeft(blank + s) == TrimLeft(s)
  {
    if blank == "" {
      assert blank + s == s;
    } else {
      assert IsSpace(blank[0]);
      assert (blank + s)[1..] == blank[1..] + s;
      TrimLeftBlank(blank[1..], s);
    }
  }

  lemma {:induction false} TrimRightBlank(s: string, blank: string)
    requires IsBlank(blank)
    ensures TrimRight(s + blank) == TrimRight(s)
  {
    if blank == "" {
      assert s + blank == s;
    } else {
      var k := |blank| - 1;
      assert IsSpace(blank[k]);
      assert (s + blank)[..|s| + k] == s + blank[..k];
      TrimRightBlank(s, blank[..k]);
    }
  }

  /** Trimming undoes padding. */
  lemma TrimPadded(before: string, s: string, after: string)
    requires IsBlank(before) && IsBlank(after)
    requires s != "" && !IsSpace(s[0]) && !IsSpace(s[|s| - 1])
    ensures TrimSpace(before + s + after) == s
  {
    assert before + s + after == before + (s + after);
    TrimLeftBlank(before, s + after);
    assert TrimLeft(s + after) == s + after;
    TrimRightBlank(s, after);
  }

  lemma TrimPaddedRight(s: string, after: string)
    requires IsBlank(after) && s != "" && !IsSpace(s[0]) && !IsSpace(s[|s| - 1])
    ensures TrimSpace(s + after) == s
  {
    TrimPadded("", s, after);
    assert "" + s + after == s + after;
  }

  lemma TrimPaddedLeft(before: string, s: string)
    requires IsBlank(before) && s != "" && !IsSpace(s[0]) && !IsSpace(s[|s| - 1])
    ensures TrimSpace(before + s) == s
  {
    TrimPadded(before, s, "");
    assert before + s + "" == before + s;
  }

  lemma {:induction false} SplitUnbroken(s: string, sep: char)
    requires sep !in s
    ensures Split(s, sep) == [s]
  {
    if s != "" {
      assert s[0] in s;
      SplitUnbroken(s[1..], sep);
      assert [s[0]] + s[1..] == s;
    }
  }

  lemma {:induction false} SplitAtFirst(s: string, sep: char, rest: string)
    requires sep !in s
    ensures Split(s + [sep] + rest, sep) == [s] + Split(rest, sep)
  {
    if s == "" {
      assert s + [sep] + rest == [sep] + rest;
      assert ([sep] + rest)[1..] == rest;
    } else {
      assert s[0] in s;
      assert (s + [sep] + rest)[1..] == s[1..] + [sep] + rest;
      SplitAtFirst(s[1..], sep, rest);
      assert [s[0]] + s[1..] == s;
    }
  }

  lemma BlankAvoids(s: string, c: char)
    requires IsBlank(s) || AllDigits(s)
    requires !IsSpace(c) && !IsDigit(c)
    ensures c !in s
  {
  }

  lemma EntryRoundTrip(e: Entry)
    requires e.Legal()
    ensures PartIDs(e.Text()) == e.IDs()
    ensures ',' !in e.Text()
  {
    match e
    case One(before, id, after) =>
      var s := Written(id);
      BlankAvoids(before, ',');
      BlankAvoids(s, ',');
      BlankAvoids(after, ',');
      BlankAvoids(s, '-');
      assert IsDigit(s[0]) && IsDigit(s[|s| - 1]);
      TrimPadded(before, s, after);
      NumberRoundTrip(id);
    case Span(before, lo, beforeDash, afterDash, hi, after) =>
      SpanRoundTrip(e);
  }

  lemma SpanRoundTrip(e: Entry)
    requires e.Span? && e.Legal()
    ensures PartIDs(e.Text()) == e.IDs()
    ensures ',' !in e.Text()
  {
    var a, b := Written(e.lo), Written(e.hi);
    var left, right := a + e.beforeDash, e.afterDash + b;
    var s := left + "-" + right;
    assert s == a + e.beforeDash + "-" + e.afterDash + b;
    SpanAvoids(e);
    assert IsDigit(s[0]) && IsDigit(s[|s| - 1]) by {
      assert IsDigit(a[0]) && IsDigit(b[|b| - 1]);
    }
    TrimPadded(e.before, s, e.after);
    SplitAtFirst(left, '-', right);
    SplitUnbroken(right, '-');
    assert IsDigit(a[0]) && IsDigit(a[|a| - 1]) && IsDigit(b[0]) && IsDigit(b[|b| - 1]);
    TrimPaddedRight(a, e.beforeDash);
    TrimPaddedLeft(e.afterDash, b);
    NumberRoundTrip(e.lo);
    NumberRoundTrip(e.hi);
    assert s[|left|] == '-';
  }

  lemma SpanAvoids(e: Entry)
    requires e.Span? && e.Legal()
    ensures ',' !in e.Text()
    ensures '-' !in Written(e.lo) + e.beforeDash && '-' !in e.afterDash + Written(e.hi)
  {
    BlankAvoids(e.before, ',');
    BlankAvoids(e.after, ',');
    BlankAvoids(e.beforeDash, ',');
    BlankAvoids(e.afterDash, ',');
    BlankAvoids(Written(e.lo), ',');
    BlankAvoids(Written(e.hi), ',');
    BlankAvoids(e.beforeDash, '-');
    BlankAvoids(e.afterDash, '-');
    BlankAvoids(Written(e.lo), '-');
    BlankAvoids(Written(e.hi), '-');
  }

  lemma {:induction false} EntriesRoundTrip(entries: seq<Entry>)
    requires entries != [] && forall e | e in entries :: e.Legal()
    ensures PartsIDs(Split(Text(entries), ',')) == IDs(entries)
    ensures Text(entries) != ""
  {
    var e := entries[0];
    EntryRoundTrip(e);
    if |entries| == 1 {
      SplitUnbroken(e.Text(), ',');
      assert entries[1..] == [] && Split(e.Text(), ',')[1..] == [];
    } else {
      assert e.Text() + "," + Text(entries[1..]) == e.Text() + [','] + Text(entries[1..]);
      SplitAtFirst(e.Text(), ',', Text(entries[1..]));
      EntriesRoundTrip(entries[1..]);
    }
  }

  /** Parsing inverts writing, for every list of core numbers and ranges and any spacing. */
  lemma ParseInvertsText(entries: seq<Entry>)
    requires forall e | e in entries :: e.Legal()
    ensures CoreIDs(Text(entries)) == IDs(entries)
  {
    if entries != [] {
      EntriesRoundTrip(entries);
    }
  }

  /** In particular a single core number written with "%d" reads back as that core. */
  lemma SingleCoreRoundTrip(id: nat)
    requires id <= MAX_INT64
    ensures Written(id) != "" && CoreIDs(Written(id)) == [id]
  {
    var e := One("", id, "");
    assert Text([e]) == Written(id);
    ParseInvertsText([e]);
  }

  // ---------- What else a part may hold ----------

  function Count(s: string, c: char): nat {
    if s == "" then 0 else (if s[0] == c then 1 else 0) + Count(s[1..], c)
  }

  lemma {:induction false} CountConcat(a: string, b: string, c: char)
    ensures Count(a + b, c) == Count(a, c) + Count(b, c)
  {
    if a == "" {
      assert a + b == b;
    } else {
      assert (a + b)[1..] == a[1..] + b;
      CountConcat(a[1..], b, c);
    }
  }

  lemma {:induction false} CountIff(s: string, c: char)
    ensures Count(s, c) > 0 <==> c in s
  {
    if s != "" {
      CountIff(s[1..], c);
    }
  }

  lemma {:induction false} TrimKeepsCount(s: string, c: char)
    requires !IsSpace(c)
    ensures Count(TrimLeft(s), c) == Count(s, c) && Count(TrimRight(s), c) == Count(s, c)
  {
    if s != "" {
      TrimKeepsCount(s[1..], c);
      var n := |s| - 1;
      TrimKeepsCount(s[..n], c);
      CountConcat(s[..n], [s[n]], c);
      assert s == s[..n] + [s[n]];
    }
  }

  lemma {:induction false} SplitCount(s: string, sep: char)
    ensures |Split(s, sep)| == Count(s, sep) + 1
  {
    if s != "" {
      SplitCount(s[1..], sep);
    }
  }

  lemma TrimSpaceKeepsCount(s: string, c: char)
    requires !IsSpace(c)
    ensures Count(TrimSpace(s), c) == Count(s, c)
  {
    TrimKeepsCount(s, c);
    TrimKeepsCount(TrimLeft(s), c);
  }

  /** Spaces, tabs and line breaks count as spacing; digits, signs and commas do not. */
  lemma SpacingIsBlank(s: string)
    requires forall c | c in s :: c == ' ' || c == '\t' || c == '\n' || c == '\r'
    ensures IsBlank(s) && !IsSpace('-') && !IsSpace('+') && !IsSpace(',') && forall c | IsDigit(c) :: !IsSpace(c)
  {
    assert forall i | 0 <= i < |s| :: s[i] in s;
  }

  /** More than one dash makes a part worthless. */
  lemma ManyDashesYieldNothing(part: string)
    requires Count(part, '-') >= 2
    ensures PartIDs(part) == []
  {
    TrimSpaceKeepsCount(part, '-');
    CountIff(TrimSpace(part), '-');
    SplitCount(TrimSpace(part), '-');
  }

  lemma {:induction false} TrimRightConcat(a: string, b: string)
    requires a == "" || !IsSpace(a[|a| - 1])
    ensures TrimRight(a + b) == a + TrimRight(b)
    decreases |b|
  {
    if b == "" {
      assert a + b == a;
    } else {
      var n := |b| - 1;
      assert (a + b)[..|a| + n] == a + b[..n];
      if IsSpace(b[n]) {
        TrimRightConcat(a, b[..n]);
      }
    }
  }

  lemma {:induction false} TrimRightIsPrefix(s: string)
    ensures TrimRight(s) <= s
  {
    if s != "" && IsSpace(s[|s| - 1]) {
      TrimRightIsPrefix(s[..|s| - 1]);
    }
  }

  lemma {:induction false} DigitPrefixStops(digits: string, rest: string)
    requires AllDigits(digits) && (rest == "" || !IsDigit(rest[0]))
    ensures DigitPrefix(digits + rest) == digits
  {
    if digits == "" {
      assert digits + rest == rest;
    } else {
      assert (digits + rest)[1..] == digits[1..] + rest;
      DigitPrefixStops(digits[1..], rest);
    }
  }

  /** A part without a dash is read as far as its number goes, with an optional plus sign, and what follows
      is ignored; a number beyond 64 bits yields nothing. */
  lemma RaggedNumber(before: string, plus: string, n: nat, rest: string)
    requires IsBlank(before) && (plus == "" || plus == "+")
    requires '-' !in rest && (rest == "" || !IsDigit(rest[0]))
    ensures PartIDs(before + (plus + Written(n) + rest)) == if n <= MAX_INT64 then [n] else []
  {
    var number, tail := plus + Written(n), TrimRight(rest);
    NumberEnds(plus, n);
    TrimLeftBlank(before, number + rest);
    assert TrimLeft(number + rest) == number + rest;
    TrimRightConcat(number, rest);
    TrimRightIsPrefix(rest);
    assert '-' !in number + tail;
    ScanStops(plus, n, tail);
  }

  lemma NumberEnds(plus: string, n: nat)
    requires plus == "" || plus == "+"
    ensures
      var number := plus + Written(n);
      number != "" && !IsSpace(number[0]) && !IsSpace(number[|number| - 1]) && '-' !in number
  {
    assert IsDigit(Written(n)[0]) && IsDigit(Written(n)[|Written(n)| - 1]);
    BlankAvoids(Written(n), '-');
  }

  lemma ScanStops(plus: string, n: nat, tail: string)
    requires plus == "" || plus == "+"
    requires tail == "" || !IsDigit(tail[0])
    ensures ScanInt(plus + Written(n) + tail) == if n <= MAX_INT64 then Some(n) else None
  {
    var s := plus + Written(n) + tail;
    assert IsDigit(Written(n)[0]);
    DigitPrefixStops(Written(n), tail);
    WrittenDecimal(n);
    assert s == plus + (Written(n) + tail);
    if plus == "" {
      assert s == Written(n) + tail;
    } else {
      assert s[1..] == Written(n) + tail;
    }
  }

  /** A part without a dash that does not start with a number yields nothing. */
  lemma NoNumberNoID(part: string)
    requires '-' !in part
    requires
      var t := TrimSpace(part);
      t == "" || (!IsDigit(t[0]) && (t[0] != '+' || |t| == 1 || !IsDigit(t[1])))
    ensures PartIDs(part) == []
  {
    TrimSpaceKeeps(part, '-');
  }

  lemma {:induction false} TrimLeftConcat(a: string, b: string)
    requires b != "" && !IsSpace(b[0])
    ensures TrimLeft(a + b) == TrimLeft(a) + b
  {
    if a == "" {
      assert a + b == b;
    } else {
      assert (a + b)[1..] == a[1..] + b;
      if IsSpace(a[0]) {
        TrimLeftConcat(a[1..], b);
      }
    }
  }

  /** An end of a range that is not a number makes the range worthless: it holds a character that is no
      digit, space or plus sign, or nothing at all. */
  lemma BrokenRangeYieldsNothing(a: string, b: string, c: char)
    requires '-' !in a && '-' !in b
    requires IsBlank(a) || IsBlank(b) || (c in a + b && !IsDigit(c) && !IsSpace(c) && c != '+')
    ensures PartIDs(a + "-" + b) == []
  {
    var left, right := TrimLeft(a), TrimRight(b);
    assert a + "-" + b == a + ("-" + b);
    TrimLeftConcat(a, "-" + b);
    assert left + ("-" + b) == (left + "-") + b;
    TrimRightConcat(left + "-", b);
    assert TrimSpace(a + "-" + b) == left + ['-'] + right;
    TrimmedAvoids(a, '-');
    TrimmedAvoids(b, '-');
    SplitAtFirst(left, '-', right);
    SplitUnbroken(right, '-');
    assert (left + ['-'] + right)[|left|] == '-';
    EndIsNoNumber(left, a, c);
    EndIsNoNumber(right, b, c);
    assert c in a + b ==> c in a || c in b;
  }

  lemma TrimmedAvoids(s: string, c: char)
    requires !IsSpace(c) && c !in s
    ensures c !in TrimLeft(s) && c !in TrimRight(s)
  {
    TrimKeepsCount(s, c);
    CountIff(s, c);
    CountIff(TrimLeft(s), c);
    CountIff(TrimRight(s), c);
  }

  lemma EndIsNoNumber(end: string, original: string, c: char)
    requires end == TrimLeft(original) || end == TrimRight(original)
    requires '-' !in original
    ensures IsBlank(original) || (c in original && !IsDigit(c) && !IsSpace(c) && c != '+') ==>
            Atoi(TrimSpace(end)) == None
  {
    if IsBlank(original) {
      BlankTrimsAway(original);
      assert TrimSpace(end) == "";
    } else if c in original && !IsDigit(c) && !IsSpace(c) && c != '+' {
      TrimKeepsCount(original, c);
      TrimSpaceKeepsCount(end, c);
      CountIff(original, c);
      CountIff(TrimSpace(end), c);
      var t := TrimSpace(end);
      assert c in t && c != '-';
      assert HasSign(t) ==> c in t[1..];
    }
  }

  lemma {:induction false} BlankTrimsAway(s: string)
    requires IsBlank(s)
    ensures TrimLeft(s) == "" && TrimRight(s) == ""
  {
    if s != "" {
      BlankTrimsAway(s[1..]);
      BlankTrimsAway(s[..|s| - 1]);
    }
  }
}

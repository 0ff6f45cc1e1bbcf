/**
  The text form of the receive side scaling table: `index:queue` pairs, printed
  into a fixed buffer and parsed back.
 */
module Rss {
  import opened Words

  const ENA_RX_RSS_TABLE_SIZE: nat := 128
  const ENA_RX_RSS_MSG_RECORD_SZ: nat := 8
  const BUF_SIZE: nat := ENA_RX_RSS_TABLE_SIZE * ENA_RX_RSS_MSG_RECORD_SZ

  datatype Error = EInval | ERange | EIo

  // ---------------------------------------------------------------- numbers

  function Digit(n: nat): char
    requires n < 10
  {
    ('0' as int + n) as char
  }

  predicate IsDigit(c: char) {
    '0' <= c <= '9'
  }

  /** `%d` of a number that is not negative. */
  function Dec(n: nat): (s: string)
    ensures s != "" && forall k :: 0 <= k < |s| ==> IsDigit(s[k])
  {
    if n < 10 then [Digit(n)] else Dec(n / 10) + [Digit(n % 10)]
  }

  function Number(digits: string): nat
    requires forall k :: 0 <= k < |digits| ==> IsDigit(digits[k])
  {
    if digits == "" then 0
    else
      var c := digits[|digits| - 1];
      assert IsDigit(c);
      10 * Number(digits[..|digits| - 1]) + (c as int - '0' as int)
  }

  lemma {:induction false} NumberOfDec(n: nat)
    ensures Number(Dec(n)) == n
  {
    if n >= 10 {
      NumberOfDec(n / 10);
      assert Dec(n)[..|Dec(n)| - 1] == Dec(n / 10);
    }
  }

  lemma {:induction false} DecLength(n: nat)
    ensures n < 10 ==> |Dec(n)| == 1
    ensures n < 100 ==> |Dec(n)| <= 2
    ensures n < 1000 ==> |Dec(n)| <= 3
  {
    if n >= 10 {
      DecLength(n / 10);
    }
  }

  predicate IsSpace(c: char) {
    c == ' ' || '\t' <= c <= '\r'
  }

  function Spaces(s: string): (n: nat)
    ensures n <= |s|
  {
    if s != "" && IsSpace(s[0]) then 1 + Spaces(s[1..]) else 0
  }

  function Digits(s: string): (n: nat)
    ensures n <= |s| && forall k :: 0 <= k < n ==> IsDigit(s[k])
  {
    if s != "" && IsDigit(s[0]) then 1 + Digits(s[1..]) else 0
  }

  /** A 64-bit `long` saturates. */
  function Clamp(v: int): int {
    var max := 0x8000_0000_0000_0000;
    if v >= max then max - 1 else if v < -max then -max else v
  }

  /** An optionally signed number and the characters it takes; none if there is no digit. */
  function SignedNumber(s: string): (r: (int, nat))
    ensures r.1 <= |s|
  {
    if s != "" && (s[0] == '-' || s[0] == '+') then
      var n := Digits(s[1..]);
      if n == 0 then (0, 0)
      else
        var v: int := Number(s[1..][..n]);
        (if s[0] == '-' then -v else v, 1 + n)
    else
      var n := Digits(s);
      if n == 0 then (0, 0) else (Number(s[..n]), n)
  }

  /** `strtol` in base ten: the value, and how much text it took; zero when there is no number. */
  function Strtol(s: string): (r: (int, nat))
    ensures r.1 <= |s|
  {
    var w := Spaces(s);
    var (v, n) := SignedNumber(s[w..]);
    if n == 0 then (0, 0) else (Clamp(v), w + n)
  }

  /** A 64-bit number, between the one that was written and every other 64-bit number. */
  lemma {:induction false} Saturates(v: int, w: int)
    requires -0x8000_0000_0000_0000 <= w <= 0x7FFF_FFFF_FFFF_FFFF
    ensures -0x8000_0000_0000_0000 <= Clamp(v) <= 0x7FFF_FFFF_FFFF_FFFF
    ensures v <= Clamp(v) <= w || w <= Clamp(v) <= v
  {
  }

  /** The conversion to `uint32_t`. */
  function ToU32(v: int): nat {
    v % U32
  }

  /** A number arrives as written if and only if it is an unsigned 32-bit number. */
  lemma {:induction false} NumberArrivesIff(v: int)
    ensures ToU32(Clamp(v)) == v <==> 0 <= v < U32
  {
  }

  // ---------------------------------------------------------------- the parser

  /** One pair and the characters it takes, or the error that stops the parser. */
  datatype PairResult = Pair(index: nat, value: nat, used: nat) | Bad(error: Error)

  function ReadPair(s: string, numQueues: nat): (p: PairResult)
    ensures p.Pair? ==> p.index < ENA_RX_RSS_TABLE_SIZE && p.value < numQueues && 0 < p.used <= |s|
  {
    var (iv, ie) := Strtol(s);
    if ie == 0 then Bad(EInval)
    else if ToU32(iv) >= ENA_RX_RSS_TABLE_SIZE then Bad(ERange)
    else if ie == |s| || s[ie] != ':' then Bad(EInval)
    else
      var (vv, ve) := Strtol(s[ie + 1..]);
      if ve == 0 then Bad(EInval)
      else if ToU32(vv) >= numQueues then Bad(ERange)
      else Pair(ToU32(iv), ToU32(vv), ie + 1 + ve)
  }

  /** The pairs of a whole text, or those before its first error. */
  datatype Writes = Accepted(pairs: seq<(nat, nat)>) | Rejected(error: Error, pairs: seq<(nat, nat)>)

  function ReadPairs(s: string, numQueues: nat): (w: Writes)
    ensures forall k :: 0 <= k < |w.pairs| ==> w.pairs[k].0 < ENA_RX_RSS_TABLE_SIZE && w.pairs[k].1 < numQueues
    decreases |s|
  {
    if s == "" then Accepted([])
    else match ReadPair(s, numQueues)
      case Bad(e) => Rejected(e, [])
      case Pair(i, v, used) =>
        var rest := ReadPairs(s[used..], numQueues);
        rest.(pairs := [(i, v)] + rest.pairs)
  }

  /** The table after writing the pairs one after the other. */
  function Written(table: seq<nat>, pairs: seq<(nat, nat)>): (t: seq<nat>)
    requires forall k :: 0 <= k < |pairs| ==> pairs[k].0 < |table|
    ensures |t| == |table|
    decreases |pairs|
  {
    if pairs == [] then table else Written(table[pairs[0].0 := pairs[0].1], pairs[1..])
  }

  /** An index that is not written keeps its value. */
  lemma {:induction false} UnwrittenStays(table: seq<nat>, pairs: seq<(nat, nat)>, i: nat)
    requires i < |table| && forall k :: 0 <= k < |pairs| ==> pairs[k].0 < |table| && pairs[k].0 != i
    ensures Written(table, pairs)[i] == table[i]
    decreases |pairs|
  {
    if pairs != [] {
      UnwrittenStays(table[pairs[0].0 := pairs[0].1], pairs[1..], i);
    }
  }

  /** The last write to an index wins. */
  lemma {:induction false} LastWriteWins(table: seq<nat>, pairs: seq<(nat, nat)>, k: nat)
    requires k < |pairs| && forall j :: 0 <= j < |pairs| ==> pairs[j].0 < |table|
    requires forall j :: k < j < |pairs| ==> pairs[j].0 != pairs[k].0
    ensures Written(table, pairs)[pairs[k].0] == pairs[k].1
    decreases |pairs|
  {
    var t, rest := table[pairs[0].0 := pairs[0].1], pairs[1..];
    if k == 0 {
      UnwrittenStays(t, rest, pairs[0].0);
    } else {
      LastWriteWins(t, rest, k - 1);
    }
  }

  // ---------------------------------------------------------------- the printer

  function Record(i: nat, value: nat): string {
    (if i == 0 then "" else " ") + Dec(i) + ":" + Dec(value)
  }

  /** Records from..size-1 of the table. */
  function Records(table: seq<nat>, from: nat): string
    requires from <= |table|
    decreases |table| - from
  {
    if from == |table| then "" else Record(from, table[from]) + Records(table, from + 1)
  }

  /** The text of a table. */
  function Text(table: seq<nat>): string {
    Records(table, 0)
  }

  /** Digits in front of something else are taken as one number. */
  lemma {:induction false} DigitsStop(digits: string, rest: string)
    requires forall k :: 0 <= k < |digits| ==> IsDigit(digits[k])
    requires rest == "" || !IsDigit(rest[0])
    ensures Digits(digits + rest) == |digits|
  {
    if digits != "" {
      DigitsStop(digits[1..], rest);
      assert (digits + rest)[1..] == digits[1..] + rest;
    } else {
      assert digits + rest == rest;
    }
  }

  lemma SpacesInFront(pre: string, d: string)
    requires pre == "" || pre == " "
    requires d != "" && !IsSpace(d[0])
    ensures Spaces(pre + d) == |pre|
  {
    if pre == " " {
      assert (pre + d)[1..] == d;
    } else {
      assert pre + d == d;
    }
  }

  lemma {:induction false} SignedOfDec(n: nat, rest: string)
    requires rest == "" || !IsDigit(rest[0])
    ensures SignedNumber(Dec(n) + rest) == (n as int, |Dec(n)|)
  {
    hide Dec, Digits, Number;
    var d := Dec(n) + rest;
    assert IsDigit(d[0]) && d[..|Dec(n)|] == Dec(n);
    DigitsStop(Dec(n), rest);
    NumberOfDec(n);
  }

  /** `strtol` gets back a printed number, with or without a blank in front. */
  lemma {:induction false} StrtolOfDec(pre: string, n: nat, rest: string)
    requires (pre == "" || pre == " ") && n < U32 && (rest == "" || !IsDigit(rest[0]))
    ensures Strtol(pre + (Dec(n) + rest)) == (n as int, |pre| + |Dec(n)|)
  {
    hide Dec, Spaces, SignedNumber;
    var d := Dec(n) + rest;
    assert IsDigit(d[0]);
    SpacesInFront(pre, d);
    assert (pre + d)[|pre|..] == d;
    SignedOfDec(n, rest);
  }

  lemma RecordShape(i: nat, value: nat, rest: string)
    ensures var pre := if i == 0 then "" else " ";
            var s, ie := Record(i, value) + rest, |pre| + |Dec(i)|;
            && s == pre + (Dec(i) + (":" + Dec(value) + rest))
            && |Record(i, value)| == ie + 1 + |Dec(value)| && s[|Record(i, value)|..] == rest
            && s[ie] == ':' && s[ie + 1..] == "" + (Dec(value) + rest)
  {
    hide Dec;
    var pre, d, v := if i == 0 then "" else " ", Dec(i), Dec(value);
    AppendAssoc(pre + d + ":", v, rest);
    AppendAssoc(pre + d, ":", v + rest);
    AppendAssoc(pre, d, ":" + (v + rest));
    AppendAssoc(":", v, rest);
  }

  /** One printed record is read as its pair. */
  lemma {:induction false} ReadRecord(i: nat, value: nat, rest: string, numQueues: nat)
    requires i < ENA_RX_RSS_TABLE_SIZE && value < numQueues <= U32
    requires rest == "" || rest[0] == ' '
    ensures ReadPair(Record(i, value) + rest, numQueues) == Pair(i, value, |Record(i, value)|)
    ensures (Record(i, value) + rest)[|Record(i, value)|..] == rest
  {
    hide Strtol, Dec, Record;
    RecordShape(i, value, rest);
    StrtolOfDec(if i == 0 then "" else " ", i, ":" + Dec(value) + rest);
    StrtolOfDec("", value, rest);
  }

  /** The pairs of a printed table are all its entries, in order. */
  function AllPairs(table: seq<nat>, from: nat): (p: seq<(nat, nat)>)
    requires from <= |table|
    ensures |p| == |table| - from
  {
    seq(|table| - from, k requires 0 <= k < |table| - from => (from + k, table[from + k]))
  }

  lemma {:induction false} ReadRecords(table: seq<nat>, from: nat, numQueues: nat)
    requires from <= |table| <= ENA_RX_RSS_TABLE_SIZE && numQueues <= U32
    requires forall k :: 0 <= k < |table| ==> table[k] < numQueues
    ensures ReadPairs(Records(table, from), numQueues) == Accepted(AllPairs(table, from))
    decreases |table| - from
  {
    hide ReadPair, Record, Dec;
    if from < |table| {
      ReadRecords(table, from + 1, numQueues);
      RecordsStart(table, from + 1);
      ReadRecord(from, table[from], Records(table, from + 1), numQueues);
      assert AllPairs(table, from) == [(from, table[from])] + AllPairs(table, from + 1);
    }
  }

  /** Every record but the first starts with a blank. */
  lemma RecordsStart(table: seq<nat>, from: nat)
    requires from <= |table|
    ensures from > 0 ==> Records(table, from) == "" || Records(table, from)[0] == ' '
  {
    hide Dec;
  }

  /** Writing all entries of a table gives that table, whatever was there before. */
  lemma {:induction false} WriteAll(previous: seq<nat>, table: seq<nat>)
    requires |previous| == |table|
    ensures Written(previous, AllPairs(table, 0)) == table
  {
    var pairs := AllPairs(table, 0);
    forall i | 0 <= i < |table| ensures Written(previous, pairs)[i] == table[i] {
      assert pairs[i] == (i, table[i]);
      LastWriteWins(previous, pairs, i);
    }
  }

  /** The round trip: a printed table, parsed over any previous one, is the table. */
  lemma {:induction false} ParsePrinted(table: seq<nat>, previous: seq<nat>, numQueues: nat)
    requires |table| == |previous| == ENA_RX_RSS_TABLE_SIZE && numQueues <= U32
    requires forall k :: 0 <= k < |table| ==> table[k] < numQueues
    ensures ReadPairs(Text(table), numQueues).Accepted?
    ensures Written(previous, ReadPairs(Text(table), numQueues).pairs) == table
  {
    ReadRecords(table, 0, numQueues);
    WriteAll(previous, table);
  }

  // ---------------------------------------------------------------- which texts are refused

  /** Blanks, tabs, line feeds, vertical tabs, form feeds and carriage returns. */
  predicate AllSpaces(s: string) {
    forall k :: 0 <= k < |s| ==> s[k] as int in {9, 10, 11, 12, 13, 32}
  }

  predicate AllDigits(s: string) {
    forall k :: 0 <= k < |s| ==> IsDigit(s[k])
  }

  /** No number starts here: the end, something else than blank, digit or sign, or a sign without a digit. */
  predicate NoNumber(s: string) {
    s == "" ||
    if s[0] == '-' || s[0] == '+' then |s| == 1 || !IsDigit(s[1]) else !IsSpace(s[0]) && !IsDigit(s[0])
  }

  /** Blanks, a sign or none, and digits, up to something that is no digit. */
  datatype NumberText = NumberText(blanks: string, sign: string, digits: string) {
    predicate Valid() {
      AllSpaces(blanks) && sign in {"", "+", "-"} && digits != "" && AllDigits(digits)
    }

    function Text(): string { blanks + (sign + digits) }

    function Value(): int
      requires AllDigits(digits)
    {
      var n: int := Number(digits);
      if sign == "-" then -n else n
    }
  }

  lemma {:induction false} BlanksSkipped(blanks: string, rest: string)
    requires AllSpaces(blanks) && (rest == "" || !IsSpace(rest[0]))
    ensures Spaces(blanks + rest) == |blanks| && (blanks + rest)[|blanks|..] == rest
  {
    if blanks != "" {
      BlanksSkipped(blanks[1..], rest);
      assert (blanks + rest)[1..] == blanks[1..] + rest;
    } else {
      assert blanks + rest == rest;
    }
  }

  /** `strtol` reads every number text for its value, clamped to a `long`, and nothing where there is none. */
  lemma {:induction false} StrtolReads(n: NumberText, rest: string)
    requires n.Valid() && (rest == "" || !IsDigit(rest[0]))
    ensures Strtol(n.Text() + rest) == (Clamp(n.Value()), |n.Text()|)
  {
    hide Number, Spaces, Digits;
    var s := n.sign + (n.digits + rest);
    assert n.Text() + rest == n.blanks + s && IsDigit(n.digits[0]);
    BlanksSkipped(n.blanks, s);
    DigitsStop(n.digits, rest);
    assert s[|n.sign|..] == n.digits + rest && (n.digits + rest)[..|n.digits|] == n.digits;
  }

  lemma {:induction false} StrtolReadsNothing(blanks: string, rest: string)
    requires AllSpaces(blanks) && NoNumber(rest)
    ensures Strtol(blanks + rest) == (0, 0)
  {
    BlanksSkipped(blanks, rest);
  }

  lemma {:induction false} DigitsEnd(s: string)
    ensures Digits(s) < |s| ==> !IsDigit(s[Digits(s)])
  {
    if s != "" && IsDigit(s[0]) {
      DigitsEnd(s[1..]);
    }
  }

  lemma {:induction false} SpacesEnd(s: string)
    ensures AllSpaces(s[..Spaces(s)]) && (Spaces(s) < |s| ==> !IsSpace(s[Spaces(s)]))
  {
    if s != "" && IsSpace(s[0]) {
      SpacesEnd(s[1..]);
      assert s[..Spaces(s)] == [s[0]] + s[1..][..Spaces(s[1..])];
    }
  }

  /** The digits in front of a text that starts with one. */
  lemma {:induction false} DigitsInFront(s: string) returns (digits: string, rest: string)
    requires s != "" && IsDigit(s[0])
    ensures s == digits + rest && digits != "" && AllDigits(digits) && (rest == "" || !IsDigit(rest[0]))
  {
    DigitsEnd(s);
    digits, rest := s[..Digits(s)], s[Digits(s)..];
  }

  lemma TextAnd(n: NumberText, rest: string)
    ensures n.Text() + rest == n.blanks + (n.sign + (n.digits + rest))
  {
    AppendAssoc(n.blanks, n.sign + n.digits, rest);
    AppendAssoc(n.sign, n.digits, rest);
  }

  /** Every text starts with a number text or, behind its blanks, with none. */
  lemma {:induction false} NumberOrNone(s: string) returns (number: Option<NumberText>, blanks: string, rest: string)
    ensures if number.None? then AllSpaces(blanks) && NoNumber(rest) && s == blanks + rest
            else number.value.Valid() && s == number.value.Text() + rest && (rest == "" || !IsDigit(rest[0]))
  {
    hide Spaces, AllSpaces, AllDigits;
    SpacesEnd(s);
    var tail := s[Spaces(s)..];
    number, blanks, rest := None, s[..Spaces(s)], tail;
    assert s == blanks + tail;
    if !NoNumber(tail) {
      var sign := if IsDigit(tail[0]) then "" else [tail[0]];
      var digits;
      digits, rest := DigitsInFront(tail[|sign|..]);
      number := Some(NumberText(blanks, sign, digits));
      assert s == number.value.Text() + rest by {
        assert tail == sign + (digits + rest);
        TextAnd(number.value, rest);
      }
    }
  }

  /** A text without a number in front is invalid. */
  lemma {:induction false} NoIndexIsInvalid(blanks: string, rest: string, numQueues: nat)
    requires AllSpaces(blanks) && NoNumber(rest)
    ensures ReadPair(blanks + rest, numQueues) == Bad(EInval)
  {
    hide Strtol;
    StrtolReadsNothing(blanks, rest);
  }

  /**
    Behind the first number: an index of 128 and more, or a negative one, is out of
    range; else the end of the text, and anything but a colon, is invalid.
   */
  lemma {:induction false} IndexVerdict(index: NumberText, rest: string, numQueues: nat)
    requires index.Valid() && (rest == "" || !IsDigit(rest[0]))
    ensures var p := ReadPair(index.Text() + rest, numQueues);
            && (p == Bad(ERange) <== 128 <= index.Value() < U32 || 128 - U32 <= index.Value() < 0)
            && (p == Bad(EInval) <== 0 <= index.Value() < 128 && (rest == "" || rest[0] != ':'))
  {
    hide Strtol;
    var s := index.Text() + rest;
    StrtolReads(index, rest);
    assert rest != "" ==> s[|index.Text()|] == rest[0];
    ModNegative(index.Value());
  }

  lemma ModNegative(v: int)
    ensures v < 0 <= v + U32 ==> ToU32(v) == v + U32
  {
  }

  /**
    Behind an index below 128 and a colon: no number is invalid; a queue that there
    is not, or a negative one, is out of range; any other queue makes a pair.
   */
  lemma {:induction false} QueueVerdict(index: NumberText, queue: NumberText, rest: string, numQueues: nat)
    requires index.Valid() && 0 <= index.Value() < 128 && numQueues <= U32
    requires queue.Valid() && (rest == "" || !IsDigit(rest[0]))
    ensures var s := index.Text() + (":" + (queue.Text() + rest));
            var p := ReadPair(s, numQueues);
            && (p == Bad(ERange) <== numQueues <= queue.Value() < U32 || numQueues - U32 <= queue.Value() < 0)
            && (p == Pair(index.Value(), queue.Value(), |s| - |rest|) <== 0 <= queue.Value() < numQueues)
  {
    hide Strtol;
    var tail := queue.Text() + rest;
    var s := index.Text() + (":" + tail);
    StrtolReads(index, ":" + tail);
    assert s[|index.Text()|] == ':' && s[|index.Text()| + 1..] == tail;
    StrtolReads(queue, rest);
    ModNegative(queue.Value());
  }

  lemma {:induction false} NoQueueIsInvalid(index: NumberText, blanks: string, rest: string, numQueues: nat)
    requires index.Valid() && 0 <= index.Value() < 128 && AllSpaces(blanks) && NoNumber(rest)
    ensures ReadPair(index.Text() + (":" + (blanks + rest)), numQueues) == Bad(EInval)
  {
    hide Strtol;
    var tail := blanks + rest;
    var s := index.Text() + (":" + tail);
    StrtolReads(index, ":" + tail);
    assert s[|index.Text()|] == ':' && s[|index.Text()| + 1..] == tail;
    StrtolReadsNothing(blanks, rest);
  }

  /** Why numbers that are too wide are not caught: the first one is taken for 0, the second for 1. */
  lemma WideNumbersWrap()
    ensures ToU32(Clamp(0x1_0000_0000)) == 0 && ToU32(Clamp(-0xFFFF_FFFF)) == 1
    ensures ToU32(Clamp(0x1_0000_0000_0000_0000)) == 0xFFFF_FFFF && ToU32(Clamp(-0x1_0000_0000_0000_0000)) == 0
  {
  }

  /** Entries below a thousand print to at most eight characters, the first to at most five. */
  lemma RecordFits(i: nat, value: nat)
    requires i < 1000 && value < 1000
    ensures |Record(i, value)| <= 8 && (i == 0 ==> |Record(i, value)| <= 5)
    ensures '\0' !in Record(i, value)
  {
    DecLength(i);
    DecLength(value);
    hide Dec;
  }

  /** A buffer holds a string: its characters, none of them NUL, and a NUL behind them. */
  predicate HoldsString(buf: seq<char>, s: string) {
    |s| < |buf| && buf[..|s|] == s && buf[|s|] == '\0' && '\0' !in s
  }

  /** `struct ena_indir` */
  class Indir {
    const table: array<nat>
    const sysctlBuf: array<char>
    /** The table that the device has. */
    var device: seq<nat>

    ghost predicate Valid()
      reads this
    {
      table.Length == |device| == ENA_RX_RSS_TABLE_SIZE && sysctlBuf.Length == BUF_SIZE
    }

    constructor ()
      ensures Valid() && fresh(table) && fresh(sysctlBuf) && table[..] == device
      ensures table.Length == 128 && sysctlBuf.Length == 1024
      ensures forall i :: 0 <= i < table.Length ==> table[i] == 0
    {
      table := new nat[ENA_RX_RSS_TABLE_SIZE](i => 0);
      sysctlBuf := new char[BUF_SIZE](i => '\0');
      device := seq(ENA_RX_RSS_TABLE_SIZE, _ => 0);
    }

    /** One turn of the parse loop: reads the pair at `start`. */
    method NextPair(msg: string, start: nat, numQueues: nat) returns (p: PairResult)
      requires start < |msg|
      ensures p == ReadPair(msg[start..], numQueues)
    {
      hide Strtol;
      var buf := start;
      var (iv, ie) := Strtol(msg[buf..]);
      var idx := ToU32(iv);
      if ie == 0 {
        return Bad(EInval);
      }
      if idx >= ENA_RX_RSS_TABLE_SIZE {
        return Bad(ERange);
      }
      buf := buf + ie;
      if buf == |msg| || msg[buf] != ':' {
        return Bad(EInval);
      }
      buf := buf + 1;
      assert msg[start..][ie + 1..] == msg[buf..];
      var (vv, ve) := Strtol(msg[buf..]);
      var value := ToU32(vv);
      if ve == 0 {
        return Bad(EInval);
      }
      if value >= numQueues {
        return Bad(ERange);
      }
      p := Pair(idx, value, ie + 1 + ve);
    }

    /** The parse loop of `ena_sysctl_rss_indir_table`; the pairs before an error are already written. */
    method Parse(msg: string, numQueues: nat) returns (error: Option<Error>)
      requires Valid()
      modifies table
      ensures var w := ReadPairs(msg, numQueues);
              && table[..] == Written(old(table[..]), w.pairs)
              && error == if w.Accepted? then None else Some(w.error)
    {
      hide ReadPair;
      var buf := 0;
      assert msg[0..] == msg;
      while buf < |msg|
        invariant 0 <= buf <= |msg|
        invariant var w, rest := ReadPairs(msg, numQueues), ReadPairs(msg[buf..], numQueues);
                  && Written(table[..], rest.pairs) == Written(old(table[..]), w.pairs)
                  && rest == w.(pairs := rest.pairs)
      {
        ghost var before := table[..];
        var p := NextPair(msg, buf, numQueues);
        match p
        case Bad(e) => return Some(e);
        case Pair(idx, value, used) =>
          table[idx] := value;
          assert msg[buf..][used..] == msg[buf + used..] && table[..] == before[idx := value];
          buf := buf + used;
      }
      error := None;
    }

    /** `snprintf` of one record: cut to eight characters, ended by a NUL; gives the uncut length. */
    method Snprintf(at: nat, s: string) returns (n: nat)
      requires at + ENA_RX_RSS_MSG_RECORD_SZ < sysctlBuf.Length || at + |s| < sysctlBuf.Length
      modifies sysctlBuf
      ensures n == |s|
      ensures var m := if |s| < ENA_RX_RSS_MSG_RECORD_SZ then |s| else ENA_RX_RSS_MSG_RECORD_SZ;
              at + m < sysctlBuf.Length && sysctlBuf[at..at + m] == s[..m] && sysctlBuf[at + m] == '\0'
      ensures sysctlBuf[..at] == old(sysctlBuf[..at])
    {
      n := |s|;
      var m := if |s| < ENA_RX_RSS_MSG_RECORD_SZ then |s| else ENA_RX_RSS_MSG_RECORD_SZ;
      for k := 0 to m
        invariant sysctlBuf[at..at + k] == s[..k] && sysctlBuf[..at] == old(sysctlBuf[..at])
      {
        sysctlBuf[at + k] := s[k];
      }
      sysctlBuf[at + m] := '\0';
    }

    /** `ena_rss_copy_indir_buf`: for queues below 128 the whole text fits its buffer. */
    method CopyIndirBuf()
      requires Valid() && forall k :: 0 <= k < table.Length ==> table[k] < ENA_RX_RSS_TABLE_SIZE
      modifies sysctlBuf
      ensures HoldsString(sysctlBuf[..], Text(table[..]))
    {
      hide Record;
      ghost var t, done := table[..], "";
      var buf, i := 0, 0;
      while i < ENA_RX_RSS_TABLE_SIZE
        invariant 0 <= i <= ENA_RX_RSS_TABLE_SIZE && Text(t) == done + Records(t, i)
        invariant buf == |done| <= (if i == 0 then 0 else ENA_RX_RSS_MSG_RECORD_SZ * i - 3)
        invariant sysctlBuf[..buf] == done && '\0' !in done && (i > 0 ==> sysctlBuf[buf] == '\0')
      {
        RecordFits(i, table[i]);
        var s := Record(i, table[i]);
        var n := Snprintf(buf, s);
        assert s[..|s|] == s;
        AppendAssoc(done, s, Records(t, i + 1));
        assert sysctlBuf[..buf + n] == sysctlBuf[..buf] + sysctlBuf[buf..buf + n];
        done := done + s;
        buf := buf + n;
        i := i + 1;
      }
      assert done + "" == done;
    }

    /** `ena_rss_indir_get`: the table is left as it is when the device cannot be read. */
    method IndirGet(fails: bool)
      requires Valid()
      modifies table
      ensures table[..] == if fails then old(table[..]) else device
    {
      if !fails {
        forall k | 0 <= k < table.Length {
          table[k] := device[k];
        }
        assert table[..] == device;
      }
    }

    /**
      The write side of the sysctl, where reading the table from the device and
      storing it there may fail. An accepted text takes effect in the driver and,
      if it can be stored, in the device; any other leaves the device alone, and the
      driver goes back to the device's table if that can be read. Otherwise the
      driver keeps the pairs before the error, which the device does not have. In
      every case the buffer shows the driver's table.
     */
    method SetTable(msg: string, numQueues: nat, getFails: bool, setFails: bool) returns (error: Option<Error>)
      requires Valid() && numQueues <= ENA_RX_RSS_TABLE_SIZE
      requires forall k :: 0 <= k < table.Length ==> table[k] < numQueues && device[k] < numQueues
      modifies table, sysctlBuf, this`device
      ensures var w := ReadPairs(msg, numQueues);
              var written := Written(old(table[..]), w.pairs);
              && error == (if w.Rejected? then Some(w.error) else if setFails then Some(EIo) else None)
              && table[..] == (if w.Rejected? && !getFails then old(device) else written)
              && device == (if error == None then written else old(device))
              && (old(table[..]) == old(device) ==>
                    (table[..] == device <==>
                       !(if w.Rejected? then getFails else setFails) || written == old(device)))
      ensures Valid() && forall k :: 0 <= k < table.Length ==> table[k] < numQueues && device[k] < numQueues
      ensures HoldsString(sysctlBuf[..], Text(table[..]))
    {
      hide HoldsString;
      ghost var before := table[..];
      error := Parse(msg, numQueues);
      WrittenBelow(before, ReadPairs(msg, numQueues).pairs, numQueues);
      if error.Some? {
        IndirGet(getFails);
      }
      assert forall k :: 0 <= k < table.Length ==> table[k] == table[..][k];
      CopyIndirBuf();
      if error.None? {
        if setFails {
          error := Some(EIo);
        } else {
          device := table[..];
        }
      }
    }
  }

  lemma {:induction false} WrittenBelow(table: seq<nat>, pairs: seq<(nat, nat)>, n: nat)
    requires forall k :: 0 <= k < |pairs| ==> pairs[k].0 < |table| && pairs[k].1 < n
    requires forall k :: 0 <= k < |table| ==> table[k] < n
    ensures forall k :: 0 <= k < |table| ==> Written(table, pairs)[k] < n
    decreases |pairs|
  {
    if pairs != [] {
      WrittenBelow(table[pairs[0].0 := pairs[0].1], pairs[1..], n);
    }
  }
}

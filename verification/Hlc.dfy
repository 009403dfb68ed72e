/**
 Hybrid logical clock stamps (server/internal/hlc/hlc.go and its TypeScript
 counterpart web/src/lib/hlc.ts): a fixed-width decimal encoding whose string
 order is the order of the clocks, and the rule that issues the next stamp.
 */
module Hlc {
  import opened Results
  import Lex
  import Seqs

  /** Milliseconds, a tie-breaking counter, and the issuing device. */
  datatype Clock = Clock(wallMs: int, counter: nat, deviceId: string)

  const WALL_WIDTH: nat := 20
  const COUNTER_WIDTH: nat := 10
  const COUNTER_LIMIT: nat := 10000000000
  const INT64_LIMIT: nat := 0x8000_0000_0000_0000
  const UINT64_LIMIT: nat := 0x1_0000_0000_0000_0000

  // ---- decimal digits ----

  function Digit(n: nat): (c: char)
    requires n < 10
  {
    ('0' as int + n) as char
  }

  predicate IsDigit(c: char) {
    '0' <= c <= '9'
  }

  predicate AllDigits(s: string) {
    forall i :: 0 <= i < |s| ==> IsDigit(s[i])
  }

  function Zeros(n: nat): (s: string)
    ensures |s| == n && forall i :: 0 <= i < n ==> s[i] == '0'
  {
    seq(n, _ => '0')
  }

  /** Decimal notation without leading zeros. */
  function Decimal(n: nat): (s: string)
    ensures s != "" && AllDigits(s)
  {
    if n < 10 then [Digit(n)] else Decimal(n / 10) + [Digit(n % 10)]
  }

  /** `%0wd` of a non-negative number, and `padStart(w, '0')`. */
  function Pad(n: nat, w: nat): (s: string)
    ensures |s| >= w && AllDigits(s) && s != ""
  {
    var d := Decimal(n);
    if |d| < w then Zeros(w - |d|) + d else d
  }

  /** `%0wd` of any integer: the sign takes one column of the width. */
  function PadSigned(n: int, w: nat): string
    requires w > 0
  {
    if n >= 0 then Pad(n, w) else "-" + Pad(-n, w - 1)
  }

  function Encode(c: Clock): string {
    PadSigned(c.wallMs, WALL_WIDTH) + "-" + Pad(c.counter, COUNTER_WIDTH) + "-" + c.deviceId
  }

  /** The number a run of digits denotes. */
  function Number(s: string): nat
    requires AllDigits(s)
  {
    if s == "" then 0 else 10 * Number(s[..|s| - 1]) + (s[|s| - 1] as int - '0' as int)
  }

  // ---- parsing ----

  /** Position of the first '-' in s, or |s|. */
  function FirstDash(s: string): (i: nat)
    ensures i <= |s| && (i < |s| ==> s[i] == '-')
    ensures forall j :: 0 <= j < i ==> s[j] != '-'
  {
    if s == "" || s[0] == '-' then 0 else 1 + FirstDash(s[1..])
  }

  function DigitRun(s: string): (i: nat)
    ensures i <= |s| && AllDigits(s[..i]) && (i < |s| ==> !IsDigit(s[i]))
  {
    if s == "" || !IsDigit(s[0]) then 0 else
      var rest := DigitRun(s[1..]);
      assert s[..1 + rest] == [s[0]] + s[1..][..rest];
      1 + rest
  }

  /** Scanning a number reads the digits at the front, needs at least one, and refuses overflow. */
  function ScanNumber(s: string, limit: nat): Result<nat, string> {
    var n := DigitRun(s);
    if n == 0 then Err("expected integer")
    else if Number(s[..n]) >= limit then Err("integer overflow")
    else Ok(Number(s[..n]))
  }

  /** Decodes an encoded clock; the device id is everything after the second dash. */
  function Parse(s: string): Result<Clock, string> {
    var i := FirstDash(s);
    if i == |s| then Err("malformed clock") else
      var rest := s[i + 1..];
      var j := FirstDash(rest);
      if j == |rest| then Err("malformed clock") else
        var wall :- ScanNumber(s[..i], INT64_LIMIT);
        var counter :- ScanNumber(rest[..j], UINT64_LIMIT);
        Ok(Clock(wall, counter, rest[j + 1..]))
  }

  lemma {:induction false} NumberOfDecimal(n: nat)
    ensures Number(Decimal(n)) == n
  {
    if n >= 10 {
      NumberOfDecimal(n / 10);
      var d := Decimal(n);
      assert d[..|d| - 1] == Decimal(n / 10);
    }
  }

  lemma {:induction false} NumberOfPadded(z: nat, s: string)
    requires AllDigits(s)
    ensures AllDigits(Zeros(z) + s) && Number(Zeros(z) + s) == Number(s)
  {
    var t := Zeros(z) + s;
    if s == "" {
      if z > 0 {
        assert t[..|t| - 1] == Zeros(z - 1) + s;
        NumberOfPadded(z - 1, s);
      }
    } else {
      assert t[..|t| - 1] == Zeros(z) + s[..|s| - 1];
      NumberOfPadded(z, s[..|s| - 1]);
    }
  }

  lemma NumberOfPad(n: nat, w: nat)
    ensures Number(Pad(n, w)) == n
  {
    var d := Decimal(n);
    NumberOfDecimal(n);
    if |d| < w {
      NumberOfPadded(w - |d|, d);
      assert Pad(n, w) == Zeros(w - |d|) + d;
    } else {
      assert Pad(n, w) == d;
    }
  }

  lemma {:induction false} FirstDashAfter(p: string, rest: string)
    requires AllDigits(p)
    ensures FirstDash(p + "-" + rest) == |p|
  {
    if p == "" {
      assert (p + "-" + rest)[0] == '-';
    } else {
      FirstDashAfter(p[1..], rest);
      assert (p + "-" + rest)[1..] == p[1..] + "-" + rest;
    }
  }

  lemma {:induction false} DigitRunOfDigits(s: string)
    requires AllDigits(s)
    ensures DigitRun(s) == |s|
  {
    if s != "" {
      DigitRunOfDigits(s[1..]);
    }
  }

  lemma ScanPadded(n: nat, w: nat, limit: nat)
    requires n < limit
    ensures ScanNumber(Pad(n, w), limit) == Ok(n)
  {
    var s := Pad(n, w);
    DigitRunOfDigits(s);
    assert s[..|s|] == s;
    NumberOfPad(n, w);
  }

  /** Parsing undoes encoding, whatever the device id contains. */
  lemma ParseEncode(c: Clock)
    requires 0 <= c.wallMs < INT64_LIMIT && c.counter < UINT64_LIMIT
    ensures Parse(Encode(c)) == Ok(c)
  {
    var s := Encode(c);
    var p, q := Pad(c.wallMs, WALL_WIDTH), Pad(c.counter, COUNTER_WIDTH);
    var rest := q + "-" + c.deviceId;
    assert s == p + "-" + rest;
    FirstDashAfter(p, rest);
    assert s[..|p|] == p && s[|p| + 1..] == rest;
    FirstDashAfter(q, c.deviceId);
    assert rest[..|q|] == q && rest[|q| + 1..] == c.deviceId;
    ScanPadded(c.wallMs, WALL_WIDTH, INT64_LIMIT);
    ScanPadded(c.counter, COUNTER_WIDTH, UINT64_LIMIT);
  }

  // ---- the encoding embeds the order ----

  function Pow10(w: nat): (p: nat)
    ensures p > 0
  {
    if w == 0 then 1 else 10 * Pow10(w - 1)
  }

  lemma {:induction false} DecimalFits(n: nat, w: nat)
    requires n < Pow10(w) && w > 0
    ensures |Decimal(n)| <= w
  {
    if n >= 10 {
      DecimalFits(n / 10, w - 1);
    }
  }

  lemma PadOneDigit(n: nat, w: nat)
    requires n < 10 && w > 1
    ensures Pad(n, w) == Pad(0, w - 1) + [Digit(n)]
  {
    assert Decimal(n) == [Digit(n)] && Decimal(0) == "0";
    assert Zeros(w - 1) == Zeros(w - 2) + "0";
    assert Pad(0, w - 1) == if w - 1 > 1 then Zeros(w - 2) + "0" else "0";
  }

  lemma PadManyDigits(n: nat, w: nat, e: string)
    requires n >= 10 && e == Decimal(n / 10) && |Decimal(n)| <= w
    ensures Pad(n, w) == Pad(n / 10, w - 1) + [Digit(n % 10)]
  {
    var last := [Digit(n % 10)];
    assert Decimal(n) == e + last;
    Seqs.Associates(Zeros(w - 1 - |e|), e, last);
  }

  /** Dropping the last column of a padded number divides it by ten. */
  lemma PadLastColumn(n: nat, w: nat)
    requires n < Pow10(w) && w > 1
    ensures Pad(n, w) == Pad(n / 10, w - 1) + [Digit(n % 10)]
  {
    DecimalFits(n, w);
    DecimalFits(n / 10, w - 1);
    if n < 10 {
      PadOneDigit(n, w);
    } else {
      PadManyDigits(n, w, Decimal(n / 10));
    }
  }

  lemma {:induction false} PadMonotone(m: nat, n: nat, w: nat)
    requires m < n < Pow10(w) && w > 0
    ensures |Pad(m, w)| == |Pad(n, w)| == w
    ensures Lex.Less(Pad(m, w), Pad(n, w))
  {
    DecimalFits(m, w);
    DecimalFits(n, w);
    if w > 1 {
      PadLastColumn(m, w);
      PadLastColumn(n, w);
      DecimalFits(m / 10, w - 1);
      DecimalFits(n / 10, w - 1);
      if m / 10 < n / 10 {
        PadMonotone(m / 10, n / 10, w - 1);
        Lex.LessExtend(Pad(m / 10, w - 1), Pad(n / 10, w - 1), [Digit(m % 10)], [Digit(n % 10)]);
      } else {
        Lex.LessPrefix(Pad(m / 10, w - 1), [Digit(m % 10)], [Digit(n % 10)]);
      }
    }
  }

  /** Clocks compare by wall time, then counter, then device. */
  predicate Before(c: Clock, d: Clock) {
    || c.wallMs < d.wallMs
    || (c.wallMs == d.wallMs
        && (c.counter < d.counter || (c.counter == d.counter && Lex.Less(c.deviceId, d.deviceId))))
  }

  /** The ranges in which the fixed widths are wide enough. */
  predicate InRange(c: Clock) {
    0 <= c.wallMs < INT64_LIMIT && c.counter < COUNTER_LIMIT
  }

  lemma WidthsSuffice()
    ensures INT64_LIMIT < Pow10(WALL_WIDTH) && COUNTER_LIMIT == Pow10(COUNTER_WIDTH)
  {
    assert Pow10(5) == 100000;
    assert Pow10(10) == 100000 * Pow10(5);
    assert Pow10(15) == 100000 * Pow10(10);
    assert Pow10(20) == 100000 * Pow10(15);
  }

  /** The stamp behind its wall part. */
  function AfterWall(c: Clock): string {
    "-" + Pad(c.counter, COUNTER_WIDTH) + "-" + c.deviceId
  }

  lemma PadFits(n: nat, w: nat)
    requires n < Pow10(w) && w > 0
    ensures |Pad(n, w)| == w
  {
    DecimalFits(n, w);
  }

  lemma CutStamp(w: string, k: string, d: string)
    ensures var e := w + "-" + k + "-" + d;
            && |e| == |w| + |k| + 2 + |d| && e[..|w|] == w && e[|w|] == '-'
            && e[|w| + 1..|w| + 1 + |k|] == k && e[|w| + 1 + |k|] == '-' && e[|w| + |k| + 2..] == d
  {
  }

  /**
   The layout of a stamp within the widths: twenty digits of the wall time, a dash, ten digits of the
   counter, a dash, and the device id.
   */
  lemma StampLayout(c: Clock)
    requires InRange(c)
    ensures var e := Encode(c);
            && |e| == 32 + |c.deviceId| && e[20] == '-' && e[31] == '-' && e[32..] == c.deviceId
            && AllDigits(e[..20]) && Number(e[..20]) == c.wallMs
            && AllDigits(e[21..31]) && Number(e[21..31]) == c.counter
  {
    WidthsSuffice();
    var w, k := Pad(c.wallMs, WALL_WIDTH), Pad(c.counter, COUNTER_WIDTH);
    PadFits(c.wallMs, WALL_WIDTH);
    PadFits(c.counter, COUNTER_WIDTH);
    NumberOfPad(c.wallMs, WALL_WIDTH);
    NumberOfPad(c.counter, COUNTER_WIDTH);
    CutStamp(w, k, c.deviceId);
  }

  lemma CutAfterWall(c: Clock)
    ensures Encode(c) == PadSigned(c.wallMs, WALL_WIDTH) + AfterWall(c)
  {
    var w, k := PadSigned(c.wallMs, WALL_WIDTH), Pad(c.counter, COUNTER_WIDTH);
    Seqs.Associates(w, "-", k);
    Seqs.Associates(w, "-" + k, "-");
    Seqs.Associates(w, "-" + k + "-", c.deviceId);
  }

  lemma CounterBefore(c: Clock, d: Clock)
    requires c.counter < COUNTER_LIMIT && d.counter < COUNTER_LIMIT && c.wallMs == d.wallMs && Before(c, d)
    ensures Lex.Less(AfterWall(c), AfterWall(d))
  {
    WidthsSuffice();
    var k, l := Pad(c.counter, COUNTER_WIDTH), Pad(d.counter, COUNTER_WIDTH);
    assert "-" + k + "-" + c.deviceId == "-" + (k + ("-" + c.deviceId));
    assert "-" + l + "-" + d.deviceId == "-" + (l + ("-" + d.deviceId));
    Lex.LessPrefix("-", k + ("-" + c.deviceId), l + ("-" + d.deviceId));
    if c.counter < d.counter {
      PadMonotone(c.counter, d.counter, COUNTER_WIDTH);
      Lex.LessExtend(k, l, "-" + c.deviceId, "-" + d.deviceId);
    } else {
      Lex.LessPrefix(k, "-" + c.deviceId, "-" + d.deviceId);
      Lex.LessPrefix("-", c.deviceId, d.deviceId);
    }
  }

  lemma SameSignedWall(c: Clock, d: Clock)
    requires c.wallMs == d.wallMs && c.counter < COUNTER_LIMIT && d.counter < COUNTER_LIMIT && Before(c, d)
    ensures Lex.Less(Encode(c), Encode(d))
  {
    CutAfterWall(c);
    CutAfterWall(d);
    CounterBefore(c, d);
    Lex.LessPrefix(PadSigned(c.wallMs, WALL_WIDTH), AfterWall(c), AfterWall(d));
  }

  lemma EncodeBefore(c: Clock, d: Clock)
    requires InRange(c) && InRange(d) && Before(c, d)
    ensures Lex.Less(Encode(c), Encode(d))
  {
    if c.wallMs == d.wallMs {
      SameSignedWall(c, d);
    } else {
      WidthsSuffice();
      CutAfterWall(c);
      CutAfterWall(d);
      PadMonotone(c.wallMs, d.wallMs, WALL_WIDTH);
      Lex.LessExtend(Pad(c.wallMs, WALL_WIDTH), Pad(d.wallMs, WALL_WIDTH), AfterWall(c), AfterWall(d));
    }
  }

  /** String comparison of stamps is comparison of clocks, in both directions, ties included. */
  lemma OrderEmbedding(c: Clock, d: Clock)
    requires InRange(c) && InRange(d)
    ensures Lex.Less(Encode(c), Encode(d)) <==> Before(c, d)
    ensures Encode(c) == Encode(d) <==> c == d
  {
    Lex.LessTotal(c.deviceId, d.deviceId);
    if Before(c, d) {
      EncodeBefore(c, d);
      Lex.LessAsymmetric(Encode(c), Encode(d));
      Lex.LessIrreflexive(c.deviceId);
    } else if Before(d, c) {
      EncodeBefore(d, c);
      Lex.LessAsymmetric(Encode(d), Encode(c));
    } else {
      Lex.LessIrreflexive(Encode(c));
    }
  }

  lemma TenTimes(d: nat, p: nat)
    ensures d * (10 * p) == 10 * (d * p)
  {
  }

  lemma LeadingDigitStays(n: nat)
    requires n >= 10
    ensures Decimal(n)[0] == Decimal(n / 10)[0]
  {
  }

  /** The leading digit of the numbers from d * 10^w up to, but not including, the next such multiple. */
  lemma {:induction false} FirstDigit(n: nat, d: nat, w: nat)
    requires 0 < d < 10
    requires var from := d * Pow10(w); from <= n < from + Pow10(w)
    ensures Decimal(n)[0] == Digit(d)
  {
    if w > 0 {
      TenTimes(d, Pow10(w - 1));
      FirstDigit(n / 10, d, w - 1);
      LeadingDigitStays(n);
    }
  }

  lemma {:induction false} DecimalLong(n: nat, w: nat)
    requires Pow10(w) <= n
    ensures |Decimal(n)| > w
  {
    if w > 0 {
      DecimalLong(n / 10, w - 1);
    }
  }

  lemma PadLimit()
    ensures Pad(COUNTER_LIMIT, COUNTER_WIDTH)[0] == '1'
    ensures Pad(COUNTER_LIMIT - 1, COUNTER_WIDTH)[0] == '9'
  {
    FirstDigit(COUNTER_LIMIT, 1, COUNTER_WIDTH);
    FirstDigit(COUNTER_LIMIT - 1, 9, COUNTER_WIDTH - 1);
    WidthsSuffice();
    DecimalLong(COUNTER_LIMIT - 1, COUNTER_WIDTH - 1);
    DecimalLong(COUNTER_LIMIT, COUNTER_WIDTH);
  }

  /**
   The ten counter columns are exactly what the order needs: all stamps with counters below a
   bound compare correctly if and only if the bound is at most 10^10.
   */
  lemma CounterBoundExact(bound: nat)
    ensures bound <= COUNTER_LIMIT <==>
            forall c: Clock, d: Clock | 0 <= c.wallMs < INT64_LIMIT && 0 <= d.wallMs < INT64_LIMIT
                          && c.counter < bound && d.counter < bound ::
              Lex.Less(Encode(c), Encode(d)) <==> Before(c, d)
  {
    if bound <= COUNTER_LIMIT {
      forall c: Clock, d: Clock | 0 <= c.wallMs < INT64_LIMIT && 0 <= d.wallMs < INT64_LIMIT
                    && c.counter < bound && d.counter < bound
        ensures Lex.Less(Encode(c), Encode(d)) <==> Before(c, d)
      {
        OrderEmbedding(c, d);
      }
    } else {
      var c, d := Clock(0, COUNTER_LIMIT - 1, ""), Clock(0, COUNTER_LIMIT, "");
      var w, k, l := Pad(0, WALL_WIDTH) + "-", Pad(c.counter, COUNTER_WIDTH), Pad(d.counter, COUNTER_WIDTH);
      assert Encode(c) == w + (k + "-") && Encode(d) == w + (l + "-");
      Lex.LessPrefix(w, k + "-", l + "-");
      PadLimit();
      assert Before(c, d) && !Lex.Less(Encode(c), Encode(d));
    }
  }

  /** Two milliseconds or more before 1970 the padded digits compare the wrong way round. */
  lemma NegativeWallsMisorder()
    ensures Before(Clock(-2, 0, ""), Clock(-1, 0, ""))
    ensures Lex.Less(Encode(Clock(-1, 0, "")), Encode(Clock(-2, 0, "")))
  {
    var t := "-" + Pad(0, COUNTER_WIDTH) + "-" + "";
    var p, q := Pad(1, WALL_WIDTH - 1), Pad(2, WALL_WIDTH - 1);
    assert Pow10(2) == 100;
    assert Decimal(1) == "1" && Decimal(2) == "2";
    var z := "-" + Zeros(WALL_WIDTH - 2);
    assert Encode(Clock(-1, 0, "")) == z + ("1" + t);
    assert Encode(Clock(-2, 0, "")) == z + ("2" + t);
    Lex.LessPrefix(z, "1" + t, "2" + t);
  }

  /** One millisecond before 1970 still sorts first: '-' precedes every digit. */
  lemma SignSortsFirst(c: Clock, d: Clock)
    requires c.wallMs == -1 && 0 <= d.wallMs
    ensures Lex.Less(Encode(c), Encode(d)) && !Lex.Less(Encode(d), Encode(c))
  {
    assert Encode(c)[0] == '-' && IsDigit(Encode(d)[0]);
  }

  lemma EncodeBeforeFromMinusOne(c: Clock, d: Clock)
    requires -1 <= c.wallMs < INT64_LIMIT && -1 <= d.wallMs < INT64_LIMIT
    requires c.counter < COUNTER_LIMIT && d.counter < COUNTER_LIMIT && Before(c, d)
    ensures Lex.Less(Encode(c), Encode(d)) && !Lex.Less(Encode(d), Encode(c))
  {
    if c.wallMs == d.wallMs {
      SameSignedWall(c, d);
    } else if c.wallMs == -1 {
      SignSortsFirst(c, d);
    } else {
      EncodeBefore(c, d);
    }
    Lex.LessAsymmetric(Encode(c), Encode(d));
  }

  /**
   Wall times, exactly: all stamps with walls from lo on compare correctly if and only if lo is
   at least -1. This is Go's `%020d`, which puts the sign before the zeros.
   */
  lemma WallBoundExact(lo: int)
    ensures lo >= -1 <==>
            forall c: Clock, d: Clock | lo <= c.wallMs < INT64_LIMIT && lo <= d.wallMs < INT64_LIMIT
                          && c.counter < COUNTER_LIMIT && d.counter < COUNTER_LIMIT ::
              Lex.Less(Encode(c), Encode(d)) <==> Before(c, d)
  {
    if lo >= -1 {
      forall c: Clock, d: Clock | lo <= c.wallMs < INT64_LIMIT && lo <= d.wallMs < INT64_LIMIT
                    && c.counter < COUNTER_LIMIT && d.counter < COUNTER_LIMIT
        ensures Lex.Less(Encode(c), Encode(d)) <==> Before(c, d)
      {
        Lex.LessTotal(c.deviceId, d.deviceId);
        if Before(c, d) {
          EncodeBeforeFromMinusOne(c, d);
        } else if Before(d, c) {
          EncodeBeforeFromMinusOne(d, c);
        } else {
          Lex.LessIrreflexive(Encode(c));
        }
      }
    } else {
      NegativeWallsMisorder();
      var c, d := Clock(-2, 0, ""), Clock(-1, 0, "");
      Lex.LessAsymmetric(Encode(d), Encode(c));
      assert Before(c, d) && !Lex.Less(Encode(c), Encode(d));
    }
  }

  // ---- issuing stamps ----

  /** The next clock of a device: forward with the wall clock, or one more on the counter. */
  function Next(last: Clock, deviceId: string, wallMs: int): Clock {
    if wallMs <= last.wallMs
    then Clock(last.wallMs, last.counter + 1, deviceId)
    else Clock(wallMs, 0, deviceId)
  }

  /** The clock after one stamp has been issued for every reading. */
  function After(start: Clock, deviceId: string, readings: seq<int>): Clock {
    if readings == [] then start
    else Next(After(start, deviceId, readings[..|readings| - 1]), deviceId, readings[|readings| - 1])
  }

  function Stamps(start: Clock, deviceId: string, readings: seq<int>): (stamps: seq<string>)
    ensures |stamps| == |readings|
  {
    seq(|readings|, i requires 0 <= i < |readings| => Encode(After(start, deviceId, readings[..i + 1])))
  }

  function MaxWall(start: int, readings: seq<int>): (m: int) {
    if readings == [] then start
    else
      var m := MaxWall(start, readings[..|readings| - 1]);
      if readings[|readings| - 1] > m then readings[|readings| - 1] else m
  }

  /** The reading at i exceeds everything seen before it. */
  predicate RisesAt(start: int, readings: seq<int>, i: nat)
    requires i < |readings|
  {
    readings[i] > MaxWall(start, readings[..i])
  }

  lemma {:induction false} MaxWallIsMaximum(start: int, readings: seq<int>)
    ensures MaxWall(start, readings) >= start
    ensures forall i :: 0 <= i < |readings| ==> readings[i] <= MaxWall(start, readings)
    ensures MaxWall(start, readings) == start || MaxWall(start, readings) in readings
  {
    if readings != [] {
      MaxWallIsMaximum(start, readings[..|readings| - 1]);
    }
  }

  lemma {:induction false} IssuedWall(start: Clock, deviceId: string, readings: seq<int>)
    ensures After(start, deviceId, readings).wallMs == MaxWall(start.wallMs, readings)
    ensures readings != [] ==> After(start, deviceId, readings).deviceId == deviceId
    ensures After(start, deviceId, readings).counter <= start.counter + |readings|
  {
    if readings != [] {
      IssuedWall(start, deviceId, readings[..|readings| - 1]);
    }
  }

  /** One more reading restarts the counter exactly if it rises above all before it. */
  lemma CounterStep(start: Clock, deviceId: string, readings: seq<int>)
    requires readings != []
    ensures var n := |readings| - 1;
            After(start, deviceId, readings).counter
            == if RisesAt(start.wallMs, readings, n) then 0 else After(start, deviceId, readings[..n]).counter + 1
  {
    IssuedWall(start, deviceId, readings[..|readings| - 1]);
  }

  lemma RisesInPrefix(start: int, readings: seq<int>, k: nat)
    requires k + 1 < |readings|
    ensures RisesAt(start, readings[..|readings| - 1], k) == RisesAt(start, readings, k)
  {
    assert readings[..|readings| - 1][..k] == readings[..k];
  }

  /** No reading from j on rises. */
  ghost predicate FlatFrom(start: int, readings: seq<int>, j: nat) {
    forall k :: j <= k < |readings| ==> !RisesAt(start, readings, k)
  }

  lemma FlatPrefix(start: int, readings: seq<int>, j: nat)
    requires readings != [] && FlatFrom(start, readings, j)
    ensures FlatFrom(start, readings[..|readings| - 1], j)
  {
    var prev := readings[..|readings| - 1];
    forall k | j <= k < |prev| ensures !RisesAt(start, prev, k) {
      RisesInPrefix(start, readings, k);
    }
  }

  lemma {:induction false} CounterSinceRise(start: Clock, deviceId: string, readings: seq<int>, j: nat)
    requires j < |readings| && RisesAt(start.wallMs, readings, j) && FlatFrom(start.wallMs, readings, j + 1)
    ensures After(start, deviceId, readings).counter == |readings| - 1 - j
  {
    var n := |readings| - 1;
    CounterStep(start, deviceId, readings);
    if j < n {
      RisesInPrefix(start.wallMs, readings, j);
      FlatPrefix(start.wallMs, readings, j + 1);
      CounterSinceRise(start, deviceId, readings[..n], j);
    }
  }

  lemma {:induction false} CounterWithoutRise(start: Clock, deviceId: string, readings: seq<int>)
    requires FlatFrom(start.wallMs, readings, 0)
    ensures After(start, deviceId, readings).counter == start.counter + |readings|
  {
    if readings != [] {
      CounterStep(start, deviceId, readings);
      FlatPrefix(start.wallMs, readings, 0);
      CounterWithoutRise(start, deviceId, readings[..|readings| - 1]);
    }
  }

  /**
   Whatever the wall clock does, the wall part of the issued stamp is the greatest reading so
   far, and the counter is the number of stamps issued since that maximum last rose.
   */
  lemma IssuedClock(start: Clock, deviceId: string, readings: seq<int>)
    requires readings != []
    ensures var c := After(start, deviceId, readings);
            && c.deviceId == deviceId
            && c.wallMs == MaxWall(start.wallMs, readings)
            && c.counter <= start.counter + |readings|
    ensures forall j :: 0 <= j < |readings| && RisesAt(start.wallMs, readings, j)
                        && FlatFrom(start.wallMs, readings, j + 1)
                        ==> After(start, deviceId, readings).counter == |readings| - 1 - j
    ensures FlatFrom(start.wallMs, readings, 0)
            ==> After(start, deviceId, readings).counter == start.counter + |readings|
  {
    IssuedWall(start, deviceId, readings);
    forall j | 0 <= j < |readings| && RisesAt(start.wallMs, readings, j) && FlatFrom(start.wallMs, readings, j + 1)
      ensures After(start, deviceId, readings).counter == |readings| - 1 - j
    {
      CounterSinceRise(start, deviceId, readings, j);
    }
    if FlatFrom(start.wallMs, readings, 0) {
      CounterWithoutRise(start, deviceId, readings);
    }
  }

  lemma {:induction false} AfterIncreases(start: Clock, deviceId: string, readings: seq<int>, i: nat)
    requires i < |readings|
    ensures Before(After(start, deviceId, readings[..i]), After(start, deviceId, readings))
  {
    var n := |readings| - 1;
    if i < n {
      AfterIncreases(start, deviceId, readings[..n], i);
      assert readings[..n][..i] == readings[..i];
    }
  }

  lemma AfterInRange(start: Clock, deviceId: string, readings: seq<int>, i: nat)
    requires InRange(start) && start.counter + |readings| < COUNTER_LIMIT
    requires forall k :: 0 <= k < |readings| ==> readings[k] < INT64_LIMIT
    requires i <= |readings|
    ensures InRange(After(start, deviceId, readings[..i]))
  {
    if i > 0 {
      IssuedClock(start, deviceId, readings[..i]);
      MaxWallIsMaximum(start.wallMs, readings[..i]);
    }
  }

  /**
   The stamps one device issues are strictly increasing as strings over any run of wall-clock
   readings, backward jumps included.
   */
  lemma StampsIncrease(start: Clock, deviceId: string, readings: seq<int>, i: nat, j: nat)
    requires InRange(start) && start.counter + |readings| < COUNTER_LIMIT
    requires forall k :: 0 <= k < |readings| ==> readings[k] < INT64_LIMIT
    requires i < j < |readings|
    ensures Lex.Less(Stamps(start, deviceId, readings)[i], Stamps(start, deviceId, readings)[j])
  {
    AfterIncreases(start, deviceId, readings[..j + 1], i + 1);
    assert readings[..j + 1][..i + 1] == readings[..i + 1];
    AfterInRange(start, deviceId, readings, i + 1);
    AfterInRange(start, deviceId, readings, j + 1);
    OrderEmbedding(After(start, deviceId, readings[..i + 1]), After(start, deviceId, readings[..j + 1]));
  }

  /** Two devices never issue the same stamp. */
  lemma DevicesNeverCollide(start: Clock, device: string, readings: seq<int>, i: nat,
                            start': Clock, device': string, readings': seq<int>, i': nat)
    requires InRange(start) && start.counter + |readings| < COUNTER_LIMIT
    requires InRange(start') && start'.counter + |readings'| < COUNTER_LIMIT
    requires forall k :: 0 <= k < |readings| ==> readings[k] < INT64_LIMIT
    requires forall k :: 0 <= k < |readings'| ==> readings'[k] < INT64_LIMIT
    requires i < |readings| && i' < |readings'| && device != device'
    ensures Stamps(start, device, readings)[i] != Stamps(start', device', readings')[i']
  {
    AfterInRange(start, device, readings, i + 1);
    AfterInRange(start', device', readings', i' + 1);
    IssuedClock(start, device, readings[..i + 1]);
    IssuedClock(start', device', readings'[..i' + 1]);
    OrderEmbedding(After(start, device, readings[..i + 1]), After(start', device', readings'[..i' + 1]));
  }

  /** The stateful issuer of the web client: `last` is the module variable. */
  class Issuer {
    var last: Clock

    constructor ()
      ensures last == Clock(0, 0, "")
    {
      last := Clock(0, 0, "");
    }

    /** Issues a stamp that sorts after every stamp issued before. */
    method Issue(deviceId: string, wallMs: int) returns (stamp: string)
      modifies this
      ensures last == Next(old(last), deviceId, wallMs)
      ensures stamp == Encode(last)
      ensures InRange(old(last)) && old(last).counter + 1 < COUNTER_LIMIT && wallMs < INT64_LIMIT
              ==> InRange(last) && Lex.Less(Encode(old(last)), stamp)
    {
      last := if wallMs <= last.wallMs
      then Clock(last.wallMs, last.counter + 1, deviceId)
      else Clock(wallMs, 0, deviceId);
      stamp := Encode(last);
      if InRange(old(last)) && InRange(last) {
        OrderEmbedding(old(last), last);
      }
    }
  }
}

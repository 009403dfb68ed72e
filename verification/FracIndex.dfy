/**
 Fractional indexing (server/internal/fracindex/fracindex.go; web/src/lib/fracindex.ts is the
 same loop in TypeScript): a position key strictly between two neighbours, an empty string
 standing for a missing neighbour.
 */
module FracIndex {
  import opened Lex
  import Seqs

  /** The alphabet 0-9, A-Z, a-z, in the order of its character codes. */
  const BASE: nat := 62

  function DigitValue(c: char): (v: int)
    ensures -1 <= v < BASE
  {
    if '0' <= c <= '9' then c as int - '0' as int
    else if 'A' <= c <= 'Z' then c as int - 'A' as int + 10
    else if 'a' <= c <= 'z' then c as int - 'a' as int + 36
    else -1
  }

  function Digit(v: nat): (c: char)
    requires v < BASE
    ensures DigitValue(c) == v
    ensures c == '0' <==> v == 0
  {
    if v < 10 then ('0' as int + v) as char
    else if v < 36 then ('A' as int + v - 10) as char
    else ('a' as int + v - 36) as char
  }

  /** A string over the alphabet. */
  predicate Key(s: string) {
    forall i :: 0 <= i < |s| ==> DigitValue(s[i]) >= 0
  }

  predicate AllZeros(s: string) {
    forall i :: 0 <= i < |s| ==> s[i] == '0'
  }

  /** b is a followed only by (at least one of) the minimum digit. */
  predicate ZeroExtension(a: string, b: string) {
    && |a| < |b|
    && b[..|a|] == a
    && AllZeros(b[|a|..])
  }

  predicate EndsInZero(s: string) {
    s != "" && s[|s| - 1] == '0'
  }

  /** The keys that are stored: non-empty, over the alphabet, not ending in the minimum digit. */
  predicate Position(s: string) {
    s != "" && Key(s) && !EndsInZero(s)
  }

  lemma DigitOrder(c: char, d: char)
    requires DigitValue(c) >= 0 && DigitValue(d) >= 0
    ensures c < d <==> DigitValue(c) < DigitValue(d)
    ensures c == d <==> DigitValue(c) == DigitValue(d)
    ensures c == Digit(DigitValue(c))
  {
  }

  // ---- the digit walk ----

  /** The digit of s at the front, or `none` once s is exhausted. */
  function FrontDigit(s: string, none: int): int {
    if s == "" then none else DigitValue(s[0])
  }

  function NextRest(s: string): (r: string)
    ensures Key(s) ==> Key(r)
    ensures s != "" ==> r == s[1..]
  {
    if s == "" then "" else s[1..]
  }

  /** What is left of b as a bound: nothing, once a digit of a below b's has been copied. */
  function NextBound(da: int, db: int, b: string): (r: string)
    ensures Key(b) ==> Key(r)
  {
    if da != db && da >= 0 then "" else NextRest(b)
  }

  /** The digit one turn produces: the shared digit, the middle of a gap, or the side that is still real. */
  function TurnDigit(da: int, db: int): (d: nat)
    requires -1 <= da < BASE && 0 <= db <= BASE
    ensures d < BASE
  {
    if da == db then da
    else if db - da > 1 then da + (db - da) / 2
    else if da >= 0 then da
    else db
  }

  /**
   The digits the walk produces for what is left of a and of b. A bound that no longer
   constrains the walk is the empty string, like one that has run out.
   */
  function Walk(a: string, b: string): (k: string)
    requires Key(a) && Key(b)
    ensures k != "" && Key(k)
    decreases |a| + |b|
  {
    var da, db := FrontDigit(a, -1), FrontDigit(b, BASE);
    var d := [Digit(TurnDigit(da, db))];
    if db - da > 1 then d else d + Walk(NextRest(a), NextBound(da, db, b))
  }

  /** The trailing-digit guard. */
  function Guard(k: string): string {
    if EndsInZero(k) then k + [Digit(BASE / 2)] else k
  }

  function Between(a: string, b: string): string
    requires Key(a) && Key(b)
  {
    Guard(Walk(a, b))
  }

  lemma GuardPrepend(c: char, k: string)
    requires k != ""
    ensures Guard([c] + k) == [c] + Guard(k)
  {
    if EndsInZero(k) {
      assert [c] + k + [Digit(BASE / 2)] == [c] + (k + [Digit(BASE / 2)]);
    }
  }

  /** One step of the walk, seen on the finished key. */
  lemma BetweenUnfold(a: string, b: string)
    requires Key(a) && Key(b)
    ensures var da, db := FrontDigit(a, -1), FrontDigit(b, BASE);
            Between(a, b) ==
            if da == db then [Digit(da)] + Between(a[1..], b[1..])
            else if db - da > 1 then Guard([Digit(da + (db - da) / 2)])
            else if da >= 0 then [Digit(da)] + Between(a[1..], "")
            else [Digit(db)] + Between("", b[1..])
  {
    var da, db := FrontDigit(a, -1), FrontDigit(b, BASE);
    if da == db {
      GuardPrepend(Digit(da), Walk(a[1..], b[1..]));
    } else if db - da <= 1 {
      if da >= 0 {
        GuardPrepend(Digit(da), Walk(a[1..], ""));
      } else {
        GuardPrepend(Digit(db), Walk("", b[1..]));
      }
    }
  }

  /** The result is a storable key for every pair of alphabet strings, ordered or not. */
  lemma BetweenIsPosition(a: string, b: string)
    requires Key(a) && Key(b)
    ensures Position(Between(a, b))
  {
  }

  lemma {:induction false} BetweenLength(a: string, b: string)
    requires Key(a) && Key(b)
    ensures |Between(a, b)| <= (if |a| > |b| then |a| else |b|) + 1
    decreases |a| + |b|
  {
    var da, db := FrontDigit(a, -1), FrontDigit(b, BASE);
    BetweenUnfold(a, b);
    if da == db {
      BetweenLength(a[1..], b[1..]);
    } else if db - da <= 1 {
      if da >= 0 {
        BetweenLength(a[1..], "");
      } else {
        BetweenLength("", b[1..]);
      }
    }
  }

  /** The result is above a for every pair of alphabet strings, ordered or not. */
  lemma {:induction false} BetweenAbove(a: string, b: string)
    requires Key(a) && Key(b)
    ensures Less(a, Between(a, b))
    decreases |a| + |b|
  {
    var da, db := FrontDigit(a, -1), FrontDigit(b, BASE);
    BetweenUnfold(a, b);
    if a != "" {
      DigitOrder(a[0], Between(a, b)[0]);
      if da == db {
        BetweenAbove(a[1..], b[1..]);
      } else if db - da <= 1 {
        BetweenAbove(a[1..], "");
      }
    }
  }

  lemma ZeroExtensionTail(a: string, b: string)
    requires a != "" && b != "" && a[0] == b[0]
    ensures ZeroExtension(a, b) <==> ZeroExtension(a[1..], b[1..])
  {
    var n := |a|;
    if n < |b| {
      assert b[..n] == [b[0]] + b[1..][..n - 1];
      assert a == [a[0]] + a[1..];
      assert b[n..] == b[1..][n - 1..];
    }
  }

  lemma ZeroExtensionOfNothing(b: string)
    requires b != "" && b[0] == '0'
    ensures ZeroExtension("", b) <==> b[1..] == "" || ZeroExtension("", b[1..])
  {
    if b[1..] != "" && ZeroExtension("", b[1..]) {
      forall i | 0 <= i < |b| ensures b[i] == '0' {
        if i > 0 {
          assert b[i] == b[1..][i - 1];
        }
      }
    }
    if ZeroExtension("", b) {
      assert b[0..] == b;
      forall i | 0 <= i < |b[1..]| ensures b[1..][i] == '0' {
        assert b[1..][i] == b[i + 1];
      }
    }
  }

  /** The result is below b exactly when a is below b and b is not a followed only by '0's. */
  lemma {:induction false} BetweenBelow(a: string, b: string)
    requires Key(a) && Key(b)
    ensures Less(Between(a, b), b) <==> Less(a, b) && !ZeroExtension(a, b)
    decreases |a| + |b|
  {
    var da, db := FrontDigit(a, -1), FrontDigit(b, BASE);
    BetweenUnfold(a, b);
    if b != "" {
      var k := Between(a, b);
      DigitOrder(k[0], b[0]);
      if a != "" {
        DigitOrder(a[0], b[0]);
      }
      if da == db {
        BetweenBelow(a[1..], b[1..]);
        ZeroExtensionTail(a, b);
      } else if db - da > 1 {
        assert !ZeroExtension(a, b) by {
          if a == "" {
            assert b[0..][0] == b[0] != '0';
          } else {
            assert |a| < |b| ==> b[..|a|][0] != a[0];
          }
        }
      } else if da >= 0 {
        assert |a| < |b| ==> b[..|a|][0] == b[0];
      } else {
        BetweenBelow("", b[1..]);
        ZeroExtensionOfNothing(b);
      }
    }
  }

  /**
   Exactness: for neighbours over the alphabet, an empty string meaning no neighbour, the
   result is a storable key above a, and it is below b if and only if a sorts before b and b is
   not a followed only by '0's.
   */
  lemma BetweenExact(a: string, b: string)
    requires Key(a) && Key(b)
    ensures var k := Between(a, b);
            && Position(k)
            && |k| <= (if |a| > |b| then |a| else |b|) + 1
            && Less(a, k)
            && (Less(k, b) <==> Less(a, b) && !ZeroExtension(a, b))
  {
    BetweenIsPosition(a, b);
    BetweenLength(a, b);
    BetweenAbove(a, b);
    BetweenBelow(a, b);
  }

  lemma {:induction false} AllZerosBelow(b: string, k: string)
    requires ZeroExtension("", b) && Less(k, b) && Key(k)
    ensures AllZeros(k)
  {
    assert b[0..][0] == '0';
    if k != "" {
      ZeroExtensionOfNothing(b);
      AllZerosBelow(b[1..], k[1..]);
      forall i | 0 <= i < |k| ensures k[i] == '0' {
        if i > 0 {
          assert k[i] == k[1..][i - 1];
        }
      }
    }
  }

  /** In the excluded case nothing was missed: no storable key lies strictly between. */
  lemma {:induction false} NothingBelowZeroExtension(a: string, b: string, k: string)
    requires ZeroExtension(a, b) && Less(a, k) && Less(k, b) && Key(k)
    ensures EndsInZero(k)
    decreases |b|
  {
    if a == "" {
      AllZerosBelow(b, k);
    } else {
      assert b[..|a|][0] == b[0];
      assert k[0] == a[0];
      ZeroExtensionTail(a, b);
      NothingBelowZeroExtension(a[1..], b[1..], k[1..]);
    }
  }

  /**
   Where the first digits leave a gap, the new key takes the middle of it: as much room remains below
   as above, give or take one digit. A missing lower key counts as -1, a missing upper key as 62.
   */
  lemma HalvesTheGap(a: string, b: string)
    requires Key(a) && Key(b)
    requires var lo, hi := if a == "" then -1 else DigitValue(a[0]), if b == "" then 62 else DigitValue(b[0]);
             hi - lo > 1
    ensures var lo, hi := if a == "" then -1 else DigitValue(a[0]), if b == "" then 62 else DigitValue(b[0]);
            var k := Between(a, b);
            && 0 <= hi - DigitValue(k[0]) - (DigitValue(k[0]) - lo) <= 1
            && (k == [k[0]] || (k[0] == '0' && |k| == 2 && DigitValue(k[1]) == 31))
  {
  }

  /** Storable neighbours always have room between them. */
  lemma BetweenPositions(a: string, b: string)
    requires a == "" || Position(a)
    requires b == "" || Position(b)
    requires a != "" && b != "" ==> Less(a, b)
    ensures Position(Between(a, b))
    ensures Less(a, Between(a, b))
    ensures b != "" ==> Less(Between(a, b), b)
  {
    BetweenExact(a, b);
    if |a| < |b| {
      assert b[|a|..][|b| - 1 - |a|] == b[|b| - 1] != '0';
    }
  }

  // ---- the loop ----

  /** What is left of s after i characters. */
  function Rest(s: string, i: nat): (r: string)
    ensures i < |s| ==> r != "" && r[0] == s[i]
    ensures i >= |s| ==> r == ""
    ensures NextRest(r) == if i < |s| then s[i + 1..] else ""
  {
    if i <= |s| then s[i..] else ""
  }

  /** The loop of KeyBetween: position, freed bound and growing result. */
  method WalkLoop(a: string, b: string) returns (result: string)
    requires Key(a) && Key(b)
    ensures result == Walk(a, b)
  {
    result := "";
    var i := 0;
    var bFree := false;
    ghost var ra, rb := a, b;  // what is left of a, and of b while it constrains the walk
    while true
      invariant ra == Rest(a, i) && rb == (if bFree then "" else Rest(b, i))
      invariant Key(ra) && Key(rb)
      invariant result + Walk(ra, rb) == Walk(a, b)
      decreases |ra| + |rb|
    {
      var da := if i < |a| then DigitValue(a[i]) else -1;
      var db := if !bFree && i < |b| then DigitValue(b[i]) else BASE;
      assert da == FrontDigit(ra, -1) && db == FrontDigit(rb, BASE);
      ghost var a', b' := NextRest(ra), NextBound(da, db, rb);
      var d := Digit(TurnDigit(da, db));
      if db - da > 1 {
        assert Walk(ra, rb) == [d];
        result := result + [d];
        break;
      }
      ghost var w := Walk(a', b');
      assert Walk(ra, rb) == [d] + w;
      Seqs.Associates(result, [d], w);
      result := result + [d];
      if da != db && da >= 0 {
        bFree := true;
      }
      i, ra, rb := i + 1, a', b';
    }
  }

  /** KeyBetween as the program computes it: the digits, then the trailing-digit guard. */
  method KeyBetween(a: string, b: string) returns (key: string)
    requires Key(a) && Key(b)
    ensures key == Between(a, b)
    ensures Position(key) && |key| <= (if |a| > |b| then |a| else |b|) + 1
    ensures Less(a, key)
    ensures Less(key, b) <==> Less(a, b) && !ZeroExtension(a, b)
  {
    key := WalkLoop(a, b);
    if key[|key| - 1] == '0' {
      key := key + [Digit(BASE / 2)];
    }
    BetweenExact(a, b);
  }
}

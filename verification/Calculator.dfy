/** The desk calculator (src/kernel/gui.cpp). */
module Calculator {
  type int64 = x: int | -0x8000_0000_0000_0000 <= x < 0x8000_0000_0000_0000

  const INT64_MIN: int64 := -0x8000_0000_0000_0000

  /** Two's complement arithmetic on 64 bits. */
  function Wrap(x: int): int64 { (x + 0x8000_0000_0000_0000) % 0x1_0000_0000_0000_0000 - 0x8000_0000_0000_0000 }

  function Abs(x: int): nat { if x >= 0 then x else 0 - x }

  /** How often b fits into a. */
  function Fits(a: nat, b: nat): nat
    requires b > 0
    decreases a
  {
    if a < b then 0 else 1 + Fits(a - b, b)
  }

  /** Division that truncates toward zero. */
  function Quot(a: int, b: int): int
    requires b != 0
  {
    var q: int := Fits(Abs(a), Abs(b));
    if (a < 0) == (b < 0) then q else -q
  }

  lemma {:induction false} FitsIsQuotient(a: nat, b: nat)
    requires b > 0
    ensures b * Fits(a, b) <= a < b * Fits(a, b) + b
  {
    if a >= b { FitsIsQuotient(a - b, b); }
  }

  /** The remainder is smaller than the divisor and has the sign of the dividend. */
  lemma QuotTruncates(a: int, b: int)
    requires b != 0
    ensures var r := a - b * Quot(a, b);
            (Abs(r) < Abs(b)) && (a >= 0 ==> r >= 0) && (a <= 0 ==> r <= 0)
  {
    FitsIsQuotient(Abs(a), Abs(b));
  }

  /** The four operations; division truncates, and by zero it gives 0. */
  lemma Arithmetic(a: int, b: int)
    ensures Apply('+', a, b) == a + b && Apply('-', a, b) == a - b && Apply('*', a, b) == a * b
    ensures b == 0 ==> Apply('/', a, b) == 0
    ensures forall op :: !IsOp(op) ==> Apply(op, a, b) == a
    ensures b != 0 ==>
      var r := a - b * Apply('/', a, b);
      (if r < 0 then -r else r) < (if b < 0 then -b else b) && (a >= 0 ==> r >= 0) && (a <= 0 ==> r <= 0)
  {
    if b != 0 { QuotTruncates(a, b); }
  }

  function Tenth(v: int): int { if v >= 0 then v / 10 else -(-v / 10) }

  /** The remainder that goes with Tenth has the sign of v. */
  function LastDigit(v: int): int { v - 10 * Tenth(v) }

  function Apply(op: char, a: int, b: int): int {
    if op == '+' then a + b
    else if op == '-' then a - b
    else if op == '*' then a * b
    else if op == '/' then (if b == 0 then 0 else Quot(a, b))
    else a
  }

  predicate IsDigit(c: char) { '0' <= c <= '9' }

  predicate IsOp(c: char) { c == '+' || c == '-' || c == '*' || c == '/' }

  function DigitChar(d: int): char
    requires -10 < d < 10
  {
    ('0' as int + d) as char
  }

  function DigitValue(c: char): int { c as int - '0' as int }

  // ---------------------------------------------------------------------
  // The display.
  // ---------------------------------------------------------------------

  /** The decimal digits of v, as repeated truncating division by ten yields them. */
  function Digits(v: int): string
    decreases if v >= 0 then v else -v
  {
    if v == 0 then "" else Digits(Tenth(v)) + [DigitChar(LastDigit(v))]
  }

  /** What the display shows for v. Negating the least integer leaves it as it is. */
  function Show(v: int64): string {
    var x: int := v;
    (if v < 0 then "-" else "") + (if v == 0 then "0" else Digits(if v < 0 then Wrap(0 - x) else v))
  }

  /** The value read from position i on, v being the value read before. */
  function ReadFrom(s: string, i: nat, v: int64): int64
    requires i <= |s|
    decreases |s| - i
  {
    if i < |s| && IsDigit(s[i]) then ReadFrom(s, i + 1, Wrap(v * 10 + DigitValue(s[i]))) else v
  }

  function Parse(s: string): int64 {
    if s != "" && s[0] == '-' then Wrap(0 - ReadFrom(s, 1, 0)) else ReadFrom(s, 0, 0)
  }

  /** The number that the first n of the digits ds denote. */
  function Value(ds: string, n: nat): nat
    requires n <= |ds| && forall i :: 0 <= i < |ds| ==> IsDigit(ds[i])
  {
    if n == 0 then 0 else 10 * Value(ds, n - 1) + DigitValue(ds[n - 1])
  }

  lemma {:induction false} DigitsAre(v: nat)
    ensures forall i :: 0 <= i < |Digits(v)| ==> IsDigit(Digits(v)[i])
    ensures v > 0 ==> Digits(v) != "" && Digits(v)[0] != '0'
  {
    if v > 0 { DigitsAre(v / 10); }
  }

  /** Digits of a negative number do not read as digits. */
  lemma {:induction false} NegativeDigits(v: int)
    requires v < 0
    ensures Digits(v) != "" && !IsDigit(Digits(v)[0])
    decreases -v
  {
    if Tenth(v) != 0 { NegativeDigits(Tenth(v)); }
  }

  /** At most k digits below 10^k. */
  lemma {:induction false} DigitsFit(v: int, k: nat)
    requires v < Pow10(k) && -v < Pow10(k)
    ensures |Digits(v)| <= k && '\0' !in Digits(v)
    decreases k
  {
    if v != 0 { DigitsFit(Tenth(v), k - 1); }
  }

  function Pow10(k: nat): nat { if k == 0 then 1 else 10 * Pow10(k - 1) }

  lemma DigitCount(v: int64)
    ensures |Digits(v)| <= 19 && '\0' !in Digits(v)
  {
    assert Pow10(5) == 100000;
    assert Pow10(10) == 10000000000;
    assert Pow10(15) == 1000000000000000;
    assert Pow10(19) == 10000000000000000000;
    DigitsFit(v, 19);
  }

  lemma ShowFits(v: int64)
    ensures 0 < |Show(v)| <= 20 && '\0' !in Show(v)
  {
    DigitCount(if v < 0 then Wrap(0 - v) else v);
  }

  /** The text t stands in s at position i. */
  predicate At(s: string, i: nat, t: string) {
    i + |t| <= |s| && forall k :: 0 <= k < |t| ==> s[i + k] == t[k]
  }

  lemma ReadStep(s: string, j: nat, v: int64)
    requires v > 0 && j < |s| && s[j] == DigitChar(v % 10)
    ensures ReadFrom(s, j, v / 10) == ReadFrom(s, j + 1, v)
  {
    assert Wrap(v / 10 * 10 + DigitValue(s[j])) == v;
  }

  lemma AtFront(s: string, i: nat, t: string, t0: string, c: char)
    requires At(s, i, t) && t == t0 + [c]
    ensures At(s, i, t0) && i + |t0| < |s| && s[i + |t0|] == c
  {
    assert s[i + |t0|] == t[|t0|];
    forall k | 0 <= k < |t0| ensures s[i + k] == t0[k] { assert t[k] == t0[k]; }
  }

  /** Reading over the digits of v yields v. */
  lemma {:induction false} ReadDigits(s: string, i: nat, v: int64, t: string)
    requires v >= 0 && t == Digits(v) && At(s, i, t)
    ensures ReadFrom(s, i, 0) == ReadFrom(s, i + |t|, v)
    decreases v
  {
    if v > 0 {
      var t0 := Digits(v / 10);
      AtFront(s, i, t, t0, DigitChar(v % 10));
      ReadDigits(s, i, v / 10, t0);
      ReadStep(s, i + |t0|, v);
    }
  }

  lemma ShowIs(v: int64, w: int64, t: string)
    requires w == Wrap(if v < 0 then 0 - v else v) && t == if w == 0 then "0" else Digits(w)
    ensures Show(v) == (if v < 0 then "-" else "") + t
  {}

  lemma ReadWhole(v: int64, s: string, i: nat, t: string)
    requires v >= 0 && t == Digits(v) && At(s, i, t) && i + |t| == |s|
    ensures ReadFrom(s, i, 0) == v
  {
    ReadDigits(s, i, v, t);
  }

  lemma ParsePositive(v: int64, s: string)
    requires v > 0 && s == Digits(v)
    ensures Parse(s) == v
  {
    DigitsAre(v);
    assert IsDigit(s[0]);
    ReadWhole(v, s, 0, s);
  }

  lemma ParseSigned(s: string, r: int64, v: int64)
    requires s != "" && s[0] == '-' && ReadFrom(s, 1, 0) == r && v == Wrap(0 - r)
    ensures Parse(s) == v
  {}

  lemma ParseNegative(w: int64, s: string, t: string)
    requires w > 0 && t == Digits(w) && s == "-" + t
    ensures Parse(s) == -w
  {
    assert |s| == 1 + |t| && s[0] == '-' && forall k :: 0 <= k < |t| ==> s[1 + k] == t[k];
    ReadWhole(w, s, 1, t);
    ParseSigned(s, w, -w);
  }

  lemma ParseNothing(s: string, t: string)
    requires t != "" && !IsDigit(t[0]) && s == "-" + t
    ensures Parse(s) == 0
  {
    assert s[0] == '-' && s[1] == t[0];
    ParseSigned(s, 0, 0);
  }

  lemma ParseLeast(v: int64, w: int64, s: string)
    requires v == INT64_MIN && w == v && s == "-" + Digits(w)
    ensures Parse(s) == 0
  {
    NegativeDigits(w);
    ParseNothing(s, Digits(w));
  }

  /** Reading the display back gives the number shown, for every number but the least. */
  lemma ParseShow(v: int64)
    ensures Parse(Show(v)) == v <==> v != INT64_MIN
  {
    if v == INT64_MIN {
      ShowIs(v, v, Digits(v));
      ParseLeast(v, v, Show(v));
    } else if v < 0 {
      ShowIs(v, -v, Digits(-v));
      ParseNegative(-v, Show(v), Digits(-v));
    } else if v > 0 {
      assert Show(v) == Digits(v);
      ParsePositive(v, Digits(v));
    } else {
      assert Show(v) == "0" && ReadFrom("0", 1, 0) == 0;
    }
  }

  /** Typing a digit after a shown number shows the longer number. */
  lemma AppendDigit(v: int64, c: char)
    requires v >= 0 && IsDigit(c) && 10 * v + DigitValue(c) < 0x8000_0000_0000_0000
    ensures Show(10 * v + DigitValue(c)) == if v == 0 then [c] else Show(v) + [c]
  {
    var w: int := 10 * v + DigitValue(c);
    assert Tenth(w) == v && LastDigit(w) == DigitValue(c) && DigitChar(DigitValue(c)) == c;
    if v == 0 { assert Digits(v) == "" && Digits(w) == if w == 0 then "" else [c]; }
  }

  /** Only zero shows as a single zero. */
  lemma ZeroShown(v: int64)
    requires v >= 0
    ensures |Show(v)| == 1 && Show(v)[0] == '0' <==> v == 0
  {
    DigitsAre(v);
  }

  // ---------------------------------------------------------------------
  // Keys.
  // ---------------------------------------------------------------------

  /** op is zero when no operation is pending. */
  datatype Calc = Calc(display: string, acc: int64, op: char, isFresh: bool)

  function Cleared(): Calc { Calc("0", 0, '\0', true) }

  function First(key: string): char { if key == "" then '\0' else key[0] }

  function Computed(c: Calc): int64 { Wrap(Apply(c.op, c.acc, Parse(c.display))) }

  function PressDigit(c: Calc, k: char): Calc {
    if c.isFresh then c.(display := [k], isFresh := false)
    else if |c.display| + 1 < 23 then
      c.(display := if |c.display| == 1 && c.display[0] == '0' then [k] else c.display + [k])
    else c
  }

  function PressOp(c: Calc, k: char): Calc {
    if c.op != '\0' && !c.isFresh then Calc(Show(Computed(c)), Computed(c), k, true)
    else Calc(c.display, Parse(c.display), k, true)
  }

  function PressEquals(c: Calc): Calc {
    if c.op != '\0' then Calc(Show(Computed(c)), Computed(c), '\0', true) else c
  }

  function Press(c: Calc, key: string): Calc {
    var k := First(key);
    if IsDigit(k) && |key| == 1 then PressDigit(c, k)
    else if IsOp(k) then PressOp(c, k)
    else if k == '=' then PressEquals(c)
    else if k == 'C' then Cleared()
    else c
  }

  /** "C" forgets everything: the display shows 0 and no operation is pending. */
  lemma ClearKey(c: Calc)
    ensures Press(c, "C") == Calc("0", 0, '\0', true) && Parse("0") == 0
  {
    assert ReadFrom("0", 1, 0) == 0 && ReadFrom("0", 0, 0) == ReadFrom("0", 1, 0);
  }

  /** A digit starts a new number, replaces a lone zero, or goes behind the others as long as
      there are fewer than 22; keys without a meaning change nothing. */
  lemma DigitKey(c: Calc, k: char)
    ensures '0' <= k <= '9' ==>
      Press(c, [k]) == c.(isFresh := false,
                          display := if c.isFresh || c.display == "0" then [k]
                                     else if |c.display| < 22 then c.display + [k] else c.display)
    ensures k !in "0123456789+-*/=C" ==> Press(c, [k]) == c
  {
    assert c.display == "0" <==> |c.display| == 1 && c.display[0] == '0';
    if '0' <= k <= '9' { DigitIsKey(k); }
    DigitInKeys(k);
  }

  /** An operator takes over the number on the display, after carrying out the pending operation
      when a new number was typed, and waits for the next number. */
  lemma OperatorKey(c: Calc, k: char)
    requires k in "+-*/"
    ensures var number := Parse(c.display);
            var result := if c.op == '\0' || c.isFresh then number else Wrap(Apply(c.op, c.acc, number));
            var text := if c.op == '\0' || c.isFresh then c.display else Show(result);
            Press(c, [k]) == Calc(text, result, k, true)
  {
    var ops := "+-*/";
    assert ops[0] == '+' && ops[1] == '-' && ops[2] == '*' && ops[3] == '/';
  }

  lemma DigitIsKey(k: char)
    requires '0' <= k <= '9'
    ensures IsDigit(k) && !IsOp(k)
  {}

  lemma DigitInKeys(k: char)
    ensures '0' <= k <= '9' || k in {'+', '-', '*', '/', '=', 'C'} ==> k in "0123456789+-*/=C"
  {
    var keys := "0123456789+-*/=C";
    if '0' <= k <= '9' { assert keys[k as int - '0' as int] == k; }
    assert keys[10] == '+' && keys[11] == '-' && keys[12] == '*' && keys[13] == '/' && keys[14] == '=' && keys[15] == 'C';
  }

  /** Of two operators pressed in a row the second counts, unless the first left the least
      integer, which the display cannot give back. */
  lemma LastOperatorWins(c: Calc, k1: char, k2: char)
    requires IsOp(k1) && IsOp(k2)
    ensures Press(Press(c, [k1]), [k2]) == Press(c, [k2]) <==>
            (c.op != '\0' && !c.isFresh ==> Computed(c) != INT64_MIN)
  {
    ParseShow(Computed(c));
  }

  // ---------------------------------------------------------------------
  // Whole calculations.
  // ---------------------------------------------------------------------

  predicate Operand(ds: string) {
    ds != "" && (forall i :: 0 <= i < |ds| ==> IsDigit(ds[i])) && Value(ds, |ds|) < 0x8000_0000_0000_0000
  }

  datatype Term = Term(op: char, digits: string) {
    predicate Ok() { IsOp(op) && Operand(digits) }

    function Number(): nat
      requires Ok()
    {
      Value(digits, |digits|)
    }
  }

  predicate TermsOk(ts: seq<Term>) { forall i :: 0 <= i < |ts| ==> ts[i].Ok() }

  /** The value of the first n operations, from left to right. */
  function Fold(a: int, ts: seq<Term>, n: nat): int
    requires TermsOk(ts) && n <= |ts|
  {
    if n == 0 then a else Apply(ts[n - 1].op, Fold(a, ts, n - 1), ts[n - 1].Number())
  }

  predicate InRange(x: int) { -0x8000_0000_0000_0000 <= x < 0x8000_0000_0000_0000 }

  ghost predicate NoOverflow(a: int, ts: seq<Term>)
    requires TermsOk(ts)
  {
    forall n :: 0 <= n <= |ts| ==> InRange(Fold(a, ts, n))
  }

  function TypeAll(c: Calc, ds: string, n: nat): Calc
    requires n <= |ds|
  {
    if n == 0 then c else Press(TypeAll(c, ds, n - 1), [ds[n - 1]])
  }

  /** The keys of the first n operations: each operator, then its operand. */
  function Enter(c: Calc, ts: seq<Term>, n: nat): Calc
    requires n <= |ts|
  {
    if n == 0 then c
    else TypeAll(Press(Enter(c, ts, n - 1), [ts[n - 1].op]), ts[n - 1].digits, |ts[n - 1].digits|)
  }

  lemma {:induction false} ValueGrows(ds: string, n: nat)
    requires n <= |ds| && forall i :: 0 <= i < |ds| ==> IsDigit(ds[i])
    ensures Value(ds, n) <= Value(ds, |ds|)
    decreases |ds| - n
  {
    if n < |ds| { ValueGrows(ds, n + 1); }
  }

  lemma DigitAdded(c: Calc, v: int64, d: char)
    requires !c.isFresh && v >= 0 && c.display == Show(v) && IsDigit(d) && 10 * v + DigitValue(d) < 0x8000_0000_0000_0000
    ensures Press(c, [d]) == c.(display := Show(10 * v + DigitValue(d)))
  {
    AppendDigit(v, d);
    ZeroShown(v);
    ShowFits(v);
  }

  lemma FirstDigit(c: Calc, d: char)
    requires c.isFresh && IsDigit(d)
    ensures Press(c, [d]) == Calc(Show(DigitValue(d)), c.acc, c.op, false)
  {
    AppendDigit(0, d);
  }

  lemma ValueBound(ds: string, n: nat)
    requires Operand(ds) && n <= |ds|
    ensures Value(ds, n) < 0x8000_0000_0000_0000
  {
    ValueGrows(ds, n);
  }

  /** Typing an operand, leading zeros included, shows its value. */
  lemma {:induction false} Typed(c: Calc, ds: string, n: nat, v: int64)
    requires Operand(ds) && 0 < n <= |ds| && c.isFresh && v == Value(ds, n)
    ensures TypeAll(c, ds, n) == Calc(Show(v), c.acc, c.op, false)
  {
    if n == 1 {
      assert TypeAll(c, ds, 0) == c && Value(ds, 0) == 0;
      FirstDigit(c, ds[0]);
    } else {
      ValueBound(ds, n - 1);
      var u: int64 := Value(ds, n - 1);
      Typed(c, ds, n - 1, u);
      DigitAdded(Calc(Show(u), c.acc, c.op, false), u, ds[n - 1]);
    }
  }

  lemma ComputedIs(c: Calc, b: int64, r: int64)
    requires Parse(c.display) == b && Apply(c.op, c.acc, b) == r
    ensures Computed(c) == r
  {
    assert Wrap(r) == r;
  }

  /** An operator, or "=", after an operand performs the pending operation. */
  lemma Performs(c: Calc, b: int64, r: int64, k: char)
    requires c.op != '\0' && !c.isFresh && b >= 0 && c.display == Show(b) && Apply(c.op, c.acc, b) == r
    requires IsOp(k) || k == '='
    ensures Press(c, [k]) == Calc(Show(r), r, if k == '=' then '\0' else k, true)
  {
    ParseShow(b);
    ComputedIs(c, b, r);
  }

  /** What the calculator holds after an operator and an operand were entered. */
  lemma {:induction false} Entered(c: Calc, a: int64, ts: seq<Term>, n: nat, acc: int)
    requires c.op == '\0' && Parse(c.display) == a && TermsOk(ts) && NoOverflow(a, ts) && 0 < n <= |ts|
    requires acc == Fold(a, ts, n - 1)
    ensures InRange(acc)
    ensures Enter(c, ts, n) == Calc(Show(ts[n - 1].Number()), acc, ts[n - 1].op, false)
  {
    var t := ts[n - 1];
    assert t.Ok() && InRange(Fold(a, ts, n - 1));
    var before := Enter(c, ts, n - 1);
    if n > 1 {
      var acc0 := Fold(a, ts, n - 2);
      Entered(c, a, ts, n - 1, acc0);
      assert ts[n - 2].Ok();
      Performs(before, ts[n - 2].Number(), acc, t.op);
    }
    Typed(Press(before, [t.op]), t.digits, |t.digits|, t.Number());
  }

  /** Operators and operands followed by "=" leave the left-to-right value in the
      accumulator and on the display, starting from whatever number the display held. */
  lemma Continues(c: Calc, a: int64, ts: seq<Term>, v: int)
    requires c.op == '\0' && Parse(c.display) == a && TermsOk(ts) && NoOverflow(a, ts) && ts != []
    requires v == Fold(a, ts, |ts|)
    ensures InRange(v) && Press(Enter(c, ts, |ts|), "=") == Calc(Show(v), v, '\0', true)
  {
    var acc := Fold(a, ts, |ts| - 1);
    Entered(c, a, ts, |ts|, acc);
    assert ts[|ts| - 1].Ok() && InRange(Fold(a, ts, |ts|));
    Performs(Enter(c, ts, |ts|), ts[|ts| - 1].Number(), v, '=');
  }

  lemma Started(n0: string, v0: int64)
    requires Operand(n0) && v0 == Value(n0, |n0|)
    ensures TypeAll(Cleared(), n0, |n0|) == Calc(Show(v0), 0, '\0', false) && Parse(Show(v0)) == v0
  {
    Typed(Cleared(), n0, |n0|, v0);
    ParseShow(v0);
  }

  /** A whole calculation from the cleared state, with truncating division and x / 0 = 0. */
  lemma LeftToRight(n0: string, ts: seq<Term>, v: int, c: Calc)
    requires Operand(n0) && TermsOk(ts) && NoOverflow(Value(n0, |n0|), ts)
    requires v == Fold(Value(n0, |n0|), ts, |ts|)
    requires c == Press(Enter(TypeAll(Cleared(), n0, |n0|), ts, |ts|), "=")
    ensures InRange(v) && c.display == Show(v) && c.op == '\0' && (ts != [] ==> c.acc == v && c.isFresh)
    ensures Parse(c.display) == v <==> v != INT64_MIN
  {
    var v0 := Value(n0, |n0|);
    var c0 := TypeAll(Cleared(), n0, |n0|);
    Started(n0, v0);
    if ts == [] {
      assert Enter(c0, ts, 0) == c0 && Fold(v0, ts, 0) == v0;
    } else {
      Continues(c0, v0, ts, v);
    }
    ParseShow(v);
  }

  // ---------------------------------------------------------------------
  // The calculator's variables.
  // ---------------------------------------------------------------------

  /** The digits t still to be written are t0 followed by the first n characters of tmp, reversed. */
  ghost predicate Pending(t: string, t0: string, tmp: seq<char>, n: nat) {
    n <= |tmp| && |t| == |t0| + n && (forall k :: 0 <= k < |t0| ==> t[k] == t0[k]) &&
    forall k :: 0 <= k < n ==> tmp[k] == t[|t| - 1 - k]
  }

  lemma PendingStep(t: string, x: int, tmp: seq<char>, n: nat)
    requires x != 0 && Pending(t, Digits(x), tmp, n) && n < |tmp|
    ensures Pending(t, Digits(Tenth(x)), tmp[n := DigitChar(LastDigit(x))], n + 1)
  {
    assert t[|t| - 1 - n] == Digits(x)[|Digits(x)| - 1];
  }

  class Machine {
    const display: array<char>
    var acc: int64
    var op: char
    var isFresh: bool

    /** The buffer holds the text, zero-terminated. */
    ghost predicate Shown(t: string) reads display {
      display.Length == 24 && |t| < 24 && display[|t|] == '\0' &&
      forall i :: 0 <= i < |t| ==> display[i] == t[i] && t[i] != '\0'
    }

    ghost predicate Is(c: Calc) reads this, display {
      Shown(c.display) && |c.display| <= 22 && acc == c.acc && op == c.op && isFresh == c.isFresh
    }

    constructor ()
      ensures Is(Cleared()) && fresh(display)
    {
      display := new char[24](i => if i == 0 then '0' else '\0');
      acc, op, isFresh := 0, '\0', true;
    }

    /** The digits of v, last one first; n of them. */
    method SplitDigits(v: int64, tmp: array<char>) returns (n: nat)
      requires tmp.Length == 24 && v != 0
      modifies tmp
      ensures n == |Digits(v)| <= 20 && forall k :: 0 <= k < n ==> tmp[k] == Digits(v)[n - 1 - k]
    {
      DigitCount(v);
      var x: int := v;
      n := 0;
      while x != 0
        invariant Pending(Digits(v), Digits(x), tmp[..], n)
        decreases if x >= 0 then x else -x
      {
        PendingStep(Digits(v), x, tmp[..], n);
        tmp[n] := DigitChar(LastDigit(x));
        x, n := Tenth(x), n + 1;
      }
    }

    /** The sign, then the n characters of tmp in reverse. */
    method WriteOut(neg: bool, tmp: array<char>, n: nat, ghost t: string)
      requires display.Length == 24 && tmp.Length == 24 && tmp != display && n == |t| <= 19
      requires forall k :: 0 <= k < n ==> tmp[k] == t[n - 1 - k] && t[k] != '\0'
      modifies display
      ensures Shown((if neg then "-" else "") + t)
    {
      var oi, ti := 0, n;
      if neg { display[0] := '-'; oi := 1; }
      ghost var start := oi;
      while ti > 0 && oi + 1 < 24
        invariant 0 <= ti <= n && oi == start + n - ti && (neg ==> display[0] == '-')
        invariant forall k :: 0 <= k < n - ti ==> display[start + k] == t[k]
      {
        ti := ti - 1;
        display[oi] := tmp[ti];
        oi := oi + 1;
      }
      display[oi] := '\0';
    }

    /** calc_set_display_from_int. */
    method SetDisplay(v: int64)
      requires display.Length == 24
      modifies display
      ensures Shown(Show(v)) && |Show(v)| <= 20
    {
      var x: int := v;
      var w: int64 := if v < 0 then Wrap(0 - x) else v;
      var tmp := new char[24];
      var ti := 1;
      if w == 0 { tmp[0] := '0'; } else { ti := SplitDigits(w, tmp); }
      ghost var t := if w == 0 then "0" else Digits(w);
      DigitCount(w);
      ShowIs(v, w, t);
      WriteOut(v < 0, tmp, ti, t);
    }

    /** calc_parse_display. */
    method ParseDisplay(ghost t: string) returns (v: int64)
      requires Shown(t)
      ensures v == Parse(t)
    {
      var i := 0;
      var neg := false;
      if display[0] == '-' { neg := true; i := 1; }
      ghost var start := i;
      v := 0;
      while '0' <= display[i] <= '9'
        invariant start <= i <= |t| && ReadFrom(t, start, 0) == ReadFrom(t, i, v)
        decreases |t| - i
      {
        var x: int := v * 10 + DigitValue(display[i]);
        v := Wrap(x);
        i := i + 1;
      }
      if neg {
        var x: int := v;
        v := Wrap(0 - x);
      }
    }

    method StrLen(ghost t: string) returns (n: nat)
      requires Shown(t)
      ensures n == |t|
    {
      n := 0;
      while display[n] != '\0'
        invariant n <= |t|
        decreases |t| - n
      {
        n := n + 1;
      }
    }

    method OnDigit(k: char, ghost c: Calc)
      requires Is(c) && IsDigit(k)
      modifies this, display
      ensures Is(PressDigit(c, k))
    {
      if isFresh {
        display[0] := k;
        display[1] := '\0';
        isFresh := false;
      } else {
        var n := StrLen(c.display);
        if n + 1 < 23 {
          if n == 1 && display[0] == '0' {
            display[0] := k;
          } else {
            display[n] := k;
            display[n + 1] := '\0';
          }
        }
      }
    }

    /** The pending operation on the accumulator and the display. */
    method Compute(ghost c: Calc) returns (r: int64)
      requires Is(c)
      ensures r == Computed(c)
    {
      var b := ParseDisplay(c.display);
      r := Wrap(Apply(op, acc, b));
    }

    method OnOperator(k: char, ghost c: Calc)
      requires Is(c) && IsOp(k)
      modifies this, display
      ensures Is(PressOp(c, k))
    {
      if op != '\0' && !isFresh {
        acc := Compute(c);
        SetDisplay(acc);
      } else {
        acc := ParseDisplay(c.display);
      }
      op, isFresh := k, true;
    }

    method OnEquals(ghost c: Calc)
      requires Is(c)
      modifies this, display
      ensures Is(PressEquals(c))
    {
      if op != '\0' {
        var r := Compute(c);
        SetDisplay(r);
        acc, op, isFresh := r, '\0', true;
      }
    }

    /** calc_press. */
    method OnKey(key: string, ghost c: Calc)
      requires Is(c)
      modifies this, display
      ensures Is(Press(c, key))
    {
      var k := First(key);
      if IsDigit(k) && |key| == 1 { OnDigit(k, c); }
      else if IsOp(k) { OnOperator(k, c); }
      else if k == '=' { OnEquals(c); }
      else if k == 'C' {
        display[0] := '0';
        display[1] := '\0';
        acc, op, isFresh := 0, '\0', true;
      }
    }
  }
}

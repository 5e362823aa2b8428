/** itoa and strtol: numbers written as text and read back. */
module NumberText {
  const INT_MIN := -0x8000_0000
  const INT_MAX := 0x7FFF_FFFF
  const WRAP := 0x1_0000_0000
  const END := '\0'

  function Neg(n: int): int { 0 - n }

  predicate IsInt(n: int) { INT_MIN <= n <= INT_MAX }

  predicate IsBase(base: nat) { 2 <= base <= 36 }

  // ---- writing ----

  function Digit(d: nat): char
    requires d < 36
  {
    if d < 10 then ('0' as int + d) as char else (55 + d) as char
  }

  function Quotient(num: nat, base: nat): (q: nat)
    requires IsBase(base)
    ensures num >= base ==> 0 < q < num
    ensures num < base ==> q == 0
  {
    QuotientShrinks(num, base);
    num / base
  }

  function Remainder(num: nat, base: nat): (r: nat)
    requires IsBase(base)
    ensures r < base && num == Quotient(num, base) * base + r
    ensures num < base ==> r == num
  {
    num % base
  }

  lemma QuotientShrinks(num: nat, base: nat)
    requires base >= 2
    ensures 0 <= num / base && (num >= base ==> 0 < num / base < num)
    ensures num < base ==> num / base == 0
  {
    var q, r := num / base, num % base;
    assert num == q * base + r;
    if q <= 0 {
      assert q * base <= 0;
    } else {
      assert q * base >= q * 2;
    }
  }

  /** The digits of a number, the most significant first. */
  function Digits(num: nat, base: nat): (s: string)
    requires IsBase(base)
    ensures |s| > 0
  {
    if num < base then [Digit(num)] else Digits(Quotient(num, base), base) + [Digit(Remainder(num, base))]
  }

  /** The conversion to unsigned int. */
  function Unsigned(n: int): nat
    requires IsInt(n)
  {
    if n < 0 then n + WRAP else n
  }

  /** What itoa writes: base 10 is signed, all other bases show the bits. */
  function Text(n: int, base: nat): (s: string)
    requires IsInt(n) && IsBase(base)
    ensures |s| > 0
  {
    if base == 10 && n < 0 then ['-'] + Digits(-n, 10) else Digits(Unsigned(n), base)
  }

  // ---- reading ----

  predicate IsSpace(c: char) {
    c == ' ' || c == '\t' || c == '\r' || c == '\n' || c == 11 as char || c == 12 as char
  }

  /** The value of a digit in any base, -1 for what is none. */
  function Value(c: char): (v: int)
    ensures -1 <= v < 36
  {
    if '0' <= c <= '9' then c as int - '0' as int
    else if 'A' <= c <= 'Z' then c as int - 'A' as int + 10
    else if 'a' <= c <= 'z' then c as int - 'a' as int + 10
    else -1
  }

  predicate IsDigit(c: char, base: nat) { c != END && 0 <= Value(c) < base }

  /** The buffer s has its terminator at or behind i. */
  ghost predicate Terminated(s: string, i: nat) { exists k :: i <= k < |s| && s[k] == END }

  function SkipSpace(s: string, i: nat): (r: nat)
    requires Terminated(s, i)
    ensures i <= r < |s| && Terminated(s, r) && !IsSpace(s[r])
    decreases |s| - i
  {
    if IsSpace(s[i]) then SkipSpace(s, i + 1) else i
  }

  /** What was read so far, negated, and where. */
  datatype Reading = Reading(value: int, end: nat)

  function ReadDigits(s: string, base: nat, i: nat, value: int): (r: Reading)
    requires Terminated(s, i)
    ensures i <= r.end < |s| && !IsDigit(s[r.end], base)
    decreases |s| - i
  {
    if IsDigit(s[i], base) then ReadDigits(s, base, i + 1, value * base - Value(s[i])) else Reading(value, i)
  }

  /** No step of the computation leaves the range of an int. */
  ghost predicate StaysInRange(s: string, base: nat, i: nat, value: int)
    requires Terminated(s, i)
    decreases |s| - i
  {
    && IsInt(value)
    && (IsDigit(s[i], base) ==>
          IsInt(value * base) && StaysInRange(s, base, i + 1, value * base - Value(s[i])))
  }

  predicate HasSign(c: char) { c == '-' || c == '+' }

  /** Where the digits start, behind spaces and a sign. */
  function Start(s: string): (i: nat)
    requires Terminated(s, 0)
    ensures Terminated(s, i)
  {
    var i := SkipSpace(s, 0);
    if HasSign(s[i]) then i + 1 else i
  }

  function Negative(s: string): bool
    requires Terminated(s, 0)
  {
    s[SkipSpace(s, 0)] == '-'
  }

  /** The base, guessed if it is 0, and where the number itself starts. */
  function Guess(s: string, i: nat, base: nat): (r: (nat, nat))
    requires Terminated(s, i)
    ensures Terminated(s, r.1) && r.1 >= i
  {
    if base != 0 then (base, i)
    else if s[i] != '0' then (10, i)
    else if s[i + 1] == 'X' || s[i + 1] == 'x' then (16, i + 2)
    else (8, i + 1)
  }

  /** strtol: the number is gathered negated, so that also the lowest one fits. */
  function Strtol(s: string, base: nat): Reading
    requires Terminated(s, 0)
  {
    var (b, i) := Guess(s, Start(s), base);
    var r := ReadDigits(s, b, i, 0);
    Reading(if Negative(s) then r.value else -r.value, r.end)
  }

  /** strtol computes without overflow. */
  ghost predicate NoOverflow(s: string, base: nat)
    requires Terminated(s, 0)
  {
    var (b, i) := Guess(s, Start(s), base);
    StaysInRange(s, b, i, 0) && IsInt(Strtol(s, base).value)
  }

  // ---- reading back what was written ----

  lemma DigitHasItsValue(d: nat, base: nat)
    requires d < base && IsBase(base)
    ensures Value(Digit(d)) == d && IsDigit(Digit(d), base)
    ensures !IsSpace(Digit(d)) && !HasSign(Digit(d))
  {
  }

  lemma {:induction false} DigitsAreDigits(num: nat, base: nat, k: nat)
    requires IsBase(base) && k < |Digits(num, base)|
    ensures IsDigit(Digits(num, base)[k], base) && !IsSpace(Digits(num, base)[k]) && !HasSign(Digits(num, base)[k])
  {
    hide Quotient, Remainder;
    if num < base {
      DigitHasItsValue(num, base);
    } else if k < |Digits(Quotient(num, base), base)| {
      DigitsAreDigits(Quotient(num, base), base, k);
    } else {
      DigitHasItsValue(Remainder(num, base), base);
    }
  }

  /** Buffer s holds text t from i on, and more behind it. */
  ghost predicate Holds(s: string, i: nat, t: string) {
    i + |t| <= |s| && s[i..i + |t|] == t
  }

  lemma HoldsFirst(s: string, i: nat, t: string, u: string)
    requires Holds(s, i, t + u)
    ensures Holds(s, i, t) && Holds(s, i + |t|, u)
  {
    assert s[i..i + |t|] == (t + u)[..|t|];
    assert s[i + |t|..i + |t| + |u|] == (t + u)[|t|..];
  }

  lemma StillTerminated(s: string, i: nat, t: string)
    requires Holds(s, i, t) && Terminated(s, i + |t|)
    ensures Terminated(s, i)
  {
  }

  /** One more digit. */
  lemma ReadDigit(s: string, base: nat, i: nat, d: nat, value: int)
    requires IsBase(base) && d < base && i < |s| && s[i] == Digit(d) && Terminated(s, i + 1)
    ensures Terminated(s, i)
    ensures ReadDigits(s, base, i, value) == ReadDigits(s, base, i + 1, value * base - d)
    ensures StaysInRange(s, base, i, value)
       <==> IsInt(value) && IsInt(value * base) && StaysInRange(s, base, i + 1, value * base - d)
  {
    DigitHasItsValue(d, base);
  }

  lemma InRangeAtStart(s: string, base: nat, i: nat, value: int)
    requires Terminated(s, i) && StaysInRange(s, base, i, value)
    ensures IsInt(value)
  {
  }

  lemma AppendDigit(q: nat, base: nat, d: nat, num: nat)
    requires num == q * base + d && IsBase(base)
    ensures Neg(q) * base - d == Neg(num) && Neg(num) <= Neg(q) * base <= Neg(q) <= 0
  {
    assert Neg(q) * base == Neg(q * base);
    assert q * base >= q;
  }

  lemma NegOfZero()
    ensures Neg(0) == 0
  {
  }

  lemma ReadLastDigit(s: string, base: nat, j: nat, q: nat, d: nat, num: nat)
    requires IsBase(base) && d < base && j < |s| && s[j] == Digit(d) && Terminated(s, j + 1)
    requires num == q * base + d
    ensures Terminated(s, j)
    ensures ReadDigits(s, base, j, Neg(q)) == ReadDigits(s, base, j + 1, Neg(num))
    ensures StaysInRange(s, base, j, Neg(q)) <==> StaysInRange(s, base, j + 1, Neg(num))
  {
    hide ReadDigits, StaysInRange, Digit, Terminated;
    AppendDigit(q, base, d, num);
    ReadDigit(s, base, j, d, Neg(q));
    if StaysInRange(s, base, j + 1, Neg(num)) {
      InRangeAtStart(s, base, j + 1, Neg(num));
    }
  }

  /** Reading the digits of a number from the value 0 on arrives behind them with the number, negated; and it stays in
      range exactly if the number, negated, is in range and the rest stays so. */
  lemma {:induction false} ReadBack(s: string, base: nat, i: nat, num: nat)
    requires IsBase(base) && Holds(s, i, Digits(num, base)) && Terminated(s, i + |Digits(num, base)|)
    ensures Terminated(s, i)
    ensures ReadDigits(s, base, i, 0) == ReadDigits(s, base, i + |Digits(num, base)|, Neg(num))
    ensures StaysInRange(s, base, i, 0) <==> StaysInRange(s, base, i + |Digits(num, base)|, Neg(num))
    decreases num
  {
    hide Quotient, Remainder, ReadDigits, StaysInRange, Digit, Terminated, Neg;
    var t := Digits(num, base);
    StillTerminated(s, i, t);
    if num < base {
      assert s[i] == t[0];
      ReadLastDigit(s, base, i, 0, num, num);
      NegOfZero();
    } else {
      var q, d := Quotient(num, base), Remainder(num, base);
      HoldsFirst(s, i, Digits(q, base), [Digit(d)]);
      var j := i + |Digits(q, base)|;
      assert s[j] == Digit(d);
      ReadLastDigit(s, base, j, q, d, num);
      ReadBack(s, base, i, q);
    }
  }

  /** strtol reads what itoa wrote: the same number, up to the terminator. No intermediate value overflows for any
      int in base 10, the lowest included, and for those that are not negative in every base. */
  lemma RoundTrip(n: int, base: nat, rest: string)
    requires IsInt(n) && IsBase(base) && (base == 10 || n >= 0)
    ensures var s := Text(n, base) + [END] + rest;
            Terminated(s, 0) && Strtol(s, base) == Reading(n, |Text(n, base)|) && NoOverflow(s, base)
  {
    var t := Text(n, base);
    var s := t + [END] + rest;
    assert s[|t|] == END;
    var neg := base == 10 && n < 0;
    var ds := Digits(if neg then -n else n, base);
    var i := if neg then 1 else 0;
    assert s[i..i + |ds|] == ds;
    DigitsAreDigits(if neg then -n else n, base, 0);
    assert s[i] == ds[0];
    assert SkipSpace(s, 0) == 0;
    assert Start(s) == i;
    ReadBack(s, base, i, if neg then -n else n);
  }

  /** For negative numbers in other bases strtol does overflow, whatever comes behind the text. */
  lemma NegativeOverflows(n: int, base: nat, rest: string)
    requires IsInt(n) && IsBase(base) && base != 10 && n < 0
    ensures var s := Text(n, base) + [END] + rest; Terminated(s, 0) && !NoOverflow(s, base)
  {
    var t := Text(n, base);
    var s := t + [END] + rest;
    assert s[|t|] == END;
    assert s[0..|t|] == t;
    DigitsAreDigits(Unsigned(n), base, 0);
    assert s[0] == t[0];
    assert SkipSpace(s, 0) == 0 && Start(s) == 0;
    ReadBack(s, base, 0, Unsigned(n));
  }

  /** Any int fits into 32 digits, so that a buffer of 35 characters is large enough. */
  lemma {:induction false} DigitsFit(num: nat, base: nat, bits: nat)
    requires IsBase(base) && num < Power(bits) && bits > 0
    ensures |Digits(num, base)| <= bits
    decreases bits
  {
    hide Quotient, Remainder;
    if num >= base {
      var q := Quotient(num, base);
      assert num == q * base + Remainder(num, base);
      assert q * 2 <= q * base;
      DigitsFit(q, base, bits - 1);
    }
  }

  function Power(bits: nat): nat { if bits == 0 then 1 else 2 * Power(bits - 1) }

  lemma TextFits(n: int, base: nat)
    requires IsInt(n) && IsBase(base)
    ensures |Text(n, base)| + 1 <= 34
  {
    assert Power(8) == 256;
    assert Power(16) == 0x1_0000 by { assert Power(12) == 4096; }
    assert Power(32) == WRAP by {
      assert Power(20) == 0x10_0000;
      assert Power(24) == 0x100_0000;
      assert Power(28) == 0x1000_0000;
    }
    DigitsFit(if base == 10 && n < 0 then -n else Unsigned(n), base, 32);
  }

  // ---- the functions as they run ----

  function Reversed(s: string): (r: string)
    ensures |r| == |s|
  {
    if s == [] then [] else Reversed(s[1..]) + [s[0]]
  }

  lemma {:induction false} ReversedAt(s: string, k: nat)
    requires k < |s|
    ensures Reversed(s)[k] == s[|s| - 1 - k]
  {
    if k < |s| - 1 {
      ReversedAt(s[1..], k);
    }
  }

  /** strlen. */
  method Strlen(a: array<char>, from: nat) returns (n: nat)
    requires Terminated(a[..], from)
    ensures from + n < a.Length && a[from + n] == END && END !in a[from..from + n]
  {
    n := 0;
    while a[from + n] != END
      invariant Terminated(a[..], from + n) && END !in a[from..from + n]
      decreases a.Length - n
    {
      n := n + 1;
    }
  }

  lemma HoldsAt(s: string, i: nat, t: string, k: nat)
    requires Holds(s, i, t) && k < |t|
    ensures i + k < |s| && s[i + k] == t[k]
  {
    assert s[i..i + |t|][k] == t[k];
  }

  lemma NoEarlierEnd(s: string, i: nat, t: string, n: nat)
    requires Holds(s, i, t) && END !in t && n < |t|
    ensures i + n < |s| && s[i + n] != END
  {
    HoldsAt(s, i, t, n);
    assert t[n] in t;
  }

  lemma NoEndWithin(s: string, i: nat, n: nat, k: nat)
    requires i + n <= |s| && END !in s[i..i + n] && k < n
    ensures s[i + k] != END
  {
    assert s[i + k] == s[i..i + n][k];
    assert s[i..i + n][k] in s[i..i + n];
  }

  lemma TextLength(s: string, i: nat, t: string, n: nat)
    requires Holds(s, i, t + [END]) && END !in t
    requires i + n < |s| && s[i + n] == END && END !in s[i..i + n]
    ensures n == |t|
  {
    TextAt(s, i, t);
    if n < |t| {
      NoEarlierEnd(s, i, t, n);
    } else if n > |t| {
      NoEndWithin(s, i, n, |t|);
    }
  }

  lemma TextAt(s: string, i: nat, t: string)
    requires Holds(s, i, t + [END])
    ensures Holds(s, i, t) && i + |t| < |s| && s[i + |t|] == END && Terminated(s, i)
  {
    HoldsFirst(s, i, t, [END]);
    HoldsAt(s, i, t + [END], |t|);
  }

  /** The loop of strreverse. */
  method SwapEnds(a: array<char>, from: nat, n: nat)
    requires from + n <= a.Length
    modifies a
    ensures forall k :: from <= k < from + n ==> a[k] == old(a[2 * from + n - 1 - k])
    ensures a[..from] == old(a[..from]) && a[from + n..] == old(a[from + n..])
  {
    var start, end := from, from + n - 1;
    ghost var sum := start + end;
    while start < end
      invariant from <= start <= end + 1 && start + end == sum
      invariant forall k :: from <= k < start ==> a[k] == old(a[sum - k])
      invariant forall k :: end < k < from + n ==> a[k] == old(a[sum - k])
      invariant forall k :: 0 <= k < from || start <= k <= end || from + n <= k < a.Length ==> a[k] == old(a[k])
    {
      a[start], a[end] := a[end], a[start];
      start, end := start + 1, end - 1;
    }
  }

  /** strreverse of the text that starts at from. */
  method Strreverse(a: array<char>, from: nat, ghost t: string)
    requires Holds(a[..], from, t + [END]) && END !in t
    modifies a
    ensures a[..] == old(a[..from]) + Reversed(t) + old(a[from + |t|..])
  {
    hide Reversed;
    TextAt(a[..], from, t);
    var n := Strlen(a, from);
    TextLength(a[..], from, t, n);
    ghost var was := a[..];
    SwapEnds(a, from, n);
    ReversedInPlace(was, a[..], from, t);
  }

  lemma MiddleReversed(was: string, now: string, from: nat, t: string, j: nat)
    requires from + |t| <= |was| == |now| && was[from..from + |t|] == t && j < |t|
    requires forall k :: from <= k < from + |t| ==> now[k] == was[2 * from + |t| - 1 - k]
    ensures now[from..from + |t|][j] == Reversed(t)[j]
  {
    hide Reversed;
    ReversedAt(t, j);
    assert was[from..from + |t|][|t| - 1 - j] == was[from + |t| - 1 - j];
    assert now[from + j] == was[2 * from + |t| - 1 - (from + j)];
  }

  lemma ReversedInPlace(was: string, now: string, from: nat, t: string)
    requires from + |t| <= |was| == |now|
    requires was[from..from + |t|] == t
    requires forall k :: from <= k < from + |t| ==> now[k] == was[2 * from + |t| - 1 - k]
    requires now[..from] == was[..from] && now[from + |t|..] == was[from + |t|..]
    ensures now == was[..from] + Reversed(t) + was[from + |t|..]
  {
    hide Reversed;
    var mid := now[from..from + |t|];
    assert mid == Reversed(t) by {
      forall j: nat | j < |t| ensures mid[j] == Reversed(t)[j] {
        MiddleReversed(was, now, from, t, j);
      }
    }
    Reassemble(now, from, from + |t|);
  }

  lemma Reassemble(s: string, from: nat, to: nat)
    requires from <= to <= |s|
    ensures s == s[..from] + s[from..to] + s[to..]
  {
  }

  /** What the loop of itoa has still to write, and what it wrote, backwards. */
  ghost predicate Written(num: nat, base: nat, left: nat, done: string)
    requires IsBase(base)
  {
    Digits(num, base) == (if left == 0 && done != [] then [] else Digits(left, base)) + Reversed(done)
  }

  lemma WriteOne(num: nat, base: nat, left: nat, done: string)
    requires IsBase(base) && Written(num, base, left, done) && (left > 0 || done == [])
    ensures Written(num, base, Quotient(left, base), done + [Digit(Remainder(left, base))])
  {
    var d := Digit(Remainder(left, base));
    ReversedAppend(done, d);
  }

  lemma {:induction false} ReversedAppend(s: string, c: char)
    ensures Reversed(s + [c]) == [c] + Reversed(s)
  {
    if s != [] {
      assert (s + [c])[1..] == s[1..] + [c];
      ReversedAppend(s[1..], c);
    }
  }

  lemma {:induction false} ReversedTwice(s: string)
    ensures Reversed(Reversed(s)) == s
  {
    if s != [] {
      ReversedTwice(s[1..]);
      ReversedAppend(Reversed(s[1..]), s[0]);
    }
  }

  lemma {:induction false} NoEndInDigits(num: nat, base: nat)
    requires IsBase(base)
    ensures END !in Digits(num, base)
  {
    if END in Digits(num, base) {
      var k :| 0 <= k < |Digits(num, base)| && Digits(num, base)[k] == END;
      DigitsAreDigits(num, base, k);
    }
  }

  /** The do loop of itoa: the digits, the least significant first. */
  method WriteBackwards(all: nat, a: array<char>, from: nat, base: nat) returns (p: nat)
    requires IsBase(base) && a.Length > from + |Digits(all, base)|
    modifies a
    ensures p == from + |Digits(all, base)|
    ensures a[..] == old(a[..from]) + Reversed(Digits(all, base)) + old(a[p..])
  {
    hide Quotient, Remainder, Digits;
    var num := all;
    p := from;
    ghost var done: string := [];
    while true
      invariant from <= p && p == from + |done| && Written(all, base, num, done)
      invariant |done| < |Digits(all, base)| && (num > 0 || done == [])
      invariant a[..] == old(a[..from]) + done + old(a[p..])
      decreases num, |Digits(all, base)| - |done|
    {
      var rem := Remainder(num, base);
      WriteOne(all, base, num, done);
      a[p] := Digit(rem);
      done := done + [Digit(rem)];
      p := p + 1;
      num := Quotient(num, base);
      WrittenLength(all, base, num, done);
      if num == 0 {
        break;
      }
    }
    ReversedTwice(done);
  }

  lemma WrittenLength(num: nat, base: nat, left: nat, done: string)
    requires IsBase(base) && Written(num, base, left, done)
    ensures |done| + (if left == 0 && done != [] then 0 else 1) <= |Digits(num, base)|
    ensures left == 0 && done != [] ==> Digits(num, base) == Reversed(done)
  {
  }

  /** itoa. -n of the lowest int wraps around to itself, and becomes positive as it is converted to unsigned. */
  method Itoa(n: int, a: array<char>, base: nat)
    requires IsInt(n) && IsBase(base) && a.Length > |Text(n, base)|
    modifies a
    ensures a[..] == Text(n, base) + [END] + old(a[|Text(n, base)| + 1..])
  {
    hide Digits, Reversed;
    var p, m, neg := 0, n, false;
    if base == 10 && n < 0 {
      a[0] := '-';
      p := 1;
      m := if n == INT_MIN then n else -n;
      neg := true;
    }
    WriteDigits(Unsigned(m), a, p, base);
  }

  lemma Terminate(before: string, t: string, behind: string, s: string)
    requires s == before + t + behind && behind != []
    ensures var r := s[|before| + |t| := END];
            && Holds(r, |before|, t + [END]) && r[..|before|] == before
            && r[|before| + |t|..] == [END] + behind[1..]
  {
    var r := s[|before| + |t| := END];
    assert r == before + (t + [END]) + behind[1..];
  }

  lemma Regroup(s: string, t: string, u: string, v: string)
    ensures s + t + (u + v) == s + t + u + v
  {
  }

  /** The digits written backwards, terminated, and put in order. */
  method WriteDigits(num: nat, a: array<char>, from: nat, base: nat)
    requires IsBase(base) && a.Length > from + |Digits(num, base)|
    modifies a
    ensures a[..] == old(a[..from]) + Digits(num, base) + [END] + old(a[from + |Digits(num, base)| + 1..])
  {
    hide Digits, Reversed;
    ghost var ds := Digits(num, base);
    NoEndInDigits(num, base);
    ReversedTwice(ds);
    NotInReversed(ds, END);
    var p := WriteBackwards(num, a, from, base);
    ghost var before, behind := old(a[..from]), old(a[p..]);
    Terminate(before, Reversed(ds), behind, a[..]);
    a[p] := END;
    Strreverse(a, from, Reversed(ds));
    assert a[..] == before + ds + ([END] + behind[1..]);
    assert behind[1..] == old(a[p + 1..]);
    Regroup(before, ds, [END], behind[1..]);
  }

  lemma {:induction false} NotInReversed(s: string, c: char)
    requires c !in s
    ensures c !in Reversed(s)
  {
    if s != [] {
      NotInReversed(s[1..], c);
    }
  }

  /** The digit at the start of the loop of strtol, -1 if it is none. */
  method DigitValue(c: char) returns (v: int)
    ensures v == Value(c)
  {
    v := -1;
    if '0' <= c <= '9' {
      v := c as int - '0' as int;
    } else if 'A' <= c <= 'Z' {
      v := c as int - 'A' as int + 10;
    } else if 'a' <= c <= 'z' {
      v := c as int - 'a' as int + 10;
    }
  }

  /** The loop of strtol. */
  method ParseDigits(s: string, base: nat, from: nat) returns (value: int, end: nat)
    requires Terminated(s, from)
    ensures Reading(value, end) == ReadDigits(s, base, from, 0)
  {
    hide Value;
    value, end := 0, from;
    while s[end] != END
      invariant Terminated(s, end) && ReadDigits(s, base, from, 0) == ReadDigits(s, base, end, value)
      decreases |s| - end
    {
      var v := DigitValue(s[end]);
      if v < 0 || v >= base {
        break;
      }
      value := value * base - v;
      end := end + 1;
    }
  }

  /** strtol. */
  method ParseInt(s: string, base: nat) returns (value: int, end: nat)
    requires Terminated(s, 0) && (base == 0 || IsBase(base))
    ensures Reading(value, end) == Strtol(s, base)
  {
    hide ReadDigits;
    var p := 0;
    while IsSpace(s[p])
      invariant Terminated(s, p) && SkipSpace(s, 0) == SkipSpace(s, p)
      decreases |s| - p
    {
      p := p + 1;
    }
    var sign := -1;
    if s[p] == '-' {
      sign := 1;
      p := p + 1;
    } else if s[p] == '+' {
      p := p + 1;
    }
    var b := base;
    if b == 0 {
      if s[p] != '0' {
        b := 10;
      } else {
        p := p + 1;
        if s[p] == 'X' || s[p] == 'x' {
          p := p + 1;
          b := 16;
        } else {
          b := 8;
        }
      }
    }
    value, end := ParseDigits(s, b, p);
    value := value * sign;
  }
}

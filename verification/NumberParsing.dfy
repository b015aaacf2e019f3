/** `strtol` and `atoi`, and the proof that they invert the usual ways of writing a number down. */
module NumberParsing {
  import opened CStrings

  // ---------- Digits ----------

  const NO_DIGIT: nat := 99

  function DigitOf(c: char): nat {
    if '0' <= c <= '9' then (c - '0') as nat
    else if 'a' <= c <= 'f' then (c - 'a') as nat + 10
    else if 'A' <= c <= 'F' then (c - 'A') as nat + 10
    else NO_DIGIT
  }

  /** A digit of the base; whatever the base, letters past 'f' are none. */
  predicate IsDigit(c: char, base: int) {
    DigitOf(c) != NO_DIGIT && DigitOf(c) < base
  }

  /** The digits of a base, with the characters written out. */
  lemma DigitRanges(c: char, base: int)
    ensures DigitOf(c) != NO_DIGIT <==> '0' <= c <= '9' || 'a' <= c <= 'f' || 'A' <= c <= 'F'
    ensures IsDigit(c, base) <==>
              || ('0' <= c <= '9' && (c - '0') as int < base)
              || ('a' <= c <= 'f' && (c - 'a') as int + 10 < base)
              || ('A' <= c <= 'F' && (c - 'A') as int + 10 < base)
  {
  }

  predicate AllDigits(ds: string, base: int) {
    forall i :: 0 <= i < |ds| ==> IsDigit(ds[i], base)
  }

  /** The number a digit string denotes, most significant digit first. */
  function Value(ds: string, base: nat): nat {
    if ds == [] then 0 else Value(ds[..|ds| - 1], base) * base + DigitOf(ds[|ds| - 1])
  }

  // ---------- Reading ----------

  function Skip(s: CString, i: nat, blanks: set<char>): (j: nat)
    requires i <= |s|
    ensures i <= j <= |s|
    ensures forall k :: i <= k < j ==> s[k] in blanks
    ensures j < |s| ==> s[j] !in blanks
    decreases |s| - i
  {
    if i < |s| && s[i] in blanks then Skip(s, i + 1, blanks) else i
  }

  /** The end of the run of digits that starts at `i`. */
  function DigitsEnd(s: CString, i: nat, base: int): (j: nat)
    requires i <= |s|
    ensures i <= j <= |s|
    ensures AllDigits(s[i..j], base)
    ensures j < |s| ==> !IsDigit(s[j], base)
    decreases |s| - i
  {
    if i < |s| && IsDigit(s[i], base) then
      var j := DigitsEnd(s, i + 1, base);
      assert s[i..j] == [s[i]] + s[i + 1..j];
      j
    else i
  }

  /** The end of the digits is the first position whose character is outside the ranges, or whose value reaches the
      base. */
  lemma EndIsFirst(s: CString, i: nat, base: int)
    requires i <= |s|
    ensures var j := DigitsEnd(s, i, base);
            && i <= j <= |s|
            && (forall k :: i <= k < j ==>
                  || ('0' <= s[k] <= '9' && (s[k] - '0') as int < base)
                  || ('a' <= s[k] <= 'f' && (s[k] - 'a') as int + 10 < base)
                  || ('A' <= s[k] <= 'F' && (s[k] - 'A') as int + 10 < base))
            && (j < |s| ==>
                  && ('0' <= s[j] <= '9' ==> (s[j] - '0') as int >= base)
                  && ('a' <= s[j] <= 'f' ==> (s[j] - 'a') as int + 10 >= base)
                  && ('A' <= s[j] <= 'F' ==> (s[j] - 'A') as int + 10 >= base))
  {
    var j := DigitsEnd(s, i, base);
    forall k | i <= k < j ensures IsDigit(s[k], base) {
      assert s[k] == s[i..j][k - i];
    }
  }

  /** What precedes the digits: whether a minus sign was read, the base in force, and where the digits start. */
  datatype Lead = Lead(negative: bool, base: int, start: nat)

  /** The positions after the blanks and after an optional sign. */
  function SignEnd(s: CString, i: nat): (j: nat)
    requires i <= |s|
    ensures i <= j <= |s|
  {
    if CharAt(s, i) == '-' || CharAt(s, i) == '+' then i + 1 else i
  }

  function StrtolLead(s: CString, base: int): (l: Lead)
    ensures l.start <= |s|
  {
    var i := Skip(s, 0, {' ', '\t'});
    var negative, j := CharAt(s, i) == '-', SignEnd(s, i);
    if base != 0 then Lead(negative, base, j)
    else if CharAt(s, j) != '0' then Lead(negative, 10, j)
    else if CharAt(s, j + 1) == 'x' || CharAt(s, j + 1) == 'X' then Lead(negative, 16, j + 2)
    else Lead(negative, 8, j + 1)
  }

  function AtoiLead(s: CString): (l: Lead)
    ensures l.start <= |s|
  {
    var i := Skip(s, 0, {' '});
    Lead(CharAt(s, i) == '-', 10, SignEnd(s, i))
  }

  /** How any text splits into blanks, at most one sign, and the rest. */
  ghost predicate Splits(s: string, lead: string, sign: string, rest: string, blanks: set<char>) {
    && s == lead + sign + rest
    && AllIn(lead, blanks) && sign in {"", "-", "+"}
    && (sign == "" && rest != "" ==> rest[0] !in blanks && rest[0] != '-' && rest[0] != '+')
  }

  lemma SplitExists(s: CString, blanks: set<char>) returns (lead: string, sign: string, rest: string)
    requires '-' !in blanks && '+' !in blanks
    ensures Splits(s, lead, sign, rest, blanks)
  {
    var i := Skip(s, 0, blanks);
    var j := SignEnd(s, i);
    lead, sign, rest := s[..i], s[i..j], s[j..];
    assert forall k :: 0 <= k < i ==> s[..i][k] == s[k];
    assert j > i ==> sign == [s[i]];
  }

  /** What `strtol` makes of the text before the digits, for every text and base: it skips spaces and tabs and one sign,
      and with base 0 takes "0x" or "0X" for base 16 and "0" for base 8. */
  lemma StrtolLeadSplits(s: CString, lead: string, sign: string, rest: string, base: int)
    requires Splits(s, lead, sign, rest, {' ', '\t'})
    ensures var l, at := StrtolLead(s, base), |lead| + |sign|;
            && l.negative == (sign == "-")
            && (base != 0 ==> l.base == base && l.start == at)
            && (base == 0 ==>
                  if "0x" <= rest || "0X" <= rest then l.base == 16 && l.start == at + 2
                  else if "0" <= rest then l.base == 8 && l.start == at + 1
                  else l.base == 10 && l.start == at)
  {
    SplitAt(s, lead, sign, rest, {' ', '\t'});
    assert rest != "" ==> rest[0] == s[|lead| + |sign|];
  }

  /** The same for `atoi`, which skips spaces only and always reads decimal digits. */
  lemma AtoiLeadSplits(s: CString, lead: string, sign: string, rest: string)
    requires Splits(s, lead, sign, rest, {' '})
    ensures AtoiLead(s) == Lead(sign == "-", 10, |lead| + |sign|)
  {
    SplitAt(s, lead, sign, rest, {' '});
  }

  lemma SplitAt(s: CString, lead: string, sign: string, rest: string, blanks: set<char>)
    requires Splits(s, lead, sign, rest, blanks) && '\0' !in blanks && '-' !in blanks && '+' !in blanks
    ensures Skip(s, 0, blanks) == |lead|
    ensures CharAt(s, |lead|) == '-' <==> sign == "-"
    ensures SignEnd(s, |lead|) == |lead| + |sign|
    ensures forall k :: |lead| + |sign| <= k ==> CharAt(s, k) == if k < |s| then rest[k - (|lead| + |sign|)] else '\0'
  {
    assert CharAt(s, |lead|) == if sign != "" then sign[0] else if rest != "" then rest[0] else '\0';
    SkipsLeading(lead, s, 0, blanks);
  }

  /** A base that is not positive has no digits to denote anything. */
  function Number(ds: string, base: int): nat {
    if base <= 0 then 0 else Value(ds, base)
  }

  function Magnitude(s: CString, l: Lead): nat
    requires l.start <= |s|
  {
    Number(s[l.start..DigitsEnd(s, l.start, l.base)], l.base)
  }

  function Signed(negative: bool, v: int): int {
    if negative then -v else v
  }

  // ---------- The loops ----------

  const LONG_MAX: nat := 0x7fff_ffff

  /** `int` and `long` of the 32-bit build. What C does when a result exceeds it is undefined. */
  newtype Long = x: int | -0x8000_0000 <= x <= LONG_MAX

  lemma AtLeastFactor(v: nat, base: nat)
    requires base > 0
    ensures v * base >= v
  {
    assert v * base == v + v * (base - 1);
  }

  lemma {:induction false} ValuePrefix(ds: string, k: nat, base: nat)
    requires k <= |ds| && base > 0
    ensures Value(ds[..k], base) <= Value(ds, base)
    decreases |ds|
  {
    if k < |ds| {
      var t := ds[..|ds| - 1];
      ValuePrefix(t, k, base);
      assert t[..k] == ds[..k];
      AtLeastFactor(Value(t, base), base);
    } else {
      assert ds[..k] == ds;
    }
  }

  /** Some intermediate result overflows exactly when the whole magnitude does. */
  lemma OverflowsInPrefix(ds: string, base: nat)
    requires base > 0
    ensures (exists k :: 0 <= k <= |ds| && Value(ds[..k], base) > LONG_MAX) <==> Value(ds, base) > LONG_MAX
  {
    assert ds[..|ds|] == ds;
    forall k | 0 <= k <= |ds| ensures Value(ds[..k], base) <= Value(ds, base) {
      ValuePrefix(ds, k, base);
    }
  }

  method SkipBlanks(s: CString, blanks: set<char>) returns (i: nat)
    requires '\0' !in blanks
    ensures i == Skip(s, 0, blanks)
  {
    i := 0;
    while CharAt(s, i) in blanks
      invariant i <= |s| && Skip(s, 0, blanks) == Skip(s, i, blanks)
      decreases |s| - i
    {
      i := i + 1;
    }
  }

  /** `overflow` reports that the digit loop leaves the range of `long`, which C does not define. */
  method Strtol(s: CString, base: Long) returns (value: Long, end: nat, overflow: bool)
    ensures var l := StrtolLead(s, base as int);
            && (overflow <==> Magnitude(s, l) > 0x7fff_ffff)
            && (!overflow ==>
                  value as int == Signed(l.negative, Magnitude(s, l)) && end == DigitsEnd(s, l.start, l.base))
            && (!overflow && end < |s| ==>
                  && ('0' <= s[end] <= '9' ==> (s[end] - '0') as int >= l.base)
                  && ('a' <= s[end] <= 'f' ==> (s[end] - 'a') as int + 10 >= l.base)
                  && ('A' <= s[end] <= 'F' ==> (s[end] - 'A') as int + 10 >= l.base))
  {
    var negative, b := false, base;
    var i := SkipBlanks(s, {' ', '\t'});
    if CharAt(s, i) == '-' {
      negative := true;
      i := i + 1;
    } else if CharAt(s, i) == '+' {
      i := i + 1;
    }
    assert negative == (CharAt(s, Skip(s, 0, {' ', '\t'})) == '-') && i == SignEnd(s, Skip(s, 0, {' ', '\t'}));
    if b == 0 {
      if CharAt(s, i) == '0' && (CharAt(s, i + 1) == 'x' || CharAt(s, i + 1) == 'X') {
        b := 16;
        i := i + 2;
      } else if CharAt(s, i) == '0' {
        b := 8;
        i := i + 1;
      } else {
        b := 10;
      }
    }
    assert StrtolLead(s, base as int) == Lead(negative, b as int, i);
    var result: Long;
    result, end, overflow := Accumulate(s, i, b);
    EndIsFirst(s, i, b as int);
    value := if negative then -result else result;
  }

  /** The digit loop: it stops at the first character that is not a digit of the base, or at an overflow. */
  method Accumulate(s: CString, start: nat, base: Long) returns (result: Long, i: nat, overflow: bool)
    requires start <= |s|
    ensures var j := DigitsEnd(s, start, base as int);
            && (overflow <==> Number(s[start..j], base as int) > LONG_MAX)
            && (!overflow ==> i == j && result as int == Number(s[start..j], base as int))
    ensures result >= 0
  {
    ghost var j := DigitsEnd(s, start, base as int);
    ghost var ds := s[start..j];
    result, i, overflow := 0, start, false;
    while CharAt(s, i) != '\0'
      invariant start <= i <= j && DigitsEnd(s, i, base as int) == j
      invariant result >= 0 && result as int == Number(ds[..i - start], base as int)
      decreases |s| - i
    {
      var digit := DigitOf(CharAt(s, i));
      if digit == NO_DIGIT || digit >= base as int { break; }
      ghost var k := i - start;
      assert ds[..k + 1][..k] == ds[..k] && ds[..k + 1][k] == s[i];
      ValuePrefix(ds, k + 1, base as int);
      var next := result as int * base as int + digit;
      assert next == Value(ds[..k + 1], base as int);
      if next > LONG_MAX { return 0, i, true; }
      result := next as Long;
      i := i + 1;
    }
    assert ds[..j - start] == ds;
  }

  /** Its digit loop is the one of `strtol` for base 10. */
  method Atoi(s: CString) returns (value: Long, overflow: bool)
    ensures var start, end := AtoiLead(s).start, DigitsEnd(s, AtoiLead(s).start, 10);
            && (forall k :: start <= k < end ==> '0' <= s[k] <= '9')
            && (end < |s| ==> !('0' <= s[end] <= '9'))
    ensures overflow <==> Magnitude(s, AtoiLead(s)) > 0x7fff_ffff
    ensures !overflow ==> value as int == Signed(AtoiLead(s).negative, Magnitude(s, AtoiLead(s)))
  {
    var sign: Long := 1;
    var i := SkipBlanks(s, {' '});
    if CharAt(s, i) == '-' {
      sign := -1;
      i := i + 1;
    } else if CharAt(s, i) == '+' {
      i := i + 1;
    }
    assert AtoiLead(s) == Lead(sign == -1, 10, i);
    EndIsFirst(s, i, 10);
    var result, _, over := Accumulate(s, i, 10);
    overflow := over;
    value := result * sign;
  }

  // ---------- Writing ----------

  function Digit(d: nat, upper: bool): (c: char)
    requires d < 16
    ensures DigitOf(c) == d && c !in {' ', '\t', '-', '+', '\0', 'x', 'X'}
    ensures c == '0' <==> d == 0
  {
    if d < 10 then '0' + d as char
    else if upper then 'A' + (d - 10) as char
    else 'a' + (d - 10) as char
  }

  lemma Euclid(v: nat, base: nat)
    requires 1 < base <= v
    ensures 0 < v / base < v && v / base * base + v % base == v
  {
    var q, r := v / base, v % base;
    assert q * base + r == v;
    Doubles(q, base);
  }

  lemma Doubles(q: nat, base: nat)
    requires base > 1
    ensures q * base >= 2 * q && (q == 0 ==> q * base == 0)
  {
    assert q * base == 2 * q + q * (base - 2);
  }

  function Render(v: nat, base: nat, upper: bool): (ds: string)
    requires 2 <= base <= 16
    ensures ds != [] && AllDigits(ds, base)
  {
    if v < base then [Digit(v, upper)]
    else
      Euclid(v, base);
      Render(v / base, base, upper) + [Digit(v % base, upper)]
  }

  /** No leading zeros, and nothing that could be taken for a blank or a sign. */
  lemma {:induction false} RenderStart(v: nat, base: nat, upper: bool)
    requires 2 <= base <= 16
    ensures var c := Render(v, base, upper)[0];
            (c == '0' <==> v == 0) && c !in {' ', '\t', '-', '+'}
  {
    if v >= base {
      Euclid(v, base);
      RenderStart(v / base, base, upper);
      assert Render(v, base, upper)[0] == Render(v / base, base, upper)[0];
    }
  }

  lemma ValueSnoc(ds: string, c: char, base: nat)
    ensures Value(ds + [c], base) == Value(ds, base) * base + DigitOf(c)
  {
    assert (ds + [c])[..|ds|] == ds;
  }

  lemma {:induction false} RenderDenotes(v: nat, base: nat, upper: bool)
    requires 2 <= base <= 16
    ensures Value(Render(v, base, upper), base) == v
  {
    if v < base {
      assert [Digit(v, upper)] == [] + [Digit(v, upper)];
      ValueSnoc([], Digit(v, upper), base);
    } else {
      var q, d := v / base, v % base;
      Euclid(v, base);
      RenderDenotes(q, base, upper);
      var ds, c := Render(q, base, upper), Digit(d, upper);
      assert Render(v, base, upper) == ds + [c];
      ValueSnoc(ds, c, base);
    }
  }

  function Sign(v: int, plus: bool): string {
    if v < 0 then "-" else if plus then "+" else ""
  }

  function Abs(v: int): nat {
    if v < 0 then -v else v
  }

  // ---------- Reading back ----------

  predicate AllIn(s: string, blanks: set<char>) {
    forall i :: 0 <= i < |s| ==> s[i] in blanks
  }

  lemma {:induction false} SkipsLeading(lead: string, s: CString, i: nat, blanks: set<char>)
    requires i <= |lead| && lead <= s && AllIn(lead, blanks) && CharAt(s, |lead|) !in blanks
    ensures Skip(s, i, blanks) == |lead|
    decreases |lead| - i
  {
    if i < |lead| {
      SkipsLeading(lead, s, i + 1, blanks);
    }
  }

  lemma {:induction false} DigitsEndAt(s: CString, i: nat, j: nat, base: int)
    requires i <= j <= |s| && AllDigits(s[i..j], base) && !IsDigit(CharAt(s, j), base)
    ensures DigitsEnd(s, i, base) == j
    decreases j - i
  {
    if i < j {
      assert s[i] == s[i..j][0];
      assert s[i + 1..j] == s[i..j][1..];
      DigitsEndAt(s, i + 1, j, base);
    }
  }

  /** Digits of the base that run up to a character that is not one. */
  ghost predicate DigitRun(ds: string, base: int, rest: string) {
    && AllDigits(ds, base)
    && (rest == "" || !IsDigit(rest[0], base))
  }

  /** After blanks, a sign and a prefix, `strtol` reads exactly the digits that follow. */
  lemma ReadsDigits(s: CString, lead: string, ds: string, rest: string, l: Lead)
    requires s == lead + ds + rest && l.start == |lead| && l.base > 0
    requires DigitRun(ds, l.base, rest)
    ensures DigitsEnd(s, l.start, l.base) == |lead| + |ds|
    ensures Magnitude(s, l) == Value(ds, l.base)
  {
    var j := |lead| + |ds|;
    assert s[|lead|..j] == ds;
    assert CharAt(s, j) == if rest == "" then '\0' else rest[0];
    DigitsEndAt(s, |lead|, j, l.base);
  }

  lemma ReadsLead(s: CString, lead: string, sign: string, rest: string, blanks: set<char>)
    requires s == lead + sign + rest && AllIn(lead, blanks)
    requires blanks <= {' ', '\t'}
    requires sign in {"", "-", "+"}
    requires rest != "" && rest[0] !in {' ', '\t', '-', '+'}
    ensures Skip(s, 0, blanks) == |lead|
    ensures CharAt(s, |lead|) == '-' <==> sign == "-"
    ensures SignEnd(s, |lead|) == |lead + sign|
    ensures forall k :: |lead + sign| <= k ==> CharAt(s, k) == if k < |s| then rest[k - |lead + sign|] else '\0'
  {
    assert lead <= s;
    assert CharAt(s, |lead|) == if sign == "" then rest[0] else sign[0];
    SkipsLeading(lead, s, 0, blanks);
  }

  lemma SignedAbs(v: int)
    ensures Signed(v < 0, Abs(v)) == v
  {
  }

  /** `strtol` with an explicit base inverts rendering in that base. */
  lemma StrtolInvertsRender(s: CString, lead: string, v: int, plus: bool, base: nat, upper: bool, rest: string)
    requires 2 <= base <= 16 && AllIn(lead, {' ', '\t'}) && (rest == "" || !IsDigit(rest[0], base))
    requires s == lead + Sign(v, plus) + Render(Abs(v), base, upper) + rest
    ensures var l := StrtolLead(s, base);
            && Signed(l.negative, Magnitude(s, l)) == v
            && DigitsEnd(s, l.start, l.base) == |s| - |rest|
  {
    var ds, sign := Render(Abs(v), base, upper), Sign(v, plus);
    RenderStart(Abs(v), base, upper);
    var l := Lead(v < 0, base, |lead + sign|);
    assert StrtolLead(s, base) == l by {
      assert s == lead + sign + (ds + rest);
      ReadsLead(s, lead, sign, ds + rest, {' ', '\t'});
    }
    ReadsDigits(s, lead + sign, ds, rest, l);
    RenderDenotes(Abs(v), base, upper);
    SignedAbs(v);
  }

  datatype Notation = Hexadecimal(x: char) | Octal | Decimal

  function BaseOf(n: Notation): nat {
    match n case Hexadecimal(_) => 16 case Octal => 8 case Decimal => 10
  }

  function Prefix(n: Notation): string {
    match n case Hexadecimal(x) => ['0', x] case Octal => "0" case Decimal => ""
  }

  /** `strtol` with base 0 finds the base from the prefix: "0x" hexadecimal, "0" octal, otherwise decimal. A decimal
      zero must not run into an 'x'; it is then read as octal. */
  lemma StrtolDetectsBase(s: CString, lead: string, v: int, plus: bool, n: Notation, upper: bool, rest: string)
    requires n.Hexadecimal? ==> n.x in {'x', 'X'}
    requires n.Decimal? && v == 0 ==> rest == "" || rest[0] !in {'x', 'X'}
    requires AllIn(lead, {' ', '\t'}) && (rest == "" || !IsDigit(rest[0], BaseOf(n)))
    requires s == lead + Sign(v, plus) + Prefix(n) + Render(Abs(v), BaseOf(n), upper) + rest
    ensures var l := StrtolLead(s, 0);
            && l.base == (if n.Decimal? && v == 0 then 8 else BaseOf(n))
            && Signed(l.negative, Magnitude(s, l)) == v
            && DigitsEnd(s, l.start, l.base) == |s| - |rest|
  {
    var ds, sign := Render(Abs(v), BaseOf(n), upper), Sign(v, plus);
    if n.Decimal? && v == 0 {
      assert ds == "0";
      ZeroInBase0(s, lead, sign, rest);
    } else {
      RenderStart(Abs(v), BaseOf(n), upper);
      var l := Lead(v < 0, BaseOf(n), |lead + sign + Prefix(n)|);
      assert StrtolLead(s, 0) == l by {
        DetectsBase(s, lead, sign, n, ds, rest);
      }
      ReadsDigits(s, lead + sign + Prefix(n), ds, rest, l);
      RenderDenotes(Abs(v), BaseOf(n), upper);
      SignedAbs(v);
    }
  }

  /** A zero digit with base 0 is read alone, as the value 0, exactly when neither an octal digit nor an 'x' follows. */
  lemma ZeroInBase0(s: CString, lead: string, sign: string, rest: string)
    requires AllIn(lead, {' ', '\t'}) && sign in {"", "-", "+"}
    requires s == lead + sign + "0" + rest
    ensures var l := StrtolLead(s, 0);
            && (DigitsEnd(s, l.start, l.base) == |s| - |rest|
                <==> rest == "" || (rest[0] !in {'x', 'X'} && !IsDigit(rest[0], 8)))
            && (DigitsEnd(s, l.start, l.base) == |s| - |rest| ==> l.base == 8 && Magnitude(s, l) == 0)
  {
    var l := StrtolLead(s, 0);
    ZeroLead(s, lead, sign, rest);
    NoDigitsHere(s, l.start, l.base);
  }

  lemma ZeroLead(s: CString, lead: string, sign: string, rest: string)
    requires AllIn(lead, {' ', '\t'}) && sign in {"", "-", "+"}
    requires s == lead + sign + "0" + rest
    ensures var l, j := StrtolLead(s, 0), |lead + sign|;
            && j + 1 == |s| - |rest| && CharAt(s, j + 1) == (if rest == "" then '\0' else rest[0])
            && if CharAt(s, j + 1) in {'x', 'X'} then l.base == 16 && l.start == j + 2
               else l.base == 8 && l.start == j + 1
  {
    var tail, j := "0" + rest, |lead + sign|;
    assert s == lead + sign + tail;
    ReadsLead(s, lead, sign, tail, {' ', '\t'});
    assert CharAt(s, j) == '0';
  }

  lemma NoDigitsHere(s: CString, i: nat, base: nat)
    requires i <= |s|
    ensures DigitsEnd(s, i, base) == i <==> !IsDigit(CharAt(s, i), base)
    ensures DigitsEnd(s, i, base) == i ==> Number(s[i..DigitsEnd(s, i, base)], base) == 0
  {
  }

  /** In "0xg" the prefix is consumed although no digit follows, so the end is past the 'x' and not after the zero. */
  lemma PrefixWithoutDigits()
    ensures var l := StrtolLead("0xg", 0); Magnitude("0xg", l) == 0 && DigitsEnd("0xg", l.start, l.base) == 2
  {
    var s: CString := "0xg";
    assert s == "" + "" + s;
    ReadsLead(s, "", "", s, {' ', '\t'});
    assert StrtolLead(s, 0) == Lead(false, 16, 2);
  }

  lemma DetectsBase(s: CString, lead: string, sign: string, n: Notation, ds: string, rest: string)
    requires AllIn(lead, {' ', '\t'}) && sign in {"", "-", "+"}
    requires n.Hexadecimal? ==> n.x in {'x', 'X'}
    requires ds != "" && AllDigits(ds, BaseOf(n)) && (n.Decimal? ==> ds[0] != '0')
    requires s == lead + sign + Prefix(n) + ds + rest
    ensures StrtolLead(s, 0) == Lead(sign == "-", BaseOf(n), |lead + sign + Prefix(n)|)
  {
    assert IsDigit(ds[0], BaseOf(n));
    var tail := Prefix(n) + ds + rest;
    var j := |lead + sign|;
    assert s == lead + sign + tail;
    ReadsLead(s, lead, sign, tail, {' ', '\t'});
    assert CharAt(s, j) == tail[0];
    assert !n.Decimal? ==> CharAt(s, j + 1) == tail[1];
  }

  /** `atoi` inverts decimal rendering after spaces. */
  lemma AtoiInvertsRender(s: CString, lead: string, v: int, plus: bool, rest: string)
    requires AllIn(lead, {' '}) && (rest == "" || !IsDigit(rest[0], 10))
    requires s == lead + Sign(v, plus) + Render(Abs(v), 10, false) + rest
    ensures Signed(AtoiLead(s).negative, Magnitude(s, AtoiLead(s))) == v
  {
    assert AtoiLead(s) == StrtolLead(s, 10) by {
      var ds, sign := Render(Abs(v), 10, false), Sign(v, plus);
      RenderStart(Abs(v), 10, false);
      assert s == lead + sign + (ds + rest);
      ReadsLead(s, lead, sign, ds + rest, {' '});
      assert CharAt(s, |lead|) == if sign == "" then ds[0] else sign[0];
      AtoiIsStrtol10(s);
    }
    StrtolInvertsRender(s, lead, v, plus, 10, false, rest);
  }

  lemma SkipTabs(s: CString, i: nat)
    requires i <= |s|
    ensures var j := Skip(s, i, {' '}); CharAt(s, j) != '\t' ==> Skip(s, i, {' ', '\t'}) == j
    decreases |s| - i
  {
    if i < |s| && s[i] == ' ' {
      SkipTabs(s, i + 1);
    }
  }

  /** `atoi` is `strtol` in base 10 unless a tab follows the leading spaces; then it is 0. */
  lemma AtoiIsStrtol10(s: CString)
    ensures var tab := CharAt(s, Skip(s, 0, {' '})) == '\t';
            && (!tab ==> AtoiLead(s) == StrtolLead(s, 10))
            && (tab ==> Magnitude(s, AtoiLead(s)) == 0)
  {
    SkipTabs(s, 0);
  }

  lemma RenderSnoc(v: nat, ds: string, d: nat)
    requires v > 0 && d < 10 && Render(v, 10, false) == ds
    ensures Render(10 * v + d, 10, false) == ds + [Digit(d, false)]
  {
  }

  lemma RenderMinLong()
    ensures Render(0x8000_0000, 10, false) == "2147483648"
  {
    RenderSnoc(2, "2", 1);
    RenderSnoc(21, "21", 4);
    RenderSnoc(214, "214", 7);
    RenderSnoc(2147, "2147", 4);
    RenderSnoc(21474, "21474", 8);
    RenderSnoc(214748, "214748", 3);
    RenderSnoc(2147483, "2147483", 6);
    RenderSnoc(21474836, "21474836", 4);
    RenderSnoc(214748364, "214748364", 8);
  }

  /** The text of -2^31 denotes a `long`, but its digits alone do not: reading it overflows. */
  lemma MinLongOverflows()
    ensures var s := "-2147483648";
            && Signed(StrtolLead(s, 10).negative, Magnitude(s, StrtolLead(s, 10))) == -0x8000_0000
            && Magnitude(s, StrtolLead(s, 10)) > LONG_MAX
            && Magnitude(s, AtoiLead(s)) > LONG_MAX
  {
    var s: CString := "-2147483648";
    RenderMinLong();
    assert s == "" + Sign(-0x8000_0000, false) + Render(0x8000_0000, 10, false) + "";
    StrtolInvertsRender(s, "", -0x8000_0000, false, 10, false, "");
    AtoiInvertsRender(s, "", -0x8000_0000, false, "");
  }
}

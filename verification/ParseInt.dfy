/** Best-effort parsing of integers out of byte strings: blanks, a sign, then the longest run of digits. */
module ParseInt {
  import opened Common
  import opened Decimal

  datatype ParseError = Overflow(typeName: string)

  predicate IsBlank(c: char) { c == ' ' || c == '\t' }

  function SkipBlanks(s: string): string {
    if s != "" && IsBlank(s[0]) then SkipBlanks(s[1..]) else s
  }

  /** Length of the longest prefix made of digits. */
  function DigitRun(s: string): (n: nat)
    ensures n <= |s| && AllDigits(s[..n])
    ensures n < |s| ==> !IsDigit(s[n])
  {
    if s != "" && IsDigit(s[0]) then
      assert s[..1 + DigitRun(s[1..])] == [s[0]] + s[1..][..DigitRun(s[1..])];
      1 + DigitRun(s[1..])
    else 0
  }

  function LeadingNumber(s: string): nat {
    Value(s[..DigitRun(s)])
  }

  /** The signed number a string starts with, at unlimited precision. */
  function Denoted(s: string): int {
    var t := SkipBlanks(s);
    if t == "" then 0
    else if t[0] == '-' then Signed(true, LeadingNumber(t[1..]))
    else if t[0] == '+' then LeadingNumber(t[1..])
    else LeadingNumber(t)
  }

  /** The same for the unsigned reader, to which a minus sign is an unknown character. */
  function DenotedUnsigned(s: string): nat {
    var t := SkipBlanks(s);
    if t == "" then 0
    else if t[0] == '+' then LeadingNumber(t[1..])
    else LeadingNumber(t)
  }

  lemma {:induction false} DigitRunIs(s: string, n: nat)
    requires n <= |s| && AllDigits(s[..n]) && (n < |s| ==> !IsDigit(s[n]))
    ensures DigitRun(s) == n
    decreases n
  {
    if n > 0 {
      assert s[..n][0] == s[0] && s[1..][..n - 1] == s[..n][1..];
      DigitRunIs(s[1..], n - 1);
    }
  }

  lemma {:induction false} RunCovers(s: string, n: nat)
    requires n <= |s| && AllDigits(s[..n])
    ensures DigitRun(s) >= n
    decreases n
  {
    if n > 0 {
      assert s[..n][0] == s[0] && s[1..][..n - 1] == s[..n][1..];
      RunCovers(s[1..], n - 1);
    }
  }

  /** One more digit of the run, and the whole run from there. */
  lemma RunStep(t: string, from: nat, i: nat)
    requires from <= i < |t| && AllDigits(t[from..i]) && IsDigit(t[i])
    ensures AllDigits(t[from..i + 1])
    ensures Value(t[from..i + 1]) == 10 * Value(t[from..i]) + DigitOf(t[i])
    ensures Value(t[from..i + 1]) <= LeadingNumber(t[from..])
  {
    assert t[from..i + 1][..i - from] == t[from..i];
    var u := t[from..];
    var n := DigitRun(u);
    assert u[..i + 1 - from] == t[from..i + 1];
    RunCovers(u, i + 1 - from);
    assert u[..n][..i + 1 - from] == t[from..i + 1];
    ValueMonotone(u[..n], i + 1 - from);
  }

  lemma FirstDigitAt(s: string, i: nat)
    requires i < |s| && IsDigit(s[i])
    ensures AllDigits(s[i..i + 1]) && Value(s[i..i + 1]) == DigitOf(s[i])
  {
    OneDigit(s[i]);
    assert s[i..i + 1] == [s[i]];
  }

  lemma RunIs(s: string, from: nat, i: nat)
    requires from <= i <= |s| && AllDigits(s[from..i]) && (i < |s| ==> !IsDigit(s[i]))
    ensures LeadingNumber(s[from..]) == Value(s[from..i])
  {
    assert s[from..][..i - from] == s[from..i];
    DigitRunIs(s[from..], i - from);
  }

  method SkipLeadingBlanks(s: string) returns (i: nat)
    ensures i <= |s| && SkipBlanks(s) == s[i..]
    ensures i < |s| ==> !IsBlank(s[i])
  {
    i := 0;
    assert s[0..] == s;
    while i < |s| && IsBlank(s[i])
      invariant i <= |s| && SkipBlanks(s[i..]) == SkipBlanks(s)
    {
      assert s[i..][1..] == s[i + 1..];
      i := i + 1;
    }
  }

  /** The loop over the digits from `i` on, with those from `from` to `i` already in `acc`. Leaving it at the
      first partial overflow is sound because later digits only move further out. */
  method ReadDigits(s: string, from: nat, i: nat, start: int, negative: bool) returns (r: Result<int, ParseError>)
    requires from <= i <= |s| && AllDigits(s[from..i])
    requires start == Signed(negative, Value(s[from..i])) && FitsI64(start)
    ensures var n := Signed(negative, LeadingNumber(s[from..]));
      r == if FitsI64(n) then Ok(n) else Err(Overflow("BIGINT"))
  {
    var acc, at := start, i;
    while at < |s| && IsDigit(s[at])
      invariant from <= at <= |s| && AllDigits(s[from..at])
      invariant acc == Signed(negative, Value(s[from..at])) && FitsI64(acc)
    {
      RunStep(s, from, at);
      var cur := DigitOf(s[at]);
      var next: Option<int> := CheckedI64(acc * 10);
      if next.Some? {
        next := CheckedI64(if negative then next.value - cur else next.value + cur);
      }
      if next.None? {
        return Err(Overflow("BIGINT"));
      }
      acc := next.value;
      at := at + 1;
    }
    RunIs(s, from, at);
    return Ok(acc);
  }

  method ReadUnsignedDigits(s: string, from: nat, i: nat, start: nat) returns (r: Result<int, ParseError>)
    requires from <= i <= |s| && AllDigits(s[from..i])
    requires start == Value(s[from..i]) && FitsU64(start)
    ensures var n := LeadingNumber(s[from..]);
      r == if FitsU64(n) then Ok(n) else Err(Overflow("BIGINT UNSIGNED"))
  {
    var acc, at := start, i;
    while at < |s| && IsDigit(s[at])
      invariant from <= at <= |s| && AllDigits(s[from..at])
      invariant acc == Value(s[from..at]) && FitsU64(acc)
    {
      RunStep(s, from, at);
      var cur := DigitOf(s[at]);
      var next: Option<int> := CheckedU64(acc * 10);
      if next.Some? {
        next := CheckedU64(next.value + cur);
      }
      if next.None? {
        return Err(Overflow("BIGINT UNSIGNED"));
      }
      acc := next.value;
      at := at + 1;
    }
    RunIs(s, from, at);
    return Ok(acc);
  }

  /** The result is exact, and overflow is reported exactly when the number is outside the type. */
  method BytesToInt(s: string) returns (r: Result<int, ParseError>)
    ensures r == if FitsI64(Denoted(s)) then Ok(Denoted(s)) else Err(Overflow("BIGINT"))
  {
    var i := SkipLeadingBlanks(s);
    if i == |s| {
      return Ok(0);
    }
    var c := s[i];
    ghost var t := s[i..];
    assert t[0] == c && t[1..] == s[i + 1..];
    var negative := c == '-';
    if IsDigit(c) {
      FirstDigitAt(s, i);
      r := ReadDigits(s, i, i + 1, DigitOf(c), negative);
    } else if c == '-' || c == '+' {
      r := ReadDigits(s, i + 1, i + 1, 0, negative);
    } else {
      DigitRunIs(t, 0);
      return Ok(0);
    }
  }

  method BytesToUint(s: string) returns (r: Result<int, ParseError>)
    ensures r == if FitsU64(DenotedUnsigned(s)) then Ok(DenotedUnsigned(s)) else Err(Overflow("BIGINT UNSIGNED"))
  {
    var i := SkipLeadingBlanks(s);
    if i == |s| {
      return Ok(0);
    }
    var c := s[i];
    ghost var t := s[i..];
    assert t[0] == c && t[1..] == s[i + 1..];
    if IsDigit(c) {
      FirstDigitAt(s, i);
      r := ReadUnsignedDigits(s, i, i + 1, DigitOf(c));
    } else if c == '+' {
      r := ReadUnsignedDigits(s, i + 1, i + 1, 0);
    } else {
      DigitRunIs(t, 0);
      return Ok(0);
    }
  }

  lemma {:induction false} SkipsAllBlanks(blanks: string, t: string)
    requires forall i :: 0 <= i < |blanks| ==> IsBlank(blanks[i])
    requires t != "" ==> !IsBlank(t[0])
    ensures SkipBlanks(blanks + t) == t
    decreases |blanks|
  {
    if blanks == "" {
      assert blanks + t == t;
    } else {
      assert (blanks + t)[1..] == blanks[1..] + t;
      SkipsAllBlanks(blanks[1..], t);
    }
  }

  lemma NumberThenRest(ds: string, rest: string)
    requires AllDigits(ds) && (rest != "" ==> !IsDigit(rest[0]))
    ensures LeadingNumber(ds + rest) == Value(ds)
  {
    assert (ds + rest)[..|ds|] == ds;
    DigitRunIs(ds + rest, |ds|);
  }

  /** What is denoted does not depend on leading blanks. */
  lemma BlanksDoNotMatter(blanks: string, t: string)
    requires forall i :: 0 <= i < |blanks| ==> IsBlank(blanks[i])
    requires t != "" && !IsBlank(t[0])
    ensures Denoted(blanks + t) == Denoted(t) && DenotedUnsigned(blanks + t) == DenotedUnsigned(t)
  {
    SkipsAllBlanks(blanks, t);
    var none := t[..0];
    SkipsAllBlanks(none, t);
    assert none + t == t;
  }

  lemma DenotedDigits(ds: string, rest: string)
    requires AllDigits(ds) && ds != "" && (rest != "" ==> !IsDigit(rest[0]))
    ensures var t := ds + rest; !IsBlank(t[0]) && Denoted(t) == Value(ds) && DenotedUnsigned(t) == Value(ds)
  {
    var t := ds + rest;
    assert t[0] == ds[0];
    NumberThenRest(ds, rest);
    assert SkipBlanks(t) == t;
  }

  lemma DenotedMinus(ds: string, rest: string)
    requires AllDigits(ds) && (rest != "" ==> !IsDigit(rest[0]))
    ensures var t := ['-'] + ds + rest; !IsBlank(t[0]) && Denoted(t) == Signed(true, Value(ds))
  {
    var t := ['-'] + ds + rest;
    assert t[0] == '-' && t[1..] == ds + rest;
    NumberThenRest(ds, rest);
    assert SkipBlanks(t) == t;
  }

  /** Parsing undoes printing, whatever blanks precede the number and whatever follows it. */
  lemma ParsingUndoesPrinting(blanks: string, n: int, rest: string)
    requires forall i :: 0 <= i < |blanks| ==> IsBlank(blanks[i])
    requires rest != "" ==> !IsDigit(rest[0])
    ensures Denoted(blanks + PrintInt(n) + rest) == n
    ensures n >= 0 ==> DenotedUnsigned(blanks + PrintInt(n) + rest) == n
  {
    var ds := PrintNat(Abs(n));
    ValueOfPrinted(Abs(n));
    assert blanks + PrintInt(n) + rest == blanks + (PrintInt(n) + rest);
    if n < 0 {
      DenotedMinus(ds, rest);
    } else {
      DenotedDigits(ds, rest);
    }
    BlanksDoNotMatter(blanks, PrintInt(n) + rest);
  }

  // ------------------------------------------------------------- what the readers denote, for every string

  predicate AllBlank(s: string) {
    forall i :: 0 <= i < |s| ==> s[i] == ' ' || s[i] == '\t'
  }

  /** Blanks, at most one sign, the digits, and a rest that begins with none of what could have come before. */
  predicate Parts(blanks: string, sign: string, ds: string, rest: string) {
    && AllBlank(blanks) && AllDigits(ds) && |sign| <= 1
    && (sign != "" ==> sign[0] == '+' || sign[0] == '-')
    && (rest != "" ==> !IsDigit(rest[0]))
    && (sign == "" && ds == "" && rest != "" ==> rest[0] != ' ' && rest[0] != '\t' && rest[0] != '+' && rest[0] != '-')
  }

  lemma {:induction false} BlanksFirst(s: string) returns (blanks: string, t: string)
    ensures s == blanks + t && AllBlank(blanks) && (t != "" ==> t[0] != ' ' && t[0] != '\t')
    decreases |s|
  {
    if s != "" && (s[0] == ' ' || s[0] == '\t') {
      blanks, t := BlanksFirst(s[1..]);
      blanks := [s[0]] + blanks;
      assert s == [s[0]] + s[1..];
    } else {
      blanks, t := [], s;
    }
  }

  lemma DigitsFirst(u: string) returns (ds: string, rest: string)
    ensures u == ds + rest && AllDigits(ds) && (rest != "" ==> !IsDigit(rest[0]))
    ensures ds == "" ==> rest == u
  {
    var n := DigitRun(u);
    ds, rest := u[..n], u[n..];
  }

  lemma SignFirst(t: string) returns (sign: string, u: string)
    ensures t == sign + u && |sign| <= 1 && (sign != "" ==> sign[0] == '+' || sign[0] == '-')
    ensures sign == "" ==> u == t && (t != "" ==> t[0] != '+' && t[0] != '-')
  {
    var n := if t != "" && (t[0] == '+' || t[0] == '-') then 1 else 0;
    sign, u := t[..n], t[n..];
  }

  lemma JoinFour(a: string, b: string, c: string, d: string)
    ensures a + (b + (c + d)) == a + b + c + d
  { }

  /** Every string has such parts. */
  lemma EveryStringHasParts(s: string) returns (blanks: string, sign: string, ds: string, rest: string)
    ensures s == blanks + sign + ds + rest && Parts(blanks, sign, ds, rest)
  {
    var t, u;
    blanks, t := BlanksFirst(s);
    sign, u := SignFirst(t);
    ds, rest := DigitsFirst(u);
    JoinFour(blanks, sign, ds, rest);
  }

  /** The signed reader denotes the signed digits; to the unsigned one a minus is no number at all. */
  lemma DenotedOfParts(blanks: string, sign: string, ds: string, rest: string)
    requires Parts(blanks, sign, ds, rest)
    ensures var s, negative := blanks + sign + ds + rest, sign != "" && sign[0] == '-';
      Denoted(s) == Signed(negative, Value(ds)) && DenotedUnsigned(s) == if negative then 0 else Value(ds)
  {
    var t := sign + (ds + rest);
    assert blanks + sign + ds + rest == blanks + t;
    assert t != "" ==> t[0] == if sign != "" then sign[0] else if ds != "" then ds[0] else rest[0];
    NumberThenRest(ds, rest);
    if t == "" {
      SkipsAllBlanks(blanks, t);
    } else {
      BlanksDoNotMatter(blanks, t);
      assert SkipBlanks(t) == t;
      PartsWithoutBlanks(t, sign, ds, rest);
    }
  }

  lemma PartsWithoutBlanks(t: string, sign: string, ds: string, rest: string)
    requires Parts([], sign, ds, rest) && t == sign + (ds + rest) && t != "" && SkipBlanks(t) == t
    ensures var negative := sign != "" && sign[0] == '-';
      Denoted(t) == Signed(negative, Value(ds)) && DenotedUnsigned(t) == if negative then 0 else Value(ds)
  {
    NumberThenRest(ds, rest);
    if sign == "" {
      assert t == ds + rest;
    } else {
      assert t[0] == sign[0] && t[1..] == ds + rest;
      DigitRunIs(t, 0);
    }
  }
}

/** The longest numeric prefix of a string, found by one scan that tracks what has been seen. */
module FloatPrefix {
  import opened Decimal

  predicate IsSignChar(c: char) { c == '+' || c == '-' }

  predicate IsExpChar(c: char) { c == 'e' || c == 'E' }

  // ------------------------------------------------------------- the grammar

  predicate IsSign(s: string) { s == "" || s == "+" || s == "-" }

  /** Digits, or digits around a dot with at least one digit on either side. */
  ghost predicate IsMantissa(s: string) {
    || (s != "" && AllDigits(s))
    || exists k :: 0 <= k < |s| && AllDigits(s[..k]) && s[k] == '.' && AllDigits(s[k + 1..]) && |s| >= 2
  }

  predicate IsExponent(s: string) {
    || s == ""
    || (|s| >= 2 && IsExpChar(s[0]) && AllDigits(s[1..]))
    || (|s| >= 3 && IsExpChar(s[0]) && IsSignChar(s[1]) && AllDigits(s[2..]))
  }

  ghost predicate IsFloatAt(s: string, i: nat, j: nat) {
    i <= j <= |s| && IsSign(s[..i]) && IsMantissa(s[i..j]) && IsExponent(s[j..])
  }

  /** sign? (d+ (. d*)? | . d+) ([eE] sign? d+)? */
  ghost predicate IsFloat(s: string) {
    exists i: nat, j: nat :: IsFloatAt(s, i, j)
  }

  /** sign? d+ */
  predicate IsIntLiteral(s: string) {
    || (s != "" && AllDigits(s))
    || (|s| >= 2 && IsSignChar(s[0]) && AllDigits(s[1..]))
  }

  /** Every way to write a literal: a sign or none, digits on at least one side of a dot or just digits, and
      perhaps an exponent with either letter and a sign or none. */
  predicate LiteralParts(sign: string, left: string, dot: string, right: string, exp: string, expSign: string,
                         expDigits: string)
  {
    && |sign| <= 1 && (sign != "" ==> sign[0] == '+' || sign[0] == '-')
    && |dot| <= 1 && (if dot != "" then dot[0] == '.' else right == "")
    && AllDigits(left) && AllDigits(right) && |left| + |right| > 0
    && |exp| <= 1 && (if exp != "" then exp[0] == 'e' || exp[0] == 'E' else expSign == "" && expDigits == "")
    && |expSign| <= 1 && (expSign != "" ==> expSign[0] == '+' || expSign[0] == '-')
    && AllDigits(expDigits) && (exp != "" ==> expDigits != "")
  }

  lemma MantissaOfParts(left: string, dot: string, right: string)
    requires |dot| <= 1 && (if dot != "" then dot[0] == '.' else right == "")
    requires AllDigits(left) && AllDigits(right) && |left| + |right| > 0
    ensures IsMantissa(left + dot + right)
  {
    var m := left + dot + right;
    if dot == "" {
      assert m == left;
    } else {
      assert m[..|left|] == left && m[|left|] == '.' && m[|left| + 1..] == right;
    }
  }

  lemma ExponentOfParts(exp: string, expSign: string, expDigits: string)
    requires |exp| == 1 && (exp[0] == 'e' || exp[0] == 'E')
    requires |expSign| <= 1 && (expSign != "" ==> expSign[0] == '+' || expSign[0] == '-')
    requires AllDigits(expDigits) && expDigits != ""
    ensures IsExponent(exp + expSign + expDigits)
  {
    var e := exp + expSign + expDigits;
    if expSign == "" {
      assert e[1..] == expDigits;
    } else {
      assert e[1] == expSign[0] && e[2..] == expDigits;
    }
  }

  lemma PartsMakeFloat(sign: string, left: string, dot: string, right: string, exp: string, expSign: string,
                       expDigits: string)
    requires LiteralParts(sign, left, dot, right, exp, expSign, expDigits)
    ensures IsFloat(sign + (left + dot + right) + (exp + expSign + expDigits))
  {
    var m, e := left + dot + right, exp + expSign + expDigits;
    var s := sign + m + e;
    MantissaOfParts(left, dot, right);
    if exp != "" {
      ExponentOfParts(exp, expSign, expDigits);
    }
    var i, j := |sign|, |sign| + |m|;
    assert s[..i] == sign && s[i..j] == m && s[j..] == e;
    SignOfParts(sign);
    assert IsFloatAt(s, i, j);
  }

  lemma SignOfParts(sign: string)
    requires |sign| <= 1 && (sign != "" ==> sign[0] == '+' || sign[0] == '-')
    ensures IsSign(sign)
  {
    if sign != "" {
      assert sign == [sign[0]];
    }
  }

  // ------------------------------------------------------------- what a scan can tell

  ghost predicate HasDigit(s: string, n: nat)
    requires n <= |s|
  {
    exists x :: 0 <= x < n && IsDigit(s[x])
  }

  ghost predicate HasDot(s: string, n: nat)
    requires n <= |s|
  {
    exists x :: 0 <= x < n && s[x] == '.'
  }

  ghost predicate HasExp(s: string, n: nat)
    requires n <= |s|
  {
    exists x :: 0 <= x < n && IsExpChar(s[x])
  }

  /** The character at `k` can continue a literal that starts with the characters before it. */
  ghost predicate Continues(s: string, k: nat)
    requires k < |s|
  {
    var c := s[k];
    if IsSignChar(c) then k == 0 || IsExpChar(s[k - 1])
    else if c == '.' then !HasDot(s, k) && !HasExp(s, k)
    else if IsExpChar(c) then HasDigit(s, k) && !HasExp(s, k)
    else IsDigit(c)
  }

  ghost predicate Viable(s: string, n: nat)
    requires n <= |s|
  {
    forall k :: 0 <= k < n ==> Continues(s, k)
  }

  ghost predicate Ends(s: string, n: nat)
    requires n <= |s|
  {
    n > 0 && (IsDigit(s[n - 1]) || (s[n - 1] == '.' && HasDigit(s, n)))
  }

  /** A literal laid out by position: sign before `i`, digits and at most one dot before `j`, and the
      exponent from `j` on. */
  ghost predicate Laid(s: string, i: nat, j: nat, dot: int, x: nat) {
    && i <= x < j <= |s| && i <= 1 && IsDigit(s[x])
    && (i == 1 ==> IsSignChar(s[0]))
    && (forall k :: i <= k < j && k != dot ==> IsDigit(s[k]))
    && (i <= dot < j ==> s[dot] == '.')
    && (j < |s| ==> j + 2 <= |s| && IsExpChar(s[j]) && IsDigit(s[|s| - 1]))
    && (forall k :: j < k < |s| ==> IsDigit(s[k]) || (k == j + 1 && IsSignChar(s[k])))
  }

  lemma FloatIsLaid(s: string) returns (i: nat, j: nat, dot: int, x: nat)
    requires IsFloat(s)
    ensures Laid(s, i, j, dot, x)
  {
    i, j :| IsFloatAt(s, i, j);
    var m, e := s[i..j], s[j..];
    dot := MantissaDot(m);
    x := MantissaDigit(m);
    dot, x := i + dot, i + x;
    assert i == 1 ==> s[..i][0] == s[0];
    assert forall k :: i <= k < j ==> s[k] == m[k - i];
    assert forall k :: j <= k < |s| ==> s[k] == e[k - j];
    if e != "" {
      ExponentShape(e);
    }
  }

  lemma LaidContinues(s: string, i: nat, j: nat, dot: int, x: nat, k: nat)
    requires Laid(s, i, j, dot, x) && k < |s|
    ensures Continues(s, k)
  {
    if k < j {
      if k == dot && i <= k {
        assert forall y :: 0 <= y < k ==> s[y] != '.' && !IsExpChar(s[y]);
      }
    } else if k == j {
      assert HasDigit(s, k);
      assert forall y :: 0 <= y < k ==> !IsExpChar(s[y]) by {
        forall y | 0 <= y < k ensures !IsExpChar(s[y]) {
          assert y < i || y == dot || IsDigit(s[y]);
        }
      }
    }
  }

  lemma FloatIsViable(s: string)
    requires IsFloat(s)
    ensures Viable(s, |s|) && Ends(s, |s|)
  {
    var i, j, dot, x := FloatIsLaid(s);
    forall k | 0 <= k < |s| ensures Continues(s, k) {
      LaidContinues(s, i, j, dot, x, k);
    }
    LaidEnds(s, i, j, dot, x);
  }

  lemma LaidEnds(s: string, i: nat, j: nat, dot: int, x: nat)
    requires Laid(s, i, j, dot, x)
    ensures Ends(s, |s|)
  {
    if j == |s| {
      assert j - 1 != dot ==> IsDigit(s[j - 1]);
      assert HasDigit(s, |s|);
    }
  }

  /** Everything in a mantissa is a digit but at most one dot. */
  lemma MantissaDot(m: string) returns (dot: int)
    requires IsMantissa(m)
    ensures forall x :: 0 <= x < |m| && x != dot ==> IsDigit(m[x])
    ensures 0 <= dot < |m| ==> m[dot] == '.'
  {
    if AllDigits(m) {
      dot := -1;
    } else {
      dot :| 0 <= dot < |m| && AllDigits(m[..dot]) && m[dot] == '.' && AllDigits(m[dot + 1..]) && |m| >= 2;
      forall x | 0 <= x < |m| && x != dot ensures IsDigit(m[x]) {
        if x < dot {
          assert m[x] == m[..dot][x];
        } else {
          assert m[x] == m[dot + 1..][x - dot - 1];
        }
      }
    }
  }

  lemma MantissaDigit(m: string) returns (x: nat)
    requires IsMantissa(m)
    ensures x < |m| && IsDigit(m[x])
  {
    var dot := MantissaDot(m);
    x := if dot == 0 then 1 else 0;
    assert !AllDigits(m) ==> |m| >= 2;
  }

  lemma ExponentShape(e: string)
    requires IsExponent(e) && e != ""
    ensures |e| >= 2 && IsExpChar(e[0]) && IsDigit(e[|e| - 1])
    ensures forall x :: 1 <= x < |e| ==> IsDigit(e[x]) || (x == 1 && IsSignChar(e[x]))
  {
    if AllDigits(e[1..]) {
      assert forall x :: 1 <= x < |e| ==> e[x] == e[1..][x - 1];
    } else {
      assert forall x :: 2 <= x < |e| ==> e[x] == e[2..][x - 2];
    }
  }

  lemma ViableIsFloat(s: string)
    requires Viable(s, |s|) && Ends(s, |s|)
    ensures IsFloat(s)
  {
    var i := if IsSignChar(s[0]) then 1 else 0;
    assert i == 1 ==> s[..1] == [s[0]];
    var j := |s|;
    if HasExp(s, |s|) {
      j :| 0 <= j < |s| && IsExpChar(s[j]);
      assert Continues(s, j);
    }
    assert forall x :: 0 <= x < j ==> !IsExpChar(s[x]) by {
      forall x | 0 <= x < j ensures !IsExpChar(s[x]) {
        assert Continues(s, x);
      }
    }
    ViableMantissa(s, i, j);
    if j < |s| {
      ViableExponent(s, j);
    }
    assert IsFloatAt(s, i, j);
  }

  lemma ViableMantissa(s: string, i: nat, j: nat)
    requires i <= j <= |s| && Viable(s, |s|) && HasDigit(s, j)
    requires i == (if IsSignChar(s[0]) then 1 else 0)
    requires forall x :: 0 <= x < j ==> !IsExpChar(s[x])
    ensures IsMantissa(s[i..j])
  {
    var m := s[i..j];
    var y :| 0 <= y < j && IsDigit(s[y]);
    assert y >= i;
    forall k | i <= k < j ensures m[k - i] == s[k] { }
    forall x | i <= x < j ensures IsDigit(s[x]) || s[x] == '.' {
      assert Continues(s, x);
    }
    forall x, dot | i <= x < j && i <= dot < j && x != dot && s[dot] == '.' ensures IsDigit(s[x]) {
      assert Continues(s, x) && Continues(s, dot);
    }
    OneDotIsMantissa(m, y - i);
  }

  lemma OneDotIsMantissa(m: string, y: nat)
    requires y < |m| && IsDigit(m[y])
    requires forall x :: 0 <= x < |m| ==> IsDigit(m[x]) || m[x] == '.'
    requires forall x, dot :: 0 <= x < |m| && 0 <= dot < |m| && x != dot && m[dot] == '.' ==> IsDigit(m[x])
    ensures IsMantissa(m)
  {
    if dot :| 0 <= dot < |m| && m[dot] == '.' {
      assert AllDigits(m[..dot]) && AllDigits(m[dot + 1..]);
    } else {
      assert AllDigits(m);
    }
  }

  lemma ViableExponent(s: string, j: nat)
    requires j < |s| && Viable(s, |s|) && Ends(s, |s|) && IsExpChar(s[j])
    ensures IsExponent(s[j..])
  {
    var e := s[j..];
    forall x | j < x < |s| ensures IsDigit(s[x]) || (x == j + 1 && IsSignChar(s[x])) {
      assert Continues(s, x) && Continues(s, j);
      assert HasExp(s, x);
      if IsSignChar(s[x]) {
        assert IsExpChar(s[x - 1]) && Continues(s, x - 1);
      }
    }
    if IsSignChar(e[1]) {
      assert AllDigits(e[2..]);
    } else {
      assert AllDigits(e[1..]);
    }
  }

  /** A prefix is a literal exactly when the scan survives it and it ends well. */
  lemma PrefixIsFloat(s: string, n: nat)
    requires n <= |s|
    ensures IsFloat(s[..n]) <==> Viable(s, n) && Ends(s, n)
  {
    var p := s[..n];
    assert forall k :: 0 <= k < n ==> p[k] == s[k];
    assert forall k :: 0 <= k < n ==> (HasDigit(p, k) <==> HasDigit(s, k)) by {
      forall k | 0 <= k < n ensures HasDigit(p, k) <==> HasDigit(s, k) {
        SamePrefix(s, n, k);
      }
    }
    forall k | 0 <= k < n ensures Continues(p, k) <==> Continues(s, k) {
      SamePrefix(s, n, k);
    }
    SamePrefix(s, n, n);
    if IsFloat(p) {
      FloatIsViable(p);
    }
    if Viable(s, n) && Ends(s, n) {
      assert Viable(p, n);
      ViableIsFloat(p);
    }
  }

  lemma SamePrefix(s: string, n: nat, k: nat)
    requires k <= n <= |s|
    ensures HasDigit(s[..n], k) <==> HasDigit(s, k)
    ensures HasDot(s[..n], k) <==> HasDot(s, k)
    ensures HasExp(s[..n], k) <==> HasExp(s, k)
  {
    var p := s[..n];
    assert forall x :: 0 <= x < k ==> p[x] == s[x];
    if HasDigit(s, k) {
      var x :| 0 <= x < k && IsDigit(s[x]);
      assert IsDigit(p[x]);
    }
    if HasDot(s, k) {
      var x :| 0 <= x < k && s[x] == '.';
      assert p[x] == '.';
    }
    if HasExp(s, k) {
      var x :| 0 <= x < k && IsExpChar(s[x]);
      assert IsExpChar(p[x]);
    }
  }

  // ------------------------------------------------------------- the scan

  /** `prefix` is the longest literal `s` starts with, or "0" if there is none; `truncated` is the
      truncation error. */
  ghost predicate IsValidPrefix(s: string, prefix: string, truncated: bool) {
    && (truncated <==> prefix != s)
    && if exists n :: 0 <= n <= |s| && IsFloat(s[..n])
       then IsFloat(prefix) && prefix <= s && forall n :: |prefix| < n <= |s| ==> !IsFloat(s[..n])
       else prefix == "0"
  }

  method GetValidFloatPrefix(s: string) returns (prefix: string, truncated: bool)
    ensures IsValidPrefix(s, prefix, truncated)
  {
    var sawDot, sawDigit, validLen, eIdx := false, false, 0, 0;
    var i := 0;
    while i < |s|
      invariant 0 <= validLen <= i <= |s| && Viable(s, i)
      invariant sawDot <==> HasDot(s, i)
      invariant sawDigit <==> HasDigit(s, i)
      invariant 0 <= eIdx && (eIdx > 0 <==> HasExp(s, i))
      invariant eIdx > 0 ==> eIdx < i && IsExpChar(s[eIdx]) && forall x :: 0 <= x < i && IsExpChar(s[x]) ==> x == eIdx
      invariant validLen > 0 ==> Viable(s, validLen) && Ends(s, validLen)
      invariant forall n :: validLen < n <= i ==> !Ends(s, n)
    {
      var c := s[i];
      if IsSignChar(c) {
        if i != 0 && (eIdx == 0 || i != eIdx + 1) {
          break;
        }
      } else if c == '.' {
        if sawDot || eIdx > 0 {
          break;
        }
        sawDot := true;
        if sawDigit {
          validLen := i + 1;
        }
      } else if IsExpChar(c) {
        if !sawDigit {
          break;
        }
        if eIdx != 0 {
          break;
        }
        eIdx := i;
      } else if !IsDigit(c) {
        break;
      } else {
        sawDigit := true;
        validLen := i + 1;
      }
      assert Continues(s, i);
      i := i + 1;
    }
    assert i < |s| ==> !Continues(s, i);
    assert forall n :: i < n <= |s| ==> !Viable(s, n);
    forall n | validLen < n <= |s| ensures !IsFloat(s[..n]) {
      PrefixIsFloat(s, n);
    }
    PrefixIsFloat(s, validLen);
    truncated := validLen == 0 || validLen < |s|;
    if validLen == 0 {
      assert !IsFloat(s[..0]);
      ZeroIsFloat();
      assert s[..|s|] == s;
      prefix := "0";
    } else {
      prefix := s[..validLen];
    }
  }

  lemma ZeroIsFloat()
    ensures IsFloat("0")
  {
    assert IsFloatAt("0", 0, 1);
  }

  /** Applying the scan to its own result changes nothing. */
  lemma ScanIsIdempotent(s: string, once: string, t1: bool, twice: string, t2: bool)
    requires IsValidPrefix(s, once, t1) && IsValidPrefix(once, twice, t2)
    ensures twice == once && !t2
  {
    ZeroIsFloat();
    assert IsFloat(once);
    assert once[..|once|] == once;
  }

  /** The result depends on the input alone. */
  lemma ScanIsDeterministic(s: string, p1: string, t1: bool, p2: string, t2: bool)
    requires IsValidPrefix(s, p1, t1) && IsValidPrefix(s, p2, t2)
    ensures p1 == p2 && t1 == t2
  {
    if exists n :: 0 <= n <= |s| && IsFloat(s[..n]) {
      assert s[..|p1|] == p1 && s[..|p2|] == p2;
    }
  }

  /** The reader used inside SELECT statements keeps only a sign and digits. */
  method GetValidIntPrefix(s: string) returns (prefix: string, truncated: bool)
    ensures truncated <==> prefix != s
    ensures if exists n :: 0 <= n <= |s| && IsIntLiteral(s[..n])
            then IsIntLiteral(prefix) && prefix <= s && forall n :: |prefix| < n <= |s| ==> !IsIntLiteral(s[..n])
            else prefix == "0"
  {
    var validLen, i := 0, 0;
    while i < |s|
      invariant 0 <= validLen <= i <= |s|
      invariant forall k :: 1 <= k < i ==> IsDigit(s[k])
      invariant i > 0 ==> IsDigit(s[0]) || IsSignChar(s[0])
      invariant validLen == if i == 0 || (i == 1 && IsSignChar(s[0])) then 0 else i
    {
      var c := s[i];
      if IsSignChar(c) && i == 0 {
        i := i + 1;
        continue;
      }
      if !IsDigit(c) {
        break;
      }
      validLen := i + 1;
      i := i + 1;
    }
    forall n | validLen < n <= |s| ensures !IsIntLiteral(s[..n]) {
      if i < n {
        assert s[..n][i] == s[i];
        if i > 0 {
          assert s[..n][1..][i - 1] == s[i];
        }
      }
    }
    if validLen > 0 {
      assert IsIntLiteral(s[..validLen]);
    }
    assert s[..|s|] == s;
    prefix := if validLen == 0 then "0" else s[..validLen];
    truncated := validLen == 0 || validLen < |s|;
  }
}

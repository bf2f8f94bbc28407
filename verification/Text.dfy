/** Python string operations the bridge relies on, over ASCII text:
  * code-point order, prefix tests, `split`, `strip`, zero padding, `str(int)` and `int(str)`. */
module Text {
  import opened Wrappers

  // ---------- characters ----------

  predicate IsDigit(c: char) { '0' <= c <= '9' }

  predicate IsLower(c: char) { 'a' <= c <= 'z' }

  predicate IsUpper(c: char) { 'A' <= c <= 'Z' }

  // The ASCII characters `str.isspace` accepts.
  predicate IsSpace(c: char) { 9 as char <= c <= 13 as char || 28 as char <= c <= 32 as char }

  function ToLower(c: char): char {
    if IsUpper(c) then ((c as int) + 32) as char else c
  }

  function ToUpper(c: char): char {
    if IsLower(c) then ((c as int) - 32) as char else c
  }

  function Lower(s: string): (r: string)
    ensures |r| == |s|
  {
    seq(|s|, i requires 0 <= i < |s| => ToLower(s[i]))
  }

  function DigitChar(n: nat): char
    requires n < 10
  {
    (48 + n) as char
  }

  function DigitValue(c: char): nat
    requires IsDigit(c)
  {
    (c as int) - 48
  }

  predicate AllDigits(s: string) { forall i :: 0 <= i < |s| ==> IsDigit(s[i]) }

  // ---------- code-point order (`<` on Python strings) ----------

  predicate Less(a: string, b: string) {
    b != [] && (a == [] || a[0] < b[0] || (a[0] == b[0] && Less(a[1..], b[1..])))
  }

  lemma {:induction false} LessIrreflexive(a: string)
    ensures !Less(a, a)
  {
    if a != [] { LessIrreflexive(a[1..]); }
  }

  lemma {:induction false} LessTotal(a: string, b: string)
    ensures Less(a, b) || Less(b, a) || a == b
  {
    if a != [] && b != [] && a[0] == b[0] {
      LessTotal(a[1..], b[1..]);
      assert a == [a[0]] + a[1..] && b == [b[0]] + b[1..];
    }
  }

  lemma {:induction false} LessTransitive(a: string, b: string, c: string)
    requires Less(a, b) && Less(b, c)
    ensures Less(a, c)
  {
    if a != [] && a[0] == b[0] && b[0] == c[0] { LessTransitive(a[1..], b[1..], c[1..]); }
  }

  lemma LessAsymmetric(a: string, b: string)
    ensures !(Less(a, b) && Less(b, a))
  {
    if Less(a, b) && Less(b, a) { LessTransitive(a, b, a); LessIrreflexive(a); }
  }

  lemma {:induction false} LessAfterPrefix(p: string, a: string, b: string)
    ensures Less(p + a, p + b) <==> Less(a, b)
  {
    if p == [] {
      assert p + a == a && p + b == b;
    } else {
      assert (p + a)[1..] == p[1..] + a && (p + b)[1..] == p[1..] + b;
      LessAfterPrefix(p[1..], a, b);
    }
  }

  // ---------- prefixes, splitting, stripping ----------

  predicate StartsWith(s: string, p: string) { |p| <= |s| && s[..|p|] == p }

  /** `s.split(sep)` for a one-character separator. */
  function Split(s: string, sep: char): (r: seq<string>)
    ensures |r| >= 1
  {
    if s == [] then [""]
    else
      var rest := Split(s[1..], sep);
      if s[0] == sep then [""] + rest else [[s[0]] + rest[0]] + rest[1..]
  }

  lemma {:induction false} SplitPieces(s: string, sep: char)
    ensures forall i :: 0 <= i < |Split(s, sep)| ==> sep !in Split(s, sep)[i]
  {
    if s != [] {
      SplitPieces(s[1..], sep);
    }
  }

  lemma {:induction false} SplitNoSeparator(s: string, sep: char)
    requires sep !in s
    ensures Split(s, sep) == [s]
  {
    if s != [] {
      SplitNoSeparator(s[1..], sep);
      assert s == [s[0]] + s[1..];
    }
  }

  lemma {:induction false} SplitAtSeparator(a: string, sep: char, b: string)
    requires sep !in a
    ensures Split(a + [sep] + b, sep) == [a] + Split(b, sep)
  {
    var s := a + [sep] + b;
    if a == [] {
      assert s[1..] == b;
    } else {
      assert s[1..] == a[1..] + [sep] + b;
      SplitAtSeparator(a[1..], sep, b);
      assert a == [a[0]] + a[1..];
    }
  }

  function StripLeft(s: string, drop: char -> bool): string {
    if s != [] && drop(s[0]) then StripLeft(s[1..], drop) else s
  }

  function StripRight(s: string, drop: char -> bool): string {
    if s != [] && drop(s[|s| - 1]) then StripRight(s[..|s| - 1], drop) else s
  }

  lemma {:induction false} StripLeftEnd(s: string, drop: char -> bool)
    ensures var r := StripLeft(s, drop);
            && |r| <= |s| && r == s[|s| - |r|..] && (r != [] ==> !drop(r[0]))
            && (r == s || (s != [] && drop(s[0])))
  {
    if s != [] && drop(s[0]) { StripLeftEnd(s[1..], drop); }
  }

  lemma {:induction false} StripRightStart(s: string, drop: char -> bool)
    ensures var r := StripRight(s, drop);
            && |r| <= |s| && r == s[..|r|] && (r != [] ==> !drop(r[|r| - 1]))
            && (r == s || (s != [] && drop(s[|s| - 1])))
  {
    if s != [] && drop(s[|s| - 1]) { StripRightStart(s[..|s| - 1], drop); }
  }

  /** `s.strip(chars)`. */
  function Strip(s: string, drop: char -> bool): string {
    StripRight(StripLeft(s, drop), drop)
  }

  lemma StripFixed(s: string, drop: char -> bool)
    requires s == [] || (!drop(s[0]) && !drop(s[|s| - 1]))
    ensures Strip(s, drop) == s
  {
  }

  // ---------- decimal numbers ----------

  /** `f"{n:0kd}"` for a number of at most `k` digits. */
  function Pad(k: nat, n: nat): (s: string)
    ensures |s| == k && AllDigits(s)
  {
    if k == 0 then "" else Pad(k - 1, n / 10) + [DigitChar(n % 10)]
  }

  function Pow10(k: nat): (r: nat)
    ensures r >= 1
  {
    if k == 0 then 1 else 10 * Pow10(k - 1)
  }

  /** `str(n)`. */
  function Str(n: nat): (s: string)
    ensures |s| >= 1 && AllDigits(s)
    ensures n < 10 <==> |s| == 1
  {
    if n < 10 then [DigitChar(n)] else Str(n / 10) + [DigitChar(n % 10)]
  }

  /** The value of a run of digits. */
  function DigitsValue(s: string): nat
    requires AllDigits(s)
  {
    if s == [] then 0 else 10 * DigitsValue(s[..|s| - 1]) + DigitValue(s[|s| - 1])
  }

  lemma {:induction false} PadValue(k: nat, n: nat)
    requires n < Pow10(k)
    ensures DigitsValue(Pad(k, n)) == n
  {
    if k > 0 {
      PadValue(k - 1, n / 10);
      assert Pad(k, n)[..k - 1] == Pad(k - 1, n / 10);
    }
  }

  /** Digits are the padded form of their value. */
  lemma {:induction false} PadOfValue(s: string)
    requires AllDigits(s)
    ensures Pad(|s|, DigitsValue(s)) == s
  {
    if s != "" {
      var init := s[..|s| - 1];
      PadOfValue(init);
      assert DigitsValue(s) / 10 == DigitsValue(init) && DigitsValue(s) % 10 == DigitValue(s[|s| - 1]);
      assert s == init + [s[|s| - 1]];
    }
  }

  lemma {:induction false} StrValue(n: nat)
    ensures DigitsValue(Str(n)) == n
  {
    if n < 10 {
      assert Str(n)[..0] == "";
    } else {
      StrValue(n / 10);
      assert Str(n)[..|Str(n)| - 1] == Str(n / 10);
    }
  }

  /** `str(n)` has four characters exactly for four-digit numbers, and is then the padded form. */
  lemma StrFour(n: nat)
    ensures |Str(n)| == 4 <==> 1000 <= n <= 9999
    ensures 1000 <= n <= 9999 ==> Str(n) == Pad(4, n)
  {
    var tens, hundreds, thousands := n / 10, n / 100, n / 1000;
    assert tens / 10 == hundreds && hundreds / 10 == thousands;
    if n >= 1000 {
      assert |Str(hundreds)| == 1 + |Str(thousands)|;
      assert |Str(tens)| == 1 + |Str(hundreds)|;
      if thousands < 10 {
        assert Pad(1, thousands) == Pad(0, 0) + [DigitChar(thousands)] == Str(thousands);
        assert Pad(2, hundreds) == Str(hundreds);
        assert Pad(3, tens) == Str(tens);
      }
    } else if n >= 10 {
      assert |Str(tens)| == if tens < 10 then 1 else 1 + |Str(hundreds)|;
    }
  }

  /** Padded numbers compare like numbers, whatever follows them. */
  lemma {:induction false} PadOrder(k: nat, m: nat, n: nat, x: string, y: string)
    requires m < Pow10(k) && n < Pow10(k)
    ensures Less(Pad(k, m) + x, Pad(k, n) + y) <==> m < n || (m == n && Less(x, y))
  {
    if k == 0 {
      assert Pad(k, m) + x == x && Pad(k, n) + y == y;
    } else {
      var u, v := [DigitChar(m % 10)], [DigitChar(n % 10)];
      assert Pad(k, m) + x == Pad(k - 1, m / 10) + (u + x);
      assert Pad(k, n) + y == Pad(k - 1, n / 10) + (v + y);
      PadOrder(k - 1, m / 10, n / 10, u + x, v + y);
      assert (u + x)[1..] == x && (v + y)[1..] == y;
    }
  }

  /** Digits with single underscores between them, as `int` reads them. */
  function Unscored(s: string): Option<string> {
    if s == [] || !IsDigit(s[|s| - 1]) then None
    else if |s| == 1 then Some(s)
    else
      var init := if s[|s| - 2] == '_' then s[..|s| - 2] else s[..|s| - 1];
      match Unscored(init)
      case None => None
      case Some(d) => Some(d + [s[|s| - 1]])
  }

  lemma {:induction false} UnscoredDigits(s: string)
    ensures Unscored(s).Some? ==> AllDigits(Unscored(s).value)
    ensures AllDigits(s) && s != [] ==> Unscored(s) == Some(s)
  {
    if |s| > 1 {
      UnscoredDigits(if s[|s| - 2] == '_' then s[..|s| - 2] else s[..|s| - 1]);
      assert s == s[..|s| - 1] + [s[|s| - 1]];
    }
  }

  /** `int(s)`: blanks around, an optional sign, digits; `None` is the ValueError. */
  function PyInt(s: string): Option<int> {
    var t := Strip(s, IsSpace);
    if t == [] then None
    else
      var digits := Unscored(if t[0] == '+' || t[0] == '-' then t[1..] else t);
      if digits.None? then None
      else
        UnscoredDigits(if t[0] == '+' || t[0] == '-' then t[1..] else t);
        var n: int := DigitsValue(digits.value);
        Some(if t[0] == '-' then -n else n)
  }

  /** On plain digits `int` is the decimal value. */
  lemma PyIntDigits(s: string)
    requires AllDigits(s) && s != []
    ensures PyInt(s) == Some(DigitsValue(s) as int)
  {
    assert IsDigit(s[0]) && IsDigit(s[|s| - 1]);
    StripFixed(s, IsSpace);
    UnscoredDigits(s);
  }

  /** A plus sign changes nothing. */
  lemma PyIntSigned(s: string)
    requires AllDigits(s) && s != []
    ensures PyInt("+" + s) == Some(DigitsValue(s) as int)
  {
    var t := "+" + s;
    assert t[0] == '+' && t[1..] == s && IsDigit(s[|s| - 1]);
    StripFixed(t, IsSpace);
    UnscoredDigits(s);
  }

  /** `int(str(n)) == n`. */
  lemma PyIntStr(n: nat)
    ensures PyInt(Str(n)) == Some(n as int)
  {
    PyIntDigits(Str(n));
    StrValue(n);
  }
}

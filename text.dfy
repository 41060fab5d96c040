/**
 * The few Python `str` operations the two scripts rely on, restricted to
 * ASCII: `isspace`/`strip`, `isdigit`, `lower`, `startswith`, `in`,
 * `split` on one character, `zfill`, `int()` and `str()` of a number.
 */
module Text {
  import opened Common
  import opened Lists

  // ---------------------------------------------------------------- whitespace

  /** `c.isspace()` on ASCII: \t \n \v \f \r, the separators 0x1C-0x1F, and space. */
  predicate IsSpace(c: char) {
    c == ' ' || 9 <= c as int <= 13 || 28 <= c as int <= 31
  }

  predicate AllSpace(s: string) {
    forall i | 0 <= i < |s| :: IsSpace(s[i])
  }

  /** Neither end of `s` is whitespace. */
  predicate Trimmed(s: string) {
    s == [] || (!IsSpace(s[0]) && !IsSpace(s[|s| - 1]))
  }

  /** Drops the leading whitespace. */
  function TrimLeft(s: string): (r: string) {
    if s != [] && IsSpace(s[0]) then TrimLeft(s[1..]) else s
  }

  /** Drops the trailing whitespace. */
  function TrimRight(s: string): (r: string) {
    if s != [] && IsSpace(s[|s| - 1]) then TrimRight(s[..|s| - 1]) else s
  }

  /** `s.strip()` */
  function Strip(s: string): (r: string) {
    TrimRight(TrimLeft(s))
  }

  /** What `TrimLeft` keeps is a suffix that does not start with whitespace,
      and everything it drops is whitespace. */
  lemma {:induction false} TrimLeftSpec(s: string)
    ensures |TrimLeft(s)| <= |s| && TrimLeft(s) == s[|s| - |TrimLeft(s)|..]
    ensures AllSpace(s[..|s| - |TrimLeft(s)|])
    ensures TrimLeft(s) == [] || !IsSpace(TrimLeft(s)[0])
    decreases |s|
  {
    if s != [] && IsSpace(s[0]) {
      TrimLeftSpec(s[1..]);
      var k := |s| - |TrimLeft(s)|;
      assert s[..k] == [s[0]] + s[1..][..k - 1];
    }
  }

  /** What `TrimRight` keeps is a prefix that does not end with whitespace,
      and everything it drops is whitespace. */
  lemma {:induction false} TrimRightSpec(s: string)
    ensures |TrimRight(s)| <= |s| && TrimRight(s) == s[..|TrimRight(s)|]
    ensures AllSpace(s[|TrimRight(s)|..])
    ensures TrimRight(s) == [] || !IsSpace(TrimRight(s)[|TrimRight(s)| - 1])
    decreases |s|
  {
    if s != [] && IsSpace(s[|s| - 1]) {
      TrimRightSpec(s[..|s| - 1]);
      var k := |TrimRight(s)|;
      assert s[k..] == s[..|s| - 1][k..] + [s[|s| - 1]];
    }
  }

  /** The stripped text has no whitespace at either end, and every
      character of it comes from the input. */
  lemma StripSpec(s: string)
    ensures |Strip(s)| <= |s| && Trimmed(Strip(s))
    ensures forall c | c in Strip(s) :: c in s
  {
    var l := TrimLeft(s);
    TrimLeftSpec(s);
    TrimRightSpec(l);
    var r := Strip(s);
    assert r != [] ==> r[0] == l[0];
    forall c | c in r ensures c in s {
      var i :| 0 <= i < |r| && r[i] == c;
      assert l[i] == c;
      assert s[|s| - |l| + i] == c;
    }
  }

  lemma {:induction false} TrimLeftOf(a: string, r: string)
    requires AllSpace(a)
    requires r == [] || !IsSpace(r[0])
    ensures TrimLeft(a + r) == r
    decreases |a|
  {
    if a != [] {
      assert (a + r)[1..] == a[1..] + r;
      TrimLeftOf(a[1..], r);
    } else {
      assert a + r == r;
    }
  }

  lemma {:induction false} TrimRightOf(r: string, b: string)
    requires AllSpace(b)
    requires r == [] || !IsSpace(r[|r| - 1])
    ensures TrimRight(r + b) == r
    decreases |b|
  {
    if b != [] {
      assert (r + b)[..|r + b| - 1] == r + b[..|b| - 1];
      TrimRightOf(r, b[..|b| - 1]);
    } else {
      assert r + b == r;
    }
  }

  /** `strip` removes exactly the surrounding whitespace: it is the unique
      trimmed text that whitespace padding can be wrapped around. */
  lemma StripOf(a: string, r: string, b: string)
    requires AllSpace(a) && AllSpace(b) && Trimmed(r)
    ensures Strip(a + r + b) == r
  {
    if r == [] {
      assert a + r + b == (a + b) + [];
      TrimLeftOf(a + b, []);
      TrimRightOf([], []);
    } else {
      assert a + r + b == a + (r + b);
      TrimLeftOf(a, r + b);
      TrimRightOf(r, b);
    }
  }

  // ---------------------------------------------------------------- case

  /** `c.lower()` on ASCII: the result is never an upper-case letter; an
      upper-case letter becomes the same letter in lower case, and every
      other character is kept. */
  function LowerChar(c: char): (d: char)
    ensures !('A' <= d <= 'Z')
    ensures 'A' <= c <= 'Z' ==> 'a' <= d <= 'z' && d as int - 'a' as int == c as int - 'A' as int
    ensures !('A' <= c <= 'Z') ==> d == c
  {
    if 'A' <= c <= 'Z' then (c as int + 32) as char else c
  }

  /** `s.lower()` */
  function Lower(s: string): (r: string)
    ensures |r| == |s|
    ensures forall i | 0 <= i < |s| :: r[i] == LowerChar(s[i])
  {
    if s == [] then [] else [LowerChar(s[0])] + Lower(s[1..])
  }

  /** `w` spells `word` when letter case is ignored. */
  predicate SpellsIgnoringCase(w: string, word: string) {
    |w| == |word| && forall i | 0 <= i < |w| :: LowerChar(w[i]) == word[i]
  }

  /** `line` is `w` with whitespace `a` in front and `b` behind. */
  predicate Padded(line: string, a: string, w: string, b: string) {
    AllSpace(a) && AllSpace(b) && line == a + w + b
  }

  /** Every line is its stripped text with whitespace around it. */
  lemma StripPadding(line: string) returns (a: string, b: string)
    ensures Padded(line, a, Strip(line), b)
  {
    var l := TrimLeft(line);
    TrimLeftSpec(line);
    TrimRightSpec(l);
    var w := Strip(line);
    a, b := line[..|line| - |l|], l[|w|..];
    assert l == w + b;
  }

  lemma LowerSpelled(w: string, word: string)
    requires SpellsIgnoringCase(w, word)
    ensures Lower(w) == word
  {
  }

  /** `line.strip().lower() == word` holds exactly when `line` is some
      spelling of `word`, in any letter case, with any whitespace around it. */
  lemma LowerStripIs(line: string, word: string)
    requires word != [] && Trimmed(word)
    ensures Lower(Strip(line)) == word <==> exists a, w, b :: Padded(line, a, w, b) && SpellsIgnoringCase(w, word)
  {
    if Lower(Strip(line)) == word {
      var a, b := StripPadding(line);
      assert SpellsIgnoringCase(Strip(line), word);
    }
    if exists a, w, b :: Padded(line, a, w, b) && SpellsIgnoringCase(w, word) {
      var a, w, b :| Padded(line, a, w, b) && SpellsIgnoringCase(w, word);
      assert LowerChar(w[0]) == word[0] && LowerChar(w[|w| - 1]) == word[|word| - 1];
      StripOf(a, w, b);
      LowerSpelled(w, word);
    }
  }

  // ---------------------------------------------------------------- digits

  predicate IsDigit(c: char) {
    '0' <= c <= '9'
  }

  predicate AllDigits(s: string) {
    forall i | 0 <= i < |s| :: IsDigit(s[i])
  }

  /** `s.isdigit()`: false on the empty string. */
  predicate IsDigits(s: string) {
    |s| > 0 && AllDigits(s)
  }

  function DigitValue(c: char): (d: nat)
    requires IsDigit(c)
    ensures d < 10
  {
    c as int - '0' as int
  }

  function DigitChar(d: nat): (c: char)
    requires d < 10
    ensures IsDigit(c) && DigitValue(c) == d
  {
    ('0' as int + d) as char
  }

  /** The number a string of decimal digits denotes (0 for the empty string). */
  function DigitsValue(s: string): (n: nat)
    requires AllDigits(s)
  {
    if s == [] then 0 else DigitsValue(s[..|s| - 1]) * 10 + DigitValue(s[|s| - 1])
  }

  /** `str(n)` for a natural number: its decimal digits, without leading zeros. */
  function Decimal(n: nat): (r: string)
    ensures IsDigits(r) && DigitsValue(r) == n
    ensures r[0] == '0' <==> n == 0
    ensures |r| == 1 <==> n < 10
    decreases n
  {
    if n < 10 then [DigitChar(n)]
    else
      var r := Decimal(n / 10) + [DigitChar(n % 10)];
      assert r[..|r| - 1] == Decimal(n / 10);
      r
  }

  /** A digit string that does not start with '0' denotes a positive number. */
  lemma {:induction false} PositiveValue(s: string)
    requires IsDigits(s) && s[0] != '0'
    ensures DigitsValue(s) >= 1
    decreases |s|
  {
    if |s| > 1 {
      var p := s[..|s| - 1];
      assert p[0] == s[0];
      PositiveValue(p);
    }
  }

  /** `str(n)` is the only way to write `n` without leading zeros: every
      digit string with no leading zero (or the single digit "0") is the
      `str` of the number it denotes. */
  lemma {:induction false} CanonicalDecimal(s: string)
    requires IsDigits(s) && (|s| == 1 || s[0] != '0')
    ensures s == Decimal(DigitsValue(s))
    decreases |s|
  {
    if |s| == 1 {
      assert s[..0] == [];
    } else {
      var p := s[..|s| - 1];
      assert p[0] == s[0];
      CanonicalDecimal(p);
      PositiveValue(p);
      var n := DigitsValue(s);
      assert n / 10 == DigitsValue(p) && n % 10 == DigitValue(s[|s| - 1]);
      assert s == p + [s[|s| - 1]];
    }
  }

  /** Three digits suffice exactly for the numbers below 1000; two for those below 100. */
  lemma {:induction false} DecimalLength(n: nat)
    ensures |Decimal(n)| <= 2 <==> n < 100
    ensures |Decimal(n)| <= 3 <==> n < 1000
  {
    if n >= 10 {
      DecimalLength(n / 10);
    }
  }

  /** A string of `k` zeros. */
  function Zeros(k: nat): (r: string)
    ensures |r| == k && forall i | 0 <= i < k :: r[i] == '0'
  {
    if k == 0 then [] else Zeros(k - 1) + ['0']
  }

  /** `s.zfill(width)` for a string of digits (there is no sign to keep in front). */
  function ZFill(s: string, width: nat): (r: string)
    requires AllDigits(s)
    ensures |r| == if |s| < width then width else |s|
    ensures r[|r| - |s|..] == s
    ensures forall i | 0 <= i < |r| - |s| :: r[i] == '0'
  {
    if |s| < width then Zeros(width - |s|) + s else s
  }

  /** A string of zeros denotes 0. */
  lemma {:induction false} ZerosValue(k: nat)
    ensures AllDigits(Zeros(k)) && DigitsValue(Zeros(k)) == 0
  {
    if k > 0 {
      var z := Zeros(k);
      assert z[..|z| - 1] == Zeros(k - 1);
      ZerosValue(k - 1);
    }
  }

  /** Leading zeros do not change the number a digit string denotes. */
  lemma {:induction false} LeadingZeros(k: nat, s: string)
    requires AllDigits(s)
    ensures AllDigits(Zeros(k) + s)
    ensures DigitsValue(Zeros(k) + s) == DigitsValue(s)
    decreases |s|
  {
    var z := Zeros(k);
    ZerosValue(k);
    if s == [] {
      assert z + s == z;
    } else {
      var u := z + s;
      var p := s[..|s| - 1];
      assert u[..|u| - 1] == z + p;
      assert u[|u| - 1] == s[|s| - 1];
      LeadingZeros(k, p);
    }
  }

  /** Zero-padding keeps the number: the padded token still names the same id. */
  lemma ZFillValue(s: string, width: nat)
    requires AllDigits(s)
    ensures AllDigits(ZFill(s, width))
    ensures DigitsValue(ZFill(s, width)) == DigitsValue(s)
  {
    if |s| < width {
      LeadingZeros(width - |s|, s);
    }
  }

  // ---------------------------------------------------------------- int()

  /** The whitespace `int()` skips around a numeral on ASCII input: \t \n \v
      \f \r and space, but not the separators 0x1C-0x1F that `isspace` and
      `strip` also count. */
  predicate IsIntSpace(c: char) {
    c == ' ' || 9 <= c as int <= 13
  }

  predicate AllIntSpace(s: string) {
    forall i | 0 <= i < |s| :: IsIntSpace(s[i])
  }

  predicate IntTrimmed(s: string) {
    s == [] || (!IsIntSpace(s[0]) && !IsIntSpace(s[|s| - 1]))
  }

  /** What `int()` looks at once the surrounding whitespace is skipped. */
  function IntTrim(s: string): (r: string)
    decreases |s|
  {
    if s != [] && IsIntSpace(s[0]) then IntTrim(s[1..])
    else if s != [] && IsIntSpace(s[|s| - 1]) then IntTrim(s[..|s| - 1])
    else s
  }

  /** Skipping removes exactly the whitespace padding around a text that has
      none at its ends. */
  lemma {:induction false} IntTrimOf(a: string, r: string, b: string)
    requires AllIntSpace(a) && AllIntSpace(b) && IntTrimmed(r)
    ensures IntTrim(a + r + b) == r
    decreases |a| + |b|
  {
    var s := a + r + b;
    if a != [] {
      assert s[1..] == a[1..] + r + b;
      IntTrimOf(a[1..], r, b);
    } else if b != [] && r == [] {
      assert s[1..] == [] + [] + b[1..];
      IntTrimOf([], [], b[1..]);
    } else if b != [] {
      assert s[0] == r[0];
      assert s[..|s| - 1] == [] + r + b[..|b| - 1];
      IntTrimOf([], r, b[..|b| - 1]);
    } else {
      assert s == r;
    }
  }

  /** A base-10 numeral as `int()` reads it: digits, where a single '_' may
      stand between two digits. */
  predicate IsNumeral(t: string) {
    |t| > 0 &&
    forall i | 0 <= i < |t| ::
      IsDigit(t[i]) || (t[i] == '_' && 0 < i < |t| - 1 && IsDigit(t[i - 1]) && IsDigit(t[i + 1]))
  }

  /** The digits of `t`, in order. */
  function DigitsOf(t: string): (r: string)
    ensures AllDigits(r)
  {
    if t == [] then []
    else if IsDigit(t[0]) then [t[0]] + DigitsOf(t[1..])
    else DigitsOf(t[1..])
  }

  /** The number a numeral denotes: its digits, underscores ignored. */
  function NumeralValue(t: string): (n: nat)
    requires IsNumeral(t)
  {
    DigitsValue(DigitsOf(t))
  }

  /** The most digits `int()` converts from decimal text
      (`sys.int_info.default_max_str_digits`); leading zeros count,
      underscores do not. */
  const MaxStrDigits := 4300

  /** `int(s)` in base 10 on ASCII: surrounding whitespace, an optional sign,
      then a numeral of at most `MaxStrDigits` digits. */
  function ParseInt(s: string): (r: Option<int>)
  {
    var t := IntTrim(s);
    if |t| > 0 && (t[0] == '+' || t[0] == '-') then
      if IsNumeral(t[1..]) && |DigitsOf(t[1..])| <= MaxStrDigits then
        Some(if t[0] == '-' then -(NumeralValue(t[1..]) as int) else NumeralValue(t[1..]) as int)
      else None
    else if IsNumeral(t) && |DigitsOf(t)| <= MaxStrDigits then Some(NumeralValue(t) as int)
    else None
  }

  /** A plain digit string is a numeral, and it denotes its usual value. */
  lemma {:induction false} DigitsNumeral(d: string)
    requires AllDigits(d)
    ensures DigitsOf(d) == d
    ensures d != [] ==> IsNumeral(d) && NumeralValue(d) == DigitsValue(d)
  {
    if d != [] {
      assert AllDigits(d[1..]);
      DigitsNumeral(d[1..]);
      assert d == [d[0]] + d[1..];
    }
  }

  lemma {:induction false} DigitsOfAppend(x: string, y: string)
    ensures DigitsOf(x + y) == DigitsOf(x) + DigitsOf(y)
    decreases |x|
  {
    if x != [] {
      assert (x + y)[1..] == x[1..] + y;
      DigitsOfAppend(x[1..], y);
    } else {
      assert x + y == y;
    }
  }

  /** An underscore between two numerals is ignored: `int("1_000") == 1000`. */
  lemma UnderscoreIgnored(x: string, y: string)
    requires IsNumeral(x) && IsNumeral(y)
    ensures IsNumeral(x + "_" + y) && IsNumeral(x + y)
    ensures NumeralValue(x + "_" + y) == NumeralValue(x + y)
  {
    var t := x + "_" + y;
    assert t == x + ("_" + y);
    DigitsOfAppend(x, "_" + y);
    assert ("_" + y)[1..] == y;
    DigitsOfAppend(x, y);
    forall i | 0 <= i < |t|
      ensures IsDigit(t[i]) || (t[i] == '_' && 0 < i < |t| - 1 && IsDigit(t[i - 1]) && IsDigit(t[i + 1]))
    {
      if i < |x| {
        assert t[i] == x[i];
        if i + 1 < |x| { assert t[i + 1] == x[i + 1]; }
      } else if i == |x| {
        assert t[i - 1] == x[|x| - 1] && t[i + 1] == y[0];
      } else {
        assert t[i] == y[i - |x| - 1];
        if i - |x| - 1 > 0 { assert t[i - 1] == y[i - |x| - 2]; }
      }
    }
    var u := x + y;
    forall i | 0 <= i < |u|
      ensures IsDigit(u[i]) || (u[i] == '_' && 0 < i < |u| - 1 && IsDigit(u[i - 1]) && IsDigit(u[i + 1]))
    {
      if i < |x| {
        assert u[i] == x[i];
        if i + 1 < |x| { assert u[i + 1] == x[i + 1]; } else if u[i] == '_' { assert false; }
      } else {
        assert u[i] == y[i - |x|];
        if i > |x| { assert u[i - 1] == y[i - |x| - 1]; } else if u[i] == '_' { assert false; }
      }
    }
  }

  lemma ParseUnsigned(a: string, d: string, b: string)
    requires AllIntSpace(a) && AllIntSpace(b) && IsNumeral(d)
    ensures ParseInt(a + d + b) == if |DigitsOf(d)| <= MaxStrDigits then Some(NumeralValue(d) as int) else None
  {
    assert IsDigit(d[0]) && IsDigit(d[|d| - 1]);
    IntTrimOf(a, d, b);
    assert !(d[0] == '+' || d[0] == '-');
  }

  lemma ParseSigned(a: string, c: char, d: string, b: string)
    requires AllIntSpace(a) && AllIntSpace(b) && IsNumeral(d)
    requires c == '+' || c == '-'
    ensures ParseInt(a + [c] + d + b) ==
      if |DigitsOf(d)| <= MaxStrDigits then
        Some(if c == '-' then -(NumeralValue(d) as int) else NumeralValue(d) as int)
      else None
  {
    var t := [c] + d;
    assert a + [c] + d + b == a + t + b;
    assert t[|t| - 1] == d[|d| - 1] && IsDigit(d[|d| - 1]);
    IntTrimOf(a, t, b);
    assert t[0] == c && t[1..] == d;
  }

  /** What `int()` reads: whitespace `a` and `b` around an optional sign and
      a numeral `d` give the numeral's value, negated after '-', unless the
      numeral has more than `MaxStrDigits` digits, which is refused. */
  lemma ParseIntOf(a: string, sign: string, d: string, b: string)
    requires AllIntSpace(a) && AllIntSpace(b) && IsNumeral(d)
    requires sign == "" || sign == "+" || sign == "-"
    ensures ParseInt(a + sign + d + b) ==
      if |DigitsOf(d)| <= MaxStrDigits then
        Some(if sign == "-" then -(NumeralValue(d) as int) else NumeralValue(d) as int)
      else None
  {
    if sign == "" {
      assert a + sign + d + b == a + d + b;
      ParseUnsigned(a, d, b);
    } else {
      assert sign == [sign[0]];
      ParseSigned(a, sign[0], d, b);
    }
  }

  /** `int()` of a plain digit string is its value, up to `MaxStrDigits` digits. */
  lemma ParseDigits(d: string)
    requires IsDigits(d)
    ensures ParseInt(d) == if |d| <= MaxStrDigits then Some(DigitsValue(d) as int) else None
  {
    DigitsNumeral(d);
    ParseUnsigned([], d, []);
    assert [] + d + [] == d;
  }

  /** What `int()` refuses: after the whitespace is skipped, the text must be
      an optional sign followed by a numeral of at most `MaxStrDigits`
      digits; a negative value needs '-'. */
  lemma ParseIntShape(s: string)
    ensures ParseInt(s).Some? ==>
      var t := IntTrim(s);
      && |t| > 0
      && (IsNumeral(t) || ((t[0] == '+' || t[0] == '-') && IsNumeral(t[1..])))
      && |DigitsOf(t)| <= MaxStrDigits
      && (ParseInt(s).value < 0 ==> t[0] == '-')
  {
  }

  /** A leading separator character is not skipped by `int()`: "\x1c5" is refused
      although `strip` would remove the separator. */
  lemma SeparatorNotSkipped()
    ensures Strip([28 as char] + "5") == "5"
    ensures ParseInt([28 as char] + "5").None?
  {
    var s := [28 as char] + "5";
    assert AllSpace([28 as char]) && AllSpace([]);
    StripOf([28 as char], "5", []);
    assert [28 as char] + "5" + [] == s;
    IntTrimOf([], s, []);
    assert [] + s + [] == s;
  }

  /** `int(str(n)) == n` for every `n` of at most `MaxStrDigits` digits, and
      whitespace around the text is ignored. */
  lemma ParseDecimal(a: string, n: nat, b: string)
    requires AllIntSpace(a) && AllIntSpace(b)
    ensures ParseInt(a + Decimal(n) + b) == if |Decimal(n)| <= MaxStrDigits then Some(n) else None
  {
    DigitsNumeral(Decimal(n));
    ParseUnsigned(a, Decimal(n), b);
  }

  // ---------------------------------------------------------------- search

  predicate StartsWith(s: string, prefix: string) {
    |prefix| <= |s| && s[..|prefix|] == prefix
  }

  predicate OccursAt(s: string, sub: string, i: nat) {
    i + |sub| <= |s| && s[i..i + |sub|] == sub
  }

  /** `sub in s` */
  predicate Contains(s: string, sub: string)
    decreases |s|
  {
    |sub| <= |s| && (s[..|sub|] == sub || (|s| > 0 && Contains(s[1..], sub)))
  }

  /** `sub in s` holds exactly when `sub` occurs at some position of `s`. */
  lemma {:induction false} ContainsIff(s: string, sub: string)
    ensures Contains(s, sub) <==> exists i: nat :: OccursAt(s, sub, i)
    decreases |s|
  {
    if Contains(s, sub) {
      if s[..|sub|] == sub {
        assert OccursAt(s, sub, 0);
      } else {
        ContainsIff(s[1..], sub);
        var i: nat :| OccursAt(s[1..], sub, i);
        assert s[i + 1..i + 1 + |sub|] == s[1..][i..i + |sub|];
        assert OccursAt(s, sub, i + 1);
      }
    }
    if exists i: nat :: OccursAt(s, sub, i) {
      var i: nat :| OccursAt(s, sub, i);
      if i > 0 {
        assert s[1..][i - 1..i - 1 + |sub|] == s[i..i + |sub|];
        assert OccursAt(s[1..], sub, i - 1);
        ContainsIff(s[1..], sub);
      }
    }
  }

  /** Any text placed inside a payload is found in it. */
  lemma ContainsInfix(a: string, sub: string, b: string)
    ensures Contains(a + sub + b, sub)
  {
    var s := a + sub + b;
    assert s[|a|..|a| + |sub|] == sub;
    assert OccursAt(s, sub, |a|);
    ContainsIff(s, sub);
  }

  // ---------------------------------------------------------------- split

  /** `s.split(sep)` for a one-character separator: no part holds `sep`. */
  function Split(s: string, sep: char): (parts: seq<string>)
    ensures |parts| >= 1
    decreases |s|
  {
    if sep in s then
      var i := FirstIndex(s, sep);
      [s[..i]] + Split(s[i + 1..], sep)
    else [s]
  }

  /** No part holds the separator. */
  lemma {:induction false} SplitPartsFree(s: string, sep: char)
    ensures forall k | 0 <= k < |Split(s, sep)| :: sep !in Split(s, sep)[k]
    decreases |s|
  {
    if sep in s {
      var i := FirstIndex(s, sep);
      SplitPartsFree(s[i + 1..], sep);
    }
  }

  /** `sep.join(parts)` */
  function Join(parts: seq<string>, sep: char): (s: string)
    requires |parts| >= 1
  {
    if |parts| == 1 then parts[0] else parts[0] + [sep] + Join(parts[1..], sep)
  }

  /** Joining the parts back with the separator gives the original string. */
  lemma {:induction false} SplitJoin(s: string, sep: char)
    ensures Join(Split(s, sep), sep) == s
    decreases |s|
  {
    if sep in s {
      var i := FirstIndex(s, sep);
      SplitJoin(s[i + 1..], sep);
      assert s == s[..i] + [sep] + s[i + 1..];
    }
  }

  /** There is a second part exactly when the separator occurs. */
  lemma SplitHasSecond(s: string, sep: char)
    ensures |Split(s, sep)| >= 2 <==> sep in s
  {
  }

  /** The first separator of `a + [sep] + t` is the one after `a` when `a` has none. */
  lemma {:induction false} FirstSeparator(a: string, sep: char, t: string)
    requires sep !in a
    ensures sep in a + [sep] + t && FirstIndex(a + [sep] + t, sep) == |a|
    decreases |a|
  {
    var s := a + [sep] + t;
    assert s[|a|] == sep;
    if a != [] {
      assert s[1..] == a[1..] + [sep] + t;
      FirstSeparator(a[1..], sep, t);
    }
  }

  /** The first part is the text before the first separator. */
  lemma FirstPart(b: string, sep: char, rest: string)
    requires sep !in b
    requires rest == [] || rest[0] == sep
    ensures Split(b + rest, sep)[0] == b
  {
    if rest == [] {
      assert b + rest == b;
    } else {
      assert b + rest == b + [sep] + rest[1..];
      FirstSeparator(b, sep, rest[1..]);
      assert (b + rest)[..|b|] == b;
    }
  }

  /** The part at index 1 is the text between the first and the second
      separator, or up to the end when there is no second one. */
  lemma SecondPart(a: string, sep: char, b: string, rest: string)
    requires sep !in a && sep !in b
    requires rest == [] || rest[0] == sep
    ensures |Split(a + [sep] + b + rest, sep)| >= 2
    ensures Split(a + [sep] + b + rest, sep)[1] == b
  {
    var s := a + [sep] + b + rest;
    var t := b + rest;
    assert s == a + [sep] + t;
    FirstSeparator(a, sep, t);
    assert s[|a| + 1..] == t;
    assert Split(s, sep) == [s[..|a|]] + Split(t, sep);
    FirstPart(b, sep, rest);
  }
}

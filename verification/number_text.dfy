/** The two conversions between numbers and text that the pipeline performs:
    `value.toString()` before a number is sent for translation, and `Number(to)` when a
    translated numeric leaf is written back. Numbers are integers in this model. */
module NumberText {
  import opened Wrappers
  import opened JsonTree

  predicate IsDigit(c: char) {
    '0' <= c <= '9'
  }

  predicate AllDigits(s: string) {
    forall i :: 0 <= i < |s| ==> IsDigit(s[i])
  }

  function DigitChar(d: nat): (c: char)
    requires d < 10
    ensures IsDigit(c)
  {
    (48 + d) as char
  }

  function DigitValue(c: char): (d: nat)
    requires IsDigit(c)
    ensures d < 10
  {
    (c as int) - 48
  }

  /** Decimal digits of a natural number, most significant first, without leading zeros. */
  function NatText(n: nat): (s: string)
    ensures |s| >= 1 && AllDigits(s)
    ensures s[0] == '0' <==> n == 0
    decreases n
  {
    if n < 10 then [DigitChar(n)] else NatText(n / 10) + [DigitChar(n % 10)]
  }

  /** `n.toString()` for an integer: an optional minus sign followed by the digits. */
  function IntText(n: int): string {
    if n < 0 then "-" + NatText(-n) else NatText(n)
  }

  /** The value of a string of decimal digits. */
  function DigitsValue(s: string): nat
    requires AllDigits(s)
    decreases |s|
  {
    if s == [] then 0 else DigitsValue(s[..|s| - 1]) * 10 + DigitValue(s[|s| - 1])
  }

  /** The WhiteSpace and LineTerminator code points of ECMAScript, which `Number` strips
      from both ends of its argument. */
  predicate IsSpace(c: char) {
    var u := c as int;
    || u == 0x09 || u == 0x0A || u == 0x0B || u == 0x0C || u == 0x0D || u == 0x20
    || u == 0xA0 || u == 0x1680 || (0x2000 <= u <= 0x200A) || u == 0x2028 || u == 0x2029
    || u == 0x202F || u == 0x205F || u == 0x3000 || u == 0xFEFF
  }

  predicate AllSpace(s: string) {
    forall i :: 0 <= i < |s| ==> IsSpace(s[i])
  }

  function TrimStart(s: string): (t: string)
    ensures |t| <= |s|
    ensures t == [] || !IsSpace(t[0])
    decreases |s|
  {
    if s != [] && IsSpace(s[0]) then TrimStart(s[1..]) else s
  }

  function TrimEnd(s: string): (t: string)
    ensures |t| <= |s|
    ensures t == [] || !IsSpace(t[|t| - 1])
    ensures t == s[..|t|]
    decreases |s|
  {
    if s != [] && IsSpace(s[|s| - 1]) then TrimEnd(s[..|s| - 1]) else s
  }

  /** The argument of `Number` with its surrounding white space removed. */
  function Trim(s: string): (t: string)
    ensures |t| <= |s|
    ensures t == [] || (!IsSpace(t[0]) && !IsSpace(t[|t| - 1]))
  {
    TrimEnd(TrimStart(s))
  }

  /** The base named by the letter after a leading `0`: `0x`, `0o` and `0b` in either
      case; 0 for any other character. */
  function RadixOf(c: char): (radix: nat)
    ensures radix == 0 || radix == 2 || radix == 8 || radix == 16
  {
    if c == 'x' || c == 'X' then 16
    else if c == 'o' || c == 'O' then 8
    else if c == 'b' || c == 'B' then 2
    else 0
  }

  /** The value of `c` as a digit of base `radix`, when it is one. */
  function RadixDigit(c: char, radix: nat): (d: Option<nat>)
    ensures d.Some? ==> d.value < radix
  {
    var v :=
      if '0' <= c <= '9' then (c as int) - 48
      else if 'a' <= c <= 'f' then (c as int) - 87
      else if 'A' <= c <= 'F' then (c as int) - 55
      else radix;
    if v < radix then Some(v) else None
  }

  predicate AllRadixDigits(s: string, radix: nat) {
    forall i :: 0 <= i < |s| ==> RadixDigit(s[i], radix).Some?
  }

  /** The value of a string of digits of base `radix`. */
  function RadixValue(s: string, radix: nat): nat
    requires AllRadixDigits(s, radix)
    decreases |s|
  {
    if s == [] then 0 else RadixValue(s[..|s| - 1], radix) * radix + RadixDigit(s[|s| - 1], radix).value
  }

  /** `Number(s)` restricted to integer text. White space around the text is ignored, and
      text that is empty after that is 0. An optional sign followed by at least one decimal
      digit is that integer, and `0x`, `0o` or `0b` followed by at least one digit of that
      base is read in that base, without a sign. Anything else is NaN (None). */
  function ParseInteger(s: string): Option<int> {
    var t := Trim(s);
    if t == "" then Some(0)
    else if AllDigits(t) then Some(DigitsValue(t))
    else if |t| >= 2 && t[0] == '-' && AllDigits(t[1..]) then Some(-(DigitsValue(t[1..]) as int))
    else if |t| >= 2 && t[0] == '+' && AllDigits(t[1..]) then Some(DigitsValue(t[1..]))
    else if |t| >= 3 && t[0] == '0' && RadixOf(t[1]) != 0 && AllRadixDigits(t[2..], RadixOf(t[1])) then
      Some(RadixValue(t[2..], RadixOf(t[1])))
    else None
  }

  lemma {:induction false} DigitsValueOfNatText(n: nat)
    ensures DigitsValue(NatText(n)) == n
    decreases n
  {
    if n >= 10 {
      var s := NatText(n);
      assert s[..|s| - 1] == NatText(n / 10);
      DigitsValueOfNatText(n / 10);
    }
  }

  /** Reading back the text of a number gives the number: a numeric leaf that the
      translator echoes unchanged is written back as the same number. */
  lemma {:induction false} TrimStartSkipsSpace(w: string, u: string)
    requires AllSpace(w)
    ensures TrimStart(w + u) == TrimStart(u)
    decreases |w|
  {
    if w != [] {
      var x := w + u;
      assert x != [] && x[0] == w[0] && IsSpace(w[0]);
      assert TrimStart(x) == TrimStart(x[1..]);
      assert x[1..] == w[1..] + u;
      TrimStartSkipsSpace(w[1..], u);
    } else {
      assert w + u == u;
    }
  }

  lemma {:induction false} TrimEndSkipsSpace(u: string, w: string)
    requires AllSpace(w)
    ensures TrimEnd(u + w) == TrimEnd(u)
    decreases |w|
  {
    if w != [] {
      assert (u + w)[..|u + w| - 1] == u + w[..|w| - 1];
      TrimEndSkipsSpace(u, w[..|w| - 1]);
    } else {
      assert u + w == u;
    }
  }

  /** White space on either side of a text that neither starts nor ends with white space
      is exactly what trimming removes. */
  lemma TrimAround(w1: string, t: string, w2: string)
    requires AllSpace(w1) && AllSpace(w2)
    requires t != [] && !IsSpace(t[0]) && !IsSpace(t[|t| - 1])
    ensures Trim(w1 + t + w2) == t
  {
    assert w1 + t + w2 == w1 + (t + w2);
    TrimStartSkipsSpace(w1, t + w2);
    assert TrimStart(t + w2) == t + w2;
    TrimEndSkipsSpace(t, w2);
  }

  /** Text made only of white space reads as 0. */
  lemma BlankIsZero(s: string)
    ensures AllSpace(s) ==> ParseInteger(s) == Some(0)
  {
    if AllSpace(s) {
      TrimStartSkipsSpace(s, []);
      assert s + [] == s;
    }
  }

  lemma IntTextIsTrimmed(n: int)
    ensures Trim(IntText(n)) == IntText(n)
  {
    var s := IntText(n);
    var d := NatText(if n < 0 then -n else n);
    assert IsDigit(d[0]) && IsDigit(d[|d| - 1]);
    assert s[|s| - 1] == d[|d| - 1];
    TrimAround("", s, "");
    assert "" + s + "" == s;
  }

  /** Reading back the text of a number gives the number: a numeric leaf that the
      translator echoes unchanged is written back as the same number. */
  lemma ParseIntText(n: int)
    ensures ParseInteger(IntText(n)) == Some(n)
  {
    IntTextIsTrimmed(n);
    if n < 0 {
      var s := IntText(n);
      assert s[1..] == NatText(-n);
      assert !AllDigits(s) by { assert !IsDigit(s[0]); }
      DigitsValueOfNatText(-n);
    } else {
      DigitsValueOfNatText(n);
    }
  }

  /** The same with white space around the text, as a manual edit may leave it. */
  lemma ParsePaddedIntText(w1: string, n: int, w2: string)
    requires AllSpace(w1) && AllSpace(w2)
    ensures ParseInteger(w1 + IntText(n) + w2) == Some(n)
  {
    IntTextIsTrimmed(n);
    TrimAround(w1, IntText(n), w2);
    ParseIntText(n);
  }

  lemma RadixDigitIsNotSpace(c: char, radix: nat)
    requires RadixDigit(c, radix).Some?
    ensures !IsSpace(c)
  {
  }

  /** `0x`, `0o` or `0b` (in either case) followed by digits of that base is read in
      that base. */
  lemma RadixText(c: char, d: string)
    requires RadixOf(c) != 0 && d != [] && AllRadixDigits(d, RadixOf(c))
    ensures ParseInteger(['0', c] + d) == Some(RadixValue(d, RadixOf(c)))
  {
    var t := ['0', c] + d;
    assert Trim(t) == t by {
      assert t[|t| - 1] == d[|d| - 1];
      RadixDigitIsNotSpace(d[|d| - 1], RadixOf(c));
      TrimAround("", t, "");
      assert "" + t + "" == t;
    }
    assert !AllDigits(t) by { assert !IsDigit(t[1]); }
    assert t[2..] == d;
  }

  lemma RadixExamples()
    ensures ParseInteger("0x1A") == Some(26)
    ensures ParseInteger("0o17") == Some(15)
    ensures ParseInteger("0b101") == Some(5)
  {
    HexExample();
    OctalExample();
    BinaryExample();
  }

  lemma HexExample()
    ensures ParseInteger("0x1A") == Some(26)
  {
    RadixText('x', "1A");
    assert ['0', 'x'] + "1A" == "0x1A";
    assert RadixValue("1A", 16) == 26 by { assert "1A"[..1] == "1"; }
  }

  lemma OctalExample()
    ensures ParseInteger("0o17") == Some(15)
  {
    RadixText('o', "17");
    assert ['0', 'o'] + "17" == "0o17";
    assert RadixValue("17", 8) == 15 by { assert "17"[..1] == "1"; }
  }

  lemma BinaryExample()
    ensures ParseInteger("0b101") == Some(5)
  {
    RadixText('b', "101");
    assert ['0', 'b'] + "101" == "0b101";
    assert RadixValue("101", 2) == 5 by { assert "101"[..2] == "10"; assert "10"[..1] == "1"; }
  }

  /** A sign before the prefix, a prefix without digits, or a digit outside the base
      makes NaN. */
  lemma MalformedRadixIsNaN()
    ensures ParseInteger("-0x1A") == None
    ensures ParseInteger("0x") == None
    ensures ParseInteger("0b2") == None
  {
    assert Trim("-0x1A") == "-0x1A";
    assert !AllDigits("-0x1A"[1..]) by { assert "-0x1A"[1..][1] == 'x'; }
    assert !AllDigits("-0x1A") by { assert "-0x1A"[0] == '-'; }
    assert Trim("0x") == "0x";
    assert !AllDigits("0x") by { assert "0x"[1] == 'x'; }
    assert Trim("0b2") == "0b2";
    assert !AllDigits("0b2") by { assert "0b2"[1] == 'b'; }
    assert !AllRadixDigits("0b2"[2..], 2) by { assert "0b2"[2..][0] == '2'; }
  }

  /** The text sent for translation: `typeof v === 'string' ? v : v.toString()`.
      Only truthy scalars reach this conversion; `null` and containers map to placeholders. */
  function TextOf(v: Json): (t: string)
    ensures v.Str? ==> t == v.s
    ensures v.Num? ==> ParseInteger(t) == Some(v.n)
    ensures v.Bool? ==> t == (if v.b then "true" else "false")
  {
    match v
    case Str(s) => s
    case Num(n) => ParseIntText(n); IntText(n)
    case Bool(b) => if b then "true" else "false"
    case Null => "null"
    case Arr(_) => ""
    case Obj(_) => ""
  }

  /** The serialised form of `Number(to)`: NaN is written by `JSON.stringify` as `null`,
      and `undefined` converts to NaN. `to` is never a container in the pipeline. */
  function NumberOf(to: Option<Json>): (r: Json)
    ensures r.Num? || r.Null?
    ensures to == Some(Null) ==> r == Num(0)
    ensures to == None ==> r == Null
    ensures forall n :: to == Some(Num(n)) ==> r == Num(n)
    ensures forall n :: to == Some(Str(IntText(n))) ==> r == Num(n)
    ensures to.Some? && to.value.Str? && AllSpace(to.value.s) ==> r == Num(0)
  {
    ParseIntTextAll();
    match to
    case None => Null
    case Some(Num(n)) => Num(n)
    case Some(Str(s)) => BlankIsZero(s); (match ParseInteger(s) case Some(n) => Num(n) case None => Null)
    case Some(Bool(b)) => Num(if b then 1 else 0)
    case Some(Null) => Num(0)
    case Some(Arr(_)) => Null
    case Some(Obj(_)) => Null
  }

  lemma ParseIntTextAll()
    ensures forall n :: ParseInteger(IntText(n)) == Some(n)
  {
    forall n ensures ParseInteger(IntText(n)) == Some(n) {
      ParseIntText(n);
    }
  }
}

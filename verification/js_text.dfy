/** The JavaScript built-ins the monitor leans on, stated over `string`
    (a sequence of characters): `String.prototype.trim`, `parseInt(_, 10)`
    (section 19.2.5 of ECMA-262), `replace(/,/g, "")` and the decimal text
    of a non-negative integral Number.

    The functions carry only light contracts; what they guarantee is stated
    in the lemmas after each of them, so that the guarantees are brought in
    where a proof needs them and nowhere else. */
module JsText {

  /** A JavaScript Number as the monitor produces it: `parseInt` and `+`
      only ever yield an integral value or NaN. Negative zero is folded into
      zero: it prints as "0" and compares `>= 0`, so nothing observes it. */
  datatype JsNum = Num(n: int) | NaN

  /** ECMAScript WhiteSpace and LineTerminator code points: the set that
      `trim` removes and that `parseInt` skips at the start. */
  predicate IsJsSpace(c: char) {
    c == '\t' || c == '\n' || c == '\U{B}' || c == '\U{C}' || c == '\r' ||
    c == ' ' || c == '\U{A0}' || c == '\U{1680}' ||
    ('\U{2000}' <= c <= '\U{200A}') ||
    c == '\U{2028}' || c == '\U{2029}' || c == '\U{202F}' || c == '\U{205F}' ||
    c == '\U{3000}' || c == '\U{FEFF}'
  }

  /** A decimal digit as radix 10 and the regular expression `\d` see it. */
  predicate IsDigit(c: char) {
    '0' <= c <= '9'
  }

  predicate AllDigits(s: string) {
    forall i :: 0 <= i < |s| ==> IsDigit(s[i])
  }

  predicate AllSpace(s: string) {
    forall i :: 0 <= i < |s| ==> IsJsSpace(s[i])
  }

  // ---------------------------------------------------------------------
  // trim

  /** `s` with its leading white space removed. */
  function TrimStart(s: string): (r: string)
    ensures |r| <= |s|
  {
    if s == [] || !IsJsSpace(s[0]) then s else TrimStart(s[1..])
  }

  /** What `TrimStart` removes is white space, and it stops at the first
      character that is not. */
  lemma {:induction false} TrimStartSpec(s: string)
    ensures TrimStart(s) == s[|s| - |TrimStart(s)|..]
    ensures forall i :: 0 <= i < |s| - |TrimStart(s)| ==> IsJsSpace(s[i])
    ensures TrimStart(s) == [] || !IsJsSpace(TrimStart(s)[0])
  {
    if s != [] && IsJsSpace(s[0]) {
      TrimStartSpec(s[1..]);
    }
  }

  /** `s` with its trailing white space removed. */
  function TrimEnd(s: string): (r: string)
    ensures |r| <= |s|
  {
    if s == [] || !IsJsSpace(s[|s| - 1]) then s else TrimEnd(s[..|s| - 1])
  }

  lemma {:induction false} TrimEndSpec(s: string)
    ensures TrimEnd(s) == s[..|TrimEnd(s)|]
    ensures forall i :: |TrimEnd(s)| <= i < |s| ==> IsJsSpace(s[i])
    ensures TrimEnd(s) == [] || !IsJsSpace(TrimEnd(s)[|TrimEnd(s)| - 1])
  {
    if s != [] && IsJsSpace(s[|s| - 1]) {
      var init := s[..|s| - 1];
      TrimEndSpec(init);
    }
  }

  /** `s.trim()`: leading and trailing white space removed. */
  function Trim(s: string): (r: string)
    ensures |r| <= |s|
  {
    TrimEnd(TrimStart(s))
  }

  /** `r` is the slice of `s` starting at `k`, and everything of `s` around
      it is white space. */
  ghost predicate TrimmedAt(s: string, k: nat, r: string) {
    && k + |r| <= |s|
    && r == s[k..k + |r|]
    && (forall i :: 0 <= i < k ==> IsJsSpace(s[i]))
    && (forall i :: k + |r| <= i < |s| ==> IsJsSpace(s[i]))
  }

  /** What `trim` leaves: the slice of `s` between its leading and its
      trailing white space. */
  lemma TrimSpec(s: string)
    ensures exists k: nat :: TrimmedAt(s, k, Trim(s))
  {
    var t := TrimStart(s);
    var r := TrimEnd(t);
    var k: nat := |s| - |t|;
    TrimStartSpec(s);
    TrimEndSpec(t);
    assert r == s[k..k + |r|];
    forall i | k + |r| <= i < |s|
      ensures IsJsSpace(s[i])
    {
      assert s[i] == t[i - k];
    }
    assert TrimmedAt(s, k, Trim(s));
  }

  /** A non-empty result starts and ends with a character that is not
      white space. */
  lemma TrimEnds(s: string)
    ensures Trim(s) != [] ==> !IsJsSpace(Trim(s)[0]) && !IsJsSpace(Trim(s)[|Trim(s)| - 1])
  {
    var t := TrimStart(s);
    var r := TrimEnd(t);
    TrimStartSpec(s);
    TrimEndSpec(t);
    if r != [] {
      assert r[0] == t[0];
    }
  }

  /** `trim` gives the empty string exactly when `s` is blank. */
  lemma TrimBlank(s: string)
    ensures Trim(s) == [] <==> AllSpace(s)
  {
    TrimSpec(s);
    var r := Trim(s);
    var k: nat :| TrimmedAt(s, k, r);
    assert k + |r| <= |s| && r == s[k..k + |r|];
    if r == [] {
    } else {
      TrimEnds(s);
      assert s[k] == r[0];
    }
  }

  /** Text without white space at either end is left as it is. */
  lemma TrimUnpadded(s: string)
    requires s != [] && !IsJsSpace(s[0]) && !IsJsSpace(s[|s| - 1])
    ensures Trim(s) == s
  {
  }

  // ---------------------------------------------------------------------
  // replace(/,/g, "")

  /** `s.replace(/,/g, "")`: every comma removed. */
  function StripCommas(s: string): (r: string)
    ensures |r| <= |s|
  {
    if s == [] then []
    else if s[0] == ',' then StripCommas(s[1..])
    else [s[0]] + StripCommas(s[1..])
  }

  /** No comma is left, and text without commas is untouched. */
  lemma {:induction false} StripCommasSpec(s: string)
    ensures forall i :: 0 <= i < |StripCommas(s)| ==> StripCommas(s)[i] != ','
    ensures (forall i :: 0 <= i < |s| ==> s[i] != ',') ==> StripCommas(s) == s
  {
    if s != [] {
      StripCommasSpec(s[1..]);
    }
  }

  /** The commas are deleted, not replaced: what remains is every other
      character of `s`, each as often as in `s`. */
  lemma {:induction false} StripCommasKeeps(s: string)
    ensures multiset(StripCommas(s)) == multiset(s)[',' := 0]
  {
    if s != [] {
      StripCommasKeeps(s[1..]);
      assert s == [s[0]] + s[1..];
      if s[0] != ',' {
        assert StripCommas(s) == [s[0]] + StripCommas(s[1..]);
      }
    }
  }

  /** Removing commas distributes over concatenation, so each comma-free
      piece of a number survives in place: "1,234" becomes "1234". */
  lemma {:induction false} StripCommasConcat(a: string, b: string)
    ensures StripCommas(a + b) == StripCommas(a) + StripCommas(b)
  {
    if a != [] {
      assert (a + b)[1..] == a[1..] + b;
      StripCommasConcat(a[1..], b);
      if a[0] != ',' {
        assert [a[0]] + (StripCommas(a[1..]) + StripCommas(b)) == ([a[0]] + StripCommas(a[1..])) + StripCommas(b);
      }
    } else {
      assert a + b == b;
    }
  }

  // ---------------------------------------------------------------------
  // parseInt(_, 10)

  /** The longest prefix of `s` made of decimal digits: the run that
      `parseInt` reads after the sign, and the run `\d+` captures. */
  function DigitPrefix(s: string): (d: string)
    ensures |d| <= |s|
  {
    if s == [] || !IsDigit(s[0]) then [] else [s[0]] + DigitPrefix(s[1..])
  }

  lemma {:induction false} DigitPrefixSpec(s: string)
    ensures DigitPrefix(s) == s[..|DigitPrefix(s)|]
    ensures AllDigits(DigitPrefix(s))
    ensures |DigitPrefix(s)| == |s| || !IsDigit(s[|DigitPrefix(s)|])
  {
    if s != [] && IsDigit(s[0]) {
      DigitPrefixSpec(s[1..]);
    }
  }

  /** Digits followed by a non-digit (or nothing): the digits are the
      whole prefix. */
  lemma {:induction false} DigitPrefixStops(d: string, rest: string)
    requires AllDigits(d)
    requires rest == [] || !IsDigit(rest[0])
    ensures DigitPrefix(d + rest) == d
  {
    if d != [] {
      assert (d + rest)[1..] == d[1..] + rest;
      DigitPrefixStops(d[1..], rest);
    } else {
      assert d + rest == rest;
    }
  }

  /** The value of a decimal digit (0 for any other character). */
  function DigitValue(c: char): (v: nat)
    ensures v < 10
  {
    if IsDigit(c) then (c - '0') as int else 0
  }

  /** The value of a string of decimal digits, most significant first. */
  function DigitsValue(d: string): nat {
    if d == [] then 0 else DigitsValue(d[..|d| - 1]) * 10 + DigitValue(d[|d| - 1])
  }

  /** `parseInt(s, 10)`: skip leading white space, take an optional sign,
      then the longest run of digits; NaN when that run is empty. */
  function ParseInt(s: string): JsNum
    decreases |s|
  {
    if s == [] then NaN
    else if IsJsSpace(s[0]) then ParseInt(s[1..])
    else if s[0] == '-' then Negate(ParseDigits(s[1..]))
    else if s[0] == '+' then ParseDigits(s[1..])
    else ParseDigits(s)
  }

  /** Unary minus on a value `parseInt` produced (-0 is 0). */
  function Negate(v: JsNum): JsNum {
    if v.NaN? then NaN else Num(-v.n)
  }

  /** The digit run at the start of `u`, read in base 10; NaN when `u` does
      not start with a digit. */
  function ParseDigits(u: string): JsNum {
    if u == [] || !IsDigit(u[0]) then NaN else Num(DigitsFrom(u, 0))
  }

  /** Reads digits from the front of `u` into `acc` until a non-digit. */
  function DigitsFrom(u: string, acc: nat): nat
    decreases |u|
  {
    if u == [] || !IsDigit(u[0]) then acc else DigitsFrom(u[1..], acc * 10 + DigitValue(u[0]))
  }

  /** Reading stops at the first non-digit. */
  lemma {:induction false} DigitsFromStops(d: string, rest: string, acc: nat)
    requires AllDigits(d)
    requires rest == [] || !IsDigit(rest[0])
    ensures DigitsFrom(d + rest, acc) == DigitsFrom(d, acc)
  {
    if d == [] {
      assert d + rest == rest;
    } else {
      assert (d + rest)[1..] == d[1..] + rest;
      DigitsFromStops(d[1..], rest, acc * 10 + DigitValue(d[0]));
    }
  }

  /** One more digit at the end multiplies by ten and adds it. */
  lemma {:induction false} DigitsFromSnoc(d: string, c: char, acc: nat)
    requires AllDigits(d) && IsDigit(c)
    ensures DigitsFrom(d + [c], acc) == DigitsFrom(d, acc) * 10 + DigitValue(c)
  {
    if d != [] {
      assert (d + [c])[1..] == d[1..] + [c];
      DigitsFromSnoc(d[1..], c, acc * 10 + DigitValue(d[0]));
    }
  }

  /** Reading from the front agrees with the value read from the back. */
  lemma {:induction false} DigitsFromValue(d: string)
    requires AllDigits(d)
    ensures DigitsFrom(d, 0) == DigitsValue(d)
  {
    if d != [] {
      var init := d[..|d| - 1];
      DigitsFromValue(init);
      assert init + [d[|d| - 1]] == d;
      DigitsFromSnoc(init, d[|d| - 1], 0);
    }
  }

  /** After the sign, `parseInt` reads exactly the longest run of leading
      digits: NaN when that run is empty, its value otherwise. */
  lemma ParseDigitsIsPrefix(u: string)
    ensures ParseDigits(u) == if DigitPrefix(u) == [] then NaN else Num(DigitsValue(DigitPrefix(u)))
  {
    DigitPrefixSpec(u);
    var d := DigitPrefix(u);
    if d != [] {
      assert u == d + u[|d|..];
      DigitsFromStops(d, u[|d|..], 0);
      DigitsFromValue(d);
    }
  }

  /** A text with no digit parses to NaN, and only a minus sign makes the
      result negative. */
  lemma {:induction false} ParseIntSpec(s: string)
    ensures (forall i :: 0 <= i < |s| ==> !IsDigit(s[i])) ==> ParseInt(s) == NaN
    ensures ParseInt(s).Num? && ParseInt(s).n < 0 ==> exists i :: 0 <= i < |s| && s[i] == '-'
    decreases |s|
  {
    if s != [] && IsJsSpace(s[0]) {
      ParseIntSpec(s[1..]);
      if ParseInt(s).Num? && ParseInt(s).n < 0 {
        var i :| 0 <= i < |s[1..]| && s[1..][i] == '-';
        assert s[i + 1] == '-';
      }
      if forall i :: 0 <= i < |s| ==> !IsDigit(s[i]) {
        assert forall i :: 0 <= i < |s[1..]| ==> !IsDigit(s[1..][i]) by {
          forall i | 0 <= i < |s[1..]| ensures !IsDigit(s[1..][i]) {
            assert s[1..][i] == s[i + 1];
          }
        }
      }
    } else if s != [] && (s[0] == '-' || s[0] == '+') && |s| > 1 {
      assert s[1..][0] == s[1];
    }
  }

  /** `parseInt` reads a digit run and ignores whatever non-digit text
      follows it: `parseInt("1234abc", 10) == 1234`. */
  lemma ParseIntDigits(d: string, rest: string)
    requires d != [] && AllDigits(d)
    requires rest == [] || !IsDigit(rest[0])
    ensures ParseInt(d + rest) == Num(DigitsValue(d))
  {
    var s := d + rest;
    assert s[0] == d[0];
    assert !IsJsSpace(s[0]) && s[0] != '-' && s[0] != '+';
    DigitsFromStops(d, rest, 0);
    DigitsFromValue(d);
  }

  // ---------------------------------------------------------------------
  // Number to string

  /** The digit character for `k < 10`. */
  function DigitChar(k: nat): (c: char)
    requires k < 10
    ensures IsDigit(c) && (c - '0') as int == k
  {
    ('0' as int + k) as char
  }

  /** The decimal text of a non-negative integer, as template interpolation
      of an integral Number below 10^21 prints it: no sign, no leading zero. */
  function NatToString(n: nat): (s: string)
    ensures |s| > 0
  {
    if n < 10 then [DigitChar(n)] else NatToString(n / 10) + [DigitChar(n % 10)]
  }

  /** The text is all digits, has no leading zero (zero prints as "0")
      and reads back as `n`. */
  lemma {:induction false} NatToStringSpec(n: nat)
    ensures AllDigits(NatToString(n))
    ensures DigitsValue(NatToString(n)) == n
    ensures NatToString(n)[0] == '0' ==> n == 0
    ensures NatToString(n)[0] == '0' ==> NatToString(n) == "0"
  {
    if n >= 10 {
      NatToStringSpec(n / 10);
      var s := NatToString(n);
      assert s[..|s| - 1] == NatToString(n / 10);
    }
  }

  /** Printing a count and parsing it back gives the count again. */
  lemma ParseIntOfNatToString(n: nat)
    ensures ParseInt(NatToString(n)) == Num(n)
  {
    var s := NatToString(n);
    NatToStringSpec(n);
    assert s + [] == s;
    ParseIntDigits(s, []);
  }
}

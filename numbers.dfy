/** `double.TryParse` restricted to the plain decimal literals an NMEA receiver emits:
    an optional sign, decimal digits, and at most one decimal point, with at least one
    digit. The literal is scanned left to right; numbers are exact reals, not doubles. */
module Numbers {
  import opened Wrappers

  predicate IsDigit(c: char) { '0' <= c <= '9' }

  function DigitValue(c: char): (d: nat)
    requires IsDigit(c)
    ensures d < 10
  {
    c as int - '0' as int
  }

  /** Scans the digits before the point; `whole` is their value so far and `digits` how
      many have been seen. */
  function ScanWhole(s: string, whole: nat, digits: nat): Option<real>
    decreases |s|
  {
    if s == [] then (if digits > 0 then Some(whole as real) else None)
    else if IsDigit(s[0]) then ScanWhole(s[1..], 10 * whole + DigitValue(s[0]), digits + 1)
    else if s[0] == '.' then ScanFraction(s[1..], whole, 0, 1, digits)
    else None
  }

  /** Scans the digits after the point: their value `fraction` is scaled by `scale`. */
  function ScanFraction(s: string, whole: nat, fraction: nat, scale: nat, digits: nat): Option<real>
    requires scale > 0
    decreases |s|
  {
    if s == [] then (if digits > 0 then Some(whole as real + fraction as real / scale as real) else None)
    else if IsDigit(s[0]) then ScanFraction(s[1..], whole, 10 * fraction + DigitValue(s[0]), 10 * scale, digits + 1)
    else None
  }

  /** The stand-in for `double.TryParse(s, out value)`: `Some(value)` when it returns true,
      `None` when it returns false. The empty field never parses. */
  function ParseDouble(s: string): (r: Option<real>)
    ensures r.Some? ==> s != ""
  {
    if |s| > 0 && (s[0] == '-' || s[0] == '+') then
      match ScanWhole(s[1..], 0, 0)
      case None => None
      case Some(v) => Some(if s[0] == '-' then -v else v)
    else ScanWhole(s, 0, 0)
  }

  predicate AllDigits(s: string)
  {
    forall i :: 0 <= i < |s| ==> IsDigit(s[i])
  }

  function Pow10(n: nat): (p: nat)
    ensures p >= 1
  {
    if n == 0 then 1 else 10 * Pow10(n - 1)
  }

  /** The value of a string of decimal digits, most significant digit first. */
  function DigitsValue(s: string): nat
    requires AllDigits(s)
  {
    if s == [] then 0 else 10 * DigitsValue(s[..|s| - 1]) + DigitValue(s[|s| - 1])
  }

  /** Scanning more digits after the digits `p` already scanned gives the value of all of them. */
  lemma {:induction false} ScanWholeDigits(p: string, s: string, digits: nat)
    requires AllDigits(p) && AllDigits(s)
    ensures ScanWhole(s, DigitsValue(p), digits)
            == if digits + |s| > 0 then Some(DigitsValue(p + s) as real) else None
    decreases |s|
  {
    if s != [] {
      var q := p + [s[0]];
      assert q[..|q| - 1] == p;
      assert DigitsValue(q) == 10 * DigitsValue(p) + DigitValue(s[0]);
      ScanWholeDigits(q, s[1..], digits + 1);
      assert q + s[1..] == p + s;
    } else {
      assert p + s == p;
    }
  }

  /** Reaching the decimal point after the digits `p + w` hands over to the fraction. */
  lemma {:induction false} ScanWholePoint(p: string, w: string, f: string, digits: nat)
    requires AllDigits(p) && AllDigits(w)
    ensures ScanWhole(w + "." + f, DigitsValue(p), digits)
            == ScanFraction(f, DigitsValue(p + w), 0, 1, digits + |w|)
    decreases |w|
  {
    if w == [] {
      assert w + "." + f == ['.'] + f;
      assert (w + "." + f)[1..] == f;
      assert p + w == p;
    } else {
      var q := p + [w[0]];
      assert q[..|q| - 1] == p;
      assert (w + "." + f)[1..] == w[1..] + "." + f;
      ScanWholePoint(q, w[1..], f, digits + 1);
      assert q + w[1..] == p + w;
    }
  }

  /** Scanning more fraction digits after the fraction digits `p` already scanned gives
      their value over the matching power of ten. */
  lemma {:induction false} ScanFractionDigits(whole: nat, p: string, s: string, digits: nat)
    requires AllDigits(p) && AllDigits(s)
    ensures ScanFraction(s, whole, DigitsValue(p), Pow10(|p|), digits)
            == if digits + |s| > 0
               then Some(whole as real + DigitsValue(p + s) as real / Pow10(|p + s|) as real)
               else None
    decreases |s|
  {
    if s != [] {
      var q := p + [s[0]];
      assert q[..|q| - 1] == p;
      assert DigitsValue(q) == 10 * DigitsValue(p) + DigitValue(s[0]);
      assert Pow10(|q|) == 10 * Pow10(|p|);
      ScanFractionDigits(whole, q, s[1..], digits + 1);
      assert q + s[1..] == p + s;
    } else {
      assert p + s == p;
    }
  }

  /** Unsigned digits scanned from the start give their value. */
  lemma ScanDigits(w: string)
    requires AllDigits(w) && |w| > 0
    ensures ScanWhole(w, 0, 0) == Some(DigitsValue(w) as real)
  {
    assert DigitsValue("") == 0;
    ScanWholeDigits("", w, 0);
    assert "" + w == w;
  }

  /** A literal of decimal digits `w`, optionally signed, parses to the value of its digits. */
  lemma ParseInteger(sign: string, w: string)
    requires sign == "" || sign == "-" || sign == "+"
    requires AllDigits(w) && |w| > 0
    ensures ParseDouble(sign + w)
            == Some(if sign == "-" then -(DigitsValue(w) as real) else DigitsValue(w) as real)
  {
    ScanDigits(w);
    assert IsDigit(w[0]);
    SignedScan(sign, w);
  }

  /** A literal `w.f` of decimal digits, optionally signed and with at least one digit,
      parses to w + f / 10^|f|. */
  lemma ParseDecimal(sign: string, w: string, f: string)
    requires sign == "" || sign == "-" || sign == "+"
    requires AllDigits(w) && AllDigits(f) && |w| + |f| > 0
    ensures ParseDouble(sign + (w + "." + f))
            == Some(if sign == "-" then -DecimalValue(w, f) else DecimalValue(w, f))
  {
    assert DigitsValue("") == 0;
    ScanWholePoint("", w, f, 0);
    assert "" + w == w;
    ScanFractionDigits(DigitsValue(w), "", f, |w|);
    assert "" + f == f;
    SignedScan(sign, w + "." + f);
  }

  /** An optional sign in front of an unsigned literal negates or keeps what it scans to. */
  lemma SignedScan(sign: string, t: string)
    requires sign == "" || sign == "-" || sign == "+"
    requires sign == "" && t != [] ==> t[0] != '-' && t[0] != '+'
    ensures ParseDouble(sign + t) == match ScanWhole(t, 0, 0)
                                    case None => None
                                    case Some(v) => Some(if sign == "-" then -v else v)
  {
    if sign == "" {
      assert sign + t == t;
    } else {
      assert (sign + t)[0] == sign[0];
      assert (sign + t)[1..] == t;
    }
  }

  /** A character other than a digit or the point ends the whole digits without a value. */
  lemma {:induction false} ScanWholeStray(w: string, c: char, t: string, whole: nat, digits: nat)
    requires AllDigits(w) && !IsDigit(c) && c != '.'
    ensures ScanWhole(w + [c] + t, whole, digits) == None
    decreases |w|
  {
    if w == [] {
      assert w + [c] + t == [c] + t;
    } else {
      assert (w + [c] + t)[1..] == w[1..] + [c] + t;
      ScanWholeStray(w[1..], c, t, 10 * whole + DigitValue(w[0]), digits + 1);
    }
  }

  /** After the point, any character other than a digit, a second point included, ends the
      fraction without a value. */
  lemma {:induction false} ScanFractionStray(f: string, c: char, t: string, whole: nat, fraction: nat, scale: nat, digits: nat)
    requires scale > 0
    requires AllDigits(f) && !IsDigit(c)
    ensures ScanFraction(f + [c] + t, whole, fraction, scale, digits) == None
    decreases |f|
  {
    if f == [] {
      assert f + [c] + t == [c] + t;
    } else {
      assert (f + [c] + t)[1..] == f[1..] + [c] + t;
      ScanFractionStray(f[1..], c, t, whole, 10 * fraction + DigitValue(f[0]), 10 * scale, digits + 1);
    }
  }

  /** `TryParse` fails on a field whose digits, after an optional sign, are followed by a
      character that is neither a digit nor the point. */
  lemma ParseRejectsStray(sign: string, w: string, c: char, t: string)
    requires sign == "" || sign == "-" || sign == "+"
    requires AllDigits(w) && !IsDigit(c) && c != '.'
    requires sign == "" && w == [] ==> c != '-' && c != '+'
    ensures ParseDouble(sign + (w + [c] + t)) == None
  {
    ScanWholeStray(w, c, t, 0, 0);
    SignedScan(sign, w + [c] + t);
  }

  /** `TryParse` fails on a field with a character after the point that is not a digit;
      a second point is one such character. */
  lemma ParseRejectsAfterPoint(sign: string, w: string, f: string, c: char, t: string)
    requires sign == "" || sign == "-" || sign == "+"
    requires AllDigits(w) && AllDigits(f) && !IsDigit(c)
    ensures ParseDouble(sign + (w + "." + (f + [c] + t))) == None
  {
    assert DigitsValue("") == 0;
    ScanWholePoint("", w, f + [c] + t, 0);
    ScanFractionStray(f, c, t, DigitsValue("" + w), 0, 1, |w|);
    SignedScan(sign, w + "." + (f + [c] + t));
  }

  /** `TryParse` fails on a field without a single digit: a bare sign, a bare point or both. */
  lemma ParseRejectsNoDigits(sign: string, point: string)
    requires sign == "" || sign == "-" || sign == "+"
    requires point == "" || point == "."
    ensures ParseDouble(sign + point) == None
  {
    SignedScan(sign, point);
  }

  /** The value of the decimal literal with whole digits `w` and fraction digits `f`. */
  function DecimalValue(w: string, f: string): real
    requires AllDigits(w) && AllDigits(f)
  {
    DigitsValue(w) as real + DigitsValue(f) as real / Pow10(|f|) as real
  }
}

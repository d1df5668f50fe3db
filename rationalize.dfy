/**
 * Reading a decimal string such as "12.375" into a cln rational, as
 * `rationalize<cln::cl_RA>` does: split at '.', read the part before the
 * delimiter as an integer, read the part after it as an integer and divide
 * it by ten to the power of its length, and add the two.
 */
module Rationalize {
  import opened Integers
  import opened Wrappers
  import opened ClnOperations

  /** Number of '.' delimiters in `s`. */
  function CountDots(s: string): nat
  {
    if s == [] then 0 else (if s[0] == '.' then 1 else 0) + CountDots(s[1..])
  }

  predicate DotFree(s: string)
  {
    forall i :: 0 <= i < |s| ==> s[i] != '.'
  }

  /**
   * `boost::split` at every '.': the pieces between delimiters, empty pieces
   * included, so that there is always one piece more than there are dots.
   */
  function SplitDots(s: string): (parts: seq<string>)
    ensures |parts| == CountDots(s) + 1
    ensures forall i :: 0 <= i < |parts| ==> DotFree(parts[i])
  {
    if s == [] then [""]
    else
      var rest := SplitDots(s[1..]);
      if s[0] == '.' then [""] + rest
      else [[s[0]] + rest[0]] + rest[1..]
  }

  /** The inverse of `SplitDots`: the pieces joined with '.' between them. */
  function JoinDots(parts: seq<string>): string
    requires |parts| > 0
  {
    if |parts| == 1 then parts[0] else parts[0] + "." + JoinDots(parts[1..])
  }

  lemma {:induction false} SplitThenJoin(s: string)
    ensures JoinDots(SplitDots(s)) == s
  {
    if s != [] {
      var rest := SplitDots(s[1..]);
      SplitThenJoin(s[1..]);
      if s[0] == '.' {
        assert SplitDots(s)[1..] == rest;
      } else if |rest| == 1 {
        assert JoinDots(SplitDots(s)) == [s[0]] + rest[0];
      } else {
        assert SplitDots(s)[1..] == rest[1..];
        assert JoinDots(rest) == rest[0] + "." + JoinDots(rest[1..]);
        assert JoinDots(SplitDots(s)) == ([s[0]] + rest[0]) + "." + JoinDots(rest[1..]);
      }
    }
  }

  /** Splitting a string that starts with a dot-free piece `p` glues `p` to the first piece. */
  lemma {:induction false} SplitPrefix(p: string, t: string)
    requires DotFree(p)
    ensures SplitDots(p + t) == [p + SplitDots(t)[0]] + SplitDots(t)[1..]
  {
    if p == [] {
      assert p + t == t;
      assert p + SplitDots(t)[0] == SplitDots(t)[0];
      assert [SplitDots(t)[0]] + SplitDots(t)[1..] == SplitDots(t);
    } else {
      assert (p + t)[1..] == p[1..] + t;
      SplitPrefix(p[1..], t);
      assert [p[0]] + (p[1..] + SplitDots(t)[0]) == p + SplitDots(t)[0];
    }
  }

  lemma {:induction false} JoinThenSplit(parts: seq<string>)
    requires |parts| > 0
    requires forall i :: 0 <= i < |parts| ==> DotFree(parts[i])
    ensures SplitDots(JoinDots(parts)) == parts
  {
    if |parts| == 1 {
      SplitPrefix(parts[0], "");
      assert parts[0] + "" == parts[0];
    } else {
      var tail := JoinDots(parts[1..]);
      JoinThenSplit(parts[1..]);
      assert ("." + tail)[1..] == tail;
      assert SplitDots("." + tail) == [""] + parts[1..];
      SplitPrefix(parts[0], "." + tail);
      assert parts[0] + "." + tail == parts[0] + ("." + tail);
      assert parts[0] + "" == parts[0];
    }
  }

  predicate IsDigit(c: char)
  {
    '0' <= c <= '9'
  }

  predicate AllDigits(s: string)
  {
    forall i :: 0 <= i < |s| ==> IsDigit(s[i])
  }

  /** The value of a string of decimal digits, most significant digit first. */
  function DigitsValue(s: string): nat
    requires AllDigits(s)
  {
    if s == [] then 0 else DigitsValue(s[..|s| - 1]) * 10 + ((s[|s| - 1] as int) - ('0' as int))
  }

  lemma {:induction false} DigitsValueAppend(a: string, b: string)
    requires AllDigits(a) && AllDigits(b)
    ensures AllDigits(a + b)
    ensures DigitsValue(a + b) == DigitsValue(a) * Pow(10, |b|) + DigitsValue(b)
  {
    var ab := a + b;
    assert AllDigits(ab) by {
      forall i | 0 <= i < |ab| ensures IsDigit(ab[i]) {
        if i >= |a| {
          assert ab[i] == b[i - |a|];
        }
      }
    }
    if b == [] {
      assert ab == a;
    } else {
      var b' := b[..|b| - 1];
      assert ab[..|ab| - 1] == a + b';
      DigitsValueAppend(a, b');
      var d := (b[|b| - 1] as int) - ('0' as int);
      var q := Pow(10, |b'|);
      assert Pow(10, |b|) == 10 * q;
      assert DigitsValue(ab) == DigitsValue(a + b') * 10 + d;
      assert DigitsValue(b) == DigitsValue(b') * 10 + d;
      ShiftDigit(DigitsValue(a), q, DigitsValue(b'), d);
    }
  }

  /** Appending one digit to `a * q + b` shifts both parts by one place. */
  lemma ShiftDigit(a: int, q: int, b: int, d: int)
    ensures (a * q + b) * 10 + d == a * (10 * q) + (b * 10 + d)
  {
  }

  /** The decimal digits of `n`, without leading zeros ("0" for zero). */
  function NatToDigits(n: nat): (s: string)
    ensures |s| > 0 && AllDigits(s)
    ensures DigitsValue(s) == n
  {
    var last := ['0' + (n % 10) as char];
    assert DigitsValue(last) == n % 10 by {
      assert last[..0] == [];
    }
    if n < 10 then last
    else
      var front := NatToDigits(n / 10);
      DigitsValueAppend(front, last);
      front + last
  }

  /** Decimal text of an integer, with a '-' in front of a negative one. */
  function IntToString(n: int): string
  {
    if n < 0 then "-" + NatToDigits(-n) else NatToDigits(n)
  }

  /**
   * Reading an integer as cln's reader does for plain decimal integers: an
   * optional sign followed by one or more digits; anything else is rejected.
   */
  function ParseInteger(s: string): (r: Option<int>)
    ensures r.Some? ==> |s| > 0
    ensures r.Some? && AllDigits(s) ==> r.value == DigitsValue(s)
  {
    if |s| > 0 && (s[0] == '-' || s[0] == '+') then
      var d := s[1..];
      if |d| > 0 && AllDigits(d) then Some(if s[0] == '-' then -(DigitsValue(d) as int) else DigitsValue(d))
      else None
    else if |s| > 0 && AllDigits(s) then Some(DigitsValue(s))
    else None
  }

  lemma ParsePrintRoundTrip(n: int)
    ensures ParseInteger(IntToString(n)) == Some(n)
  {
    if n < 0 {
      assert ("-" + NatToDigits(-n))[1..] == NatToDigits(-n);
    } else {
      assert IsDigit(NatToDigits(n)[0]);
    }
  }

  lemma ParseDigits(s: string)
    requires AllDigits(s) && |s| > 0
    ensures ParseInteger(s) == Some(DigitsValue(s) as int)
  {
    assert IsDigit(s[0]);
  }

  datatype ParseError =
    | InvalidArgument  // more than one delimiter: `std::invalid_argument`
    | Malformed        // a piece the cln reader rejects

  /** The whole part: an empty piece adds nothing, otherwise it is read as an integer. */
  function WholePart(p: string): Option<int>
  {
    if p == "" then Some(0) else ParseInteger(p)
  }

  lemma ValueArithmetic(x: int, y: int, p: int, bn: int, bd: int, rn: int, rd: int)
    requires bd != 0 && rn * bd == (x * bd + bn) * rd && bn * p == y * bd
    ensures rn * p == (x * p + y) * rd
  {
    calc {
      (rn * p) * bd;
      (rn * bd) * p;
      ((x * bd + bn) * rd) * p;
      (x * bd) * rd * p + (bn * p) * rd;
      (x * bd) * rd * p + (y * bd) * rd;
      ((x * p + y) * rd) * bd;
    }
    MulCancel(rn * p, (x * p + y) * rd, bd);
  }

  /** The integer `whole` plus `frac` over ten to the `k`. */
  function Combine(whole: int, frac: int, k: nat): (r: Rational)
    ensures Canonical(r)
    ensures r.num * Pow(10, k) == (whole * Pow(10, k) + frac) * r.den
  {
    PowPositive(10, k);
    var p := Pow(10, k);
    var a := FromInt(whole);
    var b := MakeRational(frac, p);
    var r := Add(a, b);
    assert r.num * b.den == (whole * b.den + b.num) * r.den by {
      assert a.num == whole && a.den == 1;
    }
    ValueArithmetic(whole, frac, p, b.num, b.den, r.num, r.den);
    r
  }

  /** `rationalize<cln::cl_RA>` as written: the fraction is always added, whatever the sign of the whole part. */
  function Rationalize(s: string): (r: Result<Rational, ParseError>)
    ensures r.Failure? && r.error == InvalidArgument <==> CountDots(s) > 1
    ensures r.Success? ==> Canonical(r.value)
  {
    var parts := SplitDots(s);
    if |parts| > 2 then Failure(InvalidArgument)
    else
      var whole := WholePart(parts[0]);
      var frac := if |parts| > 1 then ParseInteger(parts[1]) else Some(0);
      if whole.None? || frac.None? then Failure(Malformed)
      else if |parts| > 1 then Success(Combine(whole.value, frac.value, |parts[1]|))
      else Success(FromInt(whole.value))
  }

  /**
   * The corrected reading: the fraction carries the sign written in front of
   * the whole part, so that "-1.5" is minus one and a half.
   */
  function RationalizeDecimal(s: string): (r: Result<Rational, ParseError>)
    ensures r.Failure? && r.error == InvalidArgument <==> CountDots(s) > 1
    ensures r.Success? ==> Canonical(r.value)
  {
    var parts := SplitDots(s);
    if |parts| > 2 then Failure(InvalidArgument)
    else
      var whole := WholePart(parts[0]);
      var frac := if |parts| > 1 then ParseInteger(parts[1]) else Some(0);
      if whole.None? || frac.None? then Failure(Malformed)
      else if |parts| > 1 then
        var negative := |parts[0]| > 0 && parts[0][0] == '-';
        Success(Combine(whole.value, if negative then -frac.value else frac.value, |parts[1]|))
      else Success(FromInt(whole.value))
  }

  /** The pieces of "w.f" are w and f. */
  lemma SplitTwo(w: string, f: string)
    requires DotFree(w) && DotFree(f)
    ensures SplitDots(w + "." + f) == [w, f]
  {
    JoinThenSplit([w, f]);
    assert JoinDots([w, f]) == w + "." + f;
  }

  /** The value the as-written reading gives to "w.f": w plus f over ten to the length of f. */
  lemma RationalizeValue(w: string, f: string, x: int, y: int)
    requires DotFree(w) && DotFree(f)
    requires WholePart(w) == Some(x) && ParseInteger(f) == Some(y)
    ensures Rationalize(w + "." + f) == Success(Combine(x, y, |f|))
  {
    SplitTwo(w, f);
    TwoParts(w + "." + f, w, f, x, y);
  }

  /** The as-written reading of a string that splits into a whole and a fractional piece. */
  lemma TwoParts(s: string, w: string, f: string, x: int, y: int)
    requires SplitDots(s) == [w, f]
    requires WholePart(w) == Some(x) && ParseInteger(f) == Some(y)
    ensures Rationalize(s) == Success(Combine(x, y, |f|))
  {
  }

  /** The corrected reading of a string that splits into a whole and a fractional piece. */
  lemma TwoPartsDecimal(s: string, w: string, f: string, x: int, y: int)
    requires SplitDots(s) == [w, f]
    requires WholePart(w) == Some(x) && ParseInteger(f) == Some(y)
    ensures RationalizeDecimal(s) == Success(Combine(x, if |w| > 0 && w[0] == '-' then -y else y, |f|))
  {
  }

  lemma DigitsDotFree(s: string)
    requires AllDigits(s)
    ensures DotFree(s)
  {
    forall i | 0 <= i < |s| ensures s[i] != '.' {
      assert IsDigit(s[i]);
    }
  }

  /** The signed whole part "±w" reads as ±w and starts with '-' exactly when negative. */
  lemma SignedWhole(negative: bool, w: string)
    requires AllDigits(w) && |w| > 0
    ensures var head := (if negative then "-" else "") + w;
      DotFree(head) && |head| > 0 && (head[0] == '-' <==> negative) &&
      WholePart(head) == Some(if negative then -(DigitsValue(w) as int) else DigitsValue(w))
  {
    var head := (if negative then "-" else "") + w;
    DigitsDotFree(w);
    assert IsDigit(w[0]);
    if negative {
      assert head[1..] == w;
      assert DotFree(head) by {
        forall i | 0 <= i < |head| ensures head[i] != '.' {
          if i > 0 {
            assert head[i] == w[i - 1];
          }
        }
      }
    } else {
      assert head == w;
    }
  }

  /** The corrected reading of "w.f" combines w with f, negated when w starts with '-'. */
  lemma RationalizeDecimalSigned(negative: bool, w: string, f: string, x: int, y: int)
    requires DotFree(w) && DotFree(f)
    requires WholePart(w) == Some(x) && ParseInteger(f) == Some(y)
    requires negative <==> |w| > 0 && w[0] == '-'
    ensures RationalizeDecimal(w + "." + f) == Success(Combine(x, if negative then -y else y, |f|))
  {
    SplitTwo(w, f);
    TwoPartsDecimal(w + "." + f, w, f, x, y);
  }

  lemma NegatedValue(n: int, d: int, x: int, y: int, p: int)
    requires n * p == (-x * p + -y) * d
    ensures n * p == -(x * p + y) * d
  {
  }

  lemma CombineNegated(x: int, y: int, k: nat)
    ensures var c := Combine(-x, -y, k); c.num * Pow(10, k) == -(x * Pow(10, k) + y) * c.den
  {
    var c := Combine(-x, -y, k);
    NegatedValue(c.num, c.den, x, y, Pow(10, k));
  }

  /**
   * The corrected reading gives a signed decimal "±w.f" the value ±(wf)/10^|f|,
   * where wf is the number written by the digits of w followed by those of f.
   */
  lemma RationalizeDecimalValue(negative: bool, w: string, f: string)
    requires AllDigits(w) && AllDigits(f) && |w| > 0 && |f| > 0
    ensures AllDigits(w + f)
    ensures var s := (if negative then "-" else "") + w + "." + f;
      var v: int := DigitsValue(w + f);
      var r := RationalizeDecimal(s);
      r.Success? && r.value.num * Pow(10, |f|) == (if negative then -v else v) * r.value.den
  {
    var head := (if negative then "-" else "") + w;
    var x, y := DigitsValue(w) as int, DigitsValue(f) as int;
    SignedWhole(negative, w);
    DigitsDotFree(f);
    ParseDigits(f);
    DigitsValueAppend(w, f);
    SignedCombine(negative, x, y, |f|, DigitsValue(w + f));
    RationalizeDecimalSigned(negative, head, f, if negative then -x else x, y);
  }

  /** Combining ±x with ±y over 10^k gives ±v where v = x * 10^k + y. */
  lemma SignedCombine(negative: bool, x: int, y: int, k: nat, v: int)
    requires v == x * Pow(10, k) + y
    ensures var c := Combine(if negative then -x else x, if negative then -y else y, k);
      c.num * Pow(10, k) == (if negative then -v else v) * c.den
  {
    if negative {
      CombineNegated(x, y, k);
    }
  }

  /** The as-written reading of "-1.5" is minus one half. */
  lemma RationalizeNegativeExample()
    ensures Rationalize("-1.5") == Success(Rational(-1, 2))
  {
    assert "-1.5" == "-1" + "." + "5";
    ExamplePieces();
    RationalizeValue("-1", "5", -1, 5);
    MinusOneHalf(Combine(-1, 5, 1));
  }

  /** The pieces of "-1.5": the whole part reads as -1 and the fraction as 5, neither holding a dot. */
  lemma ExamplePieces()
    ensures DotFree("-1") && DotFree("5")
    ensures WholePart("-1") == Some(-1) && ParseInteger("5") == Some(5)
  {
    assert ("-1")[1..] == "1";
    assert DigitsValue("1") == 1 by {
      assert ("1")[..0] == [];
    }
    assert DigitsValue("5") == 5 by {
      assert ("5")[..0] == [];
    }
  }

  /** The only rational in lowest terms worth -5/10 is -1/2. */
  lemma MinusOneHalf(r: Rational)
    requires Canonical(r) && r.num * Pow(10, 1) == (-1 * Pow(10, 1) + 5) * r.den
    ensures r == Rational(-1, 2)
  {
    assert r.num * 10 == -5 * r.den;
    assert r.num * 2 == -1 * r.den;
    assert Canonical(Rational(-1, 2)) by {
      DividesOne(Gcd(-1, 2));
    }
    CanonicalUnique(r, Rational(-1, 2));
  }

  /** The corrected reading of "-1.5" is minus three halves. */
  lemma RationalizeDecimalNegativeExample()
    ensures RationalizeDecimal("-1.5") == Success(Rational(-3, 2))
  {
    assert "-1.5" == "-" + "1" + "." + "5";
    assert "1" + "5" == "15";
    FifteenDigits();
    RationalizeDecimalValue(true, "1", "5");
    MinusThreeHalves(RationalizeDecimal("-1.5").value);
  }

  lemma FifteenDigits()
    ensures AllDigits("15") && DigitsValue("15") == 15
  {
    assert ("15")[..1] == "1";
    assert ("1")[..0] == [];
  }

  /** The only rational in lowest terms worth -15/10 is -3/2. */
  lemma MinusThreeHalves(r: Rational)
    requires Canonical(r) && r.num * Pow(10, 1) == -15 * r.den
    ensures r == Rational(-3, 2)
  {
    assert r.num * 10 == -15 * r.den;
    assert r.num * 2 == -3 * r.den;
    MinusThreeHalvesCanonical();
    CanonicalUnique(r, Rational(-3, 2));
  }

  lemma MinusThreeHalvesCanonical()
    ensures Canonical(Rational(-3, 2))
  {
    var g := Gcd(-3, 2);
    assert Divides(g, 2) && Divides(g, -3);
    DividesLinear(g, 2, -3, 2);
    DividesOne(g);
  }

  /** Both readings agree on strings without a '-' in front. */
  lemma RationalizeAgreesWhenNonNegative(s: string)
    requires |s| == 0 || s[0] != '-'
    ensures Rationalize(s) == RationalizeDecimal(s)
  {
    var parts := SplitDots(s);
    if |parts| == 2 && |parts[0]| > 0 {
      SplitThenJoin(s);
      assert s == parts[0] + "." + parts[1];
      assert parts[0][0] == s[0];
    }
  }
}

/** `gerar_numero_os`: the number of a new service order is `HAB-<year>-` followed by a
    sequence number of at least four digits, one past the last number issued that year.
    The year and the last order are parameters (the clock and the database are not part
    of this model). */
module OsNumber {
  import opened Wrappers
  import opened Text

  predicate IsDigit(c: char) {
    '0' <= c <= '9'
  }

  predicate AllDigits(s: string) {
    forall k :: 0 <= k < |s| ==> IsDigit(s[k])
  }

  function DigitChar(d: nat): char
    requires d < 10
  {
    ['0', '1', '2', '3', '4', '5', '6', '7', '8', '9'][d]
  }

  function DigitValue(c: char): nat
    requires IsDigit(c)
  {
    (c as int - '0' as int) as nat
  }

  /** Python's `str(n)` for a natural number: no leading zero except for `0` itself. */
  function Decimal(n: nat): (r: string)
    ensures r != [] && AllDigits(r)
    ensures r[0] == '0' <==> n == 0
    ensures n == 0 ==> r == "0"
  {
    if n < 10 then [DigitChar(n)] else Decimal(n / 10) + [DigitChar(n % 10)]
  }

  /** The value of a string of decimal digits. */
  function ValueOf(s: string): nat
    requires AllDigits(s)
  {
    if s == [] then 0 else 10 * ValueOf(s[..|s| - 1]) + DigitValue(s[|s| - 1])
  }

  /** Reading back the decimal form of `n` gives `n`. */
  lemma {:induction false} DecimalValue(n: nat)
    ensures ValueOf(Decimal(n)) == n
  {
    if n >= 10 {
      DecimalValue(n / 10);
      var s := Decimal(n);
      assert s[..|s| - 1] == Decimal(n / 10);
    }
  }

  /** `10` to the power `k`. */
  function Pow10(k: nat): (r: nat)
    ensures r >= 1
  {
    if k == 0 then 1 else 10 * Pow10(k - 1)
  }

  /** A number below `10^k` has at most `k` decimal digits, and one of at least `10^(k-1)`
      has at least `k`. */
  lemma {:induction false} DecimalLength(n: nat, k: nat)
    requires k >= 1
    decreases k
    ensures n < Pow10(k) ==> |Decimal(n)| <= k
    ensures n >= Pow10(k - 1) ==> |Decimal(n)| >= k
  {
    if k > 1 {
      DecimalLength(n / 10, k - 1);
      var p := Pow10(k - 1);
      assert p == 10 * Pow10(k - 2);
      if n >= 10 {
        assert |Decimal(n)| == |Decimal(n / 10)| + 1;
      }
      if n < p {
        assert n / 10 < Pow10(k - 2);
      } else {
        assert n / 10 >= Pow10(k - 2);
        assert n >= 10;
      }
    }
  }

  /** `count` zeros. */
  function Zeros(count: nat): (r: string)
    ensures |r| == count && AllDigits(r)
    ensures forall k :: 0 <= k < count ==> r[k] == '0'
  {
    if count == 0 then [] else Zeros(count - 1) + ['0']
  }

  /** Leading zeros do not change the value. */
  lemma {:induction false} ZerosValue(count: nat, s: string)
    requires AllDigits(s)
    decreases |s|, count
    ensures ValueOf(Zeros(count) + s) == ValueOf(s)
  {
    var z := Zeros(count);
    if s == [] {
      assert z + s == z;
      if count > 0 {
        ZerosValue(count - 1, []);
        assert Zeros(count - 1) + [] == Zeros(count - 1);
      }
    } else {
      var t := z + s;
      assert t[..|t| - 1] == z + s[..|s| - 1];
      ZerosValue(count, s[..|s| - 1]);
    }
  }

  /** Zero-padding to `width` characters: zeros, then `s`, with the value of `s` kept. */
  function ZeroPad(s: string, width: nat): (r: string)
    ensures |r| == if |s| >= width then |s| else width
    ensures r[|r| - |s|..] == s && forall k :: 0 <= k < |r| - |s| ==> r[k] == '0'
    ensures AllDigits(s) ==> AllDigits(r) && ValueOf(r) == ValueOf(s)
  {
    if |s| >= width then s
    else
      var z := Zeros(width - |s|);
      assert AllDigits(s) ==> ValueOf(z + s) == ValueOf(s) by {
        if AllDigits(s) {
          ZerosValue(width - |s|, s);
        }
      }
      z + s
  }

  /** Python's `f"{n:04d}"`: at least four characters, a minus sign counting as one. */
  function Format04(n: int): string {
    if n < 0 then "-" + ZeroPad(Decimal(-n), 3) else ZeroPad(Decimal(n), 4)
  }

  /** Below `10000` the field is exactly four digits holding `n`; from `10000` on it is
      `str(n)` itself, unpadded. */
  lemma Format04Width(n: nat)
    ensures n < 10000 ==> |Format04(n)| == 4 && AllDigits(Format04(n)) && ValueOf(Format04(n)) == n
    ensures n >= 10000 ==> Format04(n) == Decimal(n) && |Format04(n)| >= 5
  {
    DecimalLength(n, 4);
    DecimalLength(n, 5);
    DecimalValue(n);
  }

  /** Python's `s.split(sep)[-1]`: what follows the last `sep`, or all of `s`. */
  function AfterLast(s: string, sep: char): (r: string)
    decreases |s|
    ensures sep !in r && |r| <= |s| && r == s[|s| - |r|..]
    ensures |r| < |s| ==> s[|s| - |r| - 1] == sep
  {
    if s == [] then []
    else if s[|s| - 1] == sep then []
    else
      var init := s[..|s| - 1];
      var rest := AfterLast(init, sep);
      assert s[|s| - |rest| - 1..] == init[|init| - |rest|..] + [s[|s| - 1]];
      rest + [s[|s| - 1]]
  }

  /** Only digits and underscores. */
  predicate DigitsOrUnderscores(s: string) {
    forall k :: 0 <= k < |s| ==> IsDigit(s[k]) || s[k] == '_'
  }

  /** Digits with single underscores between them, as Python's `int` accepts. */
  predicate IsDigitGroup(s: string) {
    s != [] && IsDigit(s[0]) && IsDigit(s[|s| - 1]) && DigitsOrUnderscores(s)
    && forall k :: 0 <= k < |s| - 1 ==> s[k] == '_' ==> s[k + 1] != '_'
  }

  /** The digits of `s` in order, every `_` removed. */
  function DropUnderscores(s: string): (r: string)
    requires DigitsOrUnderscores(s)
    ensures AllDigits(r) && |r| <= |s|
    ensures AllDigits(s) ==> r == s
    ensures |s| == 1 ==> r == if s[0] == '_' then [] else s
  {
    if s == [] then []
    else (if s[0] == '_' then [] else [s[0]]) + DropUnderscores(s[1..])
  }

  /** One step of `DropUnderscores`: the first character goes when it is `_`. */
  lemma DropUnderscoresCons(s: string)
    requires DigitsOrUnderscores(s) && s != []
    ensures DigitsOrUnderscores(s[1..])
    ensures DropUnderscores(s) == (if s[0] == '_' then [] else [s[0]]) + DropUnderscores(s[1..])
  {
    var tail := s[1..];
    forall k | 0 <= k < |tail| ensures IsDigit(tail[k]) || tail[k] == '_' {
      assert tail[k] == s[k + 1];
    }
  }

  /** Both halves hold only digits and underscores exactly when the whole does. */
  lemma DigitsOrUnderscoresConcat(a: string, b: string)
    requires DigitsOrUnderscores(a) && DigitsOrUnderscores(b)
    ensures DigitsOrUnderscores(a + b)
  {
    var ab := a + b;
    forall k | 0 <= k < |ab| ensures IsDigit(ab[k]) || ab[k] == '_' {
      if k < |a| { assert ab[k] == a[k]; } else { assert ab[k] == b[k - |a|]; }
    }
  }

  /** Removing the underscores piece by piece is removing them from the whole: with the
      one-character case, this says every `_` goes and every digit stays, in order. */
  lemma {:induction false} DropUnderscoresConcat(a: string, b: string)
    requires DigitsOrUnderscores(a) && DigitsOrUnderscores(b)
    decreases |a|
    ensures DigitsOrUnderscores(a + b)
    ensures DropUnderscores(a + b) == DropUnderscores(a) + DropUnderscores(b)
  {
    DigitsOrUnderscoresConcat(a, b);
    if a == [] {
      assert a + b == b;
    } else {
      var ab, tail := a + b, a[1..];
      var c := if a[0] == '_' then [] else [a[0]];
      DropUnderscoresCons(a);
      DropUnderscoresCons(ab);
      assert ab[0] == a[0] && ab[1..] == tail + b;
      DropUnderscoresConcat(tail, b);
      var x, y, z := DropUnderscores(tail), DropUnderscores(b), DropUnderscores(tail + b);
      assert DropUnderscores(ab) == c + z;
      assert z == x + y;
      assert DropUnderscores(a) == c + x;
      assert c + (x + y) == (c + x) + y;
    }
  }

  /** Python's `int(s)` on ASCII text: surrounding whitespace, an optional sign, then
      digits with single underscores between them; anything else raises (`None`). */
  function ParseInt(s: string): Option<int> {
    var t := Strip(s);
    if t == [] then None
    else
      var negative := t[0] == '-';
      var body := if t[0] == '+' || t[0] == '-' then t[1..] else t;
      if !IsDigitGroup(body) then None
      else
        var v: int := ValueOf(DropUnderscores(body));
        Some(if negative then -v else v)
  }

  /** Without a minus sign the parsed number is never negative. */
  lemma ParseNonNegative(s: string)
    requires '-' !in s && ParseInt(s).Some?
    ensures ParseInt(s).value >= 0
  {
    var t := Strip(s);
    StripStartSpec(s);
    StripEndSpec(StripStart(s));
    assert t[0] in s by {
      var u := StripStart(s);
      assert t[0] == u[0] && u[0] == s[|s| - |u|];
    }
  }

  /** A digit string parses to its value. */
  lemma ParseDigits(s: string)
    requires s != [] && AllDigits(s)
    ensures ParseInt(s) == Some(ValueOf(s))
  {
    assert !IsSpace(s[0]) && !IsSpace(s[|s| - 1]);
    assert StripStart(s) == s;
    assert StripEnd(s) == s;
  }

  /** The last order found for this year's prefix: its number and its id. */
  datatype LastOrder = LastOrder(number: string, id: Option<int>)

  /** The sequence number: 1 for the year's first order; otherwise one past the integer
      after the last `-` of the previous number; or, when that does not parse, one past the
      previous id (a missing id counting as 0). */
  function NextSeq(last: Option<LastOrder>): int {
    match last
    case None => 1
    case Some(o) =>
      match ParseInt(AfterLast(o.number, '-'))
      case Some(v) => v + 1
      case None => o.id.GetOr(0) + 1
  }

  function Prefix(year: nat): string {
    "HAB-" + Decimal(year) + "-"
  }

  /** `gerar_numero_os`. */
  function NewOrderNumber(year: nat, last: Option<LastOrder>): string {
    Prefix(year) + Format04(NextSeq(last))
  }

  /** A number taken from a previous order's suffix is at least 1. */
  lemma NextSeqFromNumber(o: LastOrder)
    requires ParseInt(AfterLast(o.number, '-')).Some?
    ensures NextSeq(Some(o)) >= 1
  {
    ParseNonNegative(AfterLast(o.number, '-'));
  }

  /** The number is the year's prefix and then at least four digits. */
  lemma NewOrderNumberShape(year: nat, last: Option<LastOrder>)
    requires NextSeq(last) >= 0
    ensures var r := NewOrderNumber(year, last);
            var suffix := r[|Prefix(year)|..];
            r[..|Prefix(year)|] == Prefix(year) && |suffix| >= 4 && AllDigits(suffix)
  {
    var r := NewOrderNumber(year, last);
    assert r[|Prefix(year)|..] == Format04(NextSeq(last));
  }

  /** The first order of a year is numbered `0001`. */
  lemma FirstOrderNumber(year: nat)
    ensures NewOrderNumber(year, None) == Prefix(year) + "0001"
  {
    assert Decimal(1) == "1";
    assert Zeros(3) == "000";
  }

  /** The suffix of an issued number reads back as its sequence number. */
  lemma SuffixRoundTrip(year: nat, n: nat)
    ensures ParseInt(AfterLast(Prefix(year) + Format04(n), '-')) == Some(n)
  {
    var f := Format04(n);
    var p := Prefix(year);
    assert '-' !in f by {
      assert AllDigits(f);
    }
    AfterLastSuffix(p, f, '-');
    DecimalValue(n);
    var d := Decimal(n);
    if |d| < 4 {
      ZerosValue(4 - |d|, d);
    }
    ParseDigits(f);
  }

  /** What follows the last separator of `p + f` is `f` when `p` ends with it and `f` does
      not hold it. */
  lemma {:induction false} AfterLastSuffix(p: string, f: string, sep: char)
    requires p != [] && p[|p| - 1] == sep && sep !in f
    decreases |f|
    ensures AfterLast(p + f, sep) == f
  {
    if f == [] {
      assert p + f == p;
    } else {
      var t := p + f;
      assert t[..|t| - 1] == p + f[..|f| - 1];
      AfterLastSuffix(p, f[..|f| - 1], sep);
      assert f == f[..|f| - 1] + [f[|f| - 1]];
    }
  }

  /** Issuing a number after one issued by this function continues its sequence: the next
      number is one more, whatever the previous order's id. */
  lemma NextAfterIssued(year: nat, last: Option<LastOrder>, id: Option<int>)
    requires NextSeq(last) >= 0
    ensures NextSeq(Some(LastOrder(NewOrderNumber(year, last), id))) == NextSeq(last) + 1
  {
    SuffixRoundTrip(year, NextSeq(last));
  }
}

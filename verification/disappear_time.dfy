/**
 * How the server reads the `disappearTime` a client sends with a message:
 * falsy values mean no timer, a string starting "read_" means "N seconds
 * after being read" with N taken by `split('_')[1]` and `parseInt`, and any
 * other value is a number of seconds counted from the send time.
 */
module DisappearTime {
  import opened ChatTypes

  /** The `disappearTime` of a send request as the client may give it. */
  datatype DisappearInput = Absent | Number(n: int) | Text(s: string)

  predicate IsDigit(c: char) { '0' <= c <= '9' }

  predicate AllDigits(s: string) { forall i :: 0 <= i < |s| ==> IsDigit(s[i]) }

  function DigitValue(c: char): (d: nat)
    requires IsDigit(c)
    ensures d < 10
  {
    (c as int) - ('0' as int)
  }

  function DigitChar(d: nat): (c: char)
    requires d < 10
    ensures IsDigit(c) && DigitValue(c) == d
  {
    ('0' as int + d) as char
  }

  /** Length of the run of decimal digits at the front of `s`. */
  function DigitRun(s: string): (n: nat)
    ensures n <= |s| && AllDigits(s[..n])
    ensures n < |s| ==> !IsDigit(s[n])
  {
    if s != [] && IsDigit(s[0]) then
      var n := 1 + DigitRun(s[1..]);
      assert s[..n] == [s[0]] + s[1..][..n - 1];
      n
    else 0
  }

  /** The value of a string of decimal digits, most significant first. */
  function DigitsValue(ds: string): nat
    requires AllDigits(ds)
  {
    if ds == [] then 0 else DigitsValue(ds[..|ds| - 1]) * 10 + DigitValue(ds[|ds| - 1])
  }

  /** `parseInt(s)` for base 10: an optional sign, then the digits at the
      front; NaN when no digit comes first. */
  function ParseInt(s: string): JsNumber {
    if s != [] && (s[0] == '-' || s[0] == '+') then
      var n := DigitRun(s[1..]);
      if n == 0 then NaN
      else
        var v: int := DigitsValue(s[1..][..n]);
        Num(if s[0] == '-' then -v else v)
    else
      var n := DigitRun(s);
      if n == 0 then NaN else Num(DigitsValue(s[..n]))
  }

  /** `Number(s)` on the strings this model covers: the whole string is an
      optional sign followed by digits; anything else is NaN. */
  function ToNumber(s: string): JsNumber {
    if s != [] && (s[0] == '-' || s[0] == '+') then
      var rest := s[1..];
      if rest != [] && AllDigits(rest) then
        var v: int := DigitsValue(rest);
        Num(if s[0] == '-' then -v else v)
      else NaN
    else if s != [] && AllDigits(s) then Num(DigitsValue(s))
    else NaN
  }

  /** The text of `s` before the first `c` (all of it when there is none). */
  function Before(s: string, c: char): (r: string)
    ensures |r| <= |s| && r == s[..|r|]
    ensures c !in r
    ensures |r| < |s| ==> s[|r|] == c
  {
    if s == [] || s[0] == c then [] else [s[0]] + Before(s[1..], c)
  }

  /** `s.split(c)[1]`: the text between the first and the second `c`;
      None (undefined) when `s` holds no `c`. */
  function SecondField(s: string, c: char): (r: Option<string>)
    ensures r.None? <==> c !in s
  {
    if s == [] then None
    else if s[0] == c then Some(Before(s[1..], c))
    else SecondField(s[1..], c)
  }

  predicate IsReadTag(s: string) { |s| >= 5 && s[..5] == "read_" }

  /** The stored form of a send request's `disappearTime`, after
      `data.disappearTime || null` and the string/number tests of the
      handlers. */
  function ParseDisappear(x: DisappearInput): (d: Disappear)
    ensures d.NoTimer? <==> x.Absent? || x == Number(0) || x == Text("")
    ensures d.AfterRead? <==> x.Text? && IsReadTag(x.s)
  {
    match x
    case Absent => NoTimer
    case Number(n) => if n == 0 then NoTimer else Fixed(Num(n))
    case Text(s) =>
      if s == "" then NoTimer
      else if IsReadTag(s) then
        AfterRead(match SecondField(s, '_') case Some(f) => ParseInt(f) case None => NaN)
      else Fixed(ToNumber(s))
  }

  /** The decimal text of a natural number. */
  function Decimal(n: nat): (s: string)
    ensures s != [] && AllDigits(s)
  {
    if n < 10 then [DigitChar(n)] else Decimal(n / 10) + [DigitChar(n % 10)]
  }

  lemma {:induction false} DecimalValue(n: nat)
    ensures DigitsValue(Decimal(n)) == n
  {
    var s := Decimal(n);
    if n >= 10 {
      assert s[..|s| - 1] == Decimal(n / 10);
      DecimalValue(n / 10);
    }
  }

  lemma {:induction false} DigitRunOfDigits(s: string)
    requires AllDigits(s)
    ensures DigitRun(s) == |s|
  {
    if s != [] {
      DigitRunOfDigits(s[1..]);
    }
  }

  lemma {:induction false} ParseIntDecimal(n: nat)
    ensures ParseInt(Decimal(n)) == Num(n)
  {
    var s := Decimal(n);
    DigitRunOfDigits(s);
    DecimalValue(n);
    assert s[..|s|] == s;
  }

  /** The field after the first `_` of `p + "_" + f`, for `p` and `f`
      without `_`, is `f`. */
  lemma {:induction false} SecondFieldAfterPrefix(p: string, f: string)
    requires '_' !in p && '_' !in f
    ensures SecondField(p + "_" + f, '_') == Some(f)
  {
    var s := p + "_" + f;
    if p == [] {
      assert s[1..] == f;
      assert Before(f, '_') == f;
    } else {
      assert s[1..] == p[1..] + "_" + f;
      SecondFieldAfterPrefix(p[1..], f);
    }
  }

  /** A "read_N" setting written by a client is read back as N seconds
      after the read. */
  lemma ReadTagRoundTrip(n: nat)
    ensures ParseDisappear(Text("read_" + Decimal(n))) == AfterRead(Num(n))
  {
    var ds := Decimal(n);
    assert forall i :: 0 <= i < |ds| ==> ds[i] != '_';
    assert "read_" + ds == "read" + "_" + ds;
    SecondFieldAfterPrefix("read", ds);
    ParseIntDecimal(n);
  }

  /** A plain decimal string is a delay from the send time, and unlike the
      number 0 the string "0" is truthy and arms a timer. */
  lemma DecimalStringIsFixed(n: nat)
    ensures ParseDisappear(Text(Decimal(n))) == Fixed(Num(n))
  {
    var s := Decimal(n);
    DecimalValue(n);
    assert !IsDigit('r');
    assert s[0] != 'r' && s[0] != '-' && s[0] != '+';
  }
}

/** The player's `formatTime`: a whole number of seconds shown as minutes, a
    colon, and a two-digit seconds field ("0:07", "3:00", "12:45"). Times are
    natural numbers here; the slider moves in steps of one second and the timer
    adds one. On naturals the first floor in `formatTime`, of `time / 60`, is
    integer division, which `t / 60` computes; the second, of `time % 60`, is
    the identity. */
module TimeFormat {
  import JsMath

  datatype Option<T> = None | Some(value: T)

  predicate IsDigit(c: char) {
    '0' <= c <= '9'
  }

  function DigitValue(c: char): (d: nat)
    requires IsDigit(c)
    ensures d < 10
  {
    c as int - '0' as int
  }

  function DigitChar(d: nat): (c: char)
    requires d < 10
    ensures IsDigit(c)
    ensures DigitValue(c) == d
  {
    ('0' as int + d) as char
  }

  lemma DigitCharOfValue(c: char)
    requires IsDigit(c)
    ensures DigitChar(DigitValue(c)) == c
  {
  }

  predicate AllDigits(s: string) {
    forall i :: 0 <= i < |s| ==> IsDigit(s[i])
  }

  /** The numerals JavaScript prints for a non-negative integer: at least one
      digit and no leading zero, except for "0" itself. */
  predicate Canonical(s: string) {
    |s| >= 1 && AllDigits(s) && (s[0] == '0' ==> |s| == 1)
  }

  /** The number a string of decimal digits denotes (most significant first). */
  function Value(s: string): nat
    requires AllDigits(s)
  {
    if |s| == 0 then 0 else Value(s[..|s| - 1]) * 10 + DigitValue(s[|s| - 1])
  }

  /** The numeral that template-string interpolation `${n}` produces for a
      natural number n: a canonical numeral that denotes n. */
  function Decimal(n: nat): (r: string)
    ensures Canonical(r)
    ensures Value(r) == n
  {
    if n < 10 then [DigitChar(n)]
    else
      var init := Decimal(n / 10);
      var r := init + [DigitChar(n % 10)];
      assert r[..|r| - 1] == init;
      r
  }

  /** A canonical numeral with a non-zero leading digit denotes a positive number. */
  lemma {:induction false} ValuePositive(s: string)
    requires Canonical(s) && s[0] != '0'
    ensures Value(s) > 0
  {
    if |s| > 1 {
      var init := s[..|s| - 1];
      assert init[0] == s[0];
      ValuePositive(init);
    }
  }

  /** Decimal is onto the canonical numerals: printing the value of a canonical
      numeral gives the numeral back. With Value(Decimal(n)) == n this makes
      Decimal a bijection between naturals and canonical numerals. */
  lemma {:induction false} DecimalOfValue(s: string)
    requires Canonical(s)
    ensures Decimal(Value(s)) == s
  {
    var v := Value(s);
    if |s| == 1 {
      DigitCharOfValue(s[0]);
    } else {
      var init := s[..|s| - 1];
      var last := s[|s| - 1];
      assert init[0] == s[0];
      ValuePositive(init);
      DecimalOfValue(init);
      JsMath.DivModUnique(v, 10, Value(init), DigitValue(last));
      DigitCharOfValue(last);
      assert s == init + [last];
    }
  }

  /** formatTime: whole minutes, a colon, then the seconds with a "0" in front
      when there are fewer than ten of them. The result always ends in ":"
      followed by exactly two digits; the minutes before it are a canonical
      numeral; minutes * 60 + seconds gives back t, with seconds below 60. */
  function FormatTime(t: nat): (r: string)
    ensures |r| >= 4 && r[|r| - 3] == ':'
    ensures Canonical(Minutes(r)) && AllDigits(Seconds(r))
    ensures Value(Seconds(r)) < 60
    ensures Value(Minutes(r)) * 60 + Value(Seconds(r)) == t
    ensures r[|r| - 2] == '0' <==> t % 60 < 10
  {
    var min := t / 60;
    var sec := t % 60;
    var pad := if sec < 10 then "0" else "";
    var r := Decimal(min) + ":" + pad + Decimal(sec);
    SecondsField(sec);
    assert Minutes(r) == Decimal(min);
    assert Seconds(r) == pad + Decimal(sec);
    r
  }

  /** Everything before the colon of a formatted time. */
  function Minutes(r: string): string
    requires |r| >= 3
  {
    r[..|r| - 3]
  }

  /** The two characters after the colon of a formatted time. */
  function Seconds(r: string): string
    requires |r| >= 3
  {
    r[|r| - 2..]
  }

  /** The padded seconds field is two digits that denote sec, and it begins
      with '0' exactly when sec is a single digit. */
  lemma SecondsField(sec: nat)
    requires sec < 60
    ensures var f := (if sec < 10 then "0" else "") + Decimal(sec);
      |f| == 2 && AllDigits(f) && Value(f) == sec && (f[0] == '0' <==> sec < 10)
  {
    var f := (if sec < 10 then "0" else "") + Decimal(sec);
    if sec < 10 {
      assert f == ['0', DigitChar(sec)];
      assert f[..1] == ['0'];
    } else {
      assert Decimal(sec) == Decimal(sec / 10) + [DigitChar(sec % 10)];
      assert f == [DigitChar(sec / 10), DigitChar(sec % 10)];
      assert f[..1] == [DigitChar(sec / 10)];
    }
  }

  lemma ValueOfTwo(x: string)
    requires |x| == 2 && AllDigits(x)
    ensures Value(x) == DigitValue(x[0]) * 10 + DigitValue(x[1])
  {
    var head := x[..1];
    assert head == [x[0]];
    assert head[..0] == [];
    assert Value(head) == Value(head[..0]) * 10 + DigitValue(x[0]);
    assert Value(x) == Value(head) * 10 + DigitValue(x[1]);
  }

  /** A two-digit field is determined by the number it denotes. */
  lemma TwoDigitsUnique(x: string, y: string)
    requires |x| == 2 && |y| == 2 && AllDigits(x) && AllDigits(y)
    requires Value(x) == Value(y)
    ensures x == y
  {
    ValueOfTwo(x);
    ValueOfTwo(y);
    JsMath.DivModUnique(Value(x), 10, DigitValue(x[0]), DigitValue(x[1]));
    JsMath.DivModUnique(Value(y), 10, DigitValue(y[0]), DigitValue(y[1]));
    DigitCharOfValue(x[0]);
    DigitCharOfValue(x[1]);
    DigitCharOfValue(y[0]);
    DigitCharOfValue(y[1]);
  }

  /** The inverse of FormatTime: reads "m:ss" back into seconds, refusing
      anything FormatTime cannot produce (a missing colon, a seconds field that
      is not two digits or is 60 or more, minutes with a leading zero). */
  function ParseTime(s: string): Option<nat> {
    if |s| >= 4 && s[|s| - 3] == ':' && Canonical(Minutes(s)) && AllDigits(Seconds(s))
       && Value(Seconds(s)) < 60
    then Some(Value(Minutes(s)) * 60 + Value(Seconds(s)))
    else None
  }

  /** Reading a formatted time gives back the number of seconds. */
  lemma ParseFormat(t: nat)
    ensures ParseTime(FormatTime(t)) == Some(t)
  {
  }

  /** Formatting is onto the "m:ss" strings: any string that reads as t is
      exactly the one FormatTime prints for t, so ParseTime accepts exactly the
      labels FormatTime prints. */
  lemma FormatParse(s: string, t: nat)
    requires ParseTime(s) == Some(t)
    ensures FormatTime(t) == s
  {
    var m, ss := Minutes(s), Seconds(s);
    var mv, sv := Value(m), Value(ss);
    JsMath.DivModUnique(t, 60, mv, sv);
    DecimalOfValue(m);
    var f := FormatTime(t);
    var pad := if sv < 10 then "0" else "";
    assert f == Decimal(mv) + ":" + pad + Decimal(sv);
    SecondsField(sv);
    TwoDigitsUnique(pad + Decimal(sv), ss);
    assert s == m + ":" + ss;
  }

  /** FormatTime is one-to-one: distinct times get distinct labels. */
  lemma FormatInjective(t1: nat, t2: nat)
    requires FormatTime(t1) == FormatTime(t2)
    ensures t1 == t2
  {
    ParseFormat(t1);
    ParseFormat(t2);
  }
}

/** The decimal text of a non-negative integer, as JavaScript's template
    literal `${n}` renders the millisecond timestamp `Date.now()`, and the
    parser that reads such text back. */
module Decimal {
  import opened Wrappers

  predicate IsDigit(c: char)
  {
    '0' <= c <= '9'
  }

  predicate AllDigits(s: string)
  {
    forall i :: 0 <= i < |s| ==> IsDigit(s[i])
  }

  /** Non-empty, digits only, and no leading zero unless the number is 0. */
  predicate Canonical(s: string)
  {
    |s| > 0 && AllDigits(s) && (s[0] == '0' ==> |s| == 1)
  }

  function DigitChar(d: int): (c: char)
    requires 0 <= d < 10
    ensures IsDigit(c) && c as int - '0' as int == d
  {
    ('0' as int + d) as char
  }

  /** `${n}` for a non-negative integer. */
  function Show(n: nat): (s: string)
    ensures Canonical(s)
    decreases n
  {
    if n < 10 then [DigitChar(n)] else Show(n / 10) + [DigitChar(n % 10)]
  }

  /** The number a string of digits denotes, most significant digit first. */
  function Value(s: string): nat
    requires AllDigits(s)
    decreases |s|
  {
    if |s| == 0 then 0
    else 10 * Value(s[..|s| - 1]) + (s[|s| - 1] as int - '0' as int)
  }

  /** Reads back a decimal rendering; `None` for anything that is not one. */
  function Parse(s: string): (r: Option<nat>)
  {
    if Canonical(s) then Some(Value(s)) else None
  }

  /** Parsing undoes rendering. */
  lemma {:induction false} ParseShow(n: nat)
    ensures Parse(Show(n)) == Some(n)
    decreases n
  {
    var s := Show(n);
    if n < 10 {
      assert s[..0] == [];
    } else {
      var p := Show(n / 10);
      ParseShow(n / 10);
      assert s[..|s| - 1] == p;
      assert Value(s) == 10 * (n / 10) + n % 10;
    }
  }

  /** A canonical numeral that does not start with 0 denotes a positive number. */
  lemma {:induction false} ValuePositive(s: string)
    requires Canonical(s) && s[0] != '0'
    ensures Value(s) >= 1
    decreases |s|
  {
    if |s| > 1 {
      var p := s[..|s| - 1];
      assert p[0] == s[0];
      ValuePositive(p);
    }
  }

  /** Rendering undoes parsing: every canonical numeral is some `${n}`. */
  lemma {:induction false} ShowParse(s: string)
    requires Parse(s).Some?
    ensures Show(Parse(s).value) == s
    decreases |s|
  {
    var n := Value(s);
    var d := s[|s| - 1] as int - '0' as int;
    if |s| == 1 {
      assert s[..0] == [];
      assert Value(s) == 10 * Value(s[..0]) + d;
      assert Show(n) == [DigitChar(d)];
    } else {
      var p := s[..|s| - 1];
      assert p[0] == s[0];
      ValuePositive(p);
      ShowParse(p);
      assert n / 10 == Value(p) && n % 10 == d;
      assert Show(n) == p + [DigitChar(d)];
      assert s == p + [s[|s| - 1]];
    }
  }

  /** A text parses to `n` exactly when it is the rendering of `n`. */
  lemma ParseIffShow(s: string, n: nat)
    ensures Parse(s) == Some(n) <==> Show(n) == s
  {
    ParseShow(n);
    if Parse(s).Some? {
      ShowParse(s);
    }
  }
}

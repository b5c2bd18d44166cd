/** Decimal text for unsigned integers, as Rust's `{}` formatting writes a `usize`. */
module Decimal {
  import opened Wrappers

  predicate IsDigit(c: char) {
    '0' <= c <= '9'
  }

  predicate AllDigits(s: string) {
    forall i :: 0 <= i < |s| ==> IsDigit(s[i])
  }

  function DigitValue(c: char): (d: nat)
    requires IsDigit(c)
    ensures d < 10
  {
    c as int - '0' as int
  }

  function DigitChar(d: nat): (c: char)
    requires d < 10
    ensures IsDigit(c) && DigitValue(c) == d
  {
    ('0' as int + d) as char
  }

  /**
   * The decimal rendering of `n`: digits only, never empty, and with no
   * leading zero except for zero itself.
   */
  function Show(n: nat): (r: string)
    ensures |r| > 0 && AllDigits(r)
    ensures r[0] == '0' <==> n == 0
    ensures n == 0 ==> r == "0"
    decreases n
  {
    if n < 10 then [DigitChar(n)] else Show(n / 10) + [DigitChar(n % 10)]
  }

  /** The number a string of digits denotes, most significant digit first. */
  function ValueOf(s: string): nat
    requires AllDigits(s)
    decreases |s|
  {
    if |s| == 0 then 0 else 10 * ValueOf(s[..|s| - 1]) + DigitValue(s[|s| - 1])
  }

  /** A non-empty run of digits with no leading zero, as `Show` writes them. */
  predicate IsCanonical(s: string) {
    |s| > 0 && AllDigits(s) && (s[0] == '0' ==> |s| == 1)
  }

  /**
   * Reads a number written as `Show` writes it; anything else, including a
   * number with a leading zero, is rejected.
   */
  function Parse(s: string): (r: Option<nat>)
    ensures r.Some? <==> IsCanonical(s)
  {
    if IsCanonical(s) then Some(ValueOf(s)) else None
  }

  /** Reading back a rendered number gives the number. */
  lemma {:induction false} ParseShow(n: nat)
    ensures Parse(Show(n)) == Some(n)
    decreases n
  {
    var s := Show(n);
    if n < 10 {
      assert s[..0] == [];
    } else {
      ParseShow(n / 10);
      assert s[..|s| - 1] == Show(n / 10);
      assert ValueOf(s) == 10 * (n / 10) + n % 10;
    }
  }

  /** Rendering the value of a canonical digit string gives the string back. */
  lemma {:induction false} ShowValueOf(s: string)
    requires IsCanonical(s)
    ensures Show(ValueOf(s)) == s
    decreases |s|
  {
    if |s| > 1 {
      var init := s[..|s| - 1];
      assert init[0] == s[0];
      ShowValueOf(init);
      assert ValueOf(init) > 0;
      assert s == init + [s[|s| - 1]];
    }
  }
}

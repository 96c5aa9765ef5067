/**
  The two string operations the grid relies on: the decimal rendering of a
  non-negative int that Java's string concatenation performs, and
  String.repeat.
 */
module Text {

  /** The character of decimal digit d. */
  function Digit(d: nat): (ch: char)
    requires d < 10
    ensures '0' <= ch <= '9' && ch as int - '0' as int == d
  {
    ('0' as int + d) as char
  }

  predicate IsDigits(s: string) {
    |s| > 0 && forall i :: 0 <= i < |s| ==> '0' <= s[i] <= '9'
  }

  /** Decimal digits of n, most significant first, without leading zeros. */
  function NatToString(n: nat): (s: string)
    ensures IsDigits(s)
    ensures |s| > 1 ==> s[0] != '0'
  {
    if n < 10 then [Digit(n)] else NatToString(n / 10) + [Digit(n % 10)]
  }

  /** The number a string of decimal digits denotes. */
  function ParseNat(s: string): nat
    requires IsDigits(s)
    decreases |s|
  {
    var last := s[|s| - 1] as int - '0' as int;
    if |s| == 1 then last else 10 * ParseNat(s[..|s| - 1]) + last
  }

  /** Reading back the rendering of n gives n. */
  lemma {:induction false} ParseNatToString(n: nat)
    ensures ParseNat(NatToString(n)) == n
    decreases n
  {
    if n >= 10 {
      var s := NatToString(n);
      assert s[..|s| - 1] == NatToString(n / 10);
      ParseNatToString(n / 10);
    }
  }

  /** Distinct numbers have distinct renderings. */
  lemma NatToStringInjective(m: nat, n: nat)
    ensures NatToString(m) == NatToString(n) ==> m == n
  {
    ParseNatToString(m);
    ParseNatToString(n);
  }

  /** s concatenated n times. */
  function Repeat(s: string, n: nat): (r: string)
    ensures |r| == n * |s|
  {
    if n == 0 then "" else Repeat(s, n - 1) + s
  }

  /** The k-th block of |s| characters of Repeat(s, n) is s itself. */
  lemma {:induction false} RepeatBlock(s: string, n: nat, k: nat)
    requires k < n
    ensures (k + 1) * |s| <= |Repeat(s, n)|
    ensures Repeat(s, n)[k * |s| .. (k + 1) * |s|] == s
  {
    var prefix := Repeat(s, n - 1);
    assert Repeat(s, n) == prefix + s;
    assert |prefix| == (n - 1) * |s|;
    if k < n - 1 {
      RepeatBlock(s, n - 1, k);
      assert (k + 1) * |s| <= |prefix|;
    } else {
      assert k * |s| == |prefix|;
    }
  }
}

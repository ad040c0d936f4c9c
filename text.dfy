/** The few string operations of Python that the checker's output uses. */
module Text {

  /** The character of a decimal digit. */
  function DigitChar(d: nat): (c: char)
    requires d < 10
    ensures c as int == '0' as int + d
  {
    ('0' as int + d) as char
  }

  /** `str(n)` for a non-negative integer: its decimal digits, no leading zero. */
  function Decimal(n: nat): (s: string)
    ensures 1 <= |s|
    ensures n < 10 <==> |s| == 1
    ensures forall i :: 0 <= i < |s| ==> '0' <= s[i] <= '9'
    ensures 1 < |s| ==> s[0] != '0'
    decreases n
  {
    if n < 10 then [DigitChar(n)] else Decimal(n / 10) + [DigitChar(n % 10)]
  }

  /** Different numbers have different renderings. */
  lemma {:induction false} DecimalInjective(a: nat, b: nat)
    requires Decimal(a) == Decimal(b)
    ensures a == b
    decreases a
  {
    var sa, sb := Decimal(a), Decimal(b);
    if a < 10 && b < 10 {
      assert DigitChar(a) == sa[0] == DigitChar(b);
    } else if 10 <= a && 10 <= b {
      assert sa[..|sa| - 1] == Decimal(a / 10);
      assert sb[..|sb| - 1] == Decimal(b / 10);
      DecimalInjective(a / 10, b / 10);
      assert DigitChar(a % 10) == sa[|sa| - 1] == DigitChar(b % 10);
    }
  }

  /** `sep.join(parts)` */
  function Join(sep: string, parts: seq<string>): string
    decreases |parts|
  {
    if parts == [] then ""
    else if |parts| == 1 then parts[0]
    else parts[0] + sep + Join(sep, parts[1..])
  }

  /** `p` occurs in `t` starting at index `k`. */
  ghost predicate InfixAt(t: string, p: string, k: int) {
    0 <= k && k + |p| <= |t| && t[k..k + |p|] == p
  }

  /** Every part occurs in the joined string; `k` is where. */
  lemma {:induction false} JoinHasPart(sep: string, parts: seq<string>, i: nat) returns (k: nat)
    requires i < |parts|
    ensures InfixAt(Join(sep, parts), parts[i], k)
    decreases |parts|
  {
    var joined := Join(sep, parts);
    if |parts| == 1 {
      k := 0;
      assert joined == parts[0];
    } else {
      var rest := Join(sep, parts[1..]);
      assert joined == parts[0] + sep + rest;
      if i == 0 {
        k := 0;
      } else {
        var j := JoinHasPart(sep, parts[1..], i - 1);
        k := |parts[0]| + |sep| + j;
        assert joined[k..k + |parts[i]|] == rest[j..j + |parts[i]|];
      }
    }
  }
}

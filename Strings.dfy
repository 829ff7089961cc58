/**
 * The two pieces of Go's standard library the audit loop leans on:
 * strings.Contains (the common-name filter) and big.Int.String (the
 * canonical form in which serial numbers are compared).
 */
module Strings {

  /** t occurs in s starting at offset i. */
  ghost predicate OccursAt(s: string, t: string, i: int)
  {
    0 <= i && i + |t| <= |s| && s[i..i + |t|] == t
  }

  /** strings.Contains(s, t): does t occur in s, case-sensitively? */
  function Contains(s: string, t: string): (b: bool)
    decreases |s|
  {
    if |t| > |s| then false
    else if s[..|t|] == t then true
    else Contains(s[1..], t)
  }

  /** Contains answers true exactly when t is a substring of s. */
  lemma {:induction false} ContainsSpec(s: string, t: string)
    ensures Contains(s, t) <==> exists i :: OccursAt(s, t, i)
    decreases |s|
  {
    if |t| > |s| {
    } else if s[..|t|] == t {
      assert OccursAt(s, t, 0);
    } else {
      ContainsSpec(s[1..], t);
      if Contains(s[1..], t) {
        var j :| OccursAt(s[1..], t, j);
        assert s[1..][j..j + |t|] == s[j + 1..j + 1 + |t|];
        assert OccursAt(s, t, j + 1);
      } else {
        forall i | OccursAt(s, t, i)
          ensures false
        {
          assert i != 0;
          assert s[1..][i - 1..i - 1 + |t|] == s[i..i + |t|];
          assert OccursAt(s[1..], t, i - 1);
        }
      }
    }
  }

  /** The empty string is a substring of every string. */
  lemma EmptyContained(s: string)
    ensures Contains(s, "")
  {
  }

  /** The character of a decimal digit. */
  function Digit(d: nat): (c: char)
    requires d < 10
    ensures '0' <= c <= '9'
  {
    ('0' as int + d) as char
  }

  /** The decimal digits of n, most significant first, without leading zeros. */
  function DecimalDigits(n: nat): (r: string)
    ensures |r| >= 1
    ensures n >= 10 ==> |r| >= 2
    ensures forall k :: 0 <= k < |r| ==> '0' <= r[k] <= '9'
    decreases n
  {
    if n < 10 then [Digit(n)] else DecimalDigits(n / 10) + [Digit(n % 10)]
  }

  /** big.Int.String: base-10 text, with a leading '-' for negative values. */
  function DecimalString(n: int): (r: string)
  {
    if n < 0 then "-" + DecimalDigits(-n) else DecimalDigits(n)
  }

  lemma {:induction false} DecimalDigitsInjective(a: nat, b: nat)
    requires DecimalDigits(a) == DecimalDigits(b)
    ensures a == b
    decreases a
  {
    var da, db := DecimalDigits(a), DecimalDigits(b);
    if a < 10 && b < 10 {
      assert Digit(a) == da[0] == db[0] == Digit(b);
    } else if a >= 10 && b >= 10 {
      var qa, qb := DecimalDigits(a / 10), DecimalDigits(b / 10);
      assert da == qa + [Digit(a % 10)];
      assert db == qb + [Digit(b % 10)];
      assert |qa| == |qb|;
      assert da[..|qa|] == qa && db[..|qb|] == qb;
      DecimalDigitsInjective(a / 10, b / 10);
      assert Digit(a % 10) == da[|qa|] == db[|qb|] == Digit(b % 10);
    }
  }

  /**
   * Two serial numbers have the same canonical text exactly when they are
   * the same integer, so comparing big.Int.String() values is integer equality.
   */
  lemma DecimalStringInjective(a: int, b: int)
    ensures DecimalString(a) == DecimalString(b) <==> a == b
  {
    var sa, sb := DecimalString(a), DecimalString(b);
    assert sa[0] == '-' <==> a < 0;
    assert sb[0] == '-' <==> b < 0;
    if sa == sb {
      if a < 0 {
        assert sa[1..] == DecimalDigits(-a);
        assert sb[1..] == DecimalDigits(-b);
        DecimalDigitsInjective(-a, -b);
      } else {
        DecimalDigitsInjective(a, b);
      }
    }
  }
}

/** String helpers used by both components: substring search and decimal rendering of numbers. */
module Text {

  /** `p` occurs somewhere in `s`: the meaning of an unanchored regular-expression test for a literal. */
  ghost predicate Occurs(p: string, s: string) {
    exists i :: 0 <= i && OccursAt(p, s, i)
  }

  /** `p` occurs in `s` starting at index `i`. */
  ghost predicate OccursAt(p: string, s: string, i: nat) {
    i + |p| <= |s| && s[i..i + |p|] == p
  }

  /** Left-to-right search for the literal `p` in `s`. */
  function Contains(s: string, p: string): bool
    decreases |s|
  {
    if |s| < |p| then false
    else s[..|p|] == p || Contains(s[1..], p)
  }

  lemma {:induction false} ContainsIffOccurs(s: string, p: string)
    ensures Contains(s, p) <==> Occurs(p, s)
    decreases |s|
  {
    if |s| < |p| {
    } else if s[..|p|] == p {
      assert OccursAt(p, s, 0);
    } else {
      ContainsIffOccurs(s[1..], p);
      if Occurs(p, s) {
        var i: nat :| OccursAt(p, s, i);
        assert i != 0;
        var here, there := s[1..][i - 1..i - 1 + |p|], s[i..i + |p|];
        assert forall k :: 0 <= k < |p| ==> here[k] == there[k];
        assert here == there;
        assert OccursAt(p, s[1..], i - 1);
      }
      if Occurs(p, s[1..]) {
        var i: nat :| OccursAt(p, s[1..], i);
        assert i + 1 + |p| <= |s|;
        var here, there := s[i + 1..i + 1 + |p|], s[1..][i..i + |p|];
        assert forall k :: 0 <= k < |p| ==> here[k] == there[k];
        assert here == there;
        assert OccursAt(p, s, i + 1);
      }
    }
  }

  predicate IsDigit(c: char) {
    '0' <= c <= '9'
  }

  function DigitChar(d: nat): (c: char)
    requires d < 10
    ensures IsDigit(c) && (c as int) - ('0' as int) == d
  {
    "0123456789"[d]
  }

  /** The decimal rendering of a non-negative integer, as a template literal `${n}` produces it. */
  function NatToDecimal(n: nat): (s: string)
    ensures |s| >= 1
    ensures forall i :: 0 <= i < |s| ==> IsDigit(s[i])
    ensures |s| > 1 ==> s[0] != '0'
  {
    if n < 10 then [DigitChar(n)] else NatToDecimal(n / 10) + [DigitChar(n % 10)]
  }

  /** The number a string of decimal digits denotes. */
  function DecimalValue(s: string): nat
    requires forall i :: 0 <= i < |s| ==> IsDigit(s[i])
  {
    if s == [] then 0 else DecimalValue(s[..|s| - 1]) * 10 + DigitValue(s[|s| - 1])
  }

  function DigitValue(c: char): nat
    requires IsDigit(c)
  {
    (c as int) - ('0' as int)
  }

  /** Rendering a status code and reading it back gives the same number. */
  lemma {:induction false} DecimalRoundTrip(n: nat)
    ensures DecimalValue(NatToDecimal(n)) == n
  {
    if n >= 10 {
      var s := NatToDecimal(n);
      assert s[..|s| - 1] == NatToDecimal(n / 10);
      DecimalRoundTrip(n / 10);
    }
  }
}

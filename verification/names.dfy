/** Identifiers of lanes and internal edges.

    Both are written as `<prefix>_<ordinal>`, with the ordinal in Python's
    decimal form: no leading zeros, and a leading '-' for a negative value.
    Since the decimal part never contains '_', the prefix and the ordinal
    can always be recovered, which is what keeps generated ids apart. */
module Names {

  predicate IsDigit(c: char) {
    '0' <= c <= '9'
  }

  predicate AllDigits(s: string) {
    forall i :: 0 <= i < |s| ==> IsDigit(s[i])
  }

  function DigitChar(d: nat): (c: char)
    requires d < 10
    ensures IsDigit(c)
  {
    ('0' as int + d) as char
  }

  function DigitValue(c: char): nat
    requires IsDigit(c)
  {
    c as int - '0' as int
  }

  /** The decimal form of `n`, most significant digit first. */
  function NatToString(n: nat): (s: string)
    ensures 1 <= |s|
    ensures AllDigits(s)
    ensures s[0] == '0' <==> n == 0
    decreases n
  {
    if n < 10 then [DigitChar(n)] else NatToString(n / 10) + [DigitChar(n % 10)]
  }

  /** Reads a string of decimal digits back as a number. */
  function DecimalValue(s: string): nat
    requires AllDigits(s)
    decreases |s|
  {
    if |s| == 0 then 0 else 10 * DecimalValue(s[..|s| - 1]) + DigitValue(s[|s| - 1])
  }

  lemma {:induction false} DecimalRoundTrip(n: nat)
    ensures DecimalValue(NatToString(n)) == n
    decreases n
  {
    if n >= 10 {
      var s := NatToString(n);
      assert s[..|s| - 1] == NatToString(n / 10);
      DecimalRoundTrip(n / 10);
    }
  }

  /** Python's `str(i)` for an integer. */
  function IntToString(i: int): (s: string)
    ensures 1 <= |s|
    ensures s[0] == '-' <==> i < 0
  {
    if i < 0 then "-" + NatToString(-i) else NatToString(i)
  }

  /** The decimal form holds only digits and a sign; in particular no '_'. */
  lemma IntToStringChars(i: int)
    ensures var s := IntToString(i);
            forall k :: 0 <= k < |s| ==> s[k] == '-' || IsDigit(s[k])
  {
    if i < 0 {
      var s := IntToString(i);
      assert forall k :: 1 <= k < |s| ==> s[k] == NatToString(-i)[k - 1];
    }
  }

  lemma NatToStringInjective(m: nat, n: nat)
    requires NatToString(m) == NatToString(n)
    ensures m == n
  {
    DecimalRoundTrip(m);
    DecimalRoundTrip(n);
  }

  lemma IntToStringInjective(i: int, j: int)
    requires IntToString(i) == IntToString(j)
    ensures i == j
  {
    var s := IntToString(i);
    if i < 0 {
      assert s[1..] == NatToString(-i) == NatToString(-j);
      NatToStringInjective(-i, -j);
    } else {
      NatToStringInjective(i, j);
    }
  }

  /** `"%s_%s" % (prefix, ordinal)`. */
  function Qualified(prefix: string, ordinal: int): string {
    prefix + "_" + IntToString(ordinal)
  }

  /** `Lane.name`: the id of lane `index` of edge `edge`. */
  function LaneName(edge: string, index: int): string {
    Qualified(edge, index)
  }

  /** `InternalEdge.name`: the id of the `k`-th internal edge of a junction. */
  function InternalEdgeName(junction: string, k: int): string {
    Qualified(junction, k)
  }

  /** When the suffix after the last '_' is shorter on one side, the longer
      suffix must contain that '_' itself. */
  lemma SuffixLengthsAgree(p1: string, d1: string, p2: string, d2: string)
    requires p1 + "_" + d1 == p2 + "_" + d2
    requires |d1| <= |d2|
    ensures |d1| == |d2| || d2[|d2| - |d1| - 1] == '_'
  {
    if |d1| < |d2| {
      var s := p1 + "_" + d1;
      assert s[|p1|] == '_';
      assert |p1| == |p2| + |d2| - |d1|;
      assert s[|p1|] == d2[|d2| - |d1| - 1];
    }
  }

  /** Different (prefix, ordinal) pairs never produce the same id. */
  lemma {:induction false} QualifiedInjective(p1: string, i1: int, p2: string, i2: int)
    requires Qualified(p1, i1) == Qualified(p2, i2)
    ensures p1 == p2 && i1 == i2
  {
    var d1, d2 := IntToString(i1), IntToString(i2);
    var s := Qualified(p1, i1);
    IntToStringChars(i1);
    IntToStringChars(i2);
    if |d1| <= |d2| {
      SuffixLengthsAgree(p1, d1, p2, d2);
    } else {
      SuffixLengthsAgree(p2, d2, p1, d1);
    }
    assert |d1| == |d2|;
    assert p1 == s[..|p1|] == p2;
    assert d1 == s[|p1| + 1..] == d2;
    IntToStringInjective(i1, i2);
  }
}

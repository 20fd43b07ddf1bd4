/** The decimal names given to records created by resizing: "Line i" and "Arc i". */
module Naming {

  function Digit(d: nat): (c: char)
    requires d < 10
    ensures c as int == '0' as int + d
  {
    ('0' as int + d) as char
  }

  /** Decimal rendering of a natural number, without leading zeros. */
  function NatToString(n: nat): (s: string)
    ensures 1 <= |s|
    ensures n < 10 <==> |s| == 1
    ensures forall i | 0 <= i < |s| :: '0' <= s[i] <= '9'
    decreases n
  {
    if n < 10 then [Digit(n)] else NatToString(n / 10) + [Digit(n % 10)]
  }

  /** Different numbers have different decimal renderings. */
  lemma {:induction false} NatToStringInjective(a: nat, b: nat)
    requires NatToString(a) == NatToString(b)
    ensures a == b
  {
    var sa, sb := NatToString(a), NatToString(b);
    if a >= 10 && b >= 10 {
      assert sa[|sa| - 1] == sb[|sb| - 1];
      assert a % 10 == b % 10;
      assert sa[..|sa| - 1] == NatToString(a / 10);
      assert sb[..|sb| - 1] == NatToString(b / 10);
      NatToStringInjective(a / 10, b / 10);
    } else {
      assert sa[0] == sb[0];
    }
  }

  /** The name "Line i" of the i-th line created by resizing. */
  function LineName(i: nat): (r: string)
    ensures 6 <= |r| && r[..5] == "Line "
    ensures forall k | 5 <= k < |r| :: '0' <= r[k] <= '9'
  {
    "Line " + NatToString(i)
  }

  /** The name "Arc i" of the i-th arc created by resizing. */
  function ArcName(i: nat): (r: string)
    ensures 5 <= |r| && r[..4] == "Arc "
    ensures forall k | 4 <= k < |r| :: '0' <= r[k] <= '9'
  {
    "Arc " + NatToString(i)
  }

  /** Lines created at different positions get different names. */
  lemma LineNamesDiffer(i: nat, j: nat)
    requires i != j
    ensures LineName(i) != LineName(j)
  {
    if LineName(i) == LineName(j) {
      assert NatToString(i) == LineName(i)[5..];
      assert NatToString(j) == LineName(j)[5..];
      NatToStringInjective(i, j);
    }
  }

  /** Arcs created at different positions get different names. */
  lemma ArcNamesDiffer(i: nat, j: nat)
    requires i != j
    ensures ArcName(i) != ArcName(j)
  {
    if ArcName(i) == ArcName(j) {
      assert NatToString(i) == ArcName(i)[4..];
      assert NatToString(j) == ArcName(j)[4..];
      NatToStringInjective(i, j);
    }
  }

  /** Growing an empty collection to three lines names them "Line 0", "Line 1", "Line 2". */
  lemma FirstLineNames()
    ensures [LineName(0), LineName(1), LineName(2)] == ["Line 0", "Line 1", "Line 2"]
  {
    assert NatToString(0) == "0" && NatToString(1) == "1" && NatToString(2) == "2";
    assert LineName(0) == "Line 0";
    assert LineName(1) == "Line 1";
    assert LineName(2) == "Line 2";
  }
}

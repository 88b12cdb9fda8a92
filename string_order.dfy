/** Python's ordering of `str` values: lexicographic by code point, a proper
    prefix before the longer string. */
module StringOrder {

  predicate Less(a: string, b: string)
    decreases |a|
  {
    if a == [] then b != []
    else b != [] && (a[0] < b[0] || (a[0] == b[0] && Less(a[1..], b[1..])))
  }

  lemma {:induction false} LessIrreflexive(a: string)
    ensures !Less(a, a)
    decreases |a|
  {
    if a != [] {
      LessIrreflexive(a[1..]);
    }
  }

  lemma {:induction false} LessAsymmetric(a: string, b: string)
    requires Less(a, b)
    ensures !Less(b, a)
    decreases |a|
  {
    if a != [] && b != [] && a[0] == b[0] {
      LessAsymmetric(a[1..], b[1..]);
    }
  }

  lemma {:induction false} LessTransitive(a: string, b: string, c: string)
    requires Less(a, b) && Less(b, c)
    ensures Less(a, c)
    decreases |a|
  {
    if a != [] && a[0] == b[0] && b[0] == c[0] {
      LessTransitive(a[1..], b[1..], c[1..]);
    }
  }

  /** Two different strings are ordered one way or the other. */
  lemma {:induction false} LessTotal(a: string, b: string)
    ensures a == b || Less(a, b) || Less(b, a)
    decreases |a|
  {
    if a != [] && b != [] && a[0] == b[0] {
      LessTotal(a[1..], b[1..]);
      if a[1..] == b[1..] {
        assert a == [a[0]] + a[1..] && b == [b[0]] + b[1..];
      }
    }
  }

  /** The order is lexicographic, not numeric: "DOC-10000" sorts before
      "DOC-9999". */
  lemma LexicographicNotNumeric()
    ensures Less("DOC-10000", "DOC-9999")
  {
    assert "DOC-10000"[4..] == "10000" && "DOC-9999"[4..] == "9999";
    assert Less("10000", "9999");
    assert Less("-10000", "-9999") by { assert "-10000"[1..] == "10000" && "-9999"[1..] == "9999"; }
    assert Less("C-10000", "C-9999") by { assert "C-10000"[1..] == "-10000" && "C-9999"[1..] == "-9999"; }
    assert Less("OC-10000", "OC-9999") by { assert "OC-10000"[1..] == "C-10000" && "OC-9999"[1..] == "C-9999"; }
    assert "DOC-10000"[1..] == "OC-10000" && "DOC-9999"[1..] == "OC-9999";
  }
}

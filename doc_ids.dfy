/** Public document identifiers `DOC-NNNN` and the parse that recovers their
    ordinal, as the sync module formats and reads them. */
module DocIds {
  import opened Wrappers
  import opened Text

  const Prefix: string := "DOC-"

  /** Python's `f"{s:0>width}"` on a digit string: left-pad with zeros. */
  function ZeroPad(s: string, width: nat): (r: string)
    requires AllDigits(s)
    ensures AllDigits(r) && DigitsValue(r) == DigitsValue(s)
    ensures |r| == if |s| >= width then |s| else width
    decreases width - |s|
  {
    if |s| >= width then s
    else
      LeadingZeroValue(s);
      ZeroPad("0" + s, width)
  }

  /** `generate_doc_id(n)`: `"DOC-"` then `n` zero-padded to at least four digits. */
  function GenerateDocId(n: nat): string {
    Prefix + ZeroPad(NatToDecimal(n), 4)
  }

  /** A generated id is the prefix followed by digits that spell the
      counter value: exactly four when the counter has at most four digits,
      and the counter's own digits otherwise. */
  lemma GenerateDocIdShape(n: nat)
    ensures var id := GenerateDocId(n);
            && StartsWith(id, Prefix)
            && |id| == 4 + (if |NatToDecimal(n)| >= 4 then |NatToDecimal(n)| else 4)
            && AllDigits(id[4..]) && DigitsValue(id[4..]) == n
  {
    var id := GenerateDocId(n);
    assert id[4..] == ZeroPad(NatToDecimal(n), 4);
  }

  /** Example: the first id is padded to four digits. */
  lemma GenerateDocIdFirst()
    ensures GenerateDocId(1) == "DOC-0001"
  {
    assert NatToDecimal(1) == "1";
    assert "0" + "001" == "0001" && "0" + "01" == "001" && "0" + "1" == "01";
    assert ZeroPad("0001", 4) == "0001";
    assert ZeroPad("001", 4) == "0001";
    assert ZeroPad("01", 4) == "0001";
    assert ZeroPad("1", 4) == "0001";
  }

  /** Example: a counter wider than the padding keeps all its digits. */
  lemma GenerateDocIdWide()
    ensures GenerateDocId(12345) == "DOC-12345"
  {
    var s := "12345";
    assert s[..4] == "1234" && s[..4][..3] == "123" && s[..4][..3][..2] == "12" && s[..4][..3][..2][..1] == "1";
    assert DigitsValue("1") == 1;
    assert DigitsValue("12") == 12;
    assert DigitsValue("123") == 123;
    assert DigitsValue("1234") == 1234;
    assert DigitsValue(s) == 12345;
    DecimalCanonical(s);
    assert ZeroPad(s, 4) == s;
  }

  /** Index of the first occurrence of `c` in `s`, if any. */
  function FirstIndex(s: string, c: char): (r: Option<nat>)
    ensures r.Some? ==> r.value < |s|
  {
    if s == [] then None
    else if s[0] == c then Some(0)
    else
      match FirstIndex(s[1..], c)
      case None => None
      case Some(i) => Some(i + 1)
  }

  /** `FirstIndex` finds the first occurrence, and finds none only when there is none. */
  lemma {:induction false} FirstIndexFacts(s: string, c: char)
    ensures FirstIndex(s, c).None? <==> c !in s
    ensures var r := FirstIndex(s, c);
            r.Some? ==> r.value < |s| && s[r.value] == c && c !in s[..r.value]
  {
    if s != [] && s[0] != c {
      FirstIndexFacts(s[1..], c);
      assert c in s <==> c in s[1..] by { assert s == [s[0]] + s[1..]; }
      match FirstIndex(s[1..], c)
      case None =>
      case Some(i) => assert s[..i + 1] == [s[0]] + s[1..][..i];
    }
  }

  /** The first occurrence is where `c` stands with no `c` before it. */
  lemma {:induction false} FirstIndexAt(s: string, c: char, j: nat)
    requires j < |s| && s[j] == c
    requires forall k :: 0 <= k < j ==> s[k] != c
    ensures FirstIndex(s, c) == Some(j)
  {
    if j > 0 {
      FirstIndexAt(s[1..], c, j - 1);
    }
  }

  /** Python's `s.split('-')[1]`: the text between the first and the second
      dash (or the end); `None` where Python raises `IndexError`. */
  function SecondField(s: string): Option<string> {
    match FirstIndex(s, '-')
    case None => None
    case Some(i) =>
      var rest := s[i + 1..];
      match FirstIndex(rest, '-')
      case None => Some(rest)
      case Some(j) => Some(rest[..j])
  }

  /** The second field exists exactly when there is a dash; it holds no dash
      and it is what follows the first dash, up to the next dash or the end. */
  lemma SecondFieldFacts(s: string)
    ensures SecondField(s).None? <==> '-' !in s
    ensures var r := SecondField(s);
            r.Some? ==> '-' !in r.value
    ensures var r := SecondField(s);
            r.Some? ==> exists i :: 0 <= i < |s| && s[i] == '-' && '-' !in s[..i]
                                    && StartsWith(s[i + 1..], r.value)
                                    && (|s[i + 1..]| == |r.value| || s[i + 1 + |r.value|] == '-')
  {
    FirstIndexFacts(s, '-');
    match FirstIndex(s, '-')
    case None =>
    case Some(i) =>
      var rest := s[i + 1..];
      FirstIndexFacts(rest, '-');
      match FirstIndex(rest, '-')
      case None => assert rest[..|rest|] == rest;
      case Some(j) =>
  }

  /** The characters Python's `int()` strips around its argument: the ASCII
      space, tab, line feed, vertical tab, form feed and carriage return, and
      the non-ASCII characters Python counts as whitespace (which `int()`
      turns into spaces first). The ASCII separators 0x1C-0x1F are not
      stripped: `int()` leaves characters below 0x7F as they are and then
      skips only the six ASCII spaces. */
  predicate IsSpace(c: char) {
    c == ' ' || (9 <= c as int <= 13) || UnicodeSpace(c)
  }

  /** The whitespace of Unicode above ASCII, as Python's `str.isspace` has it. */
  predicate UnicodeSpace(c: char) {
    var k := c as int;
    k == 0x85 || k == 0xA0 || k == 0x1680 || (0x2000 <= k <= 0x200A)
    || k == 0x2028 || k == 0x2029 || k == 0x202F || k == 0x205F || k == 0x3000
  }

  function StripLeft(s: string): string {
    if s != [] && IsSpace(s[0]) then StripLeft(s[1..]) else s
  }

  function StripRight(s: string): string {
    if s != [] && IsSpace(s[|s| - 1]) then StripRight(s[..|s| - 1]) else s
  }

  function Strip(s: string): string {
    StripRight(StripLeft(s))
  }

  /** Stripping removes a run of whitespace from the front and nothing else. */
  lemma {:induction false} StripLeftFacts(s: string)
    ensures var r := StripLeft(s);
            && |r| <= |s| && r == s[|s| - |r|..] && (r == [] || !IsSpace(r[0]))
            && forall i :: 0 <= i < |s| - |r| ==> IsSpace(s[i])
  {
    if s != [] && IsSpace(s[0]) {
      var t := s[1..];
      StripLeftFacts(t);
      var r := StripLeft(t);
      assert StripLeft(s) == r;
      assert t[|t| - |r|..] == s[|s| - |r|..];
      forall i | 0 <= i < |s| - |r| ensures IsSpace(s[i]) {
        if i > 0 {
          assert s[i] == t[i - 1];
        }
      }
    } else {
      assert s[0..] == s;
    }
  }

  /** Stripping removes a run of whitespace from the back and nothing else. */
  lemma {:induction false} StripRightFacts(s: string)
    ensures var r := StripRight(s);
            && |r| <= |s| && r == s[..|r|] && (r == [] || !IsSpace(r[|r| - 1]))
            && forall i :: |r| <= i < |s| ==> IsSpace(s[i])
  {
    if s != [] && IsSpace(s[|s| - 1]) {
      StripRightFacts(s[..|s| - 1]);
    }
  }

  /** A Python integer literal body: digits, with single underscores allowed
      between two digits. */
  predicate DigitGroups(t: string) {
    && t != []
    && IsDigit(t[0]) && IsDigit(t[|t| - 1])
    && (forall i :: 0 <= i < |t| ==> IsDigit(t[i]) || t[i] == '_')
    && (forall i :: 0 <= i < |t| - 1 ==> !(t[i] == '_' && t[i + 1] == '_'))
  }

  /** The digits of a literal body with its underscores dropped. */
  function RemoveUnderscores(t: string): (r: string)
    requires forall i :: 0 <= i < |t| ==> IsDigit(t[i]) || t[i] == '_'
    ensures AllDigits(r) && |r| <= |t|
  {
    if t == [] then []
    else if t[0] == '_' then RemoveUnderscores(t[1..])
    else [t[0]] + RemoveUnderscores(t[1..])
  }

  /** Dropping underscores works piecewise: a digit is kept where it stands
      and an underscore disappears, so the result is the digits of `t` in
      their order. */
  lemma {:induction false} RemoveUnderscoresFacts(a: string, b: string)
    requires forall i :: 0 <= i < |a| ==> IsDigit(a[i]) || a[i] == '_'
    requires forall i :: 0 <= i < |b| ==> IsDigit(b[i]) || b[i] == '_'
    ensures RemoveUnderscores(a + b) == RemoveUnderscores(a) + RemoveUnderscores(b)
    ensures |a| == 1 ==> RemoveUnderscores(a) == (if a[0] == '_' then [] else a)
  {
    if a != [] {
      assert (a + b)[1..] == a[1..] + b;
      RemoveUnderscoresFacts(a[1..], b);
      if a[0] != '_' {
        AppendAssoc([a[0]], RemoveUnderscores(a[1..]), RemoveUnderscores(b));
      }
    } else {
      assert a + b == b;
    }
  }

  /** Python's `int(s)` on a string: `None` where Python raises `ValueError`. */
  function PythonInt(s: string): Option<int> {
    var t := Strip(s);
    if t == [] then None
    else
      var negative := t[0] == '-';
      var body := if t[0] == '-' || t[0] == '+' then t[1..] else t;
      if !DigitGroups(body) then None
      else
        var v: int := DigitsValue(RemoveUnderscores(body));
        Some(if negative then -v else v)
  }

  /** `int(doc_id.split('-')[1])`, with both of its failures as `None`. */
  function DocOrdinal(id: string): Option<int> {
    match SecondField(id)
    case None => None
    case Some(field) => PythonInt(field)
  }

  /** The ordinal parse recovers what `GenerateDocId` formatted. */
  lemma {:induction false} DocOrdinalOfGenerated(n: nat)
    ensures DocOrdinal(GenerateDocId(n)) == Some(n)
  {
    var id := GenerateDocId(n);
    GenerateDocIdShape(n);
    var digits := id[4..];
    assert id == Prefix + digits;
    assert id[3] == '-' && '-' !in id[..3];
    forall k | 0 <= k < 3 ensures id[k] != '-' {
      assert id[k] == id[..3][k];
    }
    FirstIndexAt(id, '-', 3);
    assert id[4..] == digits;
    assert '-' !in digits by {
      forall i | 0 <= i < |digits| ensures digits[i] != '-' { assert IsDigit(digits[i]); }
    }
    FirstIndexFacts(digits, '-');
    assert FirstIndex(digits, '-') == None;
    assert SecondField(id) == Some(digits);
    PythonIntOfDigits(digits);
  }

  /** A plain digit string parses to the number it denotes. */
  lemma PythonIntOfDigits(s: string)
    requires AllDigits(s) && s != []
    ensures PythonInt(s) == Some(DigitsValue(s))
  {
    assert !IsSpace(s[0]) && !IsSpace(s[|s| - 1]) by { assert IsDigit(s[0]) && IsDigit(s[|s| - 1]); }
    assert StripLeft(s) == s;
    assert StripRight(s) == s;
    assert Strip(s) == s;
    assert DigitGroups(s);
    RemoveUnderscoresOfDigits(s);
  }

  /** Example: `int()` skips ASCII whitespace around the digits. */
  lemma PythonIntAsciiSpace()
    ensures PythonInt(" 42\n") == Some(42)
  {
    var s := " 42\n";
    assert s[1..] == "42\n" && "42\n"[..2] == "42";
    assert StripLeft(s) == "42\n";
    assert StripRight("42\n") == "42";
    assert DigitsValue("42") == 42 by { assert "42"[..1] == "4"; }
    PythonIntOfDigits("42");
  }

  /** Example: `int()` skips a no-break space, as it does all Unicode whitespace. */
  lemma PythonIntUnicodeSpace()
    ensures PythonInt("\U{A0}5") == Some(5)
  {
    var s := "\U{A0}5";
    assert s[1..] == "5";
    assert Strip(s) == "5";
    PythonIntOfDigits("5");
  }

  /** Example: a sign, then single underscores between digits. */
  lemma PythonIntUnderscore()
    ensures PythonInt("-0_07") == Some(-7)
  {
    var s := "-0_07";
    assert Strip(s) == s;
    var body := s[1..];
    assert body == "0" + "_" + "07";
    assert DigitGroups(body);
    RemoveUnderscoresFacts("0", "_" + "07");
    RemoveUnderscoresFacts("_", "07");
    RemoveUnderscoresOfDigits("07");
    assert RemoveUnderscores(body) == "007";
    assert DigitsValue("007") == 7 by { assert "007"[..2] == "00" && "00"[..1] == "0"; }
  }

  /** Examples: an ASCII separator before the digits, a doubled underscore
      and a bare sign are all rejected. */
  lemma PythonIntRejects()
    ensures PythonInt("\U{1C}5") == None
    ensures PythonInt("1__0") == None
    ensures PythonInt("-") == None
  {
    assert Strip("\U{1C}5") == "\U{1C}5";
    assert !IsDigit("\U{1C}5"[0]);
    assert Strip("1__0") == "1__0";
    assert !DigitGroups("1__0") by { assert "1__0"[1] == '_' && "1__0"[2] == '_'; }
    assert Strip("-") == "-";
  }

  /** Removing underscores from a plain digit string leaves it as it is. */
  lemma {:induction false} RemoveUnderscoresOfDigits(t: string)
    requires AllDigits(t)
    ensures RemoveUnderscores(t) == t
  {
    if t != [] {
      RemoveUnderscoresOfDigits(t[1..]);
    }
  }

  /** Distinct ordinals give distinct identifiers. */
  lemma GenerateDocIdInjective(m: nat, n: nat)
    requires GenerateDocId(m) == GenerateDocId(n)
    ensures m == n
  {
    DocOrdinalOfGenerated(m);
    DocOrdinalOfGenerated(n);
  }
}

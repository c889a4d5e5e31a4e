/**
 * Python's int() applied to a str in base 10, as used on article file stems,
 * and the decimal rendering of a natural number used by f-strings.
 */
module PyInt {
  import opened Wrappers
  import opened TextLines

  /**
   * The white space int() ignores around the literal. This is not str.isspace():
   * int() first maps non-ASCII white space to ' ' and then skips only the C-locale
   * set (space and '\t' to '\r'), so the ASCII separators U+001C to U+001F are kept
   * and make the literal invalid.
   */
  predicate IsSpace(c: char) {
    || c == ' '
    || '\t' <= c <= '\r'
    || c == '\U{85}' || c == '\U{a0}' || c == '\U{1680}'
    || '\U{2000}' <= c <= '\U{200a}'
    || c == '\U{2028}' || c == '\U{2029}' || c == '\U{202f}' || c == '\U{205f}' || c == '\U{3000}'
  }

  predicate IsDigit(c: char) {
    '0' <= c <= '9'
  }

  predicate AllDigits(s: string) {
    forall i :: 0 <= i < |s| ==> IsDigit(s[i])
  }

  /** Zero padding: a run of '0' characters, possibly empty. */
  predicate AllZeros(s: string) {
    forall i :: 0 <= i < |s| ==> s[i] == '0'
  }

  /** Drops leading white space. */
  function TrimStart(s: string): string {
    if s != [] && IsSpace(s[0]) then TrimStart(s[1..]) else s
  }

  /** Drops trailing white space. */
  function TrimEnd(s: string): string {
    if s != [] && IsSpace(s[|s| - 1]) then TrimEnd(s[..|s| - 1]) else s
  }

  /** TrimStart removes a prefix of white space, and no more. */
  lemma {:induction false} TrimStartSkipsSpace(s: string)
    ensures |TrimStart(s)| <= |s| && TrimStart(s) == s[|s| - |TrimStart(s)|..]
    ensures forall i :: 0 <= i < |s| - |TrimStart(s)| ==> IsSpace(s[i])
    ensures TrimStart(s) == [] || !IsSpace(TrimStart(s)[0])
  {
    if s != [] && IsSpace(s[0]) {
      var t := s[1..];
      TrimStartSkipsSpace(t);
      var r := TrimStart(t);
      assert TrimStart(s) == r;
      assert forall i :: 1 <= i < |s| - |r| ==> s[i] == t[i - 1];
      assert s[|s| - |r|..] == t[|t| - |r|..];
    }
  }

  /** TrimEnd removes a suffix of white space, and no more. */
  lemma {:induction false} TrimEndSkipsSpace(s: string)
    ensures |TrimEnd(s)| <= |s| && TrimEnd(s) == s[..|TrimEnd(s)|]
    ensures forall i :: |TrimEnd(s)| <= i < |s| ==> IsSpace(s[i])
    ensures TrimEnd(s) == [] || !IsSpace(TrimEnd(s)[|TrimEnd(s)| - 1])
  {
    if s != [] && IsSpace(s[|s| - 1]) {
      var t := s[..|s| - 1];
      TrimEndSkipsSpace(t);
      var r := TrimEnd(t);
      assert TrimEnd(s) == r;
      assert forall i :: |r| <= i < |t| ==> s[i] == t[i];
      assert s[..|r|] == t[..|r|];
    }
  }

  function DigitValue(c: char): (d: nat)
    requires IsDigit(c)
    ensures d < 10
  {
    c as int - '0' as int
  }

  function DigitChar(d: nat): (c: char)
    requires d < 10
    ensures IsDigit(c) && DigitValue(c) == d
  {
    ('0' as int + d) as char
  }

  /** The value of a run of decimal digits, most significant first. */
  function DigitsValue(ds: string): nat
    requires AllDigits(ds)
  {
    if ds == [] then 0 else 10 * DigitsValue(ds[..|ds| - 1]) + DigitValue(ds[|ds| - 1])
  }

  /** A base-10 literal body: digits, where a single underscore may stand between two digits. */
  predicate IsDigitGroups(s: string) {
    && |s| > 0
    && IsDigit(s[0])
    && IsDigit(s[|s| - 1])
    && (forall i :: 0 <= i < |s| ==> IsDigit(s[i]) || s[i] == '_')
    && (forall i, j :: 0 <= i < |s| && 0 <= j < |s| && j == i + 1 ==> s[i] == '_' ==> s[j] != '_')
  }

  /** The digits of a literal body with its grouping underscores removed. */
  function DropUnderscores(s: string): (r: string)
    ensures |r| <= |s|
  {
    if s == [] then [] else (if s[0] == '_' then [] else [s[0]]) + DropUnderscores(s[1..])
  }

  /** Removing the underscores from digits and underscores leaves only digits. */
  lemma {:induction false} DropUnderscoresDigits(s: string)
    requires forall i :: 0 <= i < |s| ==> IsDigit(s[i]) || s[i] == '_'
    ensures AllDigits(DropUnderscores(s))
  {
    if s != [] {
      assert forall i :: 0 <= i < |s[1..]| ==> s[1..][i] == s[i + 1];
      DropUnderscoresDigits(s[1..]);
    }
  }

  /** A text without underscores is left unchanged. */
  lemma {:induction false} DropUnderscoresNone(s: string)
    requires Lacks(s, '_')
    ensures DropUnderscores(s) == s
  {
    if s != [] {
      assert forall i :: 0 <= i < |s[1..]| ==> s[1..][i] == s[i + 1];
      DropUnderscoresNone(s[1..]);
      assert s == [s[0]] + s[1..];
    }
  }

  function GroupsValue(s: string): nat
    requires IsDigitGroups(s)
  {
    DropUnderscoresDigits(s);
    DigitsValue(DropUnderscores(s))
  }

  /** int() on a literal already stripped of white space; None stands for ValueError. */
  function ParseLiteral(t: string): Option<int> {
    if |t| > 0 && (t[0] == '+' || t[0] == '-') then
      if IsDigitGroups(t[1..]) then
        var magnitude: int := GroupsValue(t[1..]);
        Some(if t[0] == '-' then -magnitude else magnitude)
      else None
    else if IsDigitGroups(t) then Some(GroupsValue(t))
    else None
  }

  /**
   * int(s): white space around the literal, an optional sign, then digit groups.
   * None stands for the ValueError int() raises.
   */
  function ParseInt(s: string): Option<int> {
    ParseLiteral(TrimEnd(TrimStart(s)))
  }

  /** str(n) for a natural number: its decimal digits without leading zeros. */
  function Decimal(n: nat): (r: string)
    ensures |r| > 0 && AllDigits(r)
    ensures DigitsValue(r) == n
    ensures r[0] == '0' ==> n == 0
  {
    if n < 10 then [DigitChar(n)]
    else
      var r := Decimal(n / 10) + [DigitChar(n % 10)];
      assert r[..|r| - 1] == Decimal(n / 10);
      r
  }

  /** A string of zeros is worth nothing in front of a digit run. */
  lemma {:induction false} LeadingZerosValue(z: string, ds: string)
    requires AllZeros(z)
    requires AllDigits(ds)
    ensures AllDigits(z + ds) && DigitsValue(z + ds) == DigitsValue(ds)
    decreases |z| + |ds|
  {
    if ds == [] {
      assert z + ds == z;
      if z != [] {
        LeadingZerosValue(z[..|z| - 1], []);
        assert z[..|z| - 1] + [] == z[..|z| - 1];
      }
    } else {
      var s := z + ds;
      assert s[..|s| - 1] == z + ds[..|ds| - 1];
      LeadingZerosValue(z, ds[..|ds| - 1]);
    }
  }

  /** A text that neither starts nor ends with white space is left alone by the trimming. */
  lemma TrimUnspaced(s: string)
    requires |s| > 0 && !IsSpace(s[0]) && !IsSpace(s[|s| - 1])
    ensures TrimEnd(TrimStart(s)) == s
  {
    assert TrimStart(s) == s;
  }

  /** int() ignores nothing of a text that neither starts nor ends with white space. */
  lemma ParseTrimmed(s: string)
    requires |s| > 0 && !IsSpace(s[0]) && !IsSpace(s[|s| - 1])
    ensures ParseInt(s) == ParseLiteral(s)
  {
    TrimUnspaced(s);
  }

  /** The same, as a value: what the stripped literal parses to is what int() returns. */
  lemma ParseTrimmedAs(s: string, v: Option<int>)
    requires |s| > 0 && !IsSpace(s[0]) && !IsSpace(s[|s| - 1])
    requires ParseLiteral(s) == v
    ensures ParseInt(s) == v
  {
    ParseTrimmed(s);
  }

  /** A run of digits is a literal body without underscores. */
  lemma DigitsAreGroups(ds: string)
    requires |ds| > 0 && AllDigits(ds)
    ensures IsDigitGroups(ds) && GroupsValue(ds) == DigitsValue(ds)
  {
    DropUnderscoresNone(ds);
  }

  /** Any run of ASCII digits, zero-padded or not, parses to its value. */
  lemma ParseDigits(ds: string)
    requires |ds| > 0 && AllDigits(ds)
    ensures ParseInt(ds) == Some(DigitsValue(ds))
  {
    ParseTrimmed(ds);
    DigitsAreGroups(ds);
  }

  /** int() inverts the decimal rendering. */
  lemma ParseDecimal(n: nat)
    ensures ParseInt(Decimal(n)) == Some(n)
  {
    ParseDigits(Decimal(n));
  }

  /** Leading zeros do not change the value: int("01") == int("1"). */
  lemma ParseZeroPadded(z: string, n: nat)
    requires AllZeros(z)
    ensures ParseInt(z + Decimal(n)) == Some(n)
  {
    LeadingZerosValue(z, Decimal(n));
    ParseDigits(z + Decimal(n));
  }

  /** Removing the underscores works piece by piece. */
  lemma {:induction false} DropUnderscoresAppend(a: string, b: string)
    ensures DropUnderscores(a + b) == DropUnderscores(a) + DropUnderscores(b)
  {
    if a == [] {
      assert a + b == b;
    } else {
      assert (a + b)[0] == a[0] && (a + b)[1..] == a[1..] + b;
      DropUnderscoresAppend(a[1..], b);
    }
  }

  /** Two digit runs joined by one underscore form a literal body. */
  lemma GroupedIsGroups(x: string, y: string)
    requires |x| > 0 && |y| > 0 && AllDigits(x) && AllDigits(y)
    ensures IsDigitGroups(x + "_" + y)
  {
    var s := x + "_" + y;
    forall i | 0 <= i < |s|
      ensures IsDigit(s[i]) || s[i] == '_'
      ensures s[i] == '_' ==> i == |x|
    {
      if i < |x| {
        assert s[i] == x[i];
      } else if i > |x| {
        assert s[i] == y[i - |x| - 1];
      }
    }
    assert s[|x| + 1] == y[0];
  }

  /** The digits of two runs joined by one underscore are the two runs. */
  lemma GroupedDrop(x: string, y: string)
    requires AllDigits(x) && AllDigits(y)
    ensures DropUnderscores(x + "_" + y) == x + y
  {
    assert DropUnderscores("_") == [] by {
      assert "_"[1..] == [];
    }
    calc {
      DropUnderscores(x + "_" + y);
      { DropUnderscoresAppend(x + "_", y); }
      DropUnderscores(x + "_") + DropUnderscores(y);
      { DropUnderscoresAppend(x, "_"); }
      DropUnderscores(x) + [] + DropUnderscores(y);
      { DropUnderscoresNone(x); DropUnderscoresNone(y); }
      x + [] + y;
    }
    assert x + [] + y == x + y;
  }

  /** Grouping underscores do not change the value: int("1_000") == int("1000"). */
  lemma ParseGrouped(x: string, y: string)
    requires |x| > 0 && |y| > 0 && AllDigits(x) && AllDigits(y)
    ensures AllDigits(x + y) && ParseInt(x + "_" + y) == Some(DigitsValue(x + y))
  {
    var s := x + "_" + y;
    GroupedIsGroups(x, y);
    GroupedDrop(x, y);
    assert AllDigits(x + y) by {
      assert forall i :: 0 <= i < |x + y| ==> (x + y)[i] == (if i < |x| then x[i] else y[i - |x|]);
    }
    assert s[0] == x[0] && s[|s| - 1] == y[|y| - 1];
    assert IsDigit(s[0]) && IsDigit(s[|s| - 1]);
    ParseTrimmedAs(s, Some(DigitsValue(x + y)));
  }

  /** An ASCII information separator around a literal is not white space to int(): int("\x1c7") raises. */
  lemma SeparatorNotSkipped()
    ensures ParseInt("\U{1c}7") == None
  {
    LiteralRejects("\U{1c}7", 0);
    assert TrimStart("\U{1c}7") == "\U{1c}7";
    assert TrimEnd("\U{1c}7") == "\U{1c}7";
  }

  /** A leading minus sign negates. */
  lemma ParseNegative(n: nat)
    ensures ParseInt("-" + Decimal(n)) == Some(0 - n)
  {
    NegativeDecimal(n);
    var d := Decimal(n);
    assert IsDigit(d[|d| - 1]);
    ParseSignedAs(d, Some(0 - n));
  }

  /** The stripped literal "-" + str(n) is worth -n. */
  lemma NegativeDecimal(n: nat)
    ensures ParseLiteral("-" + Decimal(n)) == Some(0 - n)
  {
    DigitsAreGroups(Decimal(n));
    NegativeLiteral(Decimal(n));
  }

  /** int() of a minus sign and a body that does not end in white space is the literal's value. */
  lemma ParseSignedAs(body: string, v: Option<int>)
    requires |body| > 0 && !IsSpace(body[|body| - 1])
    requires ParseLiteral("-" + body) == v
    ensures ParseInt("-" + body) == v
  {
    var s := "-" + body;
    assert s[|s| - 1] == body[|body| - 1];
    ParseTrimmedAs(s, v);
  }

  /** A minus sign in front of a literal body negates its value. */
  lemma NegativeLiteral(body: string)
    requires IsDigitGroups(body)
    ensures ParseLiteral("-" + body) == Some(0 - GroupsValue(body))
  {
    var t := "-" + body;
    assert t[1..] == body;
  }

  /** A character that is neither white space, a sign, a digit nor an underscore makes int() fail. */
  lemma ParseRejects(s: string, i: nat)
    requires i < |s|
    requires !IsSpace(s[i]) && !IsDigit(s[i]) && s[i] !in "+-_"
    ensures ParseInt(s) == None
  {
    var j := StrippedIndex(s, i);
    LiteralRejects(TrimEnd(TrimStart(s)), j);
  }

  /** Stripping white space keeps every other character, at a known position. */
  lemma StrippedIndex(s: string, i: nat) returns (j: nat)
    requires i < |s| && !IsSpace(s[i])
    ensures j < |TrimEnd(TrimStart(s))| && TrimEnd(TrimStart(s))[j] == s[i]
  {
    j := StartIndex(s, i);
    EndIndex(TrimStart(s), j);
  }

  /** Leading white space ends before any other character. */
  lemma {:induction false} StartIndex(s: string, i: nat) returns (j: nat)
    requires i < |s| && !IsSpace(s[i])
    ensures j < |TrimStart(s)| && TrimStart(s)[j] == s[i]
  {
    if IsSpace(s[0]) {
      assert i > 0 && s[1..][i - 1] == s[i];
      j := StartIndex(s[1..], i - 1);
    } else {
      j := i;
    }
  }

  /** Trailing white space starts after any other character. */
  lemma {:induction false} EndIndex(u: string, j: nat)
    requires j < |u| && !IsSpace(u[j])
    ensures j < |TrimEnd(u)| && TrimEnd(u)[j] == u[j]
  {
    if IsSpace(u[|u| - 1]) {
      assert j < |u| - 1 && u[..|u| - 1][j] == u[j];
      EndIndex(u[..|u| - 1], j);
    }
  }

  /** The same, for the text left once white space is stripped. */
  lemma LiteralRejects(t: string, j: nat)
    requires j < |t|
    requires !IsDigit(t[j]) && t[j] !in "+-_"
    ensures ParseLiteral(t) == None
  {
    if |t| > 0 && (t[0] == '+' || t[0] == '-') {
      assert t[1..][j - 1] == t[j];
    }
  }
}

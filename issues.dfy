/**
 * find_latest_issue: re.findall(r'phrack(\d+).tar.gz', listing).pop(). The
 * pattern is matched by a scanner written for it alone: "phrack", a greedy run
 * of digits that backtracks, then ".tar.gz" where each '.' is any character
 * but a line break.
 */
module Issues {
  import opened Wrappers
  import PyInt

  /** IndexError from pop() on the empty list of matches. */
  datatype IssueError = NoIssueFound

  /** The unescaped '.' of the pattern: any character except '\n'. */
  predicate AnyChar(c: char) {
    c != '\n'
  }

  /** ".tar.gz" of the pattern at position q. */
  predicate SuffixAt(text: string, q: nat)
    requires q + 7 <= |text|
  {
    && AnyChar(text[q]) && text[q + 1] == 't' && text[q + 2] == 'a' && text[q + 3] == 'r'
    && AnyChar(text[q + 4]) && text[q + 5] == 'g' && text[q + 6] == 'z'
  }

  predicate DigitsAt(text: string, q: nat, n: nat)
    requires q + n <= |text|
  {
    forall i :: q <= i < q + n ==> PyInt.IsDigit(text[i])
  }

  /** "phrack" starts at position p. */
  predicate PhrackAt(text: string, p: nat) {
    && p + 6 <= |text|
    && text[p] == 'p' && text[p + 1] == 'h' && text[p + 2] == 'r'
    && text[p + 3] == 'a' && text[p + 4] == 'c' && text[p + 5] == 'k'
  }

  /** The pattern matches text[p..p + n + 13] with a capture of n digits. */
  predicate MatchesWith(text: string, p: nat, n: nat) {
    && n >= 1 && p + n + 13 <= |text|
    && PhrackAt(text, p)
    && DigitsAt(text, p + 6, n)
    && SuffixAt(text, p + 6 + n)
  }

  /** The length of the run of digits starting at q. */
  function DigitRun(text: string, q: nat): (r: nat)
    requires q <= |text|
    ensures q + r <= |text| && DigitsAt(text, q, r)
    ensures q + r < |text| ==> !PyInt.IsDigit(text[q + r])
    decreases |text| - q
  {
    if q < |text| && PyInt.IsDigit(text[q]) then 1 + DigitRun(text, q + 1) else 0
  }

  /** The digit count the match settles on, trying n digits, then n - 1, down to 1. */
  function Backtrack(text: string, p: nat, n: nat): (r: Option<nat>)
    requires p + 6 + n <= |text| && DigitsAt(text, p + 6, n)
    ensures r.Some? ==> 1 <= r.value <= n && MatchesWith(text, p, r.value)
    ensures r.Some? ==> forall m :: r.value < m <= n ==> !MatchesWith(text, p, m)
    ensures r.None? ==> forall m: nat :: m <= n ==> !MatchesWith(text, p, m)
  {
    if n == 0 then None
    else if PhrackAt(text, p) && p + n + 13 <= |text| && SuffixAt(text, p + 6 + n) then Some(n)
    else Backtrack(text, p, n - 1)
  }

  /** The match starting at p, if any, given by the number of digits it captures. */
  function MatchAt(text: string, p: nat): (r: Option<nat>)
    requires p <= |text|
  {
    if PhrackAt(text, p) then Backtrack(text, p, DigitRun(text, p + 6))
    else None
  }

  /** A match at p is the pattern with the longest digit run that leaves ".tar.gz" to match. */
  lemma MatchAtIsGreedy(text: string, p: nat)
    requires p <= |text|
    ensures MatchAt(text, p).Some? ==> MatchesWith(text, p, MatchAt(text, p).value)
    ensures MatchAt(text, p).Some? ==> forall m :: m > MatchAt(text, p).value ==> !MatchesWith(text, p, m)
    ensures MatchAt(text, p).None? ==> forall m :: !MatchesWith(text, p, m)
  {
    if PhrackAt(text, p) {
      var k := DigitRun(text, p + 6);
      forall m | m > k
        ensures !MatchesWith(text, p, m)
      {
        if p + m + 13 <= |text| {
          assert !PyInt.IsDigit(text[p + 6 + k]);
        }
      }
    }
  }

  /** The pattern's captured digits at p. */
  function Capture(text: string, p: nat, n: nat): string
    requires p + 6 + n <= |text|
  {
    text[p + 6..p + 6 + n]
  }

  /**
   * re.findall from position pos on: the matches as (start, digit count),
   * resuming after the end of each match and one character on otherwise.
   */
  function FindAll(text: string, pos: nat): seq<(nat, nat)>
    requires pos <= |text|
    decreases |text| - pos
  {
    if pos == |text| then []
    else match MatchAt(text, pos)
      case Some(n) => [(pos, n)] + FindAll(text, pos + n + 13)
      case None => FindAll(text, pos + 1)
  }

  /** Lines 11-14: the digits of the last match, or the error pop() raises when there is none. */
  function LatestIssue(listing: string): Result<string, IssueError> {
    var found := FindAll(listing, 0);
    if found == [] then Err(NoIssueFound)
    else
      var (p, n) := found[|found| - 1];
      FindAllBounds(listing, 0);
      Ok(Capture(listing, p, n))
  }

  /** Every pair findall reports is a match inside the text. */
  lemma {:induction false} FindAllBounds(text: string, pos: nat)
    requires pos <= |text|
    ensures forall i :: 0 <= i < |FindAll(text, pos)| ==>
      var (p, n) := FindAll(text, pos)[i]; pos <= p && p + n + 13 <= |text| && MatchAt(text, p) == Some(n)
    decreases |text| - pos
  {
    if pos < |text| {
      match MatchAt(text, pos)
      case Some(n) =>
        MatchAtIsGreedy(text, pos);
        FindAllBounds(text, pos + n + 13);
      case None =>
        FindAllBounds(text, pos + 1);
    }
  }

  /** No match can start inside another: the letters of "phrack" do not fit after the first 'p'. */
  lemma NoMatchInside(text: string, p: nat, n: nat, q: nat)
    requires MatchesWith(text, p, n) && p < q < p + n + 13
    ensures !PhrackAt(text, q)
  {
    var t := p + 6 + n;
    if p + 6 <= q < t {
      assert PyInt.IsDigit(text[q]);
    }
  }

  /** No match starts inside the match at p. */
  lemma NoMatchesInside(text: string, p: nat, n: nat)
    requires MatchesWith(text, p, n)
    ensures forall q, m :: p < q < p + n + 13 ==> !MatchesWith(text, q, m)
  {
    forall q | p < q < p + n + 13
      ensures !PhrackAt(text, q)
    {
      NoMatchInside(text, p, n, q);
    }
  }

  /** findall finds nothing from pos on exactly when the pattern matches nowhere from pos on. */
  lemma FindAllEmpty(text: string, pos: nat)
    requires pos <= |text|
    ensures FindAll(text, pos) == [] <==> forall q, m :: pos <= q ==> !MatchesWith(text, q, m)
  {
    if FindAll(text, pos) == [] {
      NoMatchFrom(text, pos);
    } else {
      FindAllBounds(text, pos);
      var (q, m) := FindAll(text, pos)[0];
      MatchAtIsGreedy(text, q);
    }
  }

  /** When findall finds nothing from pos on, the pattern matches nowhere from pos on. */
  lemma {:induction false} NoMatchFrom(text: string, pos: nat)
    requires pos <= |text| && FindAll(text, pos) == []
    ensures forall q, m :: pos <= q ==> !MatchesWith(text, q, m)
    decreases |text| - pos
  {
    if pos < |text| {
      MatchAtIsGreedy(text, pos);
      assert MatchAt(text, pos).None?;
      NoMatchFrom(text, pos + 1);
    }
  }

  /** The last pair findall reports is a match, and no match starts after it. */
  lemma {:induction false} FindAllLast(text: string, pos: nat)
    requires pos <= |text| && FindAll(text, pos) != []
    ensures var last := FindAll(text, pos)[|FindAll(text, pos)| - 1];
      && pos <= last.0 < |text| && MatchAt(text, last.0) == Some(last.1)
      && forall q, m :: last.0 < q ==> !MatchesWith(text, q, m)
    decreases |text| - pos, 1
  {
    if MatchAt(text, pos).Some? {
      FindAllLastFromMatch(text, pos);
    } else {
      assert FindAll(text, pos) == FindAll(text, pos + 1);
      FindAllLast(text, pos + 1);
    }
  }

  /** FindAllLast when a match starts at pos. */
  lemma {:induction false} FindAllLastFromMatch(text: string, pos: nat)
    requires pos < |text| && MatchAt(text, pos).Some?
    ensures var last := FindAll(text, pos)[|FindAll(text, pos)| - 1];
      && pos <= last.0 < |text| && MatchAt(text, last.0) == Some(last.1)
      && forall q, m :: last.0 < q ==> !MatchesWith(text, q, m)
    decreases |text| - pos, 0
  {
    var all := FindAll(text, pos);
    var n := MatchAt(text, pos).value;
    MatchAtIsGreedy(text, pos);
    var next := pos + n + 13;
    var rest := FindAll(text, next);
    assert all == [(pos, n)] + rest;
    if rest == [] {
      assert all[|all| - 1] == (pos, n);
      NothingAfter(text, pos, n);
    } else {
      assert all[|all| - 1] == rest[|rest| - 1];
      FindAllLast(text, next);
    }
  }

  /** A match after which findall finds nothing more is the last match in the text. */
  lemma NothingAfter(text: string, p: nat, n: nat)
    requires p <= |text| && MatchAt(text, p) == Some(n)
    requires p + n + 13 <= |text| && FindAll(text, p + n + 13) == []
    ensures MatchesWith(text, p, n)
    ensures forall q, m :: p < q ==> !MatchesWith(text, q, m)
  {
    MatchAtIsGreedy(text, p);
    NoMatchFrom(text, p + n + 13);
    NoMatchesInside(text, p, n);
  }

  /**
   * Issue selection fails exactly when the pattern matches nowhere; otherwise
   * it returns the digits captured by the match that starts last in the text.
   */
  lemma LatestIssueIsLastMatch(listing: string)
    ensures LatestIssue(listing).Err? <==> forall p, n :: !MatchesWith(listing, p, n)
    ensures LatestIssue(listing).Ok? ==> exists p: nat, n: nat ::
      && p + n + 13 <= |listing| && MatchAt(listing, p) == Some(n)
      && LatestIssue(listing).value == Capture(listing, p, n)
      && forall q, m :: p < q ==> !MatchesWith(listing, q, m)
  {
    FindAllEmpty(listing, 0);
    var found := FindAll(listing, 0);
    if found != [] {
      FindAllLast(listing, 0);
      var (p, n) := found[|found| - 1];
      assert MatchesWith(listing, p, n);
    }
  }

  /** The match that starts last in the text fixes the result, whatever matched before it. */
  lemma LastMatchDecides(listing: string, p: nat, n: nat)
    requires MatchesWith(listing, p, n) && MatchAt(listing, p) == Some(n)
    requires forall q, m :: p < q ==> !MatchesWith(listing, q, m)
    ensures LatestIssue(listing) == Ok(Capture(listing, p, n))
  {
    FindAllEmpty(listing, 0);
    var found := FindAll(listing, 0);
    FindAllLast(listing, 0);
    var (p', n') := found[|found| - 1];
    assert p' == p;
  }

  /** No "phrack" occurs in s. */
  predicate NoPhrack(s: string) {
    forall i: nat :: i < |s| ==> !PhrackAt(s, i)
  }

  /** An archive name phrackK.tar.gz in a listing is matched with K as its capture. */
  lemma ArchiveNameMatches(before: string, k: nat, after: string)
    ensures var listing := before + "phrack" + PyInt.Decimal(k) + ".tar.gz" + after;
      && MatchesWith(listing, |before|, |PyInt.Decimal(k)|)
      && MatchAt(listing, |before|) == Some(|PyInt.Decimal(k)|)
      && Capture(listing, |before|, |PyInt.Decimal(k)|) == PyInt.Decimal(k)
  {
    var d := PyInt.Decimal(k);
    var listing := before + "phrack" + d + ".tar.gz" + after;
    var p, n := |before|, |d|;
    ArchiveNameParts(before, d, after);
    assert DigitsAt(listing, p + 6, n);
    assert DigitRun(listing, p + 6) == n by {
      DigitRunOf(listing, p + 6, n);
    }
    assert MatchesWith(listing, p, n);
  }

  /** The three parts of an archive name inside a listing. */
  lemma ArchiveNameParts(before: string, d: string, after: string)
    ensures var listing := before + "phrack" + d + ".tar.gz" + after;
      && PhrackAt(listing, |before|)
      && listing[|before| + 6..|before| + 6 + |d|] == d
      && SuffixAt(listing, |before| + 6 + |d|)
      && listing[|before| + 6 + |d|] == '.'
  {
    var listing := before + "phrack" + d + ".tar.gz" + after;
    var x := before + "phrack";
    assert listing == before + "phrack" + (d + ".tar.gz" + after);
    PhrackAtJoin(before, d + ".tar.gz" + after);
    assert listing == x + d + (".tar.gz" + after);
    SliceJoin(x, d, ".tar.gz" + after);
    assert listing == (x + d) + ".tar.gz" + after;
    SuffixAtJoin(x + d, after);
  }

  lemma PhrackAtJoin(x: string, y: string)
    ensures PhrackAt(x + "phrack" + y, |x|)
  {
    var s := x + "phrack" + y;
    assert forall i :: 0 <= i < 6 ==> s[|x| + i] == "phrack"[i];
  }

  lemma SuffixAtJoin(x: string, y: string)
    ensures var s := x + ".tar.gz" + y; |x| + 7 <= |s| && SuffixAt(s, |x|) && s[|x|] == '.'
  {
    var s := x + ".tar.gz" + y;
    assert forall i :: 0 <= i < 7 ==> s[|x| + i] == ".tar.gz"[i];
  }

  lemma SliceJoin(x: string, d: string, y: string)
    ensures (x + d + y)[|x|..|x| + |d|] == d
  {
  }

  /** A digit run of length n followed by a non-digit is the whole run. */
  lemma DigitRunOf(text: string, q: nat, n: nat)
    requires q + n < |text| && DigitsAt(text, q, n) && !PyInt.IsDigit(text[q + n])
    ensures DigitRun(text, q) == n
    decreases n
  {
    if n > 0 {
      DigitRunOf(text, q + 1, n - 1);
    }
  }

  /**
   * A listing whose last archive name is phrackK.tar.gz selects K, whatever
   * issues, larger ones included, are listed before it.
   */
  lemma LastListedIsSelected(before: string, k: nat, after: string)
    requires NoPhrack(after)
    ensures LatestIssue(before + "phrack" + PyInt.Decimal(k) + ".tar.gz" + after) == Ok(PyInt.Decimal(k))
  {
    var d := PyInt.Decimal(k);
    var listing := before + "phrack" + d + ".tar.gz" + after;
    var p, n := |before|, |d|;
    var e := p + n + 13;
    ArchiveNameMatches(before, k, after);
    NoMatchesInside(listing, p, n);
    forall q | e <= q
      ensures !PhrackAt(listing, q)
    {
      if q + 6 <= |listing| {
        assert listing[e..] == after;
        assert forall j :: q - e <= j < |after| ==> listing[e + j] == after[j];
        assert !PhrackAt(after, q - e);
      }
    }
    LastMatchDecides(listing, p, n);
  }

  /** "phrack70.tar.gz phrack69.tar.gz" selects 69, not the larger 70. */
  lemma LastNotLargest()
    ensures LatestIssue("phrack70.tar.gz phrack69.tar.gz") == Ok("69")
  {
    assert PyInt.Decimal(69) == "69";
    assert "phrack70.tar.gz phrack69.tar.gz" == "phrack70.tar.gz " + "phrack" + PyInt.Decimal(69) + ".tar.gz" + "";
    LastListedIsSelected("phrack70.tar.gz ", 69, "");
  }
}

/** The str methods the document assembly relies on: split, join, startswith, count. */
module TextLines {
  import opened Wrappers

  /** c does not occur in s. */
  predicate Lacks(s: string, c: char) {
    forall i :: 0 <= i < |s| ==> s[i] != c
  }

  predicate StartsWith(s: string, prefix: string) {
    |prefix| <= |s| && s[..|prefix|] == prefix
  }

  /** The number of occurrences of c in s. */
  function Count(s: string, c: char): nat {
    if s == [] then 0 else (if s[0] == c then 1 else 0) + Count(s[1..], c)
  }

  /** The index of the first occurrence of c in s, if any. */
  function FirstIndex(s: string, c: char): (r: Option<nat>)
    ensures r.Some? ==> r.value < |s| && s[r.value] == c && Lacks(s[..r.value], c)
    ensures r.None? ==> Lacks(s, c)
  {
    if s == [] then None
    else if s[0] == c then Some(0)
    else match FirstIndex(s[1..], c)
      case None => None
      case Some(i) =>
        assert s[..i + 1] == [s[0]] + s[1..][..i];
        Some(i + 1)
  }

  /** In l + t, where l lacks c and t starts with c, c is first found where t begins. */
  lemma {:induction false} FirstIndexAfter(l: string, t: string, c: char)
    requires Lacks(l, c) && |t| > 0 && t[0] == c
    ensures FirstIndex(l + t, c) == Some(|l|)
  {
    if l == [] {
      assert l + t == t;
    } else {
      FirstIndexAfter(l[1..], t, c);
      assert (l + t)[0] == l[0] && (l + t)[1..] == l[1..] + t;
    }
  }

  /** s.split(sep) for a one-character separator: the pieces between separators. */
  function Split(s: string, sep: char): (r: seq<string>)
    ensures |r| > 0
  {
    if s == [] then [[]]
    else
      var rest := Split(s[1..], sep);
      if s[0] == sep then [[]] + rest else [[s[0]] + rest[0]] + rest[1..]
  }

  /** sep.join(xs). */
  function Join(sep: string, xs: seq<string>): string {
    if xs == [] then []
    else if |xs| == 1 then xs[0]
    else xs[0] + sep + Join(sep, xs[1..])
  }

  /** Splitting yields one more piece than there are separators. */
  lemma {:induction false} SplitCount(s: string, sep: char)
    ensures |Split(s, sep)| == Count(s, sep) + 1
  {
    if s != [] {
      SplitCount(s[1..], sep);
    }
  }

  /** A character absent from s, the separator included, is absent from every piece. */
  lemma {:induction false} SplitPiecesLack(s: string, sep: char, c: char)
    requires Lacks(s, c) || c == sep
    ensures forall i :: 0 <= i < |Split(s, sep)| ==> Lacks(Split(s, sep)[i], c)
  {
    if s != [] {
      SplitPiecesLack(s[1..], sep, c);
      var rest := Split(s[1..], sep);
      if s[0] != sep {
        assert Lacks([s[0]] + rest[0], c);
      }
    }
  }

  /** Joining the pieces with the separator gives the text back. */
  lemma {:induction false} JoinSplit(s: string, sep: char)
    ensures Join([sep], Split(s, sep)) == s
  {
    if s != [] {
      JoinSplit(s[1..], sep);
      var rest := Split(s[1..], sep);
      if s[0] == sep {
        assert ([[]] + rest)[1..] == rest;
      } else {
        var pieces := [[s[0]] + rest[0]] + rest[1..];
        if |rest| > 1 {
          assert pieces[1..] == rest[1..];
        }
      }
      assert s == [s[0]] + s[1..];
    }
  }

  /** A character other than the separator joins the first piece of what follows it. */
  lemma SplitCons(c: char, s: string, sep: char)
    requires c != sep
    ensures Split([c] + s, sep) == [[c] + Split(s, sep)[0]] + Split(s, sep)[1..]
  {
    assert ([c] + s)[0] == c && ([c] + s)[1..] == s;
  }

  /** A piece without separator glues onto the first piece of what follows it. */
  lemma {:induction false} SplitPrefix(x: string, t: string, sep: char)
    requires Lacks(x, sep)
    ensures Split(x + t, sep) == [x + Split(t, sep)[0]] + Split(t, sep)[1..]
  {
    var st := Split(t, sep);
    if x != [] {
      SplitPrefix(x[1..], t, sep);
      var r := Split(x[1..] + t, sep);
      assert x + t == [x[0]] + (x[1..] + t);
      SplitCons(x[0], x[1..] + t, sep);
      assert r[0] == x[1..] + st[0] && r[1..] == st[1..];
      assert [x[0]] + (x[1..] + st[0]) == x + st[0];
    } else {
      assert x + t == t && x + st[0] == st[0];
      assert [st[0]] + st[1..] == st;
    }
  }

  /** Splitting the joined lines gives the lines back when none holds the separator. */
  lemma {:induction false} SplitJoin(xs: seq<string>, sep: char)
    requires |xs| > 0
    requires forall i :: 0 <= i < |xs| ==> Lacks(xs[i], sep)
    ensures Split(Join([sep], xs), sep) == xs
  {
    if |xs| == 1 {
      SplitPrefix(xs[0], [], sep);
      assert xs[0] + [] == xs[0];
      assert Split([], sep) == [[]];
      assert xs == [xs[0]];
    } else {
      var tail := Join([sep], xs[1..]);
      SplitJoin(xs[1..], sep);
      assert xs[0] + [sep] + tail == xs[0] + ([sep] + tail);
      SplitPrefix(xs[0], [sep] + tail, sep);
      assert ([sep] + tail)[0] == sep && ([sep] + tail)[1..] == tail;
      assert Split([sep] + tail, sep) == [[]] + xs[1..];
      assert xs[0] + [] == xs[0];
      assert xs == [xs[0]] + xs[1..];
    }
  }

  lemma {:induction false} CountAppend(a: string, b: string, c: char)
    ensures Count(a + b, c) == Count(a, c) + Count(b, c)
  {
    if a == [] {
      assert a + b == b;
    } else {
      assert (a + b)[0] == a[0] && (a + b)[1..] == a[1..] + b;
      CountAppend(a[1..], b, c);
    }
  }

  lemma {:induction false} CountAbsent(s: string, c: char)
    requires Lacks(s, c)
    ensures Count(s, c) == 0
  {
    if s != [] {
      CountAbsent(s[1..], c);
    }
  }
}

/**
 * txt_to_html: the HTML document built from the ordered articles, as the
 * list of lines the function accumulates and the text it writes.
 */
module Document {
  import opened Wrappers
  import opened TextLines
  import PyInt
  import HtmlEscape
  import Paragraphs
  import opened Chapters

  /** The six lines the document opens with; the title goes in as given, unescaped. */
  function HeadLines(title: string): seq<string> {
    ["<!DOCTYPE html>", "<html>", "<head>", "<title>" + title + "</title>", "</head>", "<body>"]
  }

  const Tail: string := "</body></html>"

  /** f"<h1>Chapter {n}</h1>". */
  function Heading(n: nat): string {
    "<h1>Chapter " + PyInt.Decimal(n) + "</h1>"
  }

  /** The article text escaped and wrapped in one <p> per line. */
  function ArticleBody(text: string): string {
    Paragraphs.WrapParagraphs(HtmlEscape.Escape(text))
  }

  /** The four lines one article contributes as chapter n. */
  function ChapterBlock(n: nat, a: Article): seq<string> {
    [Heading(n), "<pre>", ArticleBody(a.text), "</pre>"]
  }

  /** The chapter blocks of the articles, numbered from 1 in the given order. */
  function ChapterLines(arts: seq<Article>): seq<string> {
    if arts == [] then []
    else ChapterLines(arts[..|arts| - 1]) + ChapterBlock(|arts|, arts[|arts| - 1])
  }

  /** Every line of the document, in order. */
  function DocumentLines(title: string, arts: seq<Article>): seq<string> {
    HeadLines(title) + ChapterLines(arts) + [Tail]
  }

  /** The four lines starting at line 4 * j of a run of chapter blocks. */
  function Block(lines: seq<string>, j: nat): seq<string>
    requires 4 * j + 4 <= |lines|
  {
    lines[4 * j..4 * j + 4]
  }

  /** The four lines of chapter j + 1 in a whole document. */
  function ChapterAt(lines: seq<string>, j: nat): seq<string>
    requires 4 * j + 10 <= |lines|
  {
    lines[4 * j + 6..4 * j + 10]
  }

  /**
   * Lines 27-53: the articles in chapter order, or the ordering error before
   * anything is written; otherwise the lines of the document joined by '\n'.
   */
  method TxtToHtml(files: seq<Article>, title: string) returns (r: Result<string, OrderError>)
    ensures ChapterOrder(files).Err? ==> r == Err(ChapterOrder(files).error)
    ensures ChapterOrder(files).Ok? ==> r == Ok(Join("\n", DocumentLines(title, ChapterOrder(files).value)))
  {
    var ordered := ChapterOrder(files);
    if ordered.Err? {
      return Err(ordered.error);
    }
    var lines := AssembleLines(title, ordered.value);
    r := Ok(Join("\n", lines));
  }

  /** Lines 31-51: the list of lines, extended by four lines per article in order. */
  method AssembleLines(title: string, order: seq<Article>) returns (lines: seq<string>)
    ensures lines == DocumentLines(title, order)
  {
    lines := HeadLines(title);
    var i := 0;
    while i < |order|
      invariant 0 <= i <= |order|
      invariant lines == HeadLines(title) + ChapterLines(order[..i])
    {
      var a := order[i];
      lines := lines + [Heading(i + 1), "<pre>", ArticleBody(a.text), "</pre>"];
      ChapterLinesStep(order, i);
      i := i + 1;
    }
    assert order[..i] == order;
    lines := lines + [Tail];
  }

  lemma ChapterLinesStep(arts: seq<Article>, i: nat)
    requires i < |arts|
    ensures ChapterLines(arts[..i + 1]) == ChapterLines(arts[..i]) + ChapterBlock(i + 1, arts[i])
  {
    assert arts[..i + 1][..i] == arts[..i];
  }

  /** Chapter blocks take four lines each, block j being chapter j + 1. */
  lemma {:induction false} ChapterLinesShape(arts: seq<Article>)
    ensures |ChapterLines(arts)| == 4 * |arts|
    ensures forall j :: 0 <= j < |arts| ==> Block(ChapterLines(arts), j) == ChapterBlock(j + 1, arts[j])
  {
    if arts != [] {
      var n := |arts| - 1;
      var init := arts[..n];
      ChapterLinesShape(init);
      var c, b := ChapterLines(init), ChapterBlock(n + 1, arts[n]);
      assert ChapterLines(arts) == c + b;
      forall j | 0 <= j < |arts|
        ensures Block(c + b, j) == ChapterBlock(j + 1, arts[j])
      {
        if j < n {
          BlockInPrefix(c, b, j);
          assert init[j] == arts[j];
        } else {
          BlockAtEnd(c, b, j);
        }
      }
    }
  }

  lemma BlockInPrefix(c: seq<string>, b: seq<string>, j: nat)
    requires 4 * j + 4 <= |c|
    ensures Block(c + b, j) == Block(c, j)
  {
    assert (c + b)[4 * j..4 * j + 4] == c[4 * j..4 * j + 4];
  }

  lemma BlockAtEnd(c: seq<string>, b: seq<string>, j: nat)
    requires |c| == 4 * j && |b| == 4
    ensures Block(c + b, j) == b
  {
    assert (c + b)[4 * j..4 * j + 4] == b;
  }

  /**
   * A document of N articles has 7 + 4N lines: the head, then for each
   * article in order its heading, "<pre>", its body and "</pre>", then the tail.
   */
  lemma DocumentShape(title: string, arts: seq<Article>)
    ensures |DocumentLines(title, arts)| == 7 + 4 * |arts|
    ensures DocumentLines(title, arts)[..6] == HeadLines(title)
    ensures DocumentLines(title, arts)[3] == "<title>" + title + "</title>"
    ensures DocumentLines(title, arts)[6 + 4 * |arts|] == Tail
    ensures forall j :: 0 <= j < |arts| ==> ChapterAt(DocumentLines(title, arts), j) == ChapterBlock(j + 1, arts[j])
  {
    var h, c := HeadLines(title), ChapterLines(arts);
    ChapterLinesShape(arts);
    assert DocumentLines(title, arts) == h + c + [Tail];
    forall j | 0 <= j < |arts|
      ensures ChapterAt(h + c + [Tail], j) == ChapterBlock(j + 1, arts[j])
    {
      ChapterInDocument(h, c, j);
    }
  }

  lemma ChapterInDocument(h: seq<string>, c: seq<string>, j: nat)
    requires |h| == 6 && 4 * j + 4 <= |c|
    ensures ChapterAt(h + c + [Tail], j) == Block(c, j)
  {
    assert (h + c + [Tail])[4 * j + 6..4 * j + 10] == c[4 * j..4 * j + 4];
  }

  /** The lines that start with <h1>, in order. */
  function H1Lines(lines: seq<string>): seq<string> {
    if lines == [] then []
    else (if StartsWith(lines[0], "<h1>") then [lines[0]] else []) + H1Lines(lines[1..])
  }

  /** The headings "Chapter 1" to "Chapter n". */
  function Headings(n: nat): seq<string> {
    if n == 0 then [] else Headings(n - 1) + [Heading(n)]
  }

  lemma {:induction false} H1LinesAppend(a: seq<string>, b: seq<string>)
    ensures H1Lines(a + b) == H1Lines(a) + H1Lines(b)
  {
    if a != [] {
      var first := if StartsWith(a[0], "<h1>") then [a[0]] else [];
      assert a + b != [];
      assert (a + b)[0] == a[0];
      assert (a + b)[1..] == a[1..] + b;
      H1LinesAppend(a[1..], b);
      calc {
        H1Lines(a + b);
        first + H1Lines(a[1..] + b);
        first + (H1Lines(a[1..]) + H1Lines(b));
        (first + H1Lines(a[1..])) + H1Lines(b);
      }
    } else {
      assert a + b == b;
    }
  }

  lemma H1LinesOfBlock(n: nat, a: Article)
    ensures H1Lines(ChapterBlock(n, a)) == [Heading(n)]
  {
    var b := ChapterBlock(n, a);
    assert StartsWith(b[0], "<h1>");
    NotH1(b[1]);
    NotH1(b[2]);
    NotH1(b[3]);
    assert H1Lines(b[3..]) == [] by {
      assert b[3..][1..] == [];
    }
    assert H1Lines(b[2..]) == [] by {
      assert b[2..][1..] == b[3..];
    }
    assert H1Lines(b[1..]) == [] by {
      assert b[1..][1..] == b[2..];
    }
  }

  lemma {:induction false} H1LinesOfChapters(arts: seq<Article>)
    ensures H1Lines(ChapterLines(arts)) == Headings(|arts|)
  {
    if arts != [] {
      var n := |arts| - 1;
      H1LinesOfChapters(arts[..n]);
      H1LinesAppend(ChapterLines(arts[..n]), ChapterBlock(n + 1, arts[n]));
      H1LinesOfBlock(n + 1, arts[n]);
    }
  }

  lemma NotH1(s: string)
    requires |s| >= 3 && (s[1] != 'h' || s[2] != '1')
    ensures !StartsWith(s, "<h1>")
  {
  }

  lemma HeadLinesHaveNoH1(title: string)
    ensures H1Lines(HeadLines(title)) == []
  {
    var h := HeadLines(title);
    NotH1(h[0]);
    NotH1(h[1]);
    NotH1(h[2]);
    NotH1(h[3]);
    NotH1(h[4]);
    NotH1(h[5]);
    assert H1Lines(h[5..]) == [] by { assert h[5..][1..] == []; }
    assert H1Lines(h[4..]) == [] by { assert h[4..][1..] == h[5..]; }
    assert H1Lines(h[3..]) == [] by { assert h[3..][1..] == h[4..]; }
    assert H1Lines(h[2..]) == [] by { assert h[2..][1..] == h[3..]; }
    assert H1Lines(h[1..]) == [] by { assert h[1..][1..] == h[2..]; }
    assert h[0..] == h;
  }

  /**
   * The lines that start with <h1> are exactly "Chapter 1" to "Chapter N",
   * whatever the articles hold. The title is inserted unescaped, so markup in
   * it can still open an element in the middle of a head line.
   */
  lemma DocumentHeadings(title: string, arts: seq<Article>)
    ensures H1Lines(DocumentLines(title, arts)) == Headings(|arts|)
  {
    var h, c := HeadLines(title), ChapterLines(arts);
    HeadLinesHaveNoH1(title);
    TailHasNoH1();
    H1LinesAppend(h, c);
    H1LinesAppend(h + c, [Tail]);
    H1LinesOfChapters(arts);
    assert H1Lines(h + c + [Tail]) == [] + Headings(|arts|) + [];
  }

  lemma TailHasNoH1()
    ensures H1Lines([Tail]) == []
  {
    NotH1(Tail);
    assert [Tail][1..] == [];
  }

  lemma BlockLacksNewline(n: nat, a: Article)
    ensures forall i :: 0 <= i < 4 ==> Lacks(ChapterBlock(n, a)[i], '\n')
  {
    Paragraphs.WrappedLacksNewline(HtmlEscape.Escape(a.text));
    assert forall k :: 0 <= k < |PyInt.Decimal(n)| ==> PyInt.IsDigit(PyInt.Decimal(n)[k]);
  }

  lemma {:induction false} ChapterLinesLackNewline(arts: seq<Article>)
    ensures forall i :: 0 <= i < |ChapterLines(arts)| ==> Lacks(ChapterLines(arts)[i], '\n')
  {
    if arts != [] {
      var n := |arts| - 1;
      ChapterLinesLackNewline(arts[..n]);
      BlockLacksNewline(n + 1, arts[n]);
    }
  }

  /**
   * With a title on one line, the written text has one line per list entry:
   * splitting it on '\n' gives back exactly the document's lines.
   */
  lemma WrittenLines(title: string, arts: seq<Article>)
    requires Lacks(title, '\n')
    ensures Split(Join("\n", DocumentLines(title, arts)), '\n') == DocumentLines(title, arts)
    ensures Count(Join("\n", DocumentLines(title, arts)), '\n') == 6 + 4 * |arts|
  {
    var l := DocumentLines(title, arts);
    ChapterLinesLackNewline(arts);
    DocumentShape(title, arts);
    var h := HeadLines(title);
    assert Lacks(h[3], '\n');
    assert forall i :: 0 <= i < |h| ==> Lacks(h[i], '\n');
    assert forall i :: 0 <= i < |l| ==> Lacks(l[i], '\n') by {
      forall i | 0 <= i < |l|
        ensures Lacks(l[i], '\n')
      {
        if i < 6 {
          assert l[i] == h[i];
        } else if i < 6 + 4 * |arts| {
          assert l[i] == ChapterLines(arts)[i - 6];
        } else {
          assert l[i] == Tail;
        }
      }
    }
    SplitJoin(l, '\n');
    SplitCount(Join("\n", l), '\n');
  }

  /**
   * The body line of an article is one <p> per line of the text, k line breaks
   * giving k + 1 paragraphs, and unescaping those lines rejoined gives the text back.
   */
  lemma ArticleRecoverable(text: string)
    ensures var ps := Split(HtmlEscape.Escape(text), '\n');
      && Paragraphs.ParseParagraphs(ArticleBody(text)) == Some(ps)
      && |ps| == Count(text, '\n') + 1
      && HtmlEscape.Unescape(Join("\n", ps)) == text
  {
    var e := HtmlEscape.Escape(text);
    HtmlEscape.EscapedIsSafe(text);
    Paragraphs.WrapParagraphsLines(e);
    HtmlEscape.EscapeKeepsNewlines(text);
    HtmlEscape.UnescapeEscape(text);
  }
}

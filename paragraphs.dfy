/**
 * Line 43 of txt_to_html: the escaped article is split on '\n' and every
 * piece is wrapped in its own <p> element.
 */
module Paragraphs {
  import opened Wrappers
  import opened TextLines

  /** '<p>' + '</p><p>'.join(content.split('\n')) + '</p>'. */
  function WrapParagraphs(content: string): string {
    "<p>" + Join("</p><p>", Split(content, '\n')) + "</p>"
  }

  /** Each line in a <p> element of its own, in order. */
  function Paragraphs(lines: seq<string>): string {
    if lines == [] then [] else "<p>" + lines[0] + "</p>" + Paragraphs(lines[1..])
  }

  /** Reads back a run of <p> elements whose contents hold no '<'. */
  function ParseParagraphs(s: string): Option<seq<string>>
    decreases |s|
  {
    if s == [] then Some([])
    else if !StartsWith(s, "<p>") then None
    else
      var body := s[3..];
      match FirstIndex(body, '<')
      case None => None
      case Some(j) =>
        if StartsWith(body[j..], "</p>") then
          match ParseParagraphs(body[j + 4..])
          case None => None
          case Some(rest) => Some([body[..j]] + rest)
        else None
  }

  /** Joining with "</p><p>" inside an outer <p> element wraps every line on its own. */
  lemma {:induction false} JoinedIsParagraphs(lines: seq<string>)
    requires |lines| > 0
    ensures "<p>" + Join("</p><p>", lines) + "</p>" == Paragraphs(lines)
  {
    if |lines| == 1 {
      assert lines[1..] == [];
    } else {
      JoinedIsParagraphs(lines[1..]);
      var rest := Join("</p><p>", lines[1..]);
      assert "</p><p>" == "</p>" + "<p>";
      assert "<p>" + (lines[0] + "</p><p>" + rest) + "</p>"
          == ("<p>" + lines[0] + "</p>") + ("<p>" + rest + "</p>");
    }
  }

  /** One <p> element whose content holds no '<' is read back, then the rest. */
  lemma ParseStep(l: string, rest: string)
    requires Lacks(l, '<')
    ensures ParseParagraphs("<p>" + l + "</p>" + rest)
      == if ParseParagraphs(rest).Some? then Some([l] + ParseParagraphs(rest).value) else None
  {
    var close := "</p>" + rest;
    var body := l + close;
    var s := "<p>" + body;
    assert s == "<p>" + l + "</p>" + rest;
    assert s[..3] == "<p>" && s[3..] == body;
    FirstIndexAfter(l, close, '<');
    assert body[..|l|] == l && body[|l|..] == close;
    assert close[..4] == "</p>" && close[4..] == rest;
    assert body[|l| + 4..] == rest;
  }

  /** The paragraphs are read back in order when no line holds a '<'. */
  lemma {:induction false} ParseParagraphsInverse(lines: seq<string>)
    requires forall i :: 0 <= i < |lines| ==> Lacks(lines[i], '<')
    ensures ParseParagraphs(Paragraphs(lines)) == Some(lines)
  {
    if lines != [] {
      ParseStep(lines[0], Paragraphs(lines[1..]));
      ParseParagraphsInverse(lines[1..]);
      assert lines == [lines[0]] + lines[1..];
    }
  }

  /**
   * A text with k line breaks and no '<' becomes k + 1 <p> elements, one per
   * line and in order; the wrapped text holds no line break.
   */
  lemma WrapParagraphsLines(content: string)
    requires Lacks(content, '<')
    ensures ParseParagraphs(WrapParagraphs(content)) == Some(Split(content, '\n'))
    ensures |Split(content, '\n')| == Count(content, '\n') + 1
    ensures Join("\n", Split(content, '\n')) == content
  {
    var lines := Split(content, '\n');
    JoinedIsParagraphs(lines);
    SplitPiecesLack(content, '\n', '<');
    ParseParagraphsInverse(lines);
    SplitCount(content, '\n');
    JoinSplit(content, '\n');
  }

  /** Wrapping never introduces a line break and removes every one there was. */
  lemma {:induction false} ParagraphsLackNewline(lines: seq<string>)
    requires forall i :: 0 <= i < |lines| ==> Lacks(lines[i], '\n')
    ensures Lacks(Paragraphs(lines), '\n')
  {
    if lines != [] {
      ParagraphsLackNewline(lines[1..]);
    }
  }

  lemma WrappedLacksNewline(content: string)
    ensures Lacks(WrapParagraphs(content), '\n')
  {
    var lines := Split(content, '\n');
    SplitPiecesLack(content, '\n', '\n');
    JoinedIsParagraphs(lines);
    ParagraphsLackNewline(lines);
  }

  /** An empty article becomes one empty paragraph. */
  lemma WrapEmpty()
    ensures WrapParagraphs("") == "<p></p>"
  {
    assert Split("", '\n') == [""];
  }
}

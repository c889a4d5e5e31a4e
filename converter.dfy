/** html_to_mobi: the command line handed to calibre's ebook-convert. */
module Converter {
  import opened Wrappers

  const DefaultTitle: string := "My Book"
  const DefaultAuthor: string := "Author Name"

  /** Lines 56-67: the program, the two positional paths, then seven option-value pairs. */
  function Argv(htmlInput: string, output: string, title: string := DefaultTitle, author: string := DefaultAuthor): seq<string> {
    [ "ebook-convert", htmlInput, output,
      "--title", title,
      "--authors", author,
      "--chapter", "//h1",
      "--page-breaks-before", "//h1",
      "--change-justification", "left",
      "--base-font-size", "12",
      "--font-size-mapping", "12,12,12,12,12,12,12" ]
  }

  /** The option-value pairs of a command line with two positional arguments, as ebook-convert reads them. */
  function Options(argv: seq<string>): seq<(string, string)>
    requires |argv| >= 3
  {
    Pairs(argv[3..])
  }

  function Pairs(args: seq<string>): seq<(string, string)> {
    if |args| < 2 then [] else [(args[0], args[1])] + Pairs(args[2..])
  }

  /** The value given for flag, the first time it occurs as an option name. */
  function Lookup(options: seq<(string, string)>, flag: string): (r: Option<string>)
    ensures r.Some? <==> exists i :: 0 <= i < |options| && options[i].0 == flag
    ensures r.Some? ==> exists i :: 0 <= i < |options| && options[i] == (flag, r.value)
  {
    if options == [] then None
    else if options[0].0 == flag then Some(options[0].1)
    else Lookup(options[1..], flag)
  }

  /** Option-value pairs written out one after the other. */
  function Flatten(options: seq<(string, string)>): seq<string> {
    if options == [] then [] else [options[0].0, options[0].1] + Flatten(options[1..])
  }

  /** Reading pairs undoes writing them out. */
  lemma {:induction false} PairsFlatten(options: seq<(string, string)>)
    ensures Pairs(Flatten(options)) == options
  {
    if options != [] {
      var f := Flatten(options);
      assert f[2..] == Flatten(options[1..]);
      PairsFlatten(options[1..]);
    }
  }

  /** The settings the command line asks for, in the order it gives them. */
  function Settings(title: string, author: string): seq<(string, string)> {
    [("--title", title), ("--authors", author), ("--chapter", "//h1"),
     ("--page-breaks-before", "//h1"), ("--change-justification", "left"),
     ("--base-font-size", "12"), ("--font-size-mapping", "12,12,12,12,12,12,12")]
  }

  /** The command line is the program, the two paths, and the settings written out as pairs. */
  lemma ArgvLayout(htmlInput: string, output: string, title: string, author: string)
    ensures var argv := Argv(htmlInput, output, title, author);
      && |argv| == 17 && argv[..3] == ["ebook-convert", htmlInput, output]
      && Options(argv) == Settings(title, author)
  {
    var argv := Argv(htmlInput, output, title, author);
    var opts := Settings(title, author);
    PairsIndex(argv[3..]);
    assert forall i :: 0 <= i < 7 ==> Options(argv)[i] == (argv[3 + 2 * i], argv[4 + 2 * i]);
  }

  /** Written out, option i takes positions 2i and 2i + 1. */
  lemma {:induction false} FlattenIndex(options: seq<(string, string)>)
    ensures |Flatten(options)| == 2 * |options|
    ensures forall i :: 0 <= i < |options| ==> Flatten(options)[2 * i] == options[i].0 && Flatten(options)[2 * i + 1] == options[i].1
  {
    if options != [] {
      FlattenIndex(options[1..]);
      forall i | 1 <= i < |options|
        ensures Flatten(options)[2 * i] == options[i].0 && Flatten(options)[2 * i + 1] == options[i].1
      {
        assert Flatten(options)[2 * i] == Flatten(options[1..])[2 * i - 2];
        assert Flatten(options)[2 * i + 1] == Flatten(options[1..])[2 * i - 1];
      }
    }
  }

  /** The command line is the program and the two paths followed by the settings written out. */
  lemma ArgvIsFlattenedSettings(htmlInput: string, output: string, title: string, author: string)
    ensures Argv(htmlInput, output, title, author) == ["ebook-convert", htmlInput, output] + Flatten(Settings(title, author))
  {
    var argv := Argv(htmlInput, output, title, author);
    var opts := Settings(title, author);
    var rhs := ["ebook-convert", htmlInput, output] + Flatten(opts);
    FlattenIndex(opts);
    forall k | 3 <= k < 17
      ensures argv[k] == rhs[k]
    {
      var i := (k - 3) / 2;
      assert rhs[k] == Flatten(opts)[k - 3];
      if k % 2 == 1 {
        assert k - 3 == 2 * i && argv[k] == opts[i].0;
      } else {
        assert k - 3 == 2 * i + 1 && argv[k] == opts[i].1;
      }
    }
  }

  /** Pair i of args is its elements 2i and 2i + 1; an odd last element is ignored. */
  lemma {:induction false} PairsIndex(args: seq<string>)
    ensures |Pairs(args)| == |args| / 2
    ensures forall i :: 0 <= i < |args| / 2 ==> Pairs(args)[i] == (args[2 * i], args[2 * i + 1])
  {
    if |args| >= 2 {
      PairsIndex(args[2..]);
      forall i | 1 <= i < |args| / 2
        ensures Pairs(args)[i] == (args[2 * i], args[2 * i + 1])
      {
        assert Pairs(args)[i] == Pairs(args[2..])[i - 1];
      }
    }
  }

  /** Lookup finds the value of the first option carrying the flag. */
  lemma {:induction false} LookupAt(options: seq<(string, string)>, i: nat, flag: string)
    requires i < |options| && options[i].0 == flag
    requires forall j :: 0 <= j < i ==> options[j].0 != flag
    ensures Lookup(options, flag) == Some(options[i].1)
  {
    if i > 0 {
      LookupAt(options[1..], i - 1, flag);
    }
  }

  /** The title and the author are read back exactly as given, whatever strings they are. */
  lemma SettingsBook(title: string, author: string)
    ensures Lookup(Settings(title, author), "--title") == Some(title)
    ensures Lookup(Settings(title, author), "--authors") == Some(author)
  {
    var opts := Settings(title, author);
    LookupAt(opts, 0, "--title");
    LookupAt(opts, 1, "--authors");
  }

  /** h1 elements mark the chapters and start new pages; text is left-justified. */
  lemma SettingsLayout(title: string, author: string)
    ensures Lookup(Settings(title, author), "--chapter") == Some("//h1")
    ensures Lookup(Settings(title, author), "--page-breaks-before") == Some("//h1")
    ensures Lookup(Settings(title, author), "--change-justification") == Some("left")
  {
    var opts := Settings(title, author);
    assert "--authors"[2] != "--chapter"[2];
    LookupAt(opts, 2, "--chapter");
    LookupAt(opts, 3, "--page-breaks-before");
    LookupAt(opts, 4, "--change-justification");
  }

  /** The base font size and every mapped font size are 12 points. */
  lemma SettingsFonts(title: string, author: string)
    ensures Lookup(Settings(title, author), "--base-font-size") == Some("12")
    ensures Lookup(Settings(title, author), "--font-size-mapping") == Some("12,12,12,12,12,12,12")
  {
    var opts := Settings(title, author);
    LookupAt(opts, 5, "--base-font-size");
    LookupAt(opts, 6, "--font-size-mapping");
  }

  /**
   * Read back as ebook-convert would, the command line converts htmlInput to
   * output with the given title and author, h1 elements as chapters each on a
   * new page, left-justified text and every font size at 12 points.
   */
  lemma ConverterSettings(htmlInput: string, output: string, title: string, author: string)
    ensures var argv := Argv(htmlInput, output, title, author);
      && argv[0] == "ebook-convert" && argv[1] == htmlInput && argv[2] == output
      && Lookup(Options(argv), "--title") == Some(title)
      && Lookup(Options(argv), "--authors") == Some(author)
      && Lookup(Options(argv), "--chapter") == Some("//h1")
      && Lookup(Options(argv), "--page-breaks-before") == Some("//h1")
      && Lookup(Options(argv), "--change-justification") == Some("left")
      && Lookup(Options(argv), "--base-font-size") == Some("12")
      && Lookup(Options(argv), "--font-size-mapping") == Some("12,12,12,12,12,12,12")
  {
    var argv := Argv(htmlInput, output, title, author);
    ArgvLayout(htmlInput, output, title, author);
    assert argv[0] == argv[..3][0] && argv[1] == argv[..3][1] && argv[2] == argv[..3][2];
    SettingsBook(title, author);
    SettingsLayout(title, author);
    SettingsFonts(title, author);
  }

  /** Called without a title and author, the book is titled "My Book" by "Author Name". */
  lemma DefaultSettings(htmlInput: string, output: string)
    ensures Lookup(Options(Argv(htmlInput, output)), "--title") == Some("My Book")
    ensures Lookup(Options(Argv(htmlInput, output)), "--authors") == Some("Author Name")
  {
    ConverterSettings(htmlInput, output, DefaultTitle, DefaultAuthor);
  }
}

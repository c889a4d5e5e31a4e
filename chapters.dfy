/**
 * The chapter order of txt_to_html: the globbed article files sorted by
 * int() of their basename without extension.
 */
module Chapters {
  import opened Wrappers
  import PyInt
  import Paths
  import Sorting

  /** One article file as returned by the directory glob, with its text already read. */
  datatype Article = Article(path: string, text: string)

  /** The ValueError int() raises on a stem that is not a number; no document is produced. */
  datatype OrderError = InvalidLiteral(stem: string)

  /** The file name without directory and extension. */
  function Stem(path: string): string {
    Paths.SplitExtRoot(Paths.Basename(path))
  }

  /** The sort key of a file: int() of its stem. */
  function KeyOf(path: string): Result<int, OrderError> {
    match PyInt.ParseInt(Stem(path))
    case Some(n) => Ok(n)
    case None => Err(InvalidLiteral(Stem(path)))
  }

  predicate HasKey(a: Article) {
    KeyOf(a.path).Ok?
  }

  predicate AllKeyed(files: seq<Article>) {
    forall i :: 0 <= i < |files| ==> HasKey(files[i])
  }

  /** The key sorted() compares; it is only consulted once every file has one. */
  function SortKey(a: Article): int {
    match KeyOf(a.path)
    case Ok(n) => n
    case Err(_) => 0
  }

  /**
   * Lines 28-29: sorted() computes the keys in listing order, so the first file
   * with a non-numeric stem raises; otherwise the files in ascending key order.
   */
  function ChapterOrder(files: seq<Article>): (r: Result<seq<Article>, OrderError>)
    ensures r.Err? <==> !AllKeyed(files)
    ensures r.Err? ==> exists i :: 0 <= i < |files| && KeyOf(files[i].path) == Err(r.error) && forall j :: 0 <= j < i ==> HasKey(files[j])
    ensures r.Ok? ==> multiset(r.value) == multiset(files) && Sorting.SortedBy(r.value, SortKey)
  {
    match Sorting.FirstFailing(files, HasKey)
    case Some(i) => Err(InvalidLiteral(Stem(files[i].path)))
    case None => Ok(Sorting.StableSort(files, SortKey))
  }

  /** Files whose stems have the same value keep their listing order. */
  lemma ChapterOrderIsStable(files: seq<Article>, k: int)
    requires AllKeyed(files)
    ensures Sorting.WithKey(ChapterOrder(files).value, SortKey, k) == Sorting.WithKey(files, SortKey, k)
  {
    Sorting.StableSortWithKey(files, SortKey, k);
  }

  /**
   * The chapter order depends on the listing order only through the relative
   * order of files whose stems have the same value ("01.txt" and "1.txt").
   */
  lemma OrderDependsOnlyOnTies(xs: seq<Article>, ys: seq<Article>)
    requires AllKeyed(xs) && AllKeyed(ys)
    requires forall k :: Sorting.WithKey(xs, SortKey, k) == Sorting.WithKey(ys, SortKey, k)
    ensures ChapterOrder(xs) == ChapterOrder(ys)
  {
    Sorting.SortDependsOnlyOnTies(xs, ys, SortKey);
  }

  /** Files with distinct numbers come out in the same order however the glob lists them. */
  lemma OrderIgnoresListingOrder(xs: seq<Article>, ys: seq<Article>)
    requires multiset(xs) == multiset(ys)
    requires AllKeyed(xs) && Sorting.DistinctKeys(xs, SortKey)
    requires AllKeyed(ys) && Sorting.DistinctKeys(ys, SortKey)
    ensures ChapterOrder(xs) == ChapterOrder(ys)
  {
    Sorting.SortIgnoresPermutation(xs, ys, SortKey);
  }

  /** Two files of equal value keep the order the glob listed them in. */
  lemma TiesKeepListingOrder(a: Article, b: Article)
    requires HasKey(a) && HasKey(b) && KeyOf(a.path) == KeyOf(b.path)
    ensures ChapterOrder([a, b]) == Ok([a, b])
  {
    BothKeyed(a, b);
    Sorting.TiesKeepInputOrder(a, b, SortKey);
  }

  lemma BothKeyed(a: Article, b: Article)
    requires HasKey(a) && HasKey(b)
    ensures Sorting.FirstFailing([a, b], HasKey) == None
  {
    assert [a, b][1..] == [b] && [b][1..] == [];
    assert Sorting.FirstFailing([b], HasKey) == None;
  }

  /** A file named dir/0..0N.txt sorts by the number N. */
  lemma KeyOfNumberedFile(dir: string, zeros: string, n: nat)
    requires PyInt.AllZeros(zeros)
    ensures KeyOf(dir + "/" + zeros + PyInt.Decimal(n) + ".txt") == Ok(n)
  {
    StemOfNumberedFile(dir, zeros, n);
    PyInt.ParseZeroPadded(zeros, n);
  }

  /** The stem of dir/0..0N.txt is 0..0N. */
  lemma StemOfNumberedFile(dir: string, zeros: string, n: nat)
    requires PyInt.AllZeros(zeros)
    ensures Stem(dir + "/" + zeros + PyInt.Decimal(n) + ".txt") == zeros + PyInt.Decimal(n)
  {
    var stem := zeros + PyInt.Decimal(n);
    var name := stem + ".txt";
    var path := dir + "/" + zeros + PyInt.Decimal(n) + ".txt";
    calc {
      Stem(path);
      Paths.SplitExtRoot(Paths.Basename(path));
      { assert path == dir + "/" + name;
        NumberedName(zeros, n);
        Paths.BasenameOfChild(dir, name); }
      Paths.SplitExtRoot(name);
      { NumberedName(zeros, n);
        Paths.RootOfExtended(stem, ".txt"); }
      stem;
    }
  }

  /** 0..0N.txt holds no '/', and 0..0N is not all dots. */
  lemma NumberedName(zeros: string, n: nat)
    requires PyInt.AllZeros(zeros)
    ensures var name := zeros + PyInt.Decimal(n) + ".txt"; forall j :: 0 <= j < |name| ==> name[j] != '/'
    ensures !Paths.AllDots(zeros + PyInt.Decimal(n))
  {
    var stem := zeros + PyInt.Decimal(n);
    assert forall j :: 0 <= j < |stem| ==> stem[j] == '0' || PyInt.IsDigit(stem[j]);
    assert stem[|zeros|] != '.';
  }

  /** A stem with a character int() cannot read makes the whole ordering fail. */
  lemma NonNumericStemFails(files: seq<Article>, i: nat, j: nat)
    requires i < |files| && j < |Stem(files[i].path)|
    requires var c := Stem(files[i].path)[j]; !PyInt.IsSpace(c) && !PyInt.IsDigit(c) && c !in "+-_"
    ensures ChapterOrder(files).Err?
  {
    PyInt.ParseRejects(Stem(files[i].path), j);
    assert !HasKey(files[i]);
  }
}

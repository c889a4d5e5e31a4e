/** os.path.basename and the root half of os.path.splitext, for POSIX paths. */
module Paths {
  import opened Wrappers

  /** The index of the last occurrence of c in s, if any. */
  function LastIndexOf(s: string, c: char): (r: Option<nat>)
    ensures r.Some? ==> r.value < |s| && s[r.value] == c
    ensures r.Some? ==> forall j :: r.value < j < |s| ==> s[j] != c
    ensures r.None? ==> forall j :: 0 <= j < |s| ==> s[j] != c
  {
    if s == [] then None
    else if s[|s| - 1] == c then Some(|s| - 1)
    else LastIndexOf(s[..|s| - 1], c)
  }

  predicate AllDots(s: string) {
    forall j :: 0 <= j < |s| ==> s[j] == '.'
  }

  /** os.path.basename: the longest suffix of the path without a '/'. */
  function Basename(p: string): (r: string)
    ensures |r| <= |p| && r == p[|p| - |r|..]
    ensures forall j :: 0 <= j < |r| ==> r[j] != '/'
    ensures |r| < |p| ==> p[|p| - |r| - 1] == '/'
  {
    match LastIndexOf(p, '/')
    case None => p
    case Some(i) => p[i + 1..]
  }

  /**
   * The root that os.path.splitext returns for a name without '/': everything
   * before the last '.', unless only dots precede that '.' (a leading-dot name
   * such as ".txt" has no extension), in which case the whole name.
   */
  function SplitExtRoot(b: string): (r: string)
    ensures |r| <= |b| && r == b[..|r|]
    ensures |r| < |b| ==> b[|r|] == '.' && !AllDots(r) && forall j :: |r| < j < |b| ==> b[j] != '.'
    ensures |r| == |b| ==> forall i :: 0 <= i < |b| && b[i] == '.' ==> AllDots(b[..i])
  {
    match LastIndexOf(b, '.')
    case None => b
    case Some(i) => if AllDots(b[..i]) then b else b[..i]
  }

  /** The basename of dir/name is name. */
  lemma BasenameOfChild(dir: string, name: string)
    requires forall j :: 0 <= j < |name| ==> name[j] != '/'
    ensures Basename(dir + "/" + name) == name
  {
    var p := dir + "/" + name;
    assert p[|dir|] == '/';
  }

  /** splitext removes an appended extension from a name that is not all dots. */
  lemma {:induction false} RootOfExtended(x: string, ext: string)
    requires !AllDots(x)
    requires |ext| > 0 && ext[0] == '.' && forall j :: 0 < j < |ext| ==> ext[j] != '.'
    ensures SplitExtRoot(x + ext) == x
  {
    var b := x + ext;
    assert b[..|x|] == x;
    assert b[|x|] == '.';
  }
}

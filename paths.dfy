/** The two POSIX path operations the prediction step uses to name the saved
    result image: `os.path.basename` and `os.path.join`. */
module Paths {

  const Separator: char := '/'

  /** No character of `s` is a separator. */
  predicate SeparatorFree(s: string)
  {
    forall k :: 0 <= k < |s| ==> s[k] != Separator
  }

  /** Where the last component of `p` starts: just after its final
      separator, or 0 when it has none. */
  function BaseStart(p: string): (start: nat)
    ensures start <= |p|
    ensures start == 0 || p[start - 1] == Separator
    ensures forall k :: start <= k < |p| ==> p[k] != Separator
  {
    if |p| == 0 then 0
    else if p[|p| - 1] == Separator then |p|
    else BaseStart(p[..|p| - 1])
  }

  /** The last component of `p`: everything after its final separator. */
  function Basename(p: string): (r: string)
    ensures |r| <= |p| && r == p[|p| - |r|..]
    ensures SeparatorFree(r)
    ensures |r| == |p| || p[|p| - |r| - 1] == Separator
  {
    p[BaseStart(p)..]
  }

  /** `os.path.join(a, b)` for two components: an absolute `b` replaces `a`;
      otherwise a separator is inserted unless `a` is empty or already ends
      with one. */
  function Join(a: string, b: string): (r: string)
    ensures |b| <= |r| && r[|r| - |b|..] == b
    ensures (|b| == 0 || b[0] != Separator) ==> |a| <= |r| && r[..|a|] == a
    ensures |r| <= |a| + 1 + |b|
    ensures |b| > 0 && b[0] == Separator ==> r == b
    ensures (|b| == 0 || b[0] != Separator) && (|a| == 0 || a[|a| - 1] == Separator) ==> r == a + b
    ensures (|b| == 0 || b[0] != Separator) && |a| > 0 && a[|a| - 1] != Separator ==> r == a + [Separator] + b
  {
    if |b| > 0 && b[0] == Separator then b
    else if |a| == 0 || a[|a| - 1] == Separator then a + b
    else a + [Separator] + b
  }

  /** The file name the copy of the input image is saved under. */
  function ResultFilename(imagePath: string): (r: string)
    ensures |r| > 0 && SeparatorFree(r)
  {
    assert SeparatorFree("result_") by {
      forall k | 0 <= k < |"result_"| ensures "result_"[k] != Separator {
        assert "result_" == ['r', 'e', 's', 'u', 'l', 't', '_'];
      }
    }
    SeparatorFreeConcat("result_", Basename(imagePath));
    "result_" + Basename(imagePath)
  }

  /** Joining two separator-free strings gives a separator-free string. */
  lemma SeparatorFreeConcat(a: string, b: string)
    requires SeparatorFree(a) && SeparatorFree(b)
    ensures SeparatorFree(a + b)
  {
    forall k | 0 <= k < |a + b| ensures (a + b)[k] != Separator {
      if k >= |a| {
        assert (a + b)[k] == b[k - |a|];
      }
    }
  }

  /** Where a successfully saved copy of `imagePath` ends up. */
  function ResultPath(resultFolder: string, imagePath: string): string
  {
    Join(resultFolder, ResultFilename(imagePath))
  }

  /** A separator-free name appended after a directory prefix (empty, or
      ending in a separator) is exactly the basename of the whole. */
  lemma {:induction false} BaseStartOfAppended(dir: string, name: string)
    requires |dir| == 0 || dir[|dir| - 1] == Separator
    requires SeparatorFree(name)
    ensures BaseStart(dir + name) == |dir|
  {
    var whole := dir + name;
    if |name| == 0 {
      assert whole == dir;
    } else {
      var init := name[..|name| - 1];
      BaseStartOfAppended(dir, init);
      assert whole[|whole| - 1] == name[|name| - 1];
      assert whole[..|whole| - 1] == dir + init;
    }
  }

  /** The saved copy is `<resultFolder>/result_<basename>`: it lies directly
      in `resultFolder` and is named `result_` followed by the input's own
      file name, so it depends only on the folder and that file name, and
      saving the same image into the same folder twice targets the same
      file. */
  lemma ResultPathInFolder(resultFolder: string, imagePath: string)
    ensures ResultPath(resultFolder, imagePath)
         == (if |resultFolder| == 0 || resultFolder[|resultFolder| - 1] == Separator
             then resultFolder else resultFolder + [Separator]) + "result_" + Basename(imagePath)
    ensures var r := ResultPath(resultFolder, imagePath);
      |resultFolder| <= |r| && r[..|resultFolder|] == resultFolder
    ensures Basename(ResultPath(resultFolder, imagePath)) == "result_" + Basename(imagePath)
  {
    var name := ResultFilename(imagePath);
    var dir := if |resultFolder| == 0 || resultFolder[|resultFolder| - 1] == Separator
      then resultFolder else resultFolder + [Separator];
    var r := dir + name;
    assert ResultPath(resultFolder, imagePath) == r;
    assert r == dir + "result_" + Basename(imagePath);
    BaseStartOfAppended(dir, name);
    assert r[|dir|..] == name;
    assert r[..|resultFolder|] == resultFolder by {
      assert forall k :: 0 <= k < |resultFolder| ==> r[k] == dir[k] == resultFolder[k];
    }
  }
}

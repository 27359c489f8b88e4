/**
 * The two helpers of the benchmark driver cpp/test.cpp that the sorting
 * core relies on: `joinPath`, which builds a dataset's file name, and
 * `isSorted`, which the `--verify` option uses to check each result.
 */
module TestHelpers {
  import opened Poscodes
  import opened KeyOrder

  /** The path separators `joinPath` recognises at the end of a directory. */
  predicate IsSeparator(c: char)
  {
    c == '/' || c == '\\'
  }

  /**
   * `joinPath`: an empty directory gives the file name alone; a directory
   * that already ends in a separator gets the name appended; any other gets
   * a `/` and then the name.
   */
  function JoinPath(dir: string, filename: string): (r: string)
    ensures |filename| <= |r| && r[|r| - |filename|..] == filename
    ensures dir == [] ==> r == filename
    ensures dir != [] ==> |dir| + |filename| <= |r| && r[..|dir|] == dir
    ensures dir != [] ==> IsSeparator(r[|r| - |filename| - 1])
    ensures dir != [] ==> |r| == |dir| + |filename| + (if IsSeparator(dir[|dir| - 1]) then 0 else 1)
    ensures dir != [] && IsSeparator(dir[|dir| - 1]) ==> r == dir + filename
    ensures dir != [] && !IsSeparator(dir[|dir| - 1]) ==> r == dir + "/" + filename
  {
    if dir == [] then filename
    else if IsSeparator(dir[|dir| - 1]) then dir + filename
    else dir + "/" + filename
  }

  /**
   * Joining an empty name first leaves a directory that ends in a
   * separator (or is empty), and joining the real name to that gives the
   * same path: `joinPath` never doubles a separator.
   */
  lemma JoinPathNormalised(dir: string, filename: string)
    ensures JoinPath(JoinPath(dir, ""), filename) == JoinPath(dir, filename)
  {
    if dir != [] && !IsSeparator(dir[|dir| - 1]) {
      var d := JoinPath(dir, "");
      assert d == dir + "/";
      assert IsSeparator(d[|d| - 1]);
      assert d + filename == dir + "/" + filename;
    }
  }

  /**
   * `isSorted`: scan adjacent pairs and report false at the first one whose
   * earlier key is greater than the later one.
   */
  method IsSorted(data: seq<Poscode>) returns (r: bool)
    ensures r <==> Sorted(data)
  {
    var i := 1;
    while i < |data|
      invariant 1 <= i
      invariant forall k :: 0 < k < i && k < |data| ==> LessEqual(data[k - 1], data[k])
    {
      if LessThan(data[i], data[i - 1]) {
        assert !LessEqual(data[i - 1], data[i]);
        return false;
      }
      i := i + 1;
    }
    AdjacentSorted(data);
    return true;
  }
}

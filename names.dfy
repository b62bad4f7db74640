/**
 * `getName`: the file name at the end of a path.
 */
module Names {

  /** `File.separatorChar` on Android. */
  const SeparatorChar: char := '/'

  /** `s.lastIndexOf(c)`: the last position holding `c`, or -1 when there is none. */
  function LastIndexOf(s: string, c: char): (i: int)
    ensures -1 <= i < |s|
    ensures i >= 0 ==> s[i] == c
    ensures forall j | i < j < |s| :: s[j] != c
    ensures i == -1 <==> c !in s
  {
    if |s| == 0 then -1
    else if s[|s| - 1] == c then |s| - 1
    else LastIndexOf(s[..|s| - 1], c)
  }

  /**
   * `relativePath.substring(relativePath.lastIndexOf(separatorChar) + 1)`:
   * the longest suffix free of separators, which is the whole path when it
   * has no separator.
   */
  function GetName(relativePath: string): (name: string)
    ensures |name| <= |relativePath| && name == relativePath[|relativePath| - |name|..]
    ensures SeparatorChar !in name
    ensures |name| < |relativePath| ==> relativePath[|relativePath| - |name| - 1] == SeparatorChar
    ensures SeparatorChar !in relativePath ==> name == relativePath
  {
    relativePath[LastIndexOf(relativePath, SeparatorChar) + 1..]
  }

  /** Joining a directory and a separator-free name, then taking the name, gives the name back. */
  lemma GetNameOfJoin(directory: string, name: string)
    requires SeparatorChar !in name
    ensures GetName(directory + [SeparatorChar] + name) == name
  {
    var path := directory + [SeparatorChar] + name;
    assert path[|directory|] == SeparatorChar;
    assert path[|directory| + 1..] == name;
  }
}

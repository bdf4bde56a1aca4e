/** The `System.IO.Path` operations the source relies on, over one separator. */
module Paths {
  import opened Text

  /** `Path.DirectorySeparatorChar` on the Windows hosts the server targets. */
  const Sep: char := '\\'

  /** `Path.Combine(dir, name)` for a relative `name`: exactly one separator between them. */
  function Combine(dir: string, name: string): string {
    if dir == [] then name
    else if dir[|dir| - 1] == Sep then dir + name
    else dir + [Sep] + name
  }

  /** `Path.GetFileName`: what follows the last separator. */
  function GetFileName(path: string): (r: string)
    ensures Sep !in r
  {
    var i := LastIndexOf(path, Sep);
    path[i + 1..]
  }

  /** `Path.GetDirectoryName`: what precedes the last separator ("" when there is none). */
  function GetDirectoryName(path: string): string {
    var i := LastIndexOf(path, Sep);
    if i < 0 then "" else path[..i]
  }

  /** A folder location with exactly one trailing separator added when it lacks one. */
  function WithTrailingSep(location: string): (r: string)
    ensures |r| > 0 && r[|r| - 1] == Sep
  {
    if location != [] && location[|location| - 1] == Sep then location else location + [Sep]
  }

  lemma CombineUnderLocation(location: string, rel: string)
    requires location != []
    ensures Combine(location, rel) == WithTrailingSep(location) + rel
  {
  }

  lemma LastIndexOfAppend(a: string, b: string)
    requires Sep !in b && Sep in a
    ensures LastIndexOf(a + b, Sep) == LastIndexOf(a, Sep)
  {
    var j := LastIndexOf(a, Sep);
    assert (a + b)[j] == Sep;
    assert (a + b)[j + 1..] == a[j + 1..] + b;
  }

  /** The file name of a combined path is the name that was combined in. */
  lemma FileNameOfCombine(dir: string, name: string)
    requires Sep !in name
    ensures GetFileName(Combine(dir, name)) == name
  {
    if dir == [] {
      assert LastIndexOf(name, Sep) == -1;
    } else {
      var d := if dir[|dir| - 1] == Sep then dir else dir + [Sep];
      assert Combine(dir, name) == d + name;
      assert d[|d| - 1] == Sep;
      LastIndexOfAppend(d, name);
      assert LastIndexOf(d, Sep) == |d| - 1;
      assert (d + name)[|d|..] == name;
    }
  }

  /** The directory of a combined path is the directory that was combined in. */
  lemma DirectoryOfCombine(dir: string, name: string)
    requires Sep !in name && dir != [] && dir[|dir| - 1] != Sep
    ensures GetDirectoryName(Combine(dir, name)) == dir
  {
    var d := dir + [Sep];
    assert Combine(dir, name) == d + name;
    LastIndexOfAppend(d, name);
    assert LastIndexOf(d, Sep) == |dir|;
    assert (d + name)[..|dir|] == dir;
  }
}

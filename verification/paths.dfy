/**
 The two path helpers the report uses: the program's own GetLastFolder, which splits on the
 Windows separator '\' only, and Path.GetFileName with the Windows separators '\' and '/'.
 */
module Paths {
  import opened Text

  /** GetLastFolder: the second-to-last piece of the path split on '\'; a path without
      any '\' is returned as it is. */
  function GetLastFolder(file: string): string {
    var data := Split(file, '\\');
    if |data| > 1 then data[|data| - 2] else file
  }

  /** What GetLastFolder returns: a path without '\' comes back unchanged ('/' is never a
      separator here); otherwise the result is the text between the last two backslashes
      (from the start when there is only one), which holds no backslash. */
  lemma GetLastFolderSpec(file: string)
    ensures '\\' !in file ==> GetLastFolder(file) == file
    ensures '\\' in file ==> '\\' !in GetLastFolder(file)
    ensures '\\' in file ==>
              var j := LastIndexOf(file, '\\');
              var i := LastIndexOf(file[..j], '\\');
              GetLastFolder(file) == file[i + 1..j]
  {
    var data := Split(file, '\\');
    if '\\' in file {
      var j := LastIndexOf(file, '\\');
      var head := Split(file[..j], '\\');
      assert data == head + [file[j + 1..]];
      var i := LastIndexOf(file[..j], '\\');
      if i >= 0 {
        assert head == Split(file[..j][..i], '\\') + [file[..j][i + 1..]];
      }
      assert data[|data| - 2] == head[|head| - 1];
    } else {
      assert multiset(file)['\\'] == 0;
    }
  }

  /** The Windows directory separators Path.GetFileName recognises. */
  predicate IsDirectorySeparator(c: char) {
    c == '\\' || c == '/'
  }

  /** Path.GetFileName: the text after the last directory separator. */
  function FileName(path: string): string {
    if |path| == 0 || IsDirectorySeparator(path[|path| - 1]) then []
    else FileName(path[..|path| - 1]) + [path[|path| - 1]]
  }

  /** The suffix part of FileNameSpec, proved on its own by induction. */
  lemma {:induction false} FileNameSuffix(path: string)
    ensures |FileName(path)| <= |path| && FileName(path) == path[|path| - |FileName(path)|..]
  {
    if |path| > 0 && !IsDirectorySeparator(path[|path| - 1]) {
      var init, c := path[..|path| - 1], path[|path| - 1];
      FileNameSuffix(init);
      var r := FileName(init);
      assert path[|path| - |r| - 1..] == init[|init| - |r|..] + [c];
    }
  }

  /** What FileName returns: the longest suffix of the path without a directory separator,
      so the whole path when it has none. */
  lemma {:induction false} FileNameSpec(path: string)
    ensures |FileName(path)| <= |path| && FileName(path) == path[|path| - |FileName(path)|..]
    ensures forall i :: 0 <= i < |FileName(path)| ==> !IsDirectorySeparator(FileName(path)[i])
    ensures |FileName(path)| < |path| ==> IsDirectorySeparator(path[|path| - |FileName(path)| - 1])
  {
    FileNameSuffix(path);
    if |path| > 0 && !IsDirectorySeparator(path[|path| - 1]) {
      var init := path[..|path| - 1];
      FileNameSpec(init);
    }
  }
}

/** The output and audio paths `main` derives from the video's location.
    A path is a string of `/`-separated components; `parent` is the directory
    holding the video and `stem` its file name without the extension. */
module Paths {
  import opened Wrappers

  /** `Path(dir) / name` for a relative `name`: one separator between them,
      none added after the root `/`. */
  function Join(dir: string, name: string): string {
    if dir != [] && dir[|dir| - 1] == '/' then dir + name else dir + "/" + name
  }

  /** A directory as `Path.resolve()` gives it: absolute, with no trailing
      separator unless it is the root. */
  predicate IsDirectory(dir: string) {
    dir != [] && dir[0] == '/' && (dir == "/" || dir[|dir| - 1] != '/')
  }

  /** A single path component. */
  predicate IsName(name: string) {
    name != [] && '/' !in name
  }

  /** The last position of `c` in `s`. */
  function LastIndexOf(s: string, c: char): (r: Option<nat>)
    ensures r.Some? ==> r.value < |s| && s[r.value] == c && c !in s[r.value + 1..]
    ensures r.None? ==> c !in s
  {
    if s == [] then None
    else if s[|s| - 1] == c then Some(|s| - 1)
    else
      match LastIndexOf(s[..|s| - 1], c)
      case Some(i) =>
        assert s[i + 1..] == s[..|s| - 1][i + 1..] + [s[|s| - 1]];
        Some(i)
      case None => None
  }

  /** `Path.name`: the text after the last separator. */
  function NameOf(path: string): string {
    match LastIndexOf(path, '/')
    case Some(i) => path[i + 1..]
    case None => path
  }

  /** `Path.parent` of an absolute path: the text before the last separator,
      or the root when that separator is the first character. */
  function ParentOf(path: string): string {
    match LastIndexOf(path, '/')
    case Some(i) => if i == 0 then "/" else path[..i]
    case None => "."
  }

  lemma LastIndexOfAt(x: string, c: char, y: string)
    requires c !in y
    ensures LastIndexOf(x + [c] + y, c) == Some(|x|)
  {
    var s := x + [c] + y;
    assert s[|x|] == c;
    assert s[|x| + 1..] == y;
  }

  /** Joining a directory and a name and then taking the path apart gives
      back the directory and the name. */
  lemma JoinSplit(dir: string, name: string)
    requires IsDirectory(dir) && IsName(name)
    ensures NameOf(Join(dir, name)) == name
    ensures ParentOf(Join(dir, name)) == dir
  {
    if dir == "/" {
      assert Join(dir, name) == [] + ['/'] + name;
      LastIndexOfAt([], '/', name);
    } else {
      assert Join(dir, name) == dir + ['/'] + name;
      LastIndexOfAt(dir, '/', name);
    }
  }

  /** `<stem>_transcript.json` beside the video. */
  function DefaultOutputPath(parent: string, stem: string): string {
    Join(parent, stem + "_transcript.json")
  }

  /** `--output` when it was given and is not empty, else the default. The
      resolution of a relative `--output` against the working directory is
      not part of this model. */
  function OutputPath(requested: Option<string>, parent: string, stem: string): (p: string)
    ensures requested.Some? && requested.value != [] ==> p == requested.value
    ensures requested.None? || requested.value == [] ==> p == DefaultOutputPath(parent, stem)
  {
    if requested.Some? && requested.value != [] then requested.value
    else DefaultOutputPath(parent, stem)
  }

  /** Where the extracted WAV goes: `<stem>.wav` beside the video when it is
      kept, otherwise in the fresh temporary directory `tempDir`. */
  function AudioPath(keepAudio: bool, parent: string, tempDir: string, stem: string): string {
    Join(if keepAudio then parent else tempDir, stem + ".wav")
  }

  /** The default transcript lands in the video's directory under the video's stem. */
  lemma DefaultOutputBesideVideo(parent: string, stem: string)
    requires IsDirectory(parent) && '/' !in stem
    ensures ParentOf(DefaultOutputPath(parent, stem)) == parent
    ensures NameOf(DefaultOutputPath(parent, stem)) == stem + "_transcript.json"
  {
    JoinSplit(parent, stem + "_transcript.json");
  }

  /** A kept WAV lands in the video's directory, a temporary one in the
      temporary directory, both named after the video's stem. */
  lemma AudioPathPlacement(keepAudio: bool, parent: string, tempDir: string, stem: string)
    requires IsDirectory(parent) && IsDirectory(tempDir) && '/' !in stem
    ensures ParentOf(AudioPath(keepAudio, parent, tempDir, stem)) == (if keepAudio then parent else tempDir)
    ensures NameOf(AudioPath(keepAudio, parent, tempDir, stem)) == stem + ".wav"
  {
    JoinSplit(if keepAudio then parent else tempDir, stem + ".wav");
  }

  /** The default transcript never overwrites the WAV: the two names differ in
      their last character. */
  lemma DefaultOutputIsNotAudio(keepAudio: bool, parent: string, tempDir: string, stem: string)
    ensures DefaultOutputPath(parent, stem) != AudioPath(keepAudio, parent, tempDir, stem)
  {
    var o, a := DefaultOutputPath(parent, stem), AudioPath(keepAudio, parent, tempDir, stem);
    assert o[|o| - 1] == 'n' && a[|a| - 1] == 'v';
  }
}

/** The folder argument of the captured-metrics queries: a blank argument
    selects the logger's default folder. */
module Folders {
  import opened Wrappers

  const DefaultFolder: string := @"C:\Skyline_Data\PerformanceLogger"

  /** `char.IsWhiteSpace`: the Unicode space, line and paragraph separators
      together with U+0009 to U+000D and U+0085 */
  predicate IsWhiteSpace(c: char) {
    var n := c as int;
    || (0x09 <= n <= 0x0D) || n == 0x20 || n == 0x85 || n == 0xA0 || n == 0x1680
    || (0x2000 <= n <= 0x200A) || n == 0x2028 || n == 0x2029 || n == 0x202F
    || n == 0x205F || n == 0x3000
  }

  /** `String.IsNullOrWhiteSpace`, the argument being `None` when null */
  predicate IsNullOrWhiteSpace(s: Option<string>) {
    s.None? || forall i :: 0 <= i < |s.value| ==> IsWhiteSpace(s.value[i])
  }

  /** The folder read from: the argument unless it is null, empty or blank */
  function FolderOrDefault(arg: Option<string>): (folder: string)
    ensures !IsNullOrWhiteSpace(Some(folder))
    ensures folder == DefaultFolder || Some(folder) == arg
  {
    if IsNullOrWhiteSpace(arg) then
      assert !IsWhiteSpace(DefaultFolder[0]);
      DefaultFolder
    else arg.value
  }

  /** The default folder is read exactly when the argument is blank or
      names it, and choosing the folder again changes nothing */
  lemma FolderChoice(arg: Option<string>)
    ensures FolderOrDefault(arg) == DefaultFolder <==> IsNullOrWhiteSpace(arg) || arg == Some(DefaultFolder)
    ensures FolderOrDefault(Some(FolderOrDefault(arg))) == FolderOrDefault(arg)
  {
  }

  lemma FolderExamples()
    ensures FolderOrDefault(None) == DefaultFolder
    ensures FolderOrDefault(Some("")) == DefaultFolder
    ensures FolderOrDefault(Some(" \t")) == DefaultFolder
    ensures FolderOrDefault(Some(@"D:\logs")) == @"D:\logs"
  {
    assert !IsWhiteSpace(@"D:\logs"[0]);
  }
}

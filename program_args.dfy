/**
 * The names derived from the `-f` argument in `ProgramArguments::create`
 * (`src/program_args.rs`): the file name is cut at every `.`; its last
 * piece is the extension and its first piece the name without extension.
 */
module ProgramArgs {
  import opened Wrappers
  import opened Text
  import Util

  /** The fields of `ProgramArguments` that come from the file name. */
  datatype DerivedNames = DerivedNames(
    fileName: string,
    extension: string,
    extensionList: seq<string>,
    fileNameWithoutExtension: string)

  /** `s` is made of `parts` with `.` between neighbours, and no part holds a `.`. */
  predicate IsDotSplit(s: string, parts: seq<string>) {
    && parts != []
    && Join(parts, ".") == s
    && forall k :: 0 <= k < |parts| ==> '.' !in parts[k]
  }

  /** `str::split('.')` cuts a text into its dot-free parts, one more than it has dots. */
  lemma DotSplitOf(s: string)
    ensures IsDotSplit(s, Split(s, "."))
    ensures |Split(s, ".")| == multiset(s)['.'] + 1
  {
    JoinSplit(s, ".");
    SplitPiecesAvoidSeparator(s, ".");
    forall piece | piece in Split(s, ".") ensures '.' !in piece {
      ContainsChar(piece, '.');
    }
    SplitCharCount(s, '.');
  }

  /**
   * The derivation in `ProgramArguments::create`: the argument or `""`,
   * split on `.`; the last and first pieces. The split never yields an
   * empty list, so the `unwrap_or("")` fallbacks never apply.
   */
  function DeriveNames(fileNameArg: Option<string>): (d: DerivedNames)
    ensures fileNameArg.Some? ==> d.fileName == fileNameArg.value
    ensures fileNameArg.None? ==> d.fileName == ""
    ensures IsDotSplit(d.fileName, d.extensionList)
    ensures |d.extensionList| == multiset(d.fileName)['.'] + 1
    ensures d.extension == d.extensionList[|d.extensionList| - 1]
    ensures d.fileNameWithoutExtension == d.extensionList[0]
  {
    var fileName := if fileNameArg.Some? then fileNameArg.value else "";
    var extensionList := Split(fileName, ".");
    DotSplitOf(fileName);
    DerivedNames(fileName, extensionList[|extensionList| - 1], extensionList, extensionList[0])
  }

  /** Without `-f`, every derived name is empty. */
  lemma NoFileNameArgument()
    ensures DeriveNames(None) == DerivedNames("", "", [""], "")
  {
    SplitWithoutSeparator("", ".");
  }

  /** A name without `.` is its own extension and its own base name. */
  lemma NameWithoutDot(fileName: string)
    requires '.' !in fileName
    ensures var d := DeriveNames(Some(fileName));
            d.extensionList == [fileName] && d.extension == fileName && d.fileNameWithoutExtension == fileName
  {
    SplitWithoutSeparator(fileName, ".");
  }

  /**
   * With a `.` in the name, the base name is the text before the first
   * `.`, and the extension the text after the last one.
   */
  lemma BaseAndExtensionAroundDots(fileName: string)
    requires '.' in fileName
    ensures var d := DeriveNames(Some(fileName));
            && |d.fileNameWithoutExtension| < |fileName| && |d.extension| < |fileName|
            && fileName[..|d.fileNameWithoutExtension|] == d.fileNameWithoutExtension
            && fileName[|d.fileNameWithoutExtension|] == '.'
            && '.' !in d.fileNameWithoutExtension
            && fileName[|fileName| - |d.extension|..] == d.extension
            && fileName[|fileName| - |d.extension| - 1] == '.'
            && '.' !in d.extension
  {
    var d := DeriveNames(Some(fileName));
    var parts := d.extensionList;
    assert '.' in multiset(fileName);
    assert |parts| >= 2;
    JoinCons(parts[0], parts[1..], ".");
    assert [parts[0]] + parts[1..] == parts;
    JoinSnoc(parts, ".");
    var front := Join(parts[..|parts| - 1], ".");
    assert fileName == front + "." + d.extension;
    assert fileName[|fileName| - |d.extension|..] == d.extension;
  }

  /**
   * `extract_extension_from_file_name` of a one-line name with a `.` is
   * everything after the first piece: all pieces but the first, joined. So
   * for `a.b.c` it gives `b.c` where the extension derived here is `c`.
   */
  lemma ExtractExtensionIsListTail(fileName: string)
    requires '.' in fileName && '\n' !in fileName
    ensures var d := DeriveNames(Some(fileName));
            Util.ExtractExtension(fileName) == Some(Join(d.extensionList[1..], "."))
  {
    var parts := DeriveNames(Some(fileName)).extensionList;
    assert '.' in multiset(fileName);
    HeadAndRest(parts);
    Util.ExtensionAfterFirstDot(fileName, parts[0], Join(parts[1..], "."));
  }

  /** A list of two or more pieces joins as its first piece, `.`, and the rest joined. */
  lemma HeadAndRest(parts: seq<string>)
    requires |parts| >= 2
    ensures Join(parts, ".") == parts[0] + "." + Join(parts[1..], ".")
  {
    JoinCons(parts[0], parts[1..], ".");
    assert [parts[0]] + parts[1..] == parts;
  }
}

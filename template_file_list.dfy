/**
 * Template selection (`src/template_file_list.rs`): for the extensions
 * `a.b.c` the templates `tt.a.b.c`, `tt.b.c` and `tt.c` are looked for in
 * that order, and the first one that exists is used. Whether a file exists
 * is given as the set of existing paths.
 */
module TemplateFileList {
  import opened Wrappers
  import opened Text

  /** The path probed for a list of extensions: `root/tt.` and the extensions joined by `.`. */
  function Probe(rootPath: string, extensions: seq<string>): string {
    rootPath + "/tt." + Join(extensions, ".")
  }

  /** No template exists for the suffixes `list[j..]` with `i <= j < end`. */
  predicate AllMissing(list: seq<string>, rootPath: string, existingFiles: set<string>, i: nat, end: nat) {
    forall j :: i <= j < end && j <= |list| ==> Probe(rootPath, list[j..]) !in existingFiles
  }

  /**
   * Where the search started at suffix `i` stops: the first `j >= i` whose
   * suffix `list[j..]` has an existing template. Only non-empty suffixes
   * are probed, except that an empty list is probed once as it is.
   */
  function FirstExistingSuffix(list: seq<string>, rootPath: string, existingFiles: set<string>, i: nat): (r: Option<nat>)
    requires i < |list| || (i == |list| && Probe(rootPath, list[i..]) in existingFiles)
    ensures r.Some? ==> i <= r.value <= |list| && (r.value < |list| || r.value == i)
    ensures r.Some? ==> Probe(rootPath, list[r.value..]) in existingFiles
    ensures r.Some? ==> AllMissing(list, rootPath, existingFiles, i, r.value)
    ensures r.None? <==> i < |list| && AllMissing(list, rootPath, existingFiles, i, |list|)
    decreases |list| - i
  {
    if Probe(rootPath, list[i..]) in existingFiles then Some(i)
    else if |list| - i == 1 then None
    else
      var r := FirstExistingSuffix(list, rootPath, existingFiles, i + 1);
      MissingOneMore(list, rootPath, existingFiles, i, if r.Some? then r.value else |list|);
      r
  }

  /** A missing probe at `i` extends a missing run that starts at `i + 1`. */
  lemma MissingOneMore(list: seq<string>, rootPath: string, existingFiles: set<string>, i: nat, end: nat)
    requires i < |list| && Probe(rootPath, list[i..]) !in existingFiles
    ensures AllMissing(list, rootPath, existingFiles, i + 1, end) <==> AllMissing(list, rootPath, existingFiles, i, end)
  {
  }

  /**
   * `figure_out_which_template_to_use`: the loop of the source, with
   * `probes` counting the paths it looks up. The working copy of the list loses its first element after every failed
   * probe; with one element left, a failed probe gives `None`. An empty
   * list whose probe fails makes `remove(0)` panic, hence the
   * precondition.
   */
  method FigureOutWhichTemplateToUse(extensionList: seq<string>, rootPath: string, existingFiles: set<string>)
    returns (r: Option<string>, ghost probes: nat)
    requires extensionList != [] || Probe(rootPath, []) in existingFiles
    ensures r.None? <==> FirstExistingSuffix(extensionList, rootPath, existingFiles, 0).None?
    ensures r.Some? ==> r.value == Join(extensionList[FirstExistingSuffix(extensionList, rootPath, existingFiles, 0).value..], ".")
    ensures r.Some? ==> probes == FirstExistingSuffix(extensionList, rootPath, existingFiles, 0).value + 1
    ensures r.None? ==> probes == |extensionList|
    ensures 1 <= probes <= |extensionList| || (extensionList == [] && probes == 1)
  {
    var extensionListCopy := extensionList;
    var fileName := Probe(rootPath, extensionList);
    probes := 1;
    ghost var dropped := 0;
    while fileName !in existingFiles
      invariant dropped <= |extensionList|
      invariant extensionListCopy == extensionList[dropped..]
      invariant dropped < |extensionList| || (dropped == |extensionList| && Probe(rootPath, extensionListCopy) in existingFiles)
      invariant fileName == Probe(rootPath, extensionListCopy)
      invariant probes == dropped + 1
      invariant FirstExistingSuffix(extensionList, rootPath, existingFiles, 0)
             == FirstExistingSuffix(extensionList, rootPath, existingFiles, dropped)
      decreases |extensionListCopy|
    {
      if |extensionListCopy| == 1 {
        return None, probes;
      }
      extensionListCopy := extensionListCopy[1..];
      dropped := dropped + 1;
      fileName := Probe(rootPath, extensionListCopy);
      probes := probes + 1;
    }
    return Some(Join(extensionListCopy, ".")), probes;
  }

  /** The extensions of a suffix, joined, end the joined list. */
  lemma {:induction false} JoinedSuffixEndsJoin(list: seq<string>, i: nat)
    requires i <= |list|
    ensures |Join(list[i..], ".")| <= |Join(list, ".")|
    ensures Join(list, ".")[|Join(list, ".")| - |Join(list[i..], ".")|..] == Join(list[i..], ".")
    decreases i
  {
    if i == 0 {
      assert list[0..] == list;
    } else if i == |list| {
      assert list[i..] == [];
    } else {
      JoinedSuffixEndsJoin(list[1..], i - 1);
      assert list[1..][i - 1..] == list[i..];
      var whole := Join(list, ".");
      var tail := Join(list[1..], ".");
      var part := Join(list[i..], ".");
      assert |list| >= 2;
      assert whole == list[0] + "." + tail;
      assert whole[|whole| - |tail|..] == tail;
      assert whole[|whole| - |part|..] == tail[|tail| - |part|..];
    }
  }

  /**
   * The template found is the longest existing one: its extensions end the
   * full list, its probe exists, and every longer suffix was probed and
   * missing. For a non-empty list the empty suffix is never used.
   */
  lemma ChosenTemplateIsLongest(extensionList: seq<string>, rootPath: string, existingFiles: set<string>)
    requires extensionList != [] || Probe(rootPath, []) in existingFiles
    ensures var f := FirstExistingSuffix(extensionList, rootPath, existingFiles, 0);
            f.Some? ==>
              && var chosen := Join(extensionList[f.value..], ".");
              && Probe(rootPath, extensionList[f.value..]) in existingFiles
              && |chosen| <= |Join(extensionList, ".")|
              && Join(extensionList, ".")[|Join(extensionList, ".")| - |chosen|..] == chosen
              && (extensionList != [] ==> f.value < |extensionList|)
  {
    var f := FirstExistingSuffix(extensionList, rootPath, existingFiles, 0);
    if f.Some? {
      JoinedSuffixEndsJoin(extensionList, f.value);
    }
  }

  /** When the full combination exists, it is chosen whole. */
  lemma FullCombinationFirst(extensionList: seq<string>, rootPath: string, existingFiles: set<string>)
    requires Probe(rootPath, extensionList) in existingFiles
    ensures FirstExistingSuffix(extensionList, rootPath, existingFiles, 0) == Some(0)
  {
    assert extensionList[0..] == extensionList;
  }

  /** `create_matching_file`: a stub that never finds a file. */
  function CreateMatchingFile(original: string, extension: string): (r: Option<string>)
    ensures r.None?
  {
    None
  }
}

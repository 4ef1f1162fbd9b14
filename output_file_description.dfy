/**
 * Output file names (`src/output_file_description.rs`): a base name with
 * optional platform, language and enumeration suffixes, and an extension.
 */
module OutputFiles {
  import opened Wrappers

  /** `OutputFileDescription`. */
  datatype OutputFileDescription = OutputFileDescription(
    name: string,
    extension: string,
    enumeration: Option<string>,
    language: Option<string>,
    platform: Option<string>)

  /** `"_"` and the value when there is one, nothing otherwise. */
  function Suffix(o: Option<string>): (r: string)
    ensures o.None? ==> r == ""
    ensures o.Some? ==> r == "_" + o.value
    ensures |r| == (if o.Some? then 1 + |o.value| else 0)
  {
    match o
    case None => ""
    case Some(v) => "_" + v
  }

  /**
   * `name_expanded_with_enumerations`: the name, then the platform, the
   * language and the enumeration suffixes, in that order.
   */
  function NameExpandedWithEnumerations(d: OutputFileDescription): (r: string)
    ensures r == d.name + Suffix(d.platform) + Suffix(d.language) + Suffix(d.enumeration)
    ensures |d.name| <= |r| && r[..|d.name|] == d.name
    ensures |r| == |d.name| + |Suffix(d.platform)| + |Suffix(d.language)| + |Suffix(d.enumeration)|
  {
    var platformAppend := if d.platform.Some? then "_" + d.platform.value else "";
    var languageAppend := if d.language.Some? then "_" + d.language.value else "";
    var enumerationAppend := if d.enumeration.Some? then "_" + d.enumeration.value else "";
    d.name + platformAppend + languageAppend + enumerationAppend
  }

  /** Without platform, language and enumeration the expanded name is the name. */
  lemma PlainNameUnchanged(d: OutputFileDescription)
    requires d.platform.None? && d.language.None? && d.enumeration.None?
    ensures NameExpandedWithEnumerations(d) == d.name
  {
    assert d.name + "" + "" + "" == d.name;
  }

  /**
   * The expanded name is longer than the name by exactly the suffixes
   * present, so it equals the name only when no suffix is present.
   */
  lemma ExpandedNameGrows(d: OutputFileDescription)
    ensures NameExpandedWithEnumerations(d) == d.name <==> d.platform.None? && d.language.None? && d.enumeration.None?
  {
    if d.platform.None? && d.language.None? && d.enumeration.None? {
      PlainNameUnchanged(d);
    }
  }

  /** `name_with_extension`: the expanded name, a `.`, and the extension. */
  function NameWithExtension(d: OutputFileDescription): (r: string)
    ensures |r| == |NameExpandedWithEnumerations(d)| + 1 + |d.extension|
    ensures r[..|NameExpandedWithEnumerations(d)|] == NameExpandedWithEnumerations(d)
    ensures r[|NameExpandedWithEnumerations(d)|] == '.'
    ensures r[|r| - |d.extension|..] == d.extension
  {
    var expanded := NameExpandedWithEnumerations(d);
    var r := expanded + "." + d.extension;
    assert r[..|expanded|] == expanded;
    assert r[|r| - |d.extension|..] == d.extension;
    r
  }
}

/**
 * File-name helpers (`src/util.rs`). Each regex of the source is written
 * out as the leftmost, greedy match it finds. In the regex dialect of the
 * source, `.` matches any character except a line feed.
 */
module Util {
  import opened Wrappers
  import opened Text

  /** `replace_if_not_none`: the replacement when there is one, else the default. */
  function ReplaceIfNotNone(default: string, replacementVal: Option<string>): (r: string)
    ensures replacementVal.None? ==> r == default
    ensures replacementVal.Some? ==> r == replacementVal.value
  {
    match replacementVal
    case None => default
    case Some(v) => v
  }

  /** End of the run of characters other than a line feed that starts at `i`: what `.*` takes. */
  function LineEnd(s: string, i: nat): (j: nat)
    requires i <= |s|
    ensures i <= j <= |s|
    ensures forall k :: i <= k < j ==> s[k] != '\n'
    ensures j == |s| || s[j] == '\n'
  {
    match IndexOfChar(s, '\n', i)
    case None => |s|
    case Some(j) => j
  }

  /**
   * `extract_extension_from_file_name`, the regex `\.(.*)`: what follows
   * the first `.`, up to the end of that line; `None` when there is no `.`.
   */
  function ExtractExtension(file: string): (r: Option<string>)
    ensures r.None? <==> '.' !in file
    ensures r.Some? ==> var i := IndexOfChar(file, '.', 0).value;
                        && i + 1 + |r.value| <= |file| && file[i + 1..i + 1 + |r.value|] == r.value
                        && '\n' !in r.value
                        && (i + 1 + |r.value| == |file| || file[i + 1 + |r.value|] == '\n')
  {
    match IndexOfChar(file, '.', 0)
    case None => None
    case Some(i) =>
      var ext := file[i + 1..LineEnd(file, i + 1)];
      assert forall k :: 0 <= k < |ext| ==> ext[k] == file[i + 1 + k];
      Some(ext)
  }

  /** The character class `[A-z0-9]`: `A` to `z` (with `[\]^_` and the backquote) or a digit. */
  predicate IsNameChar(c: char) {
    ('A' <= c <= 'z') || ('0' <= c <= '9')
  }

  /** Start of the longest run of `[A-z0-9]` characters that ends at `j`. */
  function NameRunStart(s: string, j: nat): (i: nat)
    requires j <= |s|
    ensures i <= j
    ensures forall k :: i <= k < j ==> IsNameChar(s[k])
    ensures i == 0 || !IsNameChar(s[i - 1])
  {
    if j == 0 || !IsNameChar(s[j - 1]) then j else NameRunStart(s, j - 1)
  }

  /** When everything before `j` is a class character, the run reaches back to the start. */
  lemma {:induction false} NameRunFromStart(s: string, j: nat)
    requires j <= |s|
    requires forall k :: 0 <= k < j ==> IsNameChar(s[k])
    ensures NameRunStart(s, j) == 0
  {
    if j > 0 {
      NameRunFromStart(s, j - 1);
    }
  }

  /**
   * `remove_extensions_from_file_name`, the regex `([A-z0-9]*)\.`: since
   * `.` is not in the class, the leftmost match ends at the first `.` and
   * its group is the longest run of class characters just before it;
   * `None` when there is no `.`.
   */
  function RemoveExtensions(file: string): (r: Option<string>)
    ensures r.None? <==> '.' !in file
    ensures r.Some? ==> var d := IndexOfChar(file, '.', 0).value; var i := d - |r.value|;
                        && 0 <= i && file[i..d] == r.value
                        && (forall k :: 0 <= k < |r.value| ==> IsNameChar(r.value[k]))
                        && (i == 0 || !IsNameChar(file[i - 1]))
  {
    match IndexOfChar(file, '.', 0)
    case None => None
    case Some(d) =>
      var base := file[NameRunStart(file, d)..d];
      assert forall k :: 0 <= k < |base| ==> base[k] == file[NameRunStart(file, d) + k];
      Some(base)
  }

  /** A one-line text has its line end at its end. */
  lemma LineEndOfOneLine(s: string, i: nat)
    requires i <= |s| && '\n' !in s
    ensures LineEnd(s, i) == |s|
  {
    forall j | i <= j < |s| ensures s[j] != '\n' {
      assert s[j] in s;
    }
  }

  /**
   * When the name is one line and everything before the first `.` is a
   * class character, base name, `.` and extension give the name back.
   */
  lemma BaseDotExtension(file: string, d: nat)
    requires d < |file| && file[d] == '.' && '\n' !in file
    requires forall k :: 0 <= k < d ==> IsNameChar(file[k])
    ensures RemoveExtensions(file) == Some(file[..d])
    ensures ExtractExtension(file) == Some(file[d + 1..])
    ensures RemoveExtensions(file).value + "." + ExtractExtension(file).value == file
  {
    assert IndexOfChar(file, '.', 0) == Some(d);
    NameRunFromStart(file, d);
    LineEndOfOneLine(file, d + 1);
    assert file[d + 1..LineEnd(file, d + 1)] == file[d + 1..];
    assert file == file[..d] + "." + file[d + 1..];
  }

  /** In a one-line name, the extension is everything after the first `.`. */
  lemma ExtensionAfterFirstDot(file: string, head: string, rest: string)
    requires file == head + "." + rest
    requires '.' !in head && '\n' !in file
    ensures ExtractExtension(file) == Some(rest)
  {
    var i := |head|;
    assert file[i] == '.';
    forall k | 0 <= k < i ensures file[k] != '.' {
      assert file[k] == head[k];
      assert head[k] in head;
    }
    assert IndexOfChar(file, '.', 0) == Some(i);
    LineEndOfOneLine(file, i + 1);
    assert file[i + 1..|file|] == rest;
  }

  /** `name.ext`, with a class-character name and a one-line extension. */
  lemma NameAndExtension(name: string, ext: string)
    requires forall k :: 0 <= k < |name| ==> IsNameChar(name[k])
    requires '\n' !in ext
    ensures RemoveExtensions(name + "." + ext) == Some(name)
    ensures ExtractExtension(name + "." + ext) == Some(ext)
  {
    NameDotLayout(name, ext);
    BaseDotExtension(name + "." + ext, |name|);
  }

  /** Where `name`, the `.` and `ext` sit in `name.ext`, which is one line. */
  lemma NameDotLayout(name: string, ext: string)
    requires forall k :: 0 <= k < |name| ==> IsNameChar(name[k])
    requires '\n' !in ext
    ensures var file := name + "." + ext;
            && file[|name|] == '.' && '\n' !in file
            && (forall k :: 0 <= k < |name| ==> IsNameChar(file[k]))
            && file[..|name|] == name && file[|name| + 1..] == ext
  {
    var file := name + "." + ext;
    forall k | 0 <= k < |name| ensures IsNameChar(file[k]) {
      assert file[k] == name[k];
    }
    assert '\n' !in name by {
      forall k | 0 <= k < |name| ensures name[k] != '\n' { assert IsNameChar(name[k]); }
    }
  }

  /** The tests `file.ui.qml` and `file.qml`. */
  lemma ExtensionExamples()
    ensures ExtractExtension("file" + "." + "ui.qml") == Some("ui.qml")
    ensures RemoveExtensions("file" + "." + "ui.qml") == Some("file")
    ensures ExtractExtension("file" + "." + "qml") == Some("qml")
    ensures RemoveExtensions("file" + "." + "qml") == Some("file")
  {
    NameAndExtension("file", "ui.qml");
    NameAndExtension("file", "qml");
  }

  /** Where the last line's last path component starts: after the last `/` or line feed. */
  function ComponentStart(s: string): (k: nat)
    ensures k <= |s|
    ensures forall j :: k <= j < |s| ==> s[j] != '/' && s[j] != '\n'
    ensures k == 0 || s[k - 1] == '/' || s[k - 1] == '\n'
  {
    if s == [] || s[|s| - 1] == '/' || s[|s| - 1] == '\n' then |s|
    else ComponentStart(s[..|s| - 1])
  }

  /**
   * `extract_file_name_and_extension_from_path` with the Unix regex
   * `(/*.*/)*(.*$)`: the match cannot cross a line feed and must reach the
   * end of the text, so it starts on the last line; the repeated group
   * takes that line up to its last `/`, and the second group is the rest.
   * An empty rest gives `None`.
   */
  function ExtractFileNameFromPath(file: string): (r: Option<string>)
    ensures r.None? <==> file == [] || file[|file| - 1] == '/' || file[|file| - 1] == '\n'
    ensures r.Some? ==> r.value != [] && '/' !in r.value && '\n' !in r.value
    ensures r.Some? ==> |r.value| <= |file| && file[|file| - |r.value|..] == r.value
    ensures r.Some? && |r.value| < |file| ==> file[|file| - |r.value| - 1] in {'/', '\n'}
  {
    var k := ComponentStart(file);
    var ending := file[k..];
    assert forall j :: 0 <= j < |ending| ==> ending[j] == file[k + j];
    if ending == [] then None else Some(ending)
  }

  /** The last component starts right after a separator (or at the start) when no separator follows. */
  lemma {:induction false} ComponentStartAfter(pre: string, name: string)
    requires '/' !in name && '\n' !in name
    requires pre == [] || pre[|pre| - 1] == '/' || pre[|pre| - 1] == '\n'
    ensures ComponentStart(pre + name) == |pre|
    decreases |name|
  {
    if name == [] {
      assert pre + name == pre;
    } else {
      var init := name[..|name| - 1];
      assert name[|name| - 1] in name;
      assert '/' !in init && '\n' !in init by {
        forall k | 0 <= k < |init| ensures init[k] in name { assert init[k] == name[k]; }
      }
      ComponentStartAfter(pre, init);
      assert (pre + name)[..|pre + name| - 1] == pre + init;
    }
  }

  /** A path `dir/name`: the name. */
  lemma PathEndsInName(dir: string, name: string)
    requires name != [] && '/' !in name && '\n' !in name
    ensures ExtractFileNameFromPath(dir + "/" + name) == Some(name)
  {
    ComponentStartAfter(dir + "/", name);
    assert (dir + "/" + name)[|dir| + 1..] == name;
  }

  /** A name without any directory: the whole name. */
  lemma BareName(name: string)
    requires name != [] && '/' !in name && '\n' !in name
    ensures ExtractFileNameFromPath(name) == Some(name)
  {
    ComponentStartAfter([], name);
    assert [] + name == name;
  }

  /** The tests of `extract_name_and_extension`. */
  lemma PathExamples()
    ensures ExtractFileNameFromPath("/home/austin/test/") == None
    ensures ExtractFileNameFromPath("/home/austin/test" + "/" + "foo.txt") == Some("foo.txt")
    ensures ExtractFileNameFromPath("home" + "/" + "foo.txt") == Some("foo.txt")
    ensures ExtractFileNameFromPath("foo.txt") == Some("foo.txt")
    ensures ExtractFileNameFromPath("/home" + "/" + "foo") == Some("foo")
  {
    PathEndsInName("/home/austin/test", "foo.txt");
    PathEndsInName("home", "foo.txt");
    BareName("foo.txt");
    PathEndsInName("/home", "foo");
  }
}

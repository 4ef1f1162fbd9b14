/**
 * Name formatting (`src/formatter.rs`): Pascal case for type names and
 * ASCII capitals.
 */
module Formatter {
  import opened Text

  /** A character that Rust stores in one byte of UTF-8. */
  predicate IsAscii(c: char) {
    c as int < 128
  }

  /**
   * The tail of `format_file_name_as_pascal_case`: underscores are dropped,
   * and the first character after one or more underscores is upper-cased.
   * `afterUnderscore` is the flag `was_last_character_a_underscore`.
   */
  function CapitaliseTail(t: string, afterUnderscore: bool): string
    decreases |t|
  {
    if t == [] then []
    else if t[0] == '_' then CapitaliseTail(t[1..], true)
    else [if afterUnderscore then ToUpper(t[0]) else t[0]] + CapitaliseTail(t[1..], false)
  }

  /** The tail holds no `_`, and it is shorter than its input by the number of `_` there. */
  lemma {:induction false} CapitaliseTailShape(t: string, afterUnderscore: bool)
    ensures '_' !in CapitaliseTail(t, afterUnderscore)
    ensures |CapitaliseTail(t, afterUnderscore)| == |t| - multiset(t)['_']
    decreases |t|
  {
    if t != [] {
      assert t == [t[0]] + t[1..];
      CapitaliseTailShape(t[1..], t[0] == '_');
    }
  }

  /**
   * The Pascal-case form of a file name: its first character upper-cased,
   * then the tail as `CapitaliseTail` makes it. The first character is
   * kept even when it is `_`.
   */
  function PascalCase(s: string): string
    requires s != [] && IsAscii(s[0])
  {
    [ToUpper(s[0])] + CapitaliseTail(s[1..], false)
  }

  /**
   * The first character upper-cased (and still ASCII), no `_` after it, and
   * as many characters as the input minus its `_` after the first.
   */
  lemma PascalCaseShape(s: string)
    requires s != [] && IsAscii(s[0])
    ensures var r := PascalCase(s);
            && r != [] && r[0] == ToUpper(s[0]) && IsAscii(r[0])
            && (forall k :: 1 <= k < |r| ==> r[k] != '_')
            && |r| == |s| - multiset(s[1..])['_']
  {
    var tail := CapitaliseTail(s[1..], false);
    CapitaliseTailShape(s[1..], false);
    assert forall k :: 0 <= k < |tail| ==> tail[k] in tail;
    assert forall k :: 1 <= k < |PascalCase(s)| ==> PascalCase(s)[k] == tail[k - 1];
  }

  /**
   * `format_file_name_as_pascal_case`: the loop of the source with its
   * underscore flag. It panics on an empty name (`unwrap`) and on a name
   * whose first character takes more than one byte (the slice at byte 1).
   */
  method FormatFileNameAsPascalCase(fileName: string) returns (typeName: string)
    requires fileName != [] && IsAscii(fileName[0])
    ensures typeName == PascalCase(fileName)
  {
    typeName := [ToUpper(fileName[0])];
    var wasLastCharacterAUnderscore := false;
    var i := 1;
    while i < |fileName|
      invariant 1 <= i <= |fileName|
      invariant typeName + CapitaliseTail(fileName[i..], wasLastCharacterAUnderscore) == PascalCase(fileName)
    {
      var character := fileName[i];
      CapitaliseTailStep(fileName, i, wasLastCharacterAUnderscore);
      if character == '_' {
        wasLastCharacterAUnderscore := true;
        i := i + 1;
        continue;
      } else {
        if wasLastCharacterAUnderscore {
          typeName := typeName + [ToUpper(character)];
        } else {
          typeName := typeName + [character];
        }
        wasLastCharacterAUnderscore := false;
      }
      i := i + 1;
    }
  }

  /** One character of the tail at position `i`: dropped if it is `_`, kept or upper-cased otherwise. */
  lemma CapitaliseTailStep(s: string, i: nat, afterUnderscore: bool)
    requires i < |s|
    ensures s[i] == '_' ==> CapitaliseTail(s[i..], afterUnderscore) == CapitaliseTail(s[i + 1..], true)
    ensures s[i] != '_' ==> CapitaliseTail(s[i..], afterUnderscore)
                            == [if afterUnderscore then ToUpper(s[i]) else s[i]] + CapitaliseTail(s[i + 1..], false)
  {
    assert s[i..][1..] == s[i + 1..];
  }

  /** `p` with its first character upper-cased. */
  function Capitalise(p: string): string {
    if p == [] then [] else [ToUpper(p[0])] + p[1..]
  }

  /** The pieces, each capitalised, one after another. */
  function CapitalisedConcat(pieces: seq<string>): string {
    if pieces == [] then [] else Capitalise(pieces[0]) + CapitalisedConcat(pieces[1..])
  }

  /**
   * The tail, read as pieces between underscores: the first piece as it is
   * (capitalised when an underscore came before it), every later piece
   * capitalised.
   */
  lemma {:induction false} CapitaliseTailBySplit(t: string, afterUnderscore: bool)
    ensures var pieces := Split(t, "_");
            CapitaliseTail(t, afterUnderscore)
            == (if afterUnderscore then Capitalise(pieces[0]) else pieces[0]) + CapitalisedConcat(pieces[1..])
    decreases |t|
  {
    if t == [] {
      SplitWithoutSeparator(t, "_");
    } else if t[0] == '_' {
      SplitAtUnderscore(t);
      CapitaliseTailBySplit(t[1..], true);
    } else {
      var rest := Split(t[1..], "_");
      SplitFirstPieceGrows(t);
      CapitaliseTailBySplit(t[1..], false);
      var first := if afterUnderscore then ToUpper(t[0]) else t[0];
      CapitaliseCons(t[0], rest[0]);
      ConsAssoc(first, rest[0], CapitalisedConcat(rest[1..]));
    }
  }

  /** A leading `_` cuts off an empty first piece. */
  lemma SplitAtUnderscore(t: string)
    requires t != [] && t[0] == '_'
    ensures Split(t, "_")[0] == "" && Split(t, "_")[1..] == Split(t[1..], "_")
  {
    assert t == "" + "_" + t[1..];
    SplitAfterFirst("", "_", t[1..]);
  }

  /** A leading character other than `_` joins the first piece. */
  lemma SplitFirstPieceGrows(t: string)
    requires t != [] && t[0] != '_'
    ensures Split(t, "_")[0] == [t[0]] + Split(t[1..], "_")[0]
    ensures Split(t, "_")[1..] == Split(t[1..], "_")[1..]
  {
    assert t == [t[0]] + t[1..];
    SplitCharCons(t[0], t[1..], '_');
  }

  lemma ConsAssoc(x: char, p: string, q: string)
    ensures [x] + p + q == [x] + (p + q)
  {
  }

  /** Capitalising a piece upper-cases its first character. */
  lemma CapitaliseCons(c: char, p: string)
    ensures Capitalise([c] + p) == [ToUpper(c)] + p
  {
    assert ([c] + p)[1..] == p;
  }

  /**
   * The Pascal-case name read through the underscores: the first character
   * upper-cased, the rest of the first word as it is, and every later word
   * capitalised.
   */
  lemma PascalCaseByWords(s: string)
    requires s != [] && IsAscii(s[0])
    ensures var words := Split(s[1..], "_");
            PascalCase(s) == [ToUpper(s[0])] + words[0] + CapitalisedConcat(words[1..])
  {
    CapitaliseTailBySplit(s[1..], false);
  }

  /** A tail without underscores and with the flag down is copied unchanged. */
  lemma {:induction false} CapitaliseTailPlain(t: string)
    requires '_' !in t
    ensures CapitaliseTail(t, false) == t
    decreases |t|
  {
    if t != [] {
      assert t[0] in t;
      assert forall k :: 0 <= k < |t[1..]| ==> t[1..][k] in t;
      CapitaliseTailPlain(t[1..]);
      assert t == [t[0]] + t[1..];
    }
  }

  /** Formatting a formatted name changes nothing. */
  lemma PascalCaseIdempotent(s: string)
    requires s != [] && IsAscii(s[0])
    ensures PascalCase(PascalCase(s)) == PascalCase(s)
  {
    var r := PascalCase(s);
    PascalCaseShape(s);
    assert '_' !in r[1..] by {
      forall k | 0 <= k < |r[1..]| ensures r[1..][k] != '_' {
        assert r[1..][k] == r[k + 1];
      }
    }
    CapitaliseTailPlain(r[1..]);
    assert r == [r[0]] + r[1..];
  }

  /** Two words joined by one underscore: `builder_manager` becomes `BuilderManager`. */
  lemma TwoWordsPascalCase(a: string, b: string)
    requires a != [] && IsAscii(a[0]) && b != []
    requires '_' !in a && '_' !in b
    ensures PascalCase(a + "_" + b) == [ToUpper(a[0])] + a[1..] + [ToUpper(b[0])] + b[1..]
  {
    var s := a + "_" + b;
    var head := a[1..];
    assert s[1..] == head + "_" + b;
    assert '_' !in head by {
      forall k | 0 <= k < |head| ensures head[k] != '_' {
        assert head[k] in a;
      }
    }
    SplitAfterFirst(head, "_", b);
    SplitWithoutSeparator(b, "_");
    var words := Split(s[1..], "_");
    assert words == [head, b];
    PascalCaseByWords(s);
    SingleCapitalised(b);
    assert words[1..] == [b];
    assert s[0] == a[0];
  }

  lemma SingleCapitalised(p: string)
    requires p != []
    ensures CapitalisedConcat([p]) == [ToUpper(p[0])] + p[1..]
  {
    assert [p][1..] == [];
  }

  /** The test `builder_manager`. */
  lemma BuilderManager()
    ensures PascalCase("builder" + "_" + "manager") == "BuilderManager"
  {
    TwoWordsPascalCase("builder", "manager");
  }

  /** `string_in_all_caps` as a value: every ASCII letter upper-cased. */
  function AllCaps(s: string): string {
    seq(|s|, k requires 0 <= k < |s| => ToUpper(s[k]))
  }

  /**
   * `string_in_all_caps`: the clone of the name is upper-cased in place,
   * character by character (`make_ascii_uppercase`).
   */
  method StringInAllCaps(fileName: string) returns (name: string)
    ensures |name| == |fileName|
    ensures forall k :: 0 <= k < |name| ==> name[k] == ToUpper(fileName[k])
    ensures name == AllCaps(fileName)
  {
    name := fileName;
    var i := 0;
    while i < |name|
      invariant 0 <= i <= |name| == |fileName|
      invariant forall k :: 0 <= k < i ==> name[k] == ToUpper(fileName[k])
      invariant forall k :: i <= k < |name| ==> name[k] == fileName[k]
    {
      name := name[i := ToUpper(name[i])];
      i := i + 1;
    }
  }

  /** Capitals keep the length, hold no lower-case ASCII letter, and change only those letters. */
  lemma AllCapsShape(s: string)
    ensures |AllCaps(s)| == |s|
    ensures forall k :: 0 <= k < |s| ==> !('a' <= AllCaps(s)[k] <= 'z')
    ensures forall k :: 0 <= k < |s| && !('a' <= s[k] <= 'z') ==> AllCaps(s)[k] == s[k]
  {
  }

  /** Capitalising twice is capitalising once. */
  lemma AllCapsIdempotent(s: string)
    ensures AllCaps(AllCaps(s)) == AllCaps(s)
  {
  }
}

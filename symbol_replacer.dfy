/**
 * The symbol replacer (`src/symbol_replacer.rs`): every match of the regex
 * `\[\][A-Z_]+\[\]` in a template, such as `[]FILE_NAME[]`, is replaced by a
 * value computed from the file name, until no match is left.
 */
module SymbolReplacer {
  import opened Wrappers
  import opened Text

  /** A match of the symbol regex: the characters `start .. end - 1`. */
  datatype SymbolMatch = SymbolMatch(start: nat, end: nat)

  /**
   * Declaratively, a symbol occupies `s[i..e]`: `[]`, then one or more
   * `[A-Z_]` characters, then `[]`.
   */
  predicate IsSymbolAt(s: string, i: nat, e: nat) {
    && i + 4 < e <= |s|
    && s[i] == '[' && s[i + 1] == ']'
    && s[e - 2] == '[' && s[e - 1] == ']'
    && forall k :: i + 2 <= k < e - 2 ==> IsIdentChar(s[k])
  }

  /**
   * The regex anchored at `i`: `[]`, the greedy `[A-Z_]+` run, then `[]`.
   * Since `[` is not an identifier character, giving back characters of
   * the run can never let the closing `[]` match, so the greedy run is the
   * only candidate.
   */
  function MatchEndAt(s: string, i: nat): (r: Option<nat>)
    ensures r.Some? ==> IsSymbolAt(s, i, r.value)
  {
    if i + 2 <= |s| && s[i] == '[' && s[i + 1] == ']' then
      var j := IdentRunEnd(s, i + 2);
      if j > i + 2 && j + 2 <= |s| && s[j] == '[' && s[j + 1] == ']' then Some(j + 2) else None
    else None
  }

  /** The anchored match exists exactly where a symbol starts, and it is the only one there. */
  lemma MatchEndAtExact(s: string, i: nat, e: nat)
    ensures MatchEndAt(s, i) == Some(e) <==> IsSymbolAt(s, i, e)
  {
    if IsSymbolAt(s, i, e) {
      var j := IdentRunEnd(s, i + 2);
      assert !IsIdentChar(s[e - 2]);
      assert j == e - 2;
    }
  }

  /** `Regex::find` from position `i` on: the leftmost match. */
  function FindSymbolFrom(s: string, i: nat): (r: Option<SymbolMatch>)
    requires i <= |s|
    ensures r.Some? ==> i <= r.value.start && IsSymbolAt(s, r.value.start, r.value.end)
    ensures r.Some? ==> forall k: nat, e: nat :: i <= k < r.value.start ==> !IsSymbolAt(s, k, e)
    ensures r.None? ==> forall k: nat, e: nat :: i <= k ==> !IsSymbolAt(s, k, e)
    decreases |s| - i
  {
    if i == |s| then
      None
    else
      match MatchEndAt(s, i)
      case Some(e) => Some(SymbolMatch(i, e))
      case None =>
        forall e ensures !IsSymbolAt(s, i, e) {
          MatchEndAtExact(s, i, e);
        }
        FindSymbolFrom(s, i + 1)
  }

  /** `regex.find(template)`: the leftmost symbol of `s`, if any. */
  function FindSymbol(s: string): (r: Option<SymbolMatch>)
    ensures r.Some? ==> IsSymbolAt(s, r.value.start, r.value.end)
    ensures r.Some? ==> forall k: nat, e: nat :: k < r.value.start ==> !IsSymbolAt(s, k, e)
    ensures r.None? <==> forall k: nat, e: nat :: !IsSymbolAt(s, k, e)
  {
    FindSymbolFrom(s, 0)
  }

  /** `create_type_from_file_name`: the file name, unchanged. */
  function CreateTypeFromFileName(fileName: string): (r: string)
    ensures r == fileName
  {
    fileName
  }

  /**
   * `create_replacement_value`: the file name for `[]FILE_NAME[]` and
   * `[]FILE_NAME_AS_TYPE[]`, and the empty text for any other symbol.
   */
  function CreateReplacementValue(token: string, fileName: string): (r: string)
    ensures token == "[]FILE_NAME[]" ==> r == fileName
    ensures token == "[]FILE_NAME_AS_TYPE[]" ==> r == fileName
    ensures token != "[]FILE_NAME[]" && token != "[]FILE_NAME_AS_TYPE[]" ==> r == ""
  {
    if token == "[]FILE_NAME[]" then fileName
    else if token == "[]FILE_NAME_AS_TYPE[]" then CreateTypeFromFileName(fileName)
    else ""
  }

  /** One pass of the loop: the text before the match, the replacement, the text after it. */
  function ReplaceMatch(s: string, m: SymbolMatch, fileName: string): (r: string)
    requires IsSymbolAt(s, m.start, m.end)
    ensures r == s[..m.start] + CreateReplacementValue(s[m.start..m.end], fileName) + s[m.end..]
    ensures |r| == |s| - (m.end - m.start) + |CreateReplacementValue(s[m.start..m.end], fileName)|
  {
    s[..m.start] + CreateReplacementValue(s[m.start..m.end], fileName) + s[m.end..]
  }

  /** The number of `[` characters in `s`. */
  function OpenCount(s: string): nat {
    multiset(s)['[']
  }

  /** A symbol holds exactly two `[`. */
  lemma SymbolOpenCount(s: string, i: nat, e: nat)
    requires IsSymbolAt(s, i, e)
    ensures OpenCount(s[i..e]) == 2
  {
    var run := s[i + 2..e - 2];
    assert s[i..e] == [s[i], s[i + 1]] + run + [s[e - 2], s[e - 1]];
    assert forall k :: 0 <= k < |run| ==> run[k] != '[' by {
      forall k | 0 <= k < |run| ensures run[k] != '[' {
        assert IsIdentChar(s[i + 2 + k]);
      }
    }
    assert '[' !in run;
  }

  /** When the file name holds no `[`, a pass removes exactly two `[`. */
  lemma ReplaceMatchOpenCount(s: string, m: SymbolMatch, fileName: string)
    requires IsSymbolAt(s, m.start, m.end)
    requires '[' !in fileName
    ensures OpenCount(ReplaceMatch(s, m, fileName)) + 2 == OpenCount(s)
  {
    var before, symbol, after := s[..m.start], s[m.start..m.end], s[m.end..];
    CutInThree(s, m.start, m.end);
    OpenCountThree(before, symbol, after);
    SymbolOpenCount(s, m.start, m.end);
    var v := CreateReplacementValue(symbol, fileName);
    ReplacementValueHasNoOpen(symbol, fileName);
    OpenCountThree(before, v, after);
  }

  /** The replacement value holds no `[` when the file name holds none. */
  lemma ReplacementValueHasNoOpen(token: string, fileName: string)
    requires '[' !in fileName
    ensures OpenCount(CreateReplacementValue(token, fileName)) == 0
  {
    var v := CreateReplacementValue(token, fileName);
    assert v == fileName || v == "";
    assert '[' !in v;
  }

  /** A text is the parts before, between and after two positions. */
  lemma CutInThree(s: string, i: nat, j: nat)
    requires i <= j <= |s|
    ensures s == s[..i] + s[i..j] + s[j..]
  {
  }

  /** The `[` of three texts put together. */
  lemma OpenCountThree(a: string, b: string, c: string)
    ensures OpenCount(a + b + c) == OpenCount(a) + OpenCount(b) + OpenCount(c)
  {
    assert multiset(a + b + c) == multiset(a) + multiset(b) + multiset(c);
  }

  /**
   * `replace_symbols` as a value: replace the leftmost symbol and start
   * over, until none is left. The loop ends because every pass removes two
   * `[` and adds none, which needs a file name without `[`.
   */
  function ExpandSymbols(s: string, fileName: string): (r: string)
    requires '[' !in fileName
    ensures FindSymbol(r).None?
    ensures FindSymbol(s).None? ==> r == s
    decreases OpenCount(s)
  {
    match FindSymbol(s)
    case None => s
    case Some(m) =>
      ReplaceMatchOpenCount(s, m, fileName);
      ExpandSymbols(ReplaceMatch(s, m, fileName), fileName)
  }

  /**
   * `replace_symbols`: the loop of the source, proved to compute
   * `ExpandSymbols`.
   */
  method ReplaceSymbols(template: string, fileName: string) returns (processedTemplate: string)
    requires '[' !in fileName
    ensures processedTemplate == ExpandSymbols(template, fileName)
    ensures FindSymbol(processedTemplate).None?
  {
    var possibleMatches := FindSymbol(template);
    if possibleMatches.None? {
      return template;
    }
    processedTemplate := template;
    var current := FindSymbol(template);
    while current.Some?
      invariant current == FindSymbol(processedTemplate)
      invariant ExpandSymbols(processedTemplate, fileName) == ExpandSymbols(template, fileName)
      decreases OpenCount(processedTemplate)
    {
      var m := current.value;
      var templateStart := processedTemplate[..m.start];
      var templateEnd := processedTemplate[m.end..];
      var replacementSymbol := CreateReplacementValue(processedTemplate[m.start..m.end], fileName);
      ReplaceMatchOpenCount(processedTemplate, m, fileName);
      processedTemplate := templateStart + replacementSymbol + templateEnd;
      current := FindSymbol(processedTemplate);
    }
  }

  /** A text without `[` holds no symbol. */
  lemma NoOpenNoSymbol(s: string)
    requires '[' !in s
    ensures FindSymbol(s).None?
  {
    forall k: nat, e: nat ensures !IsSymbolAt(s, k, e) {
      if k < |s| {
        assert s[k] in s;
      }
    }
  }

  /** A symbol with no `[` before it is the leftmost symbol of the text. */
  lemma SymbolAfterPlainText(a: string, token: string, b: string)
    requires '[' !in a
    requires IsSymbolAt(token, 0, |token|)
    ensures var s := a + token + b;
            FindSymbol(s) == Some(SymbolMatch(|a|, |a| + |token|))
            && s[..|a|] == a && s[|a|..|a| + |token|] == token && s[|a| + |token|..] == b
  {
    var s := a + token + b;
    var e := |a| + |token|;
    assert s[|a|..e] == token;
    assert IsSymbolAt(s, |a|, e);
    forall k: nat, e': nat | k < |a| ensures !IsSymbolAt(s, k, e') {
      assert s[k] == a[k];
      assert a[k] in a;
    }
    assert FindSymbol(s).Some? && FindSymbol(s).value.start == |a| by {
      assert !(forall k: nat, e': nat :: !IsSymbolAt(s, k, e'));
    }
    MatchEndAtExact(s, |a|, e);
    MatchEndAtExact(s, |a|, FindSymbol(s).value.end);
    assert s[..|a|] == a && s[e..] == b;
  }

  /** A text whose leftmost symbol's pass leaves no `[` expands in that one pass. */
  lemma ExpandInOnePass(s: string, m: SymbolMatch, fileName: string)
    requires '[' !in fileName
    requires FindSymbol(s) == Some(m)
    requires '[' !in ReplaceMatch(s, m, fileName)
    ensures ExpandSymbols(s, fileName) == ReplaceMatch(s, m, fileName)
  {
    NoOpenNoSymbol(ReplaceMatch(s, m, fileName));
  }

  /**
   * A template with one symbol and no other `[` becomes the text around the
   * symbol with the symbol's value in its place.
   */
  lemma ReplaceFirstSymbol(a: string, token: string, b: string, fileName: string)
    requires '[' !in a && '[' !in b && '[' !in fileName
    requires IsSymbolAt(token, 0, |token|)
    ensures ExpandSymbols(a + token + b, fileName) == a + CreateReplacementValue(token, fileName) + b
  {
    SymbolAfterPlainText(a, token, b);
    var s := a + token + b;
    var m := SymbolMatch(|a|, |a| + |token|);
    var value := CreateReplacementValue(token, fileName);
    assert ReplaceMatch(s, m, fileName) == a + value + b;
    assert '[' !in value;
    assert '[' !in a + value + b;
    ExpandInOnePass(s, m, fileName);
  }

  /**
   * A template with one `[]FILE_NAME[]` and no other `[` becomes the text
   * around it with the file name in its place.
   */
  lemma FileNameSymbolExpanded(a: string, b: string, fileName: string)
    requires '[' !in a && '[' !in b && '[' !in fileName
    ensures ExpandSymbols(a + "[]FILE_NAME[]" + b, fileName) == a + fileName + b
  {
    var token := "[]FILE_NAME[]";
    assert IsSymbolAt(token, 0, |token|);
    ReplaceFirstSymbol(a, token, b, fileName);
  }

  /** An unknown symbol, such as `[]OTHER[]`, is deleted. */
  lemma UnknownSymbolDeleted(a: string, token: string, b: string, fileName: string)
    requires '[' !in a && '[' !in b && '[' !in fileName
    requires IsSymbolAt(token, 0, |token|)
    requires token != "[]FILE_NAME[]" && token != "[]FILE_NAME_AS_TYPE[]"
    ensures ExpandSymbols(a + token + b, fileName) == a + b
  {
    ReplaceFirstSymbol(a, token, b, fileName);
    var value := CreateReplacementValue(token, fileName);
    assert value == [];
    assert a + value == a;
  }

  /**
   * With the file name `[]FILE_NAME[]` the pass over the template
   * `[]FILE_NAME[]` gives that same template back, which still holds a
   * symbol: the loop of the source would never end.
   */
  lemma SelfReplacingFileName()
    ensures var s := "[]FILE_NAME[]";
            && FindSymbol(s) == Some(SymbolMatch(0, 13))
            && ReplaceMatch(s, SymbolMatch(0, 13), s) == s
  {
    var s := "[]FILE_NAME[]";
    assert IsSymbolAt(s, 0, |s|);
    SymbolAfterPlainText([], s, []);
    assert [] + s + [] == s;
  }
}

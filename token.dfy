/**
 * The token model of src/token.rs: the text of a token becomes an
 * identifier (the first `[A-Z_]+` run) and optional parameter groups
 * (the text between the first `{` and the last `}`, split on `|||`; each
 * group split on `,`).
 */
module Tokens {
  import opened Wrappers
  import opened Text

  /** One `|||`-separated parameter group, split on `,`. */
  datatype TokenVariable = TokenVariable(variableList: seq<string>)

  datatype Token = Token(id: string, variables: Option<seq<TokenVariable>>)

  /**
   * `TokenVariable::from_string` as a function: the `,` pieces of the text,
   * dropping those that are exactly empty, untrimmed.
   */
  function VariableOf(text: string): (v: TokenVariable)
    ensures forall k :: 0 <= k < |v.variableList| ==> v.variableList[k] != "" && ',' !in v.variableList[k]
    ensures |v.variableList| <= multiset(text)[','] + 1
  {
    SplitPiecesAvoidSeparator(text, ",");
    forall piece | piece in Split(text, ",") ensures ',' !in piece { ContainsChar(piece, ','); }
    SplitCharCount(text, ',');
    TokenVariable(DropEmpty(Split(text, ",")))
  }

  /** `TokenVariable::from_string`. */
  method VariableFromString(text: string) returns (v: TokenVariable)
    ensures v == VariableOf(text)
  {
    var items := Split(text, ",");
    var formattedItems: seq<string> := [];
    var k := 0;
    while k < |items|
      invariant 0 <= k <= |items|
      invariant formattedItems == DropEmpty(items[..k])
    {
      var item := items[k];
      assert items[..k + 1][..k] == items[..k];
      k := k + 1;
      if item == "" {
        continue;
      }
      formattedItems := formattedItems + [item];
    }
    assert items[..k] == items;
    v := TokenVariable(formattedItems);
  }

  /** `TokenVariable::rebuild_string`: the items joined with `,`. */
  method RebuildString(v: TokenVariable) returns (r: string)
    ensures r == Join(v.variableList, ",")
  {
    var list := v.variableList;
    if |list| == 1 {
      return list[0];
    } else if list == [] {
      return "";
    }
    var s: string := "";
    var index := 0;
    while index < |list| - 1
      invariant 0 <= index <= |list| - 1
      invariant s + Join(list[index..], ",") == Join(list, ",")
    {
      assert list[index..][1..] == list[index + 1..];
      s := s + (list[index] + ",");
      index := index + 1;
    }
    assert list[index..] == [list[|list| - 1]];
    s := s + list[|list| - 1];
    return s;
  }

  /**
   * Rebuilding a group gives back its text whenever no `,` piece of it is
   * empty (no leading, trailing or doubled comma).
   */
  lemma RebuildRoundTrip(text: string)
    requires forall k :: 0 <= k < |Split(text, ",")| ==> Split(text, ",")[k] != ""
    ensures Join(VariableOf(text).variableList, ",") == text
  {
    JoinSplit(text, ",");
  }

  /** `text[i]` is the first `{` and `text[j]` the last `}`, with `i < j`. */
  predicate IsOutermostBraces(text: string, i: nat, j: nat) {
    && i < j < |text|
    && text[i] == '{' && text[j] == '}'
    && (forall k :: 0 <= k < i ==> text[k] != '{')
    && (forall k :: j < k < |text| ==> text[k] != '}')
  }

  /**
   * The capture of the regex `\{((.|\s)*)\}`: greedy from the first `{` to
   * the last `}` after it, newlines included.
   */
  function ParameterBlob(text: string): (r: Option<string>)
    ensures r.None? <==> forall i, j :: 0 <= i < j < |text| ==> !(text[i] == '{' && text[j] == '}')
    ensures r.Some? ==> exists i: nat, j: nat :: IsOutermostBraces(text, i, j) && r.value == text[i + 1..j]
  {
    match IndexOfChar(text, '{', 0)
    case None => None
    case Some(i) =>
      match LastIndexOfChar(text, '}')
      case None => None
      case Some(j) =>
        if i < j then
          assert IsOutermostBraces(text, i, j);
          Some(text[i + 1..j])
        else None
  }

  /** The blob of `a{b}c` is `b` when `a` has no `{` and `c` no `}`. */
  lemma ParameterBlobOf(a: string, b: string, c: string)
    requires '{' !in a && '}' !in c
    ensures ParameterBlob(a + "{" + b + "}" + c) == Some(b)
  {
    var s := a + "{" + b + "}" + c;
    var i, j := |a|, |a| + 1 + |b|;
    assert s[i] == '{' && s[j] == '}';
    forall k | 0 <= k < i ensures s[k] != '{' { assert s[k] == a[k]; }
    forall k | j < k < |s| ensures s[k] != '}' { assert s[k] == c[k - j - 1]; }
    assert IndexOfChar(s, '{', 0) == Some(i);
    assert LastIndexOfChar(s, '}') == Some(j);
    assert s[i + 1..j] == b;
  }

  /** The groups of a non-empty blob: one `TokenVariable` per `|||` piece. */
  function GroupsOf(blob: string): (groups: seq<TokenVariable>)
    ensures |groups| == |Split(blob, "|||")| >= 1
    ensures forall k :: 0 <= k < |groups| ==> groups[k] == VariableOf(Split(blob, "|||")[k])
  {
    var pieces := Split(blob, "|||");
    seq(|pieces|, k requires 0 <= k < |pieces| => VariableOf(pieces[k]))
  }

  /** The error `Token::from_string` reports when no identifier is found. */
  function IdentifierError(text: string): string {
    "Failed to parse identifier for line " + text
  }

  /** `Token::from_string` as a function. */
  function ParseToken(text: string): (r: Result<Token, string>)
    ensures r.Err? <==> forall k :: 0 <= k < |text| ==> !IsIdentChar(text[k])
    ensures r.Err? ==> r.error == IdentifierError(text)
    ensures r.Ok? ==> exists i: nat :: IsFirstIdentifierAt(text, i, r.value.id)
    ensures r.Ok? ==> (r.value.variables.None? <==> ParameterBlob(text) in {None, Some("")})
    ensures r.Ok? && r.value.variables.Some? ==> r.value.variables.value == GroupsOf(ParameterBlob(text).value)
  {
    match FirstIdentifier(text)
    case None => Err(IdentifierError(text))
    case Some(identifier) =>
      var blob := ParameterBlob(text);
      var variables := if blob.Some? && blob.value != "" then GroupsOf(blob.value) else [];
      Ok(Token(identifier, if |variables| == 0 then None else Some(variables)))
  }

  /** `Token::from_string`. */
  method TokenFromString(text: string) returns (r: Result<Token, string>)
    ensures r == ParseToken(text)
  {
    var identifierCapture := FirstIdentifier(text);
    var variableCapture := ParameterBlob(text);
    if identifierCapture.None? {
      return Err(IdentifierError(text));
    }
    var identifier := identifierCapture.value;
    var variableGroup: Option<string> :=
      if variableCapture.None? || variableCapture.value == "" then None else variableCapture;
    var variables: seq<TokenVariable> := [];
    if variableGroup.Some? {
      variables := VariablesFromGroup(variableGroup.value);
    }
    return Ok(Token(identifier, if |variables| == 0 then None else Some(variables)));
  }

  /** The loop of `Token::from_string` over the `|||` pieces of the variable group. */
  method VariablesFromGroup(group: string) returns (variables: seq<TokenVariable>)
    ensures variables == GroupsOf(group)
  {
    var parameterList := Split(group, "|||");
    variables := [];
    var k := 0;
    while k < |parameterList|
      invariant 0 <= k <= |parameterList|
      invariant |variables| == k
      invariant forall j :: 0 <= j < k ==> variables[j] == VariableOf(parameterList[j])
    {
      var variable := VariableFromString(parameterList[k]);
      variables := variables + [variable];
      k := k + 1;
    }
  }

  /** `Token::has_variables`. */
  function HasVariables(t: Token): (r: bool)
    ensures r <==> t.variables.Some?
  {
    t.variables.Some?
  }

  /** What every group of a parsed token satisfies: its items are non-empty and hold no `,`. */
  predicate IsParsedGroup(v: TokenVariable) {
    forall k :: 0 <= k < |v.variableList| ==> v.variableList[k] != "" && ',' !in v.variableList[k]
  }

  /** Splitting a rebuilt group gives the group back. */
  lemma VariableOfRebuilt(v: TokenVariable)
    ensures IsParsedGroup(v) ==> VariableOf(Join(v.variableList, ",")) == v
  {
    if !IsParsedGroup(v) {
    } else if v.variableList == [] {
      SplitWithoutSeparator("", ",");
    } else {
      SplitJoinChar(v.variableList, ',');
    }
  }

  /**
   * `Token::get_variable_as_string`: the rebuilt text of group `index`, or
   * `""` for a token without variables. An index out of range panics.
   */
  function GetVariableAsString(t: Token, index: nat): (r: string)
    requires t.variables.None? || index < |t.variables.value|
    ensures t.variables.None? ==> r == ""
    ensures t.variables.Some? && IsParsedGroup(t.variables.value[index]) ==> VariableOf(r) == t.variables.value[index]
  {
    if t.variables.None? then ""
    else
      var group := t.variables.value[index];
      VariableOfRebuilt(group);
      Join(group.variableList, ",")
  }

  /**
   * `Token::get_variable_at`: the items of group `index`, or no items for a
   * token without variables. An index out of range panics.
   */
  function GetVariableAt(t: Token, index: nat): (r: seq<string>)
    requires t.variables.None? || index < |t.variables.value|
    ensures t.variables.None? ==> r == []
    ensures t.variables.Some? ==> r == t.variables.value[index].variableList
  {
    if t.variables.None? then [] else t.variables.value[index].variableList
  }

  /**
   * Group `k` of a parsed token, read back with `get_variable_as_string`, is
   * the `k`-th `|||` piece of the blob without its empty `,` pieces; so it is
   * that piece itself when none of its `,` pieces is empty.
   */
  lemma ParsedGroupText(text: string, k: nat)
    requires ParseToken(text).Ok? && ParseToken(text).value.variables.Some?
    requires k < |ParseToken(text).value.variables.value|
    ensures var piece := Split(ParameterBlob(text).value, "|||")[k];
            && GetVariableAsString(ParseToken(text).value, k) == Join(DropEmpty(Split(piece, ",")), ",")
            && ((forall j :: 0 <= j < |Split(piece, ",")| ==> Split(piece, ",")[j] != "") ==>
                  GetVariableAsString(ParseToken(text).value, k) == piece)
  {
    var piece := Split(ParameterBlob(text).value, "|||")[k];
    if forall j :: 0 <= j < |Split(piece, ",")| ==> Split(piece, ",")[j] != "" {
      RebuildRoundTrip(piece);
    }
  }

  /** `FILE_NAME` parses to that identifier and no variables (test token_parse_without_variables). */
  lemma ParseBareIdentifier()
    ensures ParseToken("FILE_NAME") == Ok(Token("FILE_NAME", None))
  {
    FirstIdentifierOfPrefix("FILE_NAME", "");
    assert "FILE_NAME" + "" == "FILE_NAME";
    assert '{' !in "FILE_NAME";
  }

  /** Empty braces give no variables (test token_parse_without_variables_but_with_brackets). */
  lemma ParseEmptyBraces()
    ensures ParseToken("FILE_NAME" + "{" + "}") == Ok(Token("FILE_NAME", None))
  {
    var text := "FILE_NAME" + "{" + "}";
    assert text == "FILE_NAME" + "{" + "" + "}";
    ParseIdentifierAndBlob(text, "FILE_NAME", "");
  }

  /** `NAME{blob}` parses to `NAME` and the groups of `blob`, none if it is empty. */
  lemma ParseIdentifierAndBlob(text: string, id: string, blob: string)
    requires text == id + "{" + blob + "}"
    requires id != [] && forall k :: 0 <= k < |id| ==> IsIdentChar(id[k])
    requires '{' !in id
    ensures ParseToken(text) == Ok(Token(id, if blob == "" then None else Some(GroupsOf(blob))))
  {
    assert text == id + ("{" + blob + "}");
    FirstIdentifierOfPrefix(id, "{" + blob + "}");
    assert text == id + "{" + blob + "}" + "";
    ParameterBlobOf(id, blob, "");
  }

  /** A blob without `|` or `,` is one group holding one item. */
  lemma SingleItemGroups(blob: string)
    requires blob != "" && '|' !in blob && ',' !in blob
    ensures GroupsOf(blob) == [TokenVariable([blob])]
  {
    SplitWithoutSeparator(blob, "|||");
    SplitWithoutSeparator(blob, ",");
  }

  /** `NAME{x}` with a plain `x` parses to `NAME` with one group holding `x`. */
  lemma ParseSingleItemShape(text: string, id: string, blob: string)
    requires text == id + "{" + blob + "}"
    requires id != [] && forall k :: 0 <= k < |id| ==> IsIdentChar(id[k])
    requires '{' !in id
    requires blob != "" && '|' !in blob && ',' !in blob
    ensures ParseToken(text) == Ok(Token(id, Some([TokenVariable([blob])])))
  {
    SingleItemGroups(blob);
    ParseIdentifierAndBlob(text, id, blob);
  }

  /** One group with one item, kept as written (test token_parse_with_variable). */
  lemma ParseOneVariable()
    ensures ParseToken("FILE_NAME" + "{" + "-_model" + "}") == Ok(Token("FILE_NAME", Some([TokenVariable(["-_model"])])))
  {
    ParseSingleItemShape("FILE_NAME" + "{" + "-_model" + "}", "FILE_NAME", "-_model");
  }

  /** The blob `a,b|||c`, with no other separators, gives the groups `[a, b]` and `[c]`. */
  lemma TwoGroupsShape(blob: string, a: string, b: string, c: string)
    requires blob == a + "," + b + "|||" + c
    requires a != "" && b != "" && c != ""
    requires '|' !in a && '|' !in b && '|' !in c && ',' !in a && ',' !in b && ',' !in c
    ensures GroupsOf(blob) == [TokenVariable([a, b]), TokenVariable([c])]
  {
    var first := a + "," + b;
    assert '|' !in first;
    GroupsOfPair(first, c);
    VariableOfPair(a, b);
    VariableOfSingle(c);
  }

  /** Two pieces without `|` around one `|||` are two groups. */
  lemma GroupsOfPair(x: string, y: string)
    requires '|' !in x && '|' !in y
    ensures GroupsOf(x + "|||" + y) == [VariableOf(x), VariableOf(y)]
  {
    SplitAfterFirst(x, "|||", y);
    SplitWithoutSeparator(y, "|||");
  }

  /** Two non-empty items without `,` around one `,` are those two items. */
  lemma VariableOfPair(a: string, b: string)
    requires a != "" && b != "" && ',' !in a && ',' !in b
    ensures VariableOf(a + "," + b) == TokenVariable([a, b])
  {
    SplitAfterFirst(a, ",", b);
    SplitWithoutSeparator(b, ",");
    assert DropEmpty([a, b]) == [a, b];
  }

  /** A non-empty item without `,` is a single item. */
  lemma VariableOfSingle(c: string)
    requires c != "" && ',' !in c
    ensures VariableOf(c) == TokenVariable([c])
  {
    SplitWithoutSeparator(c, ",");
  }

  /** `NAME{a,b|||c}` parses to `NAME` with the groups `[a, b]` and `[c]`. */
  lemma ParseTwoGroupsShape(text: string, id: string, blob: string, a: string, b: string, c: string)
    requires text == id + "{" + blob + "}" && blob == a + "," + b + "|||" + c
    requires id != [] && forall k :: 0 <= k < |id| ==> IsIdentChar(id[k])
    requires '{' !in id
    requires a != "" && b != "" && c != ""
    requires '|' !in a && '|' !in b && '|' !in c && ',' !in a && ',' !in b && ',' !in c
    ensures ParseToken(text) == Ok(Token(id, Some([TokenVariable([a, b]), TokenVariable([c])])))
  {
    TwoGroupsShape(blob, a, b, c);
    ParseIdentifierAndBlob(text, id, blob);
  }

  /** Two groups, the first with two items (test token_parse_with_multiple_variables). */
  lemma ParseTwoGroups()
    ensures ParseToken("FOR_EACH_FILE_IN_DIR" + "{" + "qmldir" + "," + "qrc" + "|||" + "Some text" + "}")
         == Ok(Token("FOR_EACH_FILE_IN_DIR", Some([TokenVariable(["qmldir", "qrc"]), TokenVariable(["Some text"])])))
  {
    ParseTwoGroupsShape("FOR_EACH_FILE_IN_DIR" + "{" + "qmldir" + "," + "qrc" + "|||" + "Some text" + "}",
                        "FOR_EACH_FILE_IN_DIR", "qmldir" + "," + "qrc" + "|||" + "Some text",
                        "qmldir", "qrc", "Some text");
  }

  /** The blob `a|||b,c`, with no other separators, gives the groups `[a]` and `[b, c]`. */
  lemma SecondGroupShape(blob: string, a: string, b: string, c: string)
    requires blob == a + "|||" + b + "," + c
    requires a != "" && b != "" && c != ""
    requires '|' !in a && '|' !in b && '|' !in c && ',' !in b && ',' !in c
    ensures |GroupsOf(blob)| == 2 && GroupsOf(blob)[1] == TokenVariable([b, c])
  {
    var second := b + "," + c;
    assert '|' !in second;
    assert blob == a + "|||" + second;
    GroupsOfPair(a, second);
    VariableOfPair(b, c);
  }

  /** The second group of `NAME{a|||b,c}` rebuilds to `b,c`. */
  lemma RebuildSecondGroupShape(text: string, id: string, blob: string, a: string, b: string, c: string)
    requires text == id + "{" + blob + "}" && blob == a + "|||" + b + "," + c
    requires id != [] && forall k :: 0 <= k < |id| ==> IsIdentChar(id[k])
    requires '{' !in id
    requires a != "" && b != "" && c != ""
    requires '|' !in a && '|' !in b && '|' !in c && ',' !in b && ',' !in c
    ensures var t := ParseToken(text);
            t.Ok? && t.value.variables.Some? && |t.value.variables.value| == 2
            && GetVariableAsString(t.value, 1) == b + "," + c
  {
    SecondGroupShape(blob, a, b, c);
    ParseIdentifierAndBlob(text, id, blob);
    assert Join([b, c], ",") == b + "," + c;
  }

  /** The second group of `...{qmldir, qrc|||Some, text}` rebuilds to `Some, text` (test rebuild_string_multiple_variables). */
  lemma RebuildSecondGroup()
    ensures var t := ParseToken("FOR_EACH_FILE_IN_DIR" + "{" + "qmldir, qrc" + "|||" + "Some" + "," + " text" + "}");
            t.Ok? && t.value.variables.Some? && |t.value.variables.value| == 2
            && GetVariableAsString(t.value, 1) == "Some" + "," + " text"
  {
    RebuildSecondGroupShape("FOR_EACH_FILE_IN_DIR" + "{" + "qmldir, qrc" + "|||" + "Some" + "," + " text" + "}",
                            "FOR_EACH_FILE_IN_DIR", "qmldir, qrc" + "|||" + "Some" + "," + " text",
                            "qmldir, qrc", "Some", " text");
  }

  /** The blob `a|||b`, with `b` free of `|` and `,`, has the second group `[b]`. */
  lemma SingleSecondGroupShape(blob: string, a: string, b: string)
    requires blob == a + "|||" + b
    requires b != "" && '|' !in a && '|' !in b && ',' !in b
    ensures |GroupsOf(blob)| == 2 && GroupsOf(blob)[1] == TokenVariable([b])
  {
    SplitAfterFirst(a, "|||", b);
    SplitWithoutSeparator(b, "|||");
    SplitWithoutSeparator(b, ",");
  }

  /** The second group of `NAME{a|||b}` rebuilds to `b`: one item is rebuilt as itself. */
  lemma RebuildSingleGroupShape(text: string, id: string, blob: string, a: string, b: string)
    requires text == id + "{" + blob + "}" && blob == a + "|||" + b
    requires id != [] && forall k :: 0 <= k < |id| ==> IsIdentChar(id[k])
    requires '{' !in id
    requires b != "" && '|' !in a && '|' !in b && ',' !in b
    ensures var t := ParseToken(text);
            t.Ok? && t.value.variables.Some? && |t.value.variables.value| == 2
            && GetVariableAsString(t.value, 1) == b
  {
    SingleSecondGroupShape(blob, a, b);
    ParseIdentifierAndBlob(text, id, blob);
  }

  /** The second group of `...{qmldir, qrc|||Some}` rebuilds to `Some` (test rebuild_string_single_variable). */
  lemma RebuildSingleVariable()
    ensures var t := ParseToken("FOR_EACH_FILE_IN_DIR" + "{" + "qmldir, qrc" + "|||" + "Some" + "}");
            t.Ok? && t.value.variables.Some? && |t.value.variables.value| == 2
            && GetVariableAsString(t.value, 1) == "Some"
  {
    RebuildSingleGroupShape("FOR_EACH_FILE_IN_DIR" + "{" + "qmldir, qrc" + "|||" + "Some" + "}",
                            "FOR_EACH_FILE_IN_DIR", "qmldir, qrc" + "|||" + "Some",
                            "qmldir, qrc", "Some");
  }

  /**
   * The groups cover the blob: the `|||` pieces they come from hold no
   * `|||` and, joined with `|||`, give the blob back.
   */
  lemma GroupsCoverBlob(blob: string)
    ensures Join(Split(blob, "|||"), "|||") == blob
    ensures forall k :: 0 <= k < |Split(blob, "|||")| ==> !Contains(Split(blob, "|||")[k], "|||")
    ensures |GroupsOf(blob)| == |Split(blob, "|||")|
  {
    JoinSplit(blob, "|||");
    SplitPiecesAvoidSeparator(blob, "|||");
  }
}

/**
 * The earlier draft of token parsing (`src/replacement_token.rs`): its
 * variable splitter trims every item, and its token parser never returns
 * a token.
 */
module ReplacementTokens {
  import opened Wrappers
  import opened Text
  import Tokens

  datatype ReplacementVariable = ReplacementVariable(variableList: seq<string>)

  datatype ReplacementToken = ReplacementToken(id: string, variables: Option<seq<ReplacementVariable>>)

  /** The characters with the Unicode `White_Space` property, which `str::trim` removes. */
  predicate IsWhiteSpace(c: char) {
    var n := c as int;
    || (0x09 <= n <= 0x0D) || n == 0x20 || n == 0x85 || n == 0xA0 || n == 0x1680
    || (0x2000 <= n <= 0x200A) || n == 0x2028 || n == 0x2029 || n == 0x202F
    || n == 0x205F || n == 0x3000
  }

  /** Index of the first character of `s` that is not white space (or `|s|`). */
  function TrimStart(s: string): (i: nat)
    ensures i <= |s|
    ensures forall k :: 0 <= k < i ==> IsWhiteSpace(s[k])
    ensures i < |s| ==> !IsWhiteSpace(s[i])
  {
    if s == [] || !IsWhiteSpace(s[0]) then 0
    else
      var i := TrimStart(s[1..]);
      assert forall k :: 1 <= k < i + 1 ==> s[k] == s[1..][k - 1];
      i + 1
  }

  /** Index just past the last character of `s` that is not white space (or 0). */
  function TrimEnd(s: string): (j: nat)
    ensures j <= |s|
    ensures forall k :: j <= k < |s| ==> IsWhiteSpace(s[k])
    ensures j > 0 ==> !IsWhiteSpace(s[j - 1])
  {
    if s == [] || !IsWhiteSpace(s[|s| - 1]) then |s|
    else TrimEnd(s[..|s| - 1])
  }

  /** `str::trim`: the text without its leading and trailing white space. */
  function Trim(s: string): (r: string)
    ensures r == [] || (!IsWhiteSpace(r[0]) && !IsWhiteSpace(r[|r| - 1]))
  {
    var i := TrimStart(s);
    if i == |s| then []
    else
      var j := TrimEnd(s);
      assert !IsWhiteSpace(s[i]);
      assert i < j;
      s[i..j]
  }

  /**
   * The trimmed text is a slice of the text, everything cut off is white
   * space, and it is empty exactly when the text is all white space.
   */
  lemma TrimIsSlice(s: string)
    ensures exists i, j :: 0 <= i <= j <= |s| && Trim(s) == s[i..j]
              && (forall k :: 0 <= k < i ==> IsWhiteSpace(s[k]))
              && (forall k :: j <= k < |s| ==> IsWhiteSpace(s[k]))
    ensures (forall k :: 0 <= k < |s| ==> IsWhiteSpace(s[k])) <==> Trim(s) == []
  {
    var i := TrimStart(s);
    if i == |s| {
      assert Trim(s) == s[i..i];
    } else {
      var j := TrimEnd(s);
      assert !IsWhiteSpace(s[i]);
      assert Trim(s) == s[i..j];
    }
  }

  /** Each item trimmed. */
  function TrimAll(items: seq<string>): (r: seq<string>)
    ensures |r| == |items|
    ensures forall k :: 0 <= k < |r| ==> r[k] == Trim(items[k])
  {
    seq(|items|, k requires 0 <= k < |items| => Trim(items[k]))
  }

  /**
   * `ReplacementVariable::from_string` as a function: the `,` pieces that
   * are not exactly empty, each trimmed afterwards.
   */
  function ReplacementVariableOf(text: string): (v: ReplacementVariable)
    ensures |v.variableList| <= multiset(text)[','] + 1
    ensures forall k :: 0 <= k < |v.variableList| ==>
              v.variableList[k] == [] || (!IsWhiteSpace(v.variableList[k][0]) && !IsWhiteSpace(v.variableList[k][|v.variableList[k]| - 1]))
  {
    SplitCharCount(text, ',');
    ReplacementVariable(TrimAll(DropEmpty(Split(text, ","))))
  }

  /** `ReplacementVariable::from_string`: the loop of the source. */
  method ReplacementVariableFromString(text: string) returns (v: ReplacementVariable)
    ensures v == ReplacementVariableOf(text)
  {
    var items := Split(text, ",");
    var formattedItems: seq<string> := [];
    var k := 0;
    while k < |items|
      invariant 0 <= k <= |items|
      invariant formattedItems == TrimAll(DropEmpty(items[..k]))
    {
      var item := items[k];
      TrimmedPrefixStep(items, k);
      k := k + 1;
      if item == "" {
        continue;
      }
      formattedItems := formattedItems + [Trim(item)];
    }
    assert items[..k] == items;
    v := ReplacementVariable(formattedItems);
  }

  /** One more piece: the trimmed non-empty pieces grow by that piece trimmed, unless it is empty. */
  lemma TrimmedPrefixStep(items: seq<string>, k: nat)
    requires k < |items|
    ensures TrimAll(DropEmpty(items[..k + 1]))
            == TrimAll(DropEmpty(items[..k])) + (if items[k] == "" then [] else [Trim(items[k])])
  {
    assert items[..k + 1][..k] == items[..k];
    var before := DropEmpty(items[..k]);
    if items[k] != "" {
      assert DropEmpty(items[..k + 1]) == before + [items[k]];
      assert TrimAll(before + [items[k]]) == TrimAll(before) + [Trim(items[k])];
    }
  }

  /** The items of the draft are those of `TokenVariable::from_string`, each trimmed. */
  lemma TrimmedTokenVariable(text: string)
    ensures ReplacementVariableOf(text).variableList == TrimAll(Tokens.VariableOf(text).variableList)
  {
  }

  /** Three pieces without `,`, joined by `,`, split back into those pieces. */
  lemma SplitThree(a: string, w: string, b: string)
    requires ',' !in a && ',' !in w && ',' !in b
    ensures Split(a + "," + w + "," + b, ",") == [a, w, b]
  {
    assert a + "," + w + "," + b == a + "," + (w + "," + b);
    SplitAfterFirst(a, ",", w + "," + b);
    SplitAfterFirst(w, ",", b);
    SplitWithoutSeparator(b, ",");
  }

  /**
   * The empty check comes before trimming: in `a,w,b` with a white-space
   * piece `w`, that piece is kept and becomes an empty item.
   */
  lemma WhiteSpacePieceKept(a: string, w: string, b: string)
    requires a != [] && b != [] && w != []
    requires ',' !in a && ',' !in b
    requires forall k :: 0 <= k < |w| ==> IsWhiteSpace(w[k])
    ensures ReplacementVariableOf(a + "," + w + "," + b).variableList == [Trim(a), "", Trim(b)]
  {
    WhiteSpaceHasNoComma(w);
    SplitThree(a, w, b);
    var pieces := [a, w, b];
    assert DropEmpty(pieces) == pieces by {
      assert pieces[0] != "" && pieces[1] != "" && pieces[2] != "";
    }
    TrimAllThree(a, w, b);
    WhiteSpaceTrimsToEmpty(w);
  }

  /** White space holds no `,`. */
  lemma WhiteSpaceHasNoComma(w: string)
    requires forall k :: 0 <= k < |w| ==> IsWhiteSpace(w[k])
    ensures ',' !in w
  {
    forall k | 0 <= k < |w| ensures w[k] != ',' {
      assert IsWhiteSpace(w[k]);
    }
  }

  /** Text made only of white space trims to nothing. */
  lemma WhiteSpaceTrimsToEmpty(w: string)
    requires forall k :: 0 <= k < |w| ==> IsWhiteSpace(w[k])
    ensures Trim(w) == []
  {
    TrimIsSlice(w);
  }

  /** Three items trimmed one by one. */
  lemma TrimAllThree(a: string, w: string, b: string)
    ensures TrimAll([a, w, b]) == [Trim(a), Trim(w), Trim(b)]
  {
  }

  /** `ReplacementToken::new`: the identifier and the groups, always present. */
  function New(id: string, variables: seq<ReplacementVariable>): (r: ReplacementToken)
    ensures r.id == id && r.variables == Some(variables)
  {
    ReplacementToken(id, Some(variables))
  }

  /**
   * `ReplacementToken::from_string`: an error in every case, the
   * identifier message when the text has no `[A-Z_]` character and
   * `No implementation` otherwise.
   */
  function ReplacementTokenFromString(text: string): (r: Result<ReplacementToken, string>)
    ensures r.Err?
    ensures (forall k :: 0 <= k < |text| ==> !IsIdentChar(text[k])) ==> r.error == Tokens.IdentifierError(text)
    ensures (exists k :: 0 <= k < |text| && IsIdentChar(text[k])) ==> r.error == "No implementation"
  {
    match FirstIdentifier(text)
    case None => Err(Tokens.IdentifierError(text))
    case Some(_) => Err("No implementation")
  }

  /**
   * The draft fails where `Token::from_string` fails, with the same
   * message, and fails with `No implementation` where it succeeds.
   */
  lemma DraftAgreesOnErrors(text: string)
    ensures Tokens.ParseToken(text).Err? ==> ReplacementTokenFromString(text) == Err(Tokens.ParseToken(text).error)
    ensures Tokens.ParseToken(text).Ok? ==> ReplacementTokenFromString(text) == Err("No implementation")
  {
  }

  /** `FILE_NAME` gives `No implementation`, where the test expects a token. */
  lemma BareIdentifierNotImplemented()
    ensures ReplacementTokenFromString("FILE_NAME") == Err("No implementation")
  {
    assert IsIdentChar("FILE_NAME"[0]);
  }


}

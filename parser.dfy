/**
 * The bracket token scanner of src/parser.rs.
 *
 * `FindFirstToken` walks the characters of the text once, keeping the
 * source's three flags (a `[` was just seen, inside a token name, inside
 * the `{...}` parameter section), a brace-depth counter and the start of
 * the candidate token; it reports the first `[]NAME{...}[]` span.
 * `FindAllTokens` calls it again on the text after each span found.
 *
 * `ScanFrom` is the same state machine as a function over an explicit
 * state record; it specifies the method and carries the lemmas.
 */
module Parser {
  import opened Wrappers

  /** A span of the text, `end` exclusive. */
  datatype FoundToken = FoundToken(start: nat, end: nat)

  /** `char::is_alphabetic`, restricted to ASCII. */
  predicate IsAlphabetic(c: char) {
    ('a' <= c <= 'z') || ('A' <= c <= 'Z')
  }

  /** The scanner's variables between two characters. */
  datatype ScanState = ScanState(
    openSquareBracketFound: bool,
    isInToken: bool,
    isInParameters: bool,
    userCurlyBracketsCount: nat,
    startIndex: nat)

  const Initial := ScanState(false, false, false, 0, 0)

  /** A `]` read in state `st` ends the token. */
  predicate ClosesToken(st: ScanState, c: char) {
    c == ']' && st.openSquareBracketFound && st.isInToken && !st.isInParameters
  }

  /** The transition on character `c` at position `index` when it does not end the token. */
  function Step(st: ScanState, c: char, index: nat): ScanState {
    if c == '{' then
      if st.isInParameters then st.(userCurlyBracketsCount := st.userCurlyBracketsCount + 1)
      else if st.isInToken then st.(isInParameters := true)
      else st
    else if c == '}' then
      if !st.isInParameters then st
      else if st.userCurlyBracketsCount != 0 then st.(userCurlyBracketsCount := st.userCurlyBracketsCount - 1)
      else st.(isInParameters := false)
    else if c == '[' then
      st.(openSquareBracketFound := true, startIndex := if st.isInToken then st.startIndex else index)
    else if c == ']' then
      if st.openSquareBracketFound then st.(isInToken := true)
      else if !st.isInParameters then st.(openSquareBracketFound := false, isInToken := false)
      else st
    else
      st.(isInToken := st.isInToken && (IsAlphabetic(c) || c == '_'), openSquareBracketFound := false)
  }

  /** Run the state machine from position `i` in state `st`. */
  function ScanFrom(s: string, i: nat, st: ScanState): Option<FoundToken>
    requires i <= |s|
    decreases |s| - i
  {
    if i == |s| then None
    else if ClosesToken(st, s[i]) then Some(FoundToken(st.startIndex, i + 1))
    else ScanFrom(s, i + 1, Step(st, s[i], i))
  }

  /**
   * What the scanner knows at position `i`: while a `[` is pending or a
   * token is open, `startIndex` points at a `[` already read, and an open
   * token has read at least one more character after it.
   */
  predicate Tracks(s: string, i: nat, st: ScanState) {
    && i <= |s|
    && ((st.openSquareBracketFound || st.isInToken) ==> st.startIndex < i && s[st.startIndex] == '[')
    && (st.isInToken ==> exists k :: st.startIndex < k < i && s[k] == ']')
  }

  /**
   * A reported span lies inside the text, opens on `[`, closes on `]` and
   * holds another `]` in between (the one that opened the name).
   */
  predicate IsSoundSpan(s: string, t: FoundToken) {
    && t.start < t.end <= |s|
    && s[t.start] == '['
    && s[t.end - 1] == ']'
    && exists k :: t.start < k < t.end - 1 && s[k] == ']'
  }

  lemma StepTracks(s: string, i: nat, st: ScanState)
    requires i < |s| && Tracks(s, i, st) && !ClosesToken(st, s[i])
    ensures Tracks(s, i + 1, Step(st, s[i], i))
  {
  }

  /** Every span the state machine reports is sound and ends after `i`. */
  lemma {:induction false} ScanFromSound(s: string, i: nat, st: ScanState)
    requires Tracks(s, i, st)
    ensures ScanFrom(s, i, st).Some? ==> IsSoundSpan(s, ScanFrom(s, i, st).value) && i < ScanFrom(s, i, st).value.end
    decreases |s| - i
  {
    if i < |s| && !ClosesToken(st, s[i]) {
      StepTracks(s, i, st);
      ScanFromSound(s, i + 1, Step(st, s[i], i));
    }
  }

  /** `find_first_token` as a function: the state machine from the start of the text. */
  function FirstToken(s: string): (r: Option<FoundToken>)
    ensures r.Some? ==> IsSoundSpan(s, r.value)
  {
    ScanFromSound(s, 0, Initial);
    ScanFrom(s, 0, Initial)
  }

  /** `Parser::find_first_token`. */
  method FindFirstToken(s: string) returns (r: Option<FoundToken>)
    ensures r == FirstToken(s)
    ensures r.Some? ==> IsSoundSpan(s, r.value)
  {
    var openSquareBracketFound := false;
    var isInToken := false;
    var isInParameters := false;
    var userCurlyBracketsCount: nat := 0;
    var startIndex: nat := 0;
    var index: nat := 0;
    while index < |s|
      invariant index <= |s|
      invariant Tracks(s, index, ScanState(openSquareBracketFound, isInToken, isInParameters, userCurlyBracketsCount, startIndex))
      invariant ScanFrom(s, index, ScanState(openSquareBracketFound, isInToken, isInParameters, userCurlyBracketsCount, startIndex))
                == FirstToken(s)
    {
      var character := s[index];
      if character == '{' {
        if isInParameters {
          userCurlyBracketsCount := userCurlyBracketsCount + 1;
        } else if isInToken {
          isInParameters := true;
        }
      } else if character == '}' {
        if isInParameters {
          if userCurlyBracketsCount != 0 {
            userCurlyBracketsCount := userCurlyBracketsCount - 1;
          } else {
            isInParameters := false;
          }
        }
      } else if character == '[' {
        openSquareBracketFound := true;
        if !isInToken {
          startIndex := index;
        }
      } else if character == ']' {
        if openSquareBracketFound {
          if isInToken && !isInParameters {
            return Some(FoundToken(startIndex, index + 1));
          } else {
            isInToken := true;
          }
        } else if !isInParameters {
          openSquareBracketFound := false;
          isInToken := false;
        }
      } else {
        if !(IsAlphabetic(character) || character == '_') && isInToken {
          isInToken := false;
        }
        openSquareBracketFound := false;
      }
      index := index + 1;
    }
    return None;
  }

  /**
   * `find_all_tokens` as a function: each next token is searched in the text
   * after the previous one, and its span is relative to that remainder.
   */
  function AllTokens(s: string): (ts: seq<FoundToken>)
    ensures |ts| <= |s|
    decreases |s|
  {
    match FirstToken(s)
    case None => []
    case Some(t) => [t] + AllTokens(s[t.end..])
  }

  /** Sum of the `end`s of `ts`: where the text after the last of them starts. */
  function EndSum(ts: seq<FoundToken>): nat {
    if ts == [] then 0 else EndSum(ts[..|ts| - 1]) + ts[|ts| - 1].end
  }

  /** `Parser::find_all_tokens`. */
  method FindAllTokens(s: string) returns (foundTokens: seq<FoundToken>)
    ensures foundTokens == AllTokens(s)
    ensures EndSum(foundTokens) <= |s|
  {
    var startIndex: nat := 0;
    foundTokens := [];
    var firstToken := FindFirstToken(s);
    AccountAtStart(s);
    if firstToken == None {
      AllTokensDone(s, startIndex, foundTokens);
      return;
    }
    while firstToken.Some?
      invariant Account(s, startIndex, foundTokens)
      invariant firstToken == FirstToken(s[startIndex..])
      decreases |s| - startIndex
    {
      var token := firstToken.value;
      AllTokensAdvance(s, startIndex, token, foundTokens);
      startIndex := startIndex + token.end;
      foundTokens := foundTokens + [token];
      firstToken := FindFirstToken(s[startIndex..]);
    }
    AllTokensDone(s, startIndex, foundTokens);
  }

  /**
   * The loop's account after the tokens `found`: they end at `i`, and they
   * followed by the tokens of the text after `i` are all the tokens.
   */
  predicate Account(s: string, i: nat, found: seq<FoundToken>) {
    && i == EndSum(found) <= |s|
    && found + AllTokens(s[i..]) == AllTokens(s)
  }

  /** Before the loop: nothing found, the whole text still to scan. */
  lemma AccountAtStart(s: string)
    ensures Account(s, 0, [])
  {
    assert s[0..] == s;
  }

  /** One more token found: the loop's account still holds after it. */
  lemma AllTokensAdvance(s: string, i: nat, t: FoundToken, found: seq<FoundToken>)
    requires Account(s, i, found) && FirstToken(s[i..]) == Some(t)
    ensures i < i + t.end <= |s|
    ensures Account(s, i + t.end, found + [t])
  {
    assert s[i..][t.end..] == s[i + t.end..];
    assert AllTokens(s[i..]) == [t] + AllTokens(s[i + t.end..]);
    assert (found + [t]) + AllTokens(s[i + t.end..]) == found + ([t] + AllTokens(s[i + t.end..]));
    EndSumSnoc(found, t);
  }

  /** No token left: the tokens found are all of them. */
  lemma AllTokensDone(s: string, i: nat, found: seq<FoundToken>)
    requires Account(s, i, found) && FirstToken(s[i..]).None?
    ensures found == AllTokens(s) && EndSum(found) <= |s|
  {
    assert AllTokens(s[i..]) == [];
    assert found + [] == found;
  }

  lemma EndSumSnoc(ts: seq<FoundToken>, t: FoundToken)
    ensures EndSum(ts + [t]) == EndSum(ts) + t.end
  {
    assert (ts + [t])[..|ts|] == ts;
  }

  lemma {:induction false} EndSumCons(t: FoundToken, ts: seq<FoundToken>)
    ensures EndSum([t] + ts) == t.end + EndSum(ts)
    decreases |ts|
  {
    if ts != [] {
      var front := ts[..|ts| - 1];
      assert ([t] + ts)[..|ts|] == [t] + front;
      EndSumCons(t, front);
    }
  }

  /**
   * `t` is the first token of the text after offset `off`, and shifted by
   * `off` it opens on `[` and closes on `]` in the whole text.
   */
  predicate LocatedIn(s: string, off: nat, t: FoundToken) {
    && off + t.end <= |s|
    && FirstToken(s[off..]) == Some(t)
    && s[off + t.start] == '['
    && s[off + t.end - 1] == ']'
  }

  /**
   * The `k`-th span of `find_all_tokens` is relative to the text after the
   * previous spans: it is the first token of that remainder, and shifted by
   * the sum of the previous `end`s it opens on `[` and closes on `]` in the
   * whole text.
   */
  lemma {:induction false} AllTokensLocated(s: string, k: nat)
    requires k < |AllTokens(s)|
    ensures LocatedIn(s, EndSum(AllTokens(s)[..k]), AllTokens(s)[k])
    decreases |s|
  {
    var t0 := FirstToken(s).value;
    var rest := s[t0.end..];
    if k == 0 {
      assert AllTokens(s)[..0] == [];
      FirstTokenLocated(s);
    } else {
      AllTokensLocated(rest, k - 1);
      var later := AllTokens(rest);
      ConsSlices(t0, later, k);
      LocatedShift(s, t0, later[..k - 1], later[k - 1]);
    }
  }

  /** Cutting a list with one more element in front. */
  lemma ConsSlices(t0: FoundToken, ts: seq<FoundToken>, k: nat)
    requires 1 <= k <= |ts|
    ensures ([t0] + ts)[..k] == [t0] + ts[..k - 1]
    ensures ([t0] + ts)[k] == ts[k - 1]
  {
  }

  /** The first token of a text is located at offset 0. */
  lemma FirstTokenLocated(s: string)
    requires FirstToken(s).Some?
    ensures LocatedIn(s, 0, FirstToken(s).value)
  {
    assert s[0..] == s;
  }

  /** A span located in the text after the first token is located in the whole text. */
  lemma LocatedShift(s: string, t0: FoundToken, before: seq<FoundToken>, t: FoundToken)
    requires t0.end <= |s|
    requires LocatedIn(s[t0.end..], EndSum(before), t)
    ensures LocatedIn(s, EndSum([t0] + before), t)
  {
    EndSumCons(t0, before);
    var off := EndSum(before);
    ShiftSlice(s, t0.end, off);
    ShiftIndex(s, t0.end, off + t.start);
    ShiftIndex(s, t0.end, off + t.end - 1);
  }

  /** A suffix of a suffix. */
  lemma ShiftSlice(s: string, a: nat, b: nat)
    requires a + b <= |s|
    ensures s[a..][b..] == s[a + b..]
  {
  }

  /** A character of a suffix. */
  lemma ShiftIndex(s: string, a: nat, b: nat)
    requires a + b < |s|
    ensures s[a..][b] == s[a + b]
  {
  }

  /** A text holding a token holds at least two `]`; so one with fewer holds none. */
  lemma TokenNeedsTwoClosingBrackets(s: string)
    ensures FirstToken(s).Some? ==> multiset(s)[']'] >= 2
    ensures multiset(s)[']'] < 2 ==> AllTokens(s) == []
  {
    if FirstToken(s).Some? {
      var t := FirstToken(s).value;
      var k :| t.start < k < t.end - 1 && s[k] == ']';
      var e := t.end - 1;
      assert s == s[..k] + [s[k]] + s[k + 1..e] + [s[e]] + s[e + 1..];
    }
  }

  /** Letters and `_` leave the state as it is once no `[` is pending. */
  lemma {:induction false} NameRun(s: string, i: nat, j: nat, st: ScanState)
    requires i <= j <= |s|
    requires !st.openSquareBracketFound
    requires forall k :: i <= k < j ==> IsAlphabetic(s[k]) || s[k] == '_'
    ensures ScanFrom(s, i, st) == ScanFrom(s, j, st)
    decreases j - i
  {
    if i < j {
      assert Step(st, s[i], i) == st;
      NameRun(s, i + 1, j, st);
    }
  }

  /** Outside any token, text without square brackets leaves the state as it is. */
  lemma {:induction false} IdleRun(s: string, i: nat, j: nat, st: ScanState)
    requires i <= j <= |s|
    requires !st.openSquareBracketFound && !st.isInToken && !st.isInParameters
    requires forall k :: i <= k < j ==> s[k] != '[' && s[k] != ']'
    ensures ScanFrom(s, i, st) == ScanFrom(s, j, st)
    decreases j - i
  {
    if i < j {
      assert Step(st, s[i], i) == st;
      IdleRun(s, i + 1, j, st);
    }
  }

  /** `t` is made of letters and `_` only, the characters a token name may hold. */
  predicate IsNameText(t: string) {
    forall k :: 0 <= k < |t| ==> IsAlphabetic(t[k]) || t[k] == '_'
  }

  /** The scanner state once `[]` and a name have been read from position 0. */
  lemma {:induction false} ReadOpeningAndName(s: string, name: string)
    requires name != [] && |name| + 2 <= |s| && s[..2] == "[]" && s[2..|name| + 2] == name && IsNameText(name)
    ensures ScanFrom(s, 0, Initial) == ScanFrom(s, |name| + 2, ScanState(false, true, false, 0, 0))
  {
    var pending := ScanState(true, false, false, 0, 0);
    var afterBracket := pending.(isInToken := true);
    var inName := ScanState(false, true, false, 0, 0);
    assert s[0] == '[' && s[1] == ']' by { assert s[..2][0] == s[0] && s[..2][1] == s[1]; }
    assert ScanFrom(s, 0, Initial) == ScanFrom(s, 1, pending);
    assert ScanFrom(s, 1, pending) == ScanFrom(s, 2, afterBracket);
    assert s[2] == name[0];
    assert ScanFrom(s, 2, afterBracket) == ScanFrom(s, 3, inName);
    forall k | 3 <= k < |name| + 2 ensures IsAlphabetic(s[k]) || s[k] == '_' {
      assert s[k] == name[k - 2];
    }
    NameRun(s, 3, |name| + 2, inName);
  }

  /**
   * `[]NAME[]` at the start of the text is the first token, whatever follows
   * (test token_with_no_parameters).
   */
  lemma {:induction false} BareToken(name: string, rest: string)
    requires name != [] && IsNameText(name)
    ensures FirstToken("[]" + name + "[]" + rest) == Some(FoundToken(0, |name| + 4))
  {
    var s := "[]" + name + "[]" + rest;
    var n := |name| + 2;
    assert s[..2] == "[]" && s[2..n] == name;
    assert s[n] == '[' && s[n + 1] == ']';
    ReadOpeningAndName(s, name);
    var inName := ScanState(false, true, false, 0, 0);
    assert ScanFrom(s, n, inName) == ScanFrom(s, n + 1, inName.(openSquareBracketFound := true));
  }

  /**
   * `[]NAME{}[]` at the start of the text is the first token: the braces
   * are entered and left again (test token_with_no_parameters_but_with_curly_brackets).
   */
  lemma {:induction false} EmptyBracesToken(name: string, rest: string)
    requires name != [] && IsNameText(name)
    ensures FirstToken("[]" + name + "{}[]" + rest) == Some(FoundToken(0, |name| + 6))
  {
    var s := "[]" + name + "{}[]" + rest;
    var n := |name| + 2;
    assert s[..2] == "[]" && s[2..n] == name;
    assert s[n] == '{' && s[n + 1] == '}' && s[n + 2] == '[' && s[n + 3] == ']';
    ReadOpeningAndName(s, name);
    var inName := ScanState(false, true, false, 0, 0);
    assert ScanFrom(s, n, inName) == ScanFrom(s, n + 1, inName.(isInParameters := true));
    assert ScanFrom(s, n + 1, inName.(isInParameters := true)) == ScanFrom(s, n + 2, inName);
    assert ScanFrom(s, n + 2, inName) == ScanFrom(s, n + 3, inName.(openSquareBracketFound := true));
  }

  /**
   * In `[]NAME{cWORD}[]` a character `c` that is not a letter, `_` or bracket
   * ends the name even inside the braces, and the final `[]` only opens a
   * new candidate: the text holds no token.
   */
  lemma {:induction false} ParameterCharacterDropsToken(name: string, c: char, word: string)
    requires name != [] && IsNameText(name) && IsNameText(word)
    requires !IsAlphabetic(c) && c !in "_[]{}"
    ensures FirstToken("[]" + name + "{" + [c] + word + "}[]") == None
  {
    var s := "[]" + name + "{" + [c] + word + "}[]";
    var n := |name| + 2;
    var m := n + 2 + |word|;
    assert |s| == m + 3;
    assert s[..2] == "[]" && s[2..n] == name;
    assert s[n] == '{' && s[n + 1] == c && s[m] == '}' && s[m + 1] == '[' && s[m + 2] == ']';
    ReadOpeningAndName(s, name);
    var inName := ScanState(false, true, false, 0, 0);
    var inParameters := inName.(isInParameters := true);
    var dropped := ScanState(false, false, true, 0, 0);
    assert ScanFrom(s, n, inName) == ScanFrom(s, n + 1, inParameters);
    assert ScanFrom(s, n + 1, inParameters) == ScanFrom(s, n + 2, dropped);
    forall k | n + 2 <= k < m ensures IsAlphabetic(s[k]) || s[k] == '_' {
      assert s[k] == word[k - n - 2];
    }
    NameRun(s, n + 2, m, dropped);
    var closed := ScanState(false, false, false, 0, 0);
    assert ScanFrom(s, m, dropped) == ScanFrom(s, m + 1, closed);
    var reopened := ScanState(true, false, false, 0, m + 1);
    assert ScanFrom(s, m + 1, closed) == ScanFrom(s, m + 2, reopened);
    assert ScanFrom(s, m + 2, reopened) == ScanFrom(s, m + 3, reopened.(isInToken := true));
  }

  /**
   * `[]NAME{a{b}c}[]` is one token: the inner `}` only lowers the brace
   * depth, and the outer one leaves the parameters.
   */
  lemma NestedBracesToken(name: string, a: string, b: string, c: string)
    requires name != [] && IsNameText(name) && IsNameText(a) && IsNameText(b) && IsNameText(c)
    ensures var s := "[]" + name + "{" + a + "{" + b + "}" + c + "}[]";
            FirstToken(s) == Some(FoundToken(0, |s|))
  {
    NestedLayout(name, a, b, c);
    NestedScan("[]" + name + "{" + a + "{" + b + "}" + c + "}[]", name, a, b, c);
  }

  /** Where the pieces of `[]NAME{a{b}c}[]` sit. */
  lemma NestedLayout(name: string, a: string, b: string, c: string)
    ensures var s := "[]" + name + "{" + a + "{" + b + "}" + c + "}[]";
            var n := |name| + 2;
            var p := n + 1 + |a|;
            var q := p + 1 + |b|;
            var r := q + 1 + |c|;
            && |s| == r + 3 && s[..2] == "[]" && s[2..n] == name
            && s[n] == '{' && s[n + 1..p] == a && s[p] == '{' && s[p + 1..q] == b
            && s[q] == '}' && s[q + 1..r] == c && s[r] == '}' && s[r + 1] == '[' && s[r + 2] == ']'
  {
    var s := "[]" + name + "{" + a + "{" + b + "}" + c + "}[]";
    var n := |name| + 2;
    var p := n + 1 + |a|;
    var q := p + 1 + |b|;
    var r := q + 1 + |c|;
    var s1 := "[]" + name + "{";
    var s2 := s1 + a + "{";
    var s3 := s2 + b + "}";
    var s4 := s3 + c;
    assert s == s4 + "}[]";
    assert s2[|s1|..p] == a;
    assert s3[|s2|..q] == b;
    assert s4[|s3|..r] == c;
  }

  /** The scan of a text laid out as `[]NAME{a{b}c}[]`. */
  lemma NestedScan(s: string, name: string, a: string, b: string, c: string)
    requires name != [] && IsNameText(name) && IsNameText(a) && IsNameText(b) && IsNameText(c)
    requires var n := |name| + 2;
             var p := n + 1 + |a|;
             var q := p + 1 + |b|;
             var r := q + 1 + |c|;
             && |s| == r + 3 && s[..2] == "[]" && s[2..n] == name
             && s[n] == '{' && s[n + 1..p] == a && s[p] == '{' && s[p + 1..q] == b
             && s[q] == '}' && s[q + 1..r] == c && s[r] == '}' && s[r + 1] == '[' && s[r + 2] == ']'
    ensures FirstToken(s) == Some(FoundToken(0, |s|))
  {
    var n := |name| + 2;
    var p := n + 1 + |a|;
    var q := p + 1 + |b|;
    var r := q + 1 + |c|;
    ReadOpeningAndName(s, name);
    var inName := ScanState(false, true, false, 0, 0);
    NestedParameters(s, n, a, b, c, inName);
    ScanChar(s, r + 1, inName);
    ScanClose(s, r + 2, inName.(openSquareBracketFound := true));
  }

  /** In a token name, the parameter section `{a{b}c}` is read and left again. */
  lemma NestedParameters(s: string, n: nat, a: string, b: string, c: string, st: ScanState)
    requires IsNameText(a) && IsNameText(b) && IsNameText(c)
    requires st.isInToken && !st.isInParameters && !st.openSquareBracketFound && st.userCurlyBracketsCount == 0
    requires var p := n + 1 + |a|;
             var q := p + 1 + |b|;
             var r := q + 1 + |c|;
             && r < |s|
             && s[n] == '{' && s[n + 1..p] == a && s[p] == '{' && s[p + 1..q] == b
             && s[q] == '}' && s[q + 1..r] == c && s[r] == '}'
    ensures ScanFrom(s, n, st) == ScanFrom(s, n + |a| + |b| + |c| + 4, st)
  {
    var p := n + 1 + |a|;
    var q := p + 1 + |b|;
    var r := q + 1 + |c|;
    var depth0 := st.(isInParameters := true);
    ScanChar(s, n, st);
    NameRunAt(s, n + 1, a, depth0);
    InnerBraceGroup(s, p, b, depth0);
    NameRunAt(s, q + 1, c, depth0);
    ScanChar(s, r, depth0);
  }

  /** A character that ends the token: the scan reports the span up to it. */
  lemma ScanClose(s: string, i: nat, st: ScanState)
    requires i < |s| && ClosesToken(st, s[i])
    ensures ScanFrom(s, i, st) == Some(FoundToken(st.startIndex, i + 1))
  {
  }

  /** Inside the parameters, `{x}` with a name-like `x` leaves the state as it was. */
  lemma InnerBraceGroup(s: string, i: nat, x: string, st: ScanState)
    requires i + |x| + 2 <= |s| && s[i] == '{' && s[i + 1..i + 1 + |x|] == x && s[i + 1 + |x|] == '}'
    requires IsNameText(x) && st.isInParameters && !st.openSquareBracketFound
    ensures ScanFrom(s, i, st) == ScanFrom(s, i + |x| + 2, st)
  {
    var deeper := st.(userCurlyBracketsCount := st.userCurlyBracketsCount + 1);
    ScanChar(s, i, st);
    NameRunAt(s, i + 1, x, deeper);
    ScanChar(s, i + 1 + |x|, deeper);
  }

  /** One character that does not end the token: the scan goes on in the stepped state. */
  lemma ScanChar(s: string, i: nat, st: ScanState)
    requires i < |s| && !ClosesToken(st, s[i])
    ensures ScanFrom(s, i, st) == ScanFrom(s, i + 1, Step(st, s[i], i))
  {
  }

  /** A name-like piece `x` at position `i` leaves a state without a pending `[` unchanged. */
  lemma NameRunAt(s: string, i: nat, x: string, st: ScanState)
    requires i + |x| <= |s| && s[i..i + |x|] == x && IsNameText(x)
    requires !st.openSquareBracketFound
    ensures ScanFrom(s, i, st) == ScanFrom(s, i + |x|, st)
  {
    forall k | i <= k < i + |x| ensures IsAlphabetic(s[k]) || s[k] == '_' {
      assert s[k] == x[k - i];
    }
    NameRun(s, i, i + |x|, st);
  }

  lemma FileNameAsTypeIsName()
    ensures IsNameText("FILE_NAME_AS_TYPE") && IsNameText("Accessor")
  {
  }

  /** `[]FILE_NAME_AS_TYPE[]` is one token spanning the whole text. */
  lemma TokenWithNoParameters()
    ensures AllTokens("[]" + "FILE_NAME_AS_TYPE" + "[]") == [FoundToken(0, 21)]
  {
    FileNameAsTypeIsName();
    BareToken("FILE_NAME_AS_TYPE", "");
    var s := "[]" + "FILE_NAME_AS_TYPE" + "[]";
    assert s + "" == s;
    OnlyToken(s, FoundToken(0, 21));
  }

  /** `[]FILE_NAME_AS_TYPE{}[]` is one token spanning the whole text. */
  lemma TokenWithEmptyBraces()
    ensures AllTokens("[]" + "FILE_NAME_AS_TYPE" + "{}[]") == [FoundToken(0, 23)]
  {
    FileNameAsTypeIsName();
    EmptyBracesToken("FILE_NAME_AS_TYPE", "");
    var s := "[]" + "FILE_NAME_AS_TYPE" + "{}[]";
    assert s + "" == s;
    OnlyToken(s, FoundToken(0, 23));
  }

  /** A first token that reaches the end of the text is the only one. */
  lemma OnlyToken(s: string, t: FoundToken)
    requires FirstToken(s) == Some(t) && t.end == |s|
    ensures AllTokens(s) == [t]
  {
    assert s[t.end..] == [];
  }

  /**
   * `[]FILE_NAME_AS_TYPE{-Accessor}[]` holds no token, although the test
   * big_test_multiple_tokens counts it as one.
   */
  lemma DashInParametersDropsToken()
    ensures AllTokens("[]" + "FILE_NAME_AS_TYPE" + "{" + "-" + "Accessor" + "}[]") == []
  {
    FileNameAsTypeIsName();
    ParameterCharacterDropsToken("FILE_NAME_AS_TYPE", '-', "Accessor");
    assert "-" == ['-'];
  }

  /** A text without `]` holds no token. */
  lemma NoClosingBracketNoToken(a: string)
    requires ']' !in a
    ensures AllTokens(a) == []
  {
    assert ']' !in multiset(a);
    TokenNeedsTwoClosingBrackets(a);
  }

  /** A text with a single `]` holds no token. */
  lemma OneClosingBracketNoToken(a: string, b: string)
    requires ']' !in a && ']' !in b
    ensures AllTokens(a + "]" + b) == []
  {
    assert ']' !in multiset(a) && ']' !in multiset(b);
    assert multiset(a + "]" + b) == multiset(a) + multiset{']'} + multiset(b);
    TokenNeedsTwoClosingBrackets(a + "]" + b);
  }

  /** Plain text with a stray `[]` and braces holds no token (test no_token_exists_but_brackets_do). */
  lemma BracketsWithoutToken()
    ensures AllTokens("some_array[" + "]" + " { // With a function }") == []
  {
    OneClosingBracketNoToken("some_array[", " { // With a function }");
  }

  /** Prose without brackets holds no token (test no_token_exists_returns_none). */
  lemma ProseWithoutToken()
    ensures AllTokens("Some text but no token is present. ") == []
  {
    NoClosingBracketNoToken("Some text but no token is present. ");
  }
}

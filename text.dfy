/**
 * String helpers shared by the core: searching, splitting (Rust's
 * `str::split` with a non-empty pattern), joining (`[String]::join`),
 * the `[A-Z_]+` identifier regex and ASCII case mapping.
 * Strings are sequences of characters; the core expects ASCII text.
 */
module Text {
  import opened Wrappers

  /** The character class `[A-Z_]` used by every identifier regex of the core. */
  predicate IsIdentChar(c: char) {
    ('A' <= c <= 'Z') || c == '_'
  }

  /** ASCII upper-casing (`char::to_ascii_uppercase`). */
  function ToUpper(c: char): (u: char)
    ensures 'a' <= c <= 'z' ==> 'A' <= u <= 'Z' && u as int == c as int - 32
    ensures !('a' <= c <= 'z') ==> u == c
  {
    if 'a' <= c <= 'z' then (c as int - 32) as char else c
  }

  /** `pat` occurs in `s` at position `i`. */
  predicate OccursAt(s: string, pat: string, i: nat) {
    i + |pat| <= |s| && s[i..i + |pat|] == pat
  }

  /** `pat` occurs anywhere in `s`. */
  predicate Contains(s: string, pat: string) {
    exists i: nat | i <= |s| :: OccursAt(s, pat, i)
  }

  /** Leftmost occurrence of `pat` in `s` at or after `from`. */
  function IndexOf(s: string, pat: string, from: nat): (r: Option<nat>)
    requires from <= |s|
    ensures r.Some? ==> from <= r.value && OccursAt(s, pat, r.value)
    ensures r.Some? ==> forall j: nat :: from <= j < r.value ==> !OccursAt(s, pat, j)
    ensures r.None? ==> forall j: nat :: from <= j ==> !OccursAt(s, pat, j)
    decreases |s| - from
  {
    if OccursAt(s, pat, from) then Some(from)
    else if from == |s| then None
    else IndexOf(s, pat, from + 1)
  }

  /** Leftmost position of the character `c` in `s` at or after `from`. */
  function IndexOfChar(s: string, c: char, from: nat): (r: Option<nat>)
    requires from <= |s|
    ensures r.Some? ==> from <= r.value < |s| && s[r.value] == c
    ensures r.Some? ==> forall j :: from <= j < r.value ==> s[j] != c
    ensures r.None? ==> forall j :: from <= j < |s| ==> s[j] != c
    decreases |s| - from
  {
    if from == |s| then None
    else if s[from] == c then Some(from)
    else IndexOfChar(s, c, from + 1)
  }

  /** Rightmost position of the character `c` in `s`. */
  function LastIndexOfChar(s: string, c: char): (r: Option<nat>)
    ensures r.Some? ==> r.value < |s| && s[r.value] == c
    ensures r.Some? ==> forall j :: r.value < j < |s| ==> s[j] != c
    ensures r.None? ==> c !in s
  {
    if s == [] then None
    else if s[|s| - 1] == c then Some(|s| - 1)
    else LastIndexOfChar(s[..|s| - 1], c)
  }

  /** End of the maximal run of `[A-Z_]` characters that starts at `i`. */
  function IdentRunEnd(s: string, i: nat): (j: nat)
    requires i <= |s|
    ensures i <= j <= |s|
    ensures forall k :: i <= k < j ==> IsIdentChar(s[k])
    ensures j == |s| || !IsIdentChar(s[j])
    decreases |s| - i
  {
    if i < |s| && IsIdentChar(s[i]) then IdentRunEnd(s, i + 1) else i
  }

  /** First position at or after `i` holding a `[A-Z_]` character, or `|s|`. */
  function IdentStart(s: string, i: nat): (k: nat)
    requires i <= |s|
    ensures i <= k <= |s|
    ensures forall j :: i <= j < k ==> !IsIdentChar(s[j])
    ensures k < |s| ==> IsIdentChar(s[k])
    decreases |s| - i
  {
    if i == |s| || IsIdentChar(s[i]) then i else IdentStart(s, i + 1)
  }

  /**
   * `id` is the leftmost maximal run of `[A-Z_]` characters of `s`, and it
   * starts at `i`.
   */
  predicate IsFirstIdentifierAt(s: string, i: nat, id: string) {
    && id != []
    && i + |id| <= |s|
    && s[i..i + |id|] == id
    && (forall k :: 0 <= k < |id| ==> IsIdentChar(id[k]))
    && (forall k :: 0 <= k < i ==> !IsIdentChar(s[k]))
    && (i + |id| == |s| || !IsIdentChar(s[i + |id|]))
  }

  /**
   * The first match of the regex `[A-Z_]+`: the leftmost run of `[A-Z_]`
   * characters, taken as long as it goes (greedy).
   */
  function FirstIdentifier(s: string): (r: Option<string>)
    ensures r.None? <==> forall k :: 0 <= k < |s| ==> !IsIdentChar(s[k])
    ensures r.Some? ==> exists i: nat :: IsFirstIdentifierAt(s, i, r.value)
  {
    var i := IdentStart(s, 0);
    if i == |s| then None
    else
      var j := IdentRunEnd(s, i);
      assert IsFirstIdentifierAt(s, i, s[i..j]);
      Some(s[i..j])
  }

  /**
   * `s.split(sep)` for a non-empty pattern: cut at every occurrence of `sep`,
   * found left to right without overlap. Never returns an empty list.
   */
  function Split(s: string, sep: string): (parts: seq<string>)
    requires |sep| > 0
    ensures |parts| >= 1
    decreases |s|
  {
    match IndexOf(s, sep, 0)
    case None => [s]
    case Some(i) => [s[..i]] + Split(s[i + |sep|..], sep)
  }

  /** `parts.join(sep)`: the parts with `sep` between neighbours. */
  function Join(parts: seq<string>, sep: string): string
  {
    if |parts| == 0 then ""
    else if |parts| == 1 then parts[0]
    else parts[0] + sep + Join(parts[1..], sep)
  }

  /** Joining the pieces of a split gives back the original text. */
  lemma {:induction false} JoinSplit(s: string, sep: string)
    requires |sep| > 0
    ensures Join(Split(s, sep), sep) == s
    decreases |s|
  {
    var found := IndexOf(s, sep, 0);
    if found.None? {
      assert Split(s, sep) == [s];
    } else {
      var i := found.value;
      assert OccursAt(s, sep, i);
      var head, rest := s[..i], s[i + |sep|..];
      var tail := Split(rest, sep);
      assert Split(s, sep) == [head] + tail;
      JoinSplit(rest, sep);
      JoinCons(head, tail, sep);
      assert s == head + sep + rest by {
        assert s[i..i + |sep|] == sep;
        assert s == s[..i] + s[i..i + |sep|] + s[i + |sep|..];
      }
    }
  }

  lemma JoinCons(head: string, tail: seq<string>, sep: string)
    requires |tail| >= 1
    ensures Join([head] + tail, sep) == head + sep + Join(tail, sep)
  {
    assert ([head] + tail)[1..] == tail;
  }

  /** No piece of a split contains the separator. */
  lemma {:induction false} SplitPiecesAvoidSeparator(s: string, sep: string)
    requires |sep| > 0
    ensures forall k :: 0 <= k < |Split(s, sep)| ==> !Contains(Split(s, sep)[k], sep)
    decreases |s|
  {
    match IndexOf(s, sep, 0)
    case None =>
      assert Split(s, sep) == [s];
    case Some(i) =>
      var rest := s[i + |sep|..];
      SplitPiecesAvoidSeparator(rest, sep);
      FirstPieceAvoidsSeparator(s, sep, i);
      assert Split(s, sep) == [s[..i]] + Split(rest, sep);
  }

  /** The text before the leftmost occurrence of `sep` does not hold `sep`. */
  lemma FirstPieceAvoidsSeparator(s: string, sep: string, i: nat)
    requires |sep| > 0 && IndexOf(s, sep, 0) == Some(i)
    ensures !Contains(s[..i], sep)
  {
    var head := s[..i];
    forall j: nat | OccursAt(head, sep, j)
      ensures false
    {
      assert s[j..j + |sep|] == head[j..j + |sep|];
      assert OccursAt(s, sep, j);
    }
  }

  /** A one-character pattern occurs at `j` exactly when that character is there. */
  lemma OccursAtChar(s: string, c: char, j: nat)
    ensures OccursAt(s, [c], j) <==> j < |s| && s[j] == c
  {
    if j < |s| {
      assert s[j..j + 1][0] == s[j];
      if s[j] == c { assert s[j..j + 1] == [c]; }
    }
  }

  /** Searching for a one-character pattern is searching for that character. */
  lemma {:induction false} IndexOfSingle(s: string, c: char, from: nat)
    requires from <= |s|
    ensures IndexOf(s, [c], from) == IndexOfChar(s, c, from)
    decreases |s| - from
  {
    OccursAtChar(s, c, from);
    if from < |s| && s[from] != c {
      IndexOfSingle(s, c, from + 1);
    }
  }

  /** Splitting on one character gives one more piece than there are occurrences of it. */
  lemma {:induction false} SplitCharCount(s: string, c: char)
    ensures |Split(s, [c])| == multiset(s)[c] + 1
    decreases |s|
  {
    var found := IndexOfChar(s, c, 0);
    IndexOfSingle(s, c, 0);
    if found.None? {
      assert c !in s;
      assert multiset(s)[c] == 0;
    } else {
      var i := found.value;
      SplitAtChar(s, c, i);
      SplitCharCount(s[i + 1..], c);
      CountAt(s, c, i);
    }
  }

  /** The first `c` of `s` cuts off the first piece, which holds no `c`. */
  lemma SplitAtChar(s: string, c: char, i: nat)
    requires IndexOfChar(s, c, 0) == Some(i)
    ensures i < |s| && s[i] == c
    ensures Split(s, [c]) == [s[..i]] + Split(s[i + 1..], [c])
    ensures c !in s[..i]
  {
    IndexOfSingle(s, c, 0);
    forall k | 0 <= k < i ensures s[..i][k] != c { assert s[..i][k] == s[k]; }
  }

  /** A first `c` at `i`: the `c`s of `s` are that one and those after it. */
  lemma CountAt(s: string, c: char, i: nat)
    requires i < |s| && s[i] == c && c !in s[..i]
    ensures multiset(s)[c] == multiset(s[i + 1..])[c] + 1
  {
    assert s == s[..i] + [c] + s[i + 1..];
    CountAround(s[..i], c, s[i + 1..]);
  }

  /** One more `c` after a text without `c`. */
  lemma CountAround(head: string, c: char, rest: string)
    requires c !in head
    ensures multiset(head + [c] + rest)[c] == multiset(rest)[c] + 1
  {
    assert multiset(head + [c] + rest) == multiset(head) + multiset{c} + multiset(rest);
    assert multiset(head)[c] == 0;
  }

  /** The pieces of `pieces` that are not the empty string, in order. */
  function DropEmpty(pieces: seq<string>): (kept: seq<string>)
    ensures |kept| <= |pieces|
    ensures forall k :: 0 <= k < |kept| ==> kept[k] != "" && kept[k] in pieces
    ensures (forall k :: 0 <= k < |pieces| ==> pieces[k] != "") ==> kept == pieces
  {
    if pieces == [] then []
    else
      var last := pieces[|pieces| - 1];
      DropEmpty(pieces[..|pieces| - 1]) + (if last == "" then [] else [last])
  }

  /** A text without the separator's first character is a single piece. */
  lemma SplitWithoutSeparator(s: string, sep: string)
    requires |sep| > 0 && sep[0] !in s
    ensures Split(s, sep) == [s]
  {
    forall j: nat | j + |sep| <= |s| ensures !OccursAt(s, sep, j) {
      assert s[j..j + |sep|][0] == s[j];
    }
    assert IndexOf(s, sep, 0) == None;
  }

  /** Splitting `a + sep + b`, where `a` cannot hold `sep`, cuts right after `a`. */
  lemma SplitAfterFirst(a: string, sep: string, b: string)
    requires |sep| > 0 && sep[0] !in a
    ensures Split(a + sep + b, sep) == [a] + Split(b, sep)
  {
    var s := a + sep + b;
    assert OccursAt(s, sep, |a|) by { assert s[|a|..|a| + |sep|] == sep; }
    forall j: nat | j < |a| ensures !OccursAt(s, sep, j) {
      if j + |sep| <= |s| { assert s[j..j + |sep|][0] == a[j]; }
    }
    assert IndexOf(s, sep, 0) == Some(|a|);
    assert s[..|a|] == a && s[|a| + |sep|..] == b;
  }

  /** The identifier regex on a text that starts with a whole identifier. */
  lemma FirstIdentifierOfPrefix(id: string, rest: string)
    requires id != [] && forall k :: 0 <= k < |id| ==> IsIdentChar(id[k])
    requires rest == [] || !IsIdentChar(rest[0])
    ensures FirstIdentifier(id + rest) == Some(id)
  {
    var s := id + rest;
    assert IsIdentChar(s[0]);
    assert IdentStart(s, 0) == 0;
    forall k | 0 <= k < |id| ensures IsIdentChar(s[k]) {
      assert s[k] == id[k];
    }
    assert |id| < |s| ==> s[|id|] == rest[0];
    assert IdentRunEnd(s, 0) == |id|;
    assert s[0..|id|] == id;
  }

  /** Splitting joined parts on a character none of them holds gives the parts back. */
  lemma {:induction false} SplitJoinChar(parts: seq<string>, c: char)
    requires parts != []
    requires forall k :: 0 <= k < |parts| ==> c !in parts[k]
    ensures Split(Join(parts, [c]), [c]) == parts
    decreases |parts|
  {
    if |parts| == 1 {
      SplitWithoutSeparator(parts[0], [c]);
    } else {
      var rest := parts[1..];
      assert forall k :: 0 <= k < |rest| ==> rest[k] == parts[k + 1];
      SplitJoinChar(rest, c);
      var joined := Join(rest, [c]);
      assert Join(parts, [c]) == parts[0] + [c] + joined;
      assert [c][0] !in parts[0];
      SplitAfterFirst(parts[0], [c], joined);
      assert [parts[0]] + rest == parts;
    }
  }

  /** A one-character pattern occurs exactly when the character does. */
  lemma ContainsChar(s: string, c: char)
    ensures Contains(s, [c]) <==> c in s
  {
    if c in s {
      var i :| 0 <= i < |s| && s[i] == c;
      assert s[i..i + 1] == [c];
      assert OccursAt(s, [c], i);
    }
    forall i: nat | OccursAt(s, [c], i) ensures c in s {
      assert s[i] == s[i..i + 1][0];
    }
  }

  /** A leading character other than the separator joins the first piece. */
  lemma SplitCharCons(c: char, t: string, d: char)
    requires c != d
    ensures Split([c] + t, [d]) == [[c] + Split(t, [d])[0]] + Split(t, [d])[1..]
  {
    var s := [c] + t;
    IndexOfSingle(s, d, 0);
    IndexOfSingle(t, d, 0);
    IndexOfCharCons(c, t, d);
    match IndexOfChar(t, d, 0)
    case None =>
    case Some(r) =>
      CharConsSlices(c, t, r);
  }

  /** A leading character other than `d` moves the first `d` one place on. */
  lemma IndexOfCharCons(c: char, t: string, d: char)
    requires c != d
    ensures IndexOfChar([c] + t, d, 0) == if IndexOfChar(t, d, 0).None? then None else Some(IndexOfChar(t, d, 0).value + 1)
  {
    var s := [c] + t;
    assert forall k :: 0 < k < |s| ==> s[k] == t[k - 1];
    if IndexOfChar(t, d, 0).Some? {
      var r := IndexOfChar(t, d, 0).value;
      assert s[r + 1] == d;
    }
  }

  /** The slices of `[c] + t` around position `r + 1`. */
  lemma CharConsSlices(c: char, t: string, r: nat)
    requires r < |t|
    ensures ([c] + t)[..r + 1] == [c] + t[..r] && ([c] + t)[r + 2..] == t[r + 1..]
  {
  }

  /** The last part, after the others joined. */
  lemma {:induction false} JoinSnoc(parts: seq<string>, sep: string)
    requires |parts| >= 2
    ensures Join(parts, sep) == Join(parts[..|parts| - 1], sep) + sep + parts[|parts| - 1]
    decreases |parts|
  {
    if |parts| > 2 {
      JoinSnoc(parts[1..], sep);
      assert parts[1..][..|parts| - 2] == parts[1..|parts| - 1];
      assert parts[..|parts| - 1][1..] == parts[1..|parts| - 1];
      assert parts[1..][|parts| - 2] == parts[|parts| - 1];
    }
  }
}

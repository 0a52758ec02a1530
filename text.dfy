/** The few Python `str` operations the portal code relies on, with their meaning. */
module Text {
  import opened Wrappers

  /** `sub` occurs in `s` starting at index `i`. */
  predicate OccursAt(s: string, sub: string, i: int)
  {
    0 <= i <= |s| - |sub| && s[i..i + |sub|] == sub
  }

  /** Python `sub in s`: `sub` occurs in `s` at some offset. */
  predicate Contains(s: string, sub: string)
  {
    exists i :: 0 <= i <= |s| - |sub| && OccursAt(s, sub, i)
  }

  /** `piece` occurs in any string that is built around it. */
  lemma ContainsPiece(before: string, piece: string, after: string)
    ensures Contains(before + piece + after, piece)
  {
    var s := before + piece + after;
    assert s[|before|..|before| + |piece|] == piece;
    assert OccursAt(s, piece, |before|);
  }

  /** Appending to a concatenation. */
  lemma AppendAssociates(a: string, b: string, c: string)
    ensures a + b + c == a + (b + c)
  {
  }

  /** `ConcatAt` with the three parts already known. */
  lemma ConcatSplit(parts: seq<string>, i: nat, before: string, piece: string, after: string)
    requires i < |parts| && Concat(parts[..i]) == before && parts[i] == piece && Concat(parts[i + 1..]) == after
    ensures Concat(parts) == before + piece + after
  {
    ConcatAt(parts, i);
  }

  /** Concatenating one more piece appends it. */
  lemma ConcatSnoc(parts: seq<string>, i: nat)
    requires i < |parts|
    ensures Concat(parts[..i + 1]) == Concat(parts[..i]) + parts[i]
  {
    assert parts[..i + 1][..i] == parts[..i];
  }

  /** Every piece of a list occurs in the concatenation of the list. */
  lemma ContainsEachPiece(parts: seq<string>, i: nat)
    requires i < |parts|
    ensures Contains(Concat(parts), parts[i])
  {
    ConcatAt(parts, i);
    ContainsPiece(Concat(parts[..i]), parts[i], Concat(parts[i + 1..]));
  }

  /** The characters Python's `str.strip()` removes (`str.isspace`). */
  predicate IsWhitespace(c: char)
  {
    c == ' ' || ('\U{9}' <= c <= '\U{D}') || ('\U{1C}' <= c <= '\U{1F}') || c == '\U{85}' || c == '\U{A0}'
    || c == '\U{1680}' || ('\U{2000}' <= c <= '\U{200A}') || c == '\U{2028}' || c == '\U{2029}'
    || c == '\U{202F}' || c == '\U{205F}' || c == '\U{3000}'
  }

  /** Index of the first character of `s` that is not whitespace (|s| when there is none). */
  function TextStart(s: string): (i: nat)
    ensures i <= |s|
    ensures forall k :: 0 <= k < i ==> IsWhitespace(s[k])
    ensures i < |s| ==> !IsWhitespace(s[i])
  {
    if s == [] || !IsWhitespace(s[0]) then 0 else 1 + TextStart(s[1..])
  }

  /** One past the index of the last character of `s` that is not whitespace (0 when there is none). */
  function TextEnd(s: string): (j: nat)
    ensures j <= |s|
    ensures forall k :: j <= k < |s| ==> IsWhitespace(s[k])
    ensures j > 0 ==> !IsWhitespace(s[j - 1])
  {
    if s == [] || !IsWhitespace(s[|s| - 1]) then |s| else TextEnd(s[..|s| - 1])
  }

  /** `r` is the slice of `s` at `i`, with only whitespace before it and after it. */
  predicate TrimmedAt(s: string, r: string, i: int)
  {
    && 0 <= i <= |s| - |r| && r == s[i..i + |r|]
    && (forall k :: 0 <= k < i ==> IsWhitespace(s[k]))
    && (forall k :: i + |r| <= k < |s| ==> IsWhitespace(s[k]))
  }

  /** Every character of `s` is whitespace. */
  predicate AllWhitespace(s: string)
  {
    forall k :: 0 <= k < |s| ==> IsWhitespace(s[k])
  }

  /** Every non-whitespace character of `s` occurs in `r`. */
  predicate KeepsText(s: string, r: string)
  {
    forall k :: 0 <= k < |s| && !IsWhitespace(s[k]) ==> s[k] in r
  }

  /** `r` neither starts nor ends with whitespace. */
  predicate NoOuterWhitespace(r: string)
  {
    r != "" ==> !IsWhitespace(r[0]) && !IsWhitespace(r[|r| - 1])
  }

  /** Python `s.strip()`: drop the leading and trailing whitespace. */
  function Strip(s: string): (r: string)
    ensures r == "" <==> AllWhitespace(s)
    ensures NoOuterWhitespace(r)
    ensures exists i :: TrimmedAt(s, r, i)
    ensures KeepsText(s, r)
  {
    var i, j := TextStart(s), TextEnd(s);
    var r := if i >= j then "" else s[i..j];
    StripBetween(s, i, j, r);
    r
  }

  /**
   * Given the index `i` of the first non-whitespace character and one past the
   * last one `j`, the text between them is trimmed and keeps every
   * non-whitespace character; there is none between them only when all is whitespace.
   */
  lemma StripBetween(s: string, i: nat, j: nat, r: string)
    requires i <= |s| && j <= |s|
    requires forall k :: 0 <= k < i ==> IsWhitespace(s[k])
    requires i < |s| ==> !IsWhitespace(s[i])
    requires forall k :: j <= k < |s| ==> IsWhitespace(s[k])
    requires j > 0 ==> !IsWhitespace(s[j - 1])
    requires r == if i >= j then "" else s[i..j]
    ensures r == "" <==> AllWhitespace(s)
    ensures NoOuterWhitespace(r)
    ensures exists i :: TrimmedAt(s, r, i)
    ensures KeepsText(s, r)
  {
    if i >= j {
      assert forall k :: 0 <= k < |s| ==> (k < i || j <= k) && IsWhitespace(s[k]);
      assert TrimmedAt(s, "", 0);
    } else {
      assert r[0] == s[i] && r[|r| - 1] == s[j - 1];
      assert TrimmedAt(s, r, i);
      forall k | 0 <= k < |s| && !IsWhitespace(s[k])
        ensures s[k] in r
      {
        assert r[k - i] == s[k];
      }
    }
  }

  /** Python `s.find(c)` for one character, as an option. */
  function IndexOf(s: string, c: char): (r: Option<nat>)
    ensures r.None? <==> c !in s
    ensures r.Some? ==> r.value < |s| && s[r.value] == c && c !in s[..r.value]
  {
    if s == [] then None
    else if s[0] == c then Some(0)
    else
      assert s == [s[0]] + s[1..];
      match IndexOf(s[1..], c)
      case None => None
      case Some(i) =>
        assert s[..i + 1] == [s[0]] + s[1..][..i];
        Some(i + 1)
  }

  /** A `c` at index `j` with none before it is the first `c`. */
  lemma IndexOfFirst(s: string, c: char, j: nat)
    requires j < |s| && s[j] == c && c !in s[..j]
    ensures IndexOf(s, c) == Some(j)
  {
  }

  /** The part of `s` before its first `c`, or all of `s` when it has none. */
  function BeforeFirst(s: string, c: char): (r: string)
    ensures c !in r
    ensures r <= s
    ensures |r| < |s| <==> c in s
  {
    match IndexOf(s, c)
    case None => s
    case Some(i) => s[..i]
  }

  /** Python `s.split(c)` for a one-character separator. */
  function Split(s: string, c: char): (parts: seq<string>)
    ensures |parts| >= 1 && parts[0] == BeforeFirst(s, c)
    ensures |parts| >= 2 <==> c in s
    ensures forall k :: 0 <= k < |parts| ==> c !in parts[k]
    decreases |s|
  {
    match IndexOf(s, c)
    case None => [s]
    case Some(i) => [s[..i]] + Split(s[i + 1..], c)
  }

  /** The second piece of a split is the text between the first separator and the next one. */
  lemma SplitSecond(s: string, c: char, i: nat)
    requires IndexOf(s, c) == Some(i)
    ensures |Split(s, c)| >= 2 && Split(s, c)[1] == BeforeFirst(s[i + 1..], c)
  {
    var rest := Split(s[i + 1..], c);
    assert rest[0] == BeforeFirst(s[i + 1..], c);
    SplitAt(s, c, i);
    assert ([s[..i]] + rest)[1] == rest[0];
  }

  /** Python `sep.join(parts)`. */
  function Join(parts: seq<string>, sep: string): string
  {
    if |parts| == 0 then ""
    else if |parts| == 1 then parts[0]
    else parts[0] + sep + Join(parts[1..], sep)
  }

  /** Splitting on `c` and joining the pieces with `c` gives back the string. */
  lemma {:induction false} JoinSplit(s: string, c: char)
    ensures Join(Split(s, c), [c]) == s
    decreases |s|
  {
    match IndexOf(s, c)
    case None =>
    case Some(i) =>
      var rest := s[i + 1..];
      JoinSplit(rest, c);
      assert Split(s, c) == [s[..i]] + Split(rest, c);
      assert s == s[..i] + [c] + rest;
  }

  /** Joining pieces free of `c` with `c` and splitting on `c` gives back the pieces. */
  lemma {:induction false} SplitJoin(parts: seq<string>, c: char)
    requires |parts| >= 1
    requires forall k :: 0 <= k < |parts| ==> c !in parts[k]
    ensures Split(Join(parts, [c]), c) == parts
  {
    if |parts| > 1 {
      var p0, rest := parts[0], Join(parts[1..], [c]);
      var s := p0 + [c] + rest;
      assert Join(parts, [c]) == s;
      assert s[..|p0|] == p0;
      assert s[|p0|] == c;
      IndexOfFirst(s, c, |p0|);
      assert s[|p0| + 1..] == rest;
      SplitAt(s, c, |p0|);
      SplitJoin(parts[1..], c);
      assert parts == [p0] + parts[1..];
    } else {
      assert IndexOf(parts[0], c) == None;
    }
  }

  /** Splitting at the first separator: the text before it, then the split of the text after it. */
  lemma SplitAt(s: string, c: char, i: nat)
    requires IndexOf(s, c) == Some(i)
    ensures Split(s, c) == [s[..i]] + Split(s[i + 1..], c)
  {
  }

  /** The pieces of `parts` one after the other (Python `''.join(parts)`). */
  function Concat(parts: seq<string>): string
  {
    if parts == [] then "" else Concat(parts[..|parts| - 1]) + parts[|parts| - 1]
  }

  /** The `i`-th piece sits between the pieces before it and the pieces after it. */
  lemma {:induction false} ConcatAt(parts: seq<string>, i: nat)
    requires i < |parts|
    ensures Concat(parts) == Concat(parts[..i]) + parts[i] + Concat(parts[i + 1..])
    decreases |parts|
  {
    var n := |parts| - 1;
    if i == n {
      assert parts[..i] == parts[..n];
      assert parts[i + 1..] == [];
    } else {
      ConcatAt(parts[..n], i);
      assert parts[..n][..i] == parts[..i];
      assert parts[..n][i + 1..] == parts[i + 1..n];
      assert parts[i + 1..][..|parts[i + 1..]| - 1] == parts[i + 1..n];
    }
  }

  /** Python `s.replace(a, b)` for one character `a` by one character `b`. */
  function ReplaceChar(s: string, a: char, b: char): (r: string)
    ensures |r| == |s|
    ensures forall k :: 0 <= k < |s| ==> r[k] == (if s[k] == a then b else s[k])
    ensures a != b ==> a !in r
  {
    if s == [] then "" else [if s[0] == a then b else s[0]] + ReplaceChar(s[1..], a, b)
  }
}

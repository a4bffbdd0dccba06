/** The JavaScript string operations the repository's parsers are built from
    (`includes`, `split`, `join`, `trim`, `startsWith`, `toLowerCase`), written
    over `seq<char>`, with the round-trip facts the parsers rely on. */
module Strings {
  import opened Wrappers

  /** `sep` occurs in `s` starting at index `k`. */
  predicate OccursAt(s: string, sep: string, k: nat) {
    k + |sep| <= |s| && s[k..k + |sep|] == sep
  }

  /** `sub` occurs somewhere in `s`. */
  ghost predicate Occurs(s: string, sub: string) {
    exists k: nat :: OccursAt(s, sub, k)
  }

  lemma OccursAtTail(s: string, sep: string, k: nat)
    requires |s| > 0
    ensures OccursAt(s, sep, k + 1) <==> OccursAt(s[1..], sep, k)
  {
    if k + 1 + |sep| <= |s| {
      assert s[1..][k..k + |sep|] == s[k + 1..k + 1 + |sep|];
    }
  }

  /** The index of the first occurrence of `sep` in `s` (`s.indexOf(sep)`, with
      `None` for -1). */
  function IndexOf(s: string, sep: string): (r: Option<nat>)
    ensures r.Some? ==> OccursAt(s, sep, r.value)
    ensures r.Some? ==> forall k: nat :: k < r.value ==> !OccursAt(s, sep, k)
    ensures r.None? ==> forall k: nat :: !OccursAt(s, sep, k)
    decreases |s|
  {
    if |s| < |sep| then None
    else if s[..|sep|] == sep then Some(0)
    else
      match IndexOf(s[1..], sep)
      case None =>
        assert forall k: nat :: !OccursAt(s, sep, k) by {
          forall k: nat ensures !OccursAt(s, sep, k) {
            if k > 0 { OccursAtTail(s, sep, k - 1); }
          }
        }
        None
      case Some(i) =>
        assert OccursAt(s, sep, i + 1) by { OccursAtTail(s, sep, i); }
        assert forall k: nat :: k < i + 1 ==> !OccursAt(s, sep, k) by {
          forall k: nat | k < i + 1 ensures !OccursAt(s, sep, k) {
            if k > 0 { OccursAtTail(s, sep, k - 1); }
          }
        }
        Some(i + 1)
  }

  /** `s.includes(sub)`. */
  predicate Contains(s: string, sub: string) {
    IndexOf(s, sub).Some?
  }

  lemma ContainsIffOccurs(s: string, sub: string)
    ensures Contains(s, sub) <==> Occurs(s, sub)
  {
    if Contains(s, sub) {
      assert OccursAt(s, sub, IndexOf(s, sub).value);
    }
  }

  /** A separator whose first character is absent from `s` does not occur in it. */
  lemma {:induction false} IndexOfFree(s: string, sep: string)
    requires |sep| > 0 && sep[0] !in s
    ensures IndexOf(s, sep).None?
  {
    forall k: nat ensures !OccursAt(s, sep, k) {
      if k + |sep| <= |s| {
        assert s[k..k + |sep|][0] == s[k];
      }
    }
  }

  /** A separator whose first character does not occur in `p` is first found right after `p`. */
  lemma {:induction false} IndexOfAfterFree(p: string, sep: string, q: string)
    requires |sep| > 0 && sep[0] !in p
    ensures IndexOf(p + sep + q, sep) == Some(|p|)
  {
    var s := p + sep + q;
    if p == [] {
      assert s[..|sep|] == sep;
    } else {
      assert s[0] == p[0];
      assert s[..|sep|] != sep by { assert s[..|sep|][0] == p[0]; }
      assert s[1..] == p[1..] + sep + q;
      IndexOfAfterFree(p[1..], sep, q);
    }
  }

  /** Appending text does not move a first occurrence that already exists. */
  lemma IndexOfExtend(p: string, sep: string, x: string)
    requires IndexOf(p, sep).Some?
    ensures IndexOf(p + x, sep) == IndexOf(p, sep)
  {
    var j := IndexOf(p, sep).value;
    assert (p + x)[j..j + |sep|] == p[j..j + |sep|];
    assert OccursAt(p + x, sep, j);
    var r := IndexOf(p + x, sep);
    assert r.Some?;
    if r.value < j {
      var k := r.value;
      assert (p + x)[k..k + |sep|] == p[k..k + |sep|];
      assert OccursAt(p, sep, k);
      assert false;
    }
  }

  /** `parts.join(sep)`. */
  function Join(parts: seq<string>, sep: string): string {
    if |parts| == 0 then ""
    else if |parts| == 1 then parts[0]
    else parts[0] + sep + Join(parts[1..], sep)
  }

  lemma JoinCons(p: string, rest: seq<string>, sep: string)
    requires |rest| > 0
    ensures Join([p] + rest, sep) == p + sep + Join(rest, sep)
  {
    assert ([p] + rest)[1..] == rest;
  }

  /** An occurrence in a prefix is an occurrence in the whole string. */
  lemma OccursInPrefix(s: string, sep: string, i: nat, k: nat)
    requires i <= |s| && OccursAt(s[..i], sep, k)
    ensures OccursAt(s, sep, k) && k + |sep| <= i
  {
    assert s[..i][k..k + |sep|] == s[k..k + |sep|];
  }

  lemma NoOccurrenceIsNone(t: string, sep: string)
    requires forall k: nat :: !OccursAt(t, sep, k)
    ensures IndexOf(t, sep).None?
  {
  }

  /** Before the first occurrence of `sep` there is none. */
  lemma IndexOfBeforeFirst(s: string, sep: string, i: nat)
    requires |sep| > 0 && IndexOf(s, sep) == Some(i)
    ensures IndexOf(s[..i], sep).None?
  {
    forall k: nat ensures !OccursAt(s[..i], sep, k) {
      if OccursAt(s[..i], sep, k) {
        OccursInPrefix(s, sep, i, k);
      }
    }
    NoOccurrenceIsNone(s[..i], sep);
  }

  /** A string is what comes before an occurrence of `sep`, the separator, and what follows. */
  lemma AroundOccurrence(s: string, sep: string, i: nat)
    requires OccursAt(s, sep, i)
    ensures s == s[..i] + sep + s[i + |sep|..]
  {
    assert s == s[..i] + s[i..];
    assert s[i..] == s[i..i + |sep|] + s[i + |sep|..];
  }

  /** Split at its first occurrence, `s` gives the piece before it and the split of the rest. */
  lemma SplitAt(s: string, sep: string, i: nat)
    requires |sep| > 0 && IndexOf(s, sep) == Some(i)
    ensures Split(s, sep) == [s[..i]] + Split(s[i + |sep|..], sep)
  {
  }

  /** Without an occurrence, `s` is its own only piece. */
  lemma SplitNone(s: string, sep: string)
    requires |sep| > 0 && IndexOf(s, sep).None?
    ensures Split(s, sep) == [s]
  {
  }

  /** `s.split(sep)` for a non-empty separator: the pieces between successive
      non-overlapping occurrences, scanning left to right; never empty, no piece
      contains the separator, and joining the pieces gives `s` back. */
  function Split(s: string, sep: string): (parts: seq<string>)
    requires |sep| > 0
    ensures |parts| >= 1
    ensures forall i :: 0 <= i < |parts| ==> IndexOf(parts[i], sep).None?
    ensures Join(parts, sep) == s
    decreases |s|
  {
    match IndexOf(s, sep)
    case None => [s]
    case Some(i) =>
      var rest := Split(s[i + |sep|..], sep);
      IndexOfBeforeFirst(s, sep, i);
      JoinCons(s[..i], rest, sep);
      AroundOccurrence(s, sep, i);
      [s[..i]] + rest
  }

  /** The first piece of a split is a prefix of the string, followed by the
      separator when more pieces come after it. */
  lemma SplitFirstPiece(s: string, sep: string)
    requires |sep| > 0
    ensures StartsWith(s, Split(s, sep)[0])
    ensures |Split(s, sep)| > 1 ==> OccursAt(s, sep, |Split(s, sep)[0]|)
  {
    var parts := Split(s, sep);
    if |parts| > 1 {
      JoinCons(parts[0], parts[1..], sep);
      assert parts == [parts[0]] + parts[1..];
      assert s[..|parts[0]|] == parts[0];
      assert s[|parts[0]|..|parts[0]| + |sep|] == sep;
    }
  }

  /** With two pieces or more, the second piece starts right after the first
      occurrence of the separator. */
  lemma SplitSecondPiece(s: string, sep: string)
    requires |sep| > 0 && |Split(s, sep)| >= 2
    ensures IndexOf(s, sep).Some?
    ensures OccursAt(s, sep + Split(s, sep)[1], IndexOf(s, sep).value)
  {
    if IndexOf(s, sep).None? {
      SplitNone(s, sep);
    } else {
      var i := IndexOf(s, sep).value;
      var tail := s[i + |sep|..];
      SplitAt(s, sep, i);
      SplitFirstPiece(tail, sep);
      OccursAtThen(s, sep, Split(tail, sep)[0], i);
    }
  }

  /** The text before the first occurrence of `sep`, or all of `u` without one. */
  function UpToFirst(u: string, sep: string): string {
    match IndexOf(u, sep)
    case None => u
    case Some(j) => u[..j]
  }

  /** The second piece of a split is what follows the first occurrence, up to the next. */
  lemma SecondPieceOfTail(s: string, sep: string, i: nat)
    requires |sep| > 0 && IndexOf(s, sep) == Some(i)
    ensures |Split(s, sep)| >= 2 && Split(s, sep)[1] == UpToFirst(s[i + |sep|..], sep)
  {
    SplitAt(s, sep, i);
    var tail := s[i + |sep|..];
    match IndexOf(tail, sep)
    case None =>
      SplitNone(tail, sep);
    case Some(j) =>
      SplitAt(tail, sep, j);
  }

  /** That piece directly follows the first occurrence. */
  lemma PieceAfterFirstOccurs(s: string, sep: string, i: nat)
    requires |sep| > 0 && IndexOf(s, sep) == Some(i)
    ensures OccursAt(s, sep + UpToFirst(s[i + |sep|..], sep), i)
  {
    var tail := s[i + |sep|..];
    var p := UpToFirst(tail, sep);
    assert StartsWith(tail, p) by {
      if IndexOf(tail, sep).Some? { assert tail[..|p|] == p; }
    }
    OccursAtThen(s, sep, p, i);
  }

  /** An occurrence in a suffix is an occurrence in the whole, shifted. */
  lemma OccursInSuffix(s: string, sep: string, m: nat, j: nat)
    requires m <= |s|
    ensures OccursAt(s[m..], sep, j) <==> OccursAt(s, sep, m + j)
  {
    if m + j + |sep| <= |s| {
      assert s[m..][j..j + |sep|] == s[m + j..m + j + |sep|];
    }
  }

  /** That piece runs up to the next occurrence of the separator or to the end, and
      it is empty exactly when the separator or the end follows the first
      occurrence at once. */
  lemma PieceAfterFirstEnds(s: string, sep: string, i: nat, p: string)
    requires |sep| > 0 && i + |sep| <= |s| && p == UpToFirst(s[i + |sep|..], sep)
    ensures i + |sep| + |p| == |s| || OccursAt(s, sep, i + |sep| + |p|)
    ensures p == "" <==> i + |sep| == |s| || OccursAt(s, sep, i + |sep|)
  {
    var m := i + |sep|;
    OccursInSuffix(s, sep, m, 0);
    match IndexOf(s[m..], sep)
    case None =>
    case Some(j) =>
      OccursInSuffix(s, sep, m, j);
  }

  /** `name` is the text of `t` from just after the first `sep` up to the next `sep`
      or the end: non-empty and free of `sep`. */
  ghost predicate FollowsFirst(t: string, sep: string, name: string) {
    && name != ""
    && !Contains(name, sep)
    && IndexOf(t, sep).Some?
    && var i := IndexOf(t, sep).value;
      && OccursAt(t, sep + name, i)
      && (i + |sep| + |name| == |t| || OccursAt(t, sep, i + |sep| + |name|))
  }

  /** Something other than the separator follows the first occurrence of `sep` in `t`. */
  ghost predicate NonEmptyAfterFirst(t: string, sep: string) {
    && IndexOf(t, sep).Some?
    && var i := IndexOf(t, sep).value;
      i + |sep| < |t| && !OccursAt(t, sep, i + |sep|)
  }

  /** A non-empty piece after the first occurrence that holds no separator is what
      `FollowsFirst` describes. */
  lemma PieceFollowsFirst(t: string, sep: string, i: nat, p: string)
    requires |sep| > 0 && IndexOf(t, sep) == Some(i)
    requires p == UpToFirst(t[i + |sep|..], sep) && p != "" && IndexOf(p, sep).None?
    ensures FollowsFirst(t, sep, p)
  {
    PieceAfterFirstOccurs(t, sep, i);
    PieceAfterFirstEnds(t, sep, i, p);
  }

  lemma NonEmptyPiece(t: string, sep: string, i: nat, p: string)
    requires |sep| > 0 && i + |sep| < |t| && !OccursAt(t, sep, i + |sep|)
    requires p == UpToFirst(t[i + |sep|..], sep)
    ensures p != ""
  {
    PieceAfterFirstEnds(t, sep, i, p);
  }

  /** The second piece of a split is non-empty when something other than the
      separator follows the first occurrence. */
  lemma SecondPieceNonEmpty(t: string, sep: string)
    requires |sep| > 0
    ensures NonEmptyAfterFirst(t, sep) ==> |Split(t, sep)| >= 2 && Split(t, sep)[1] != ""
  {
    if NonEmptyAfterFirst(t, sep) {
      var i := IndexOf(t, sep).value;
      SecondPieceOfTail(t, sep, i);
      NonEmptyPiece(t, sep, i, Split(t, sep)[1]);
    }
  }

  /** A non-empty second piece of a split is the text that follows the first
      occurrence of the separator, up to the next one or the end. */
  lemma SecondPieceFollowsFirst(t: string, sep: string)
    requires |sep| > 0
    ensures |Split(t, sep)| >= 2 && Split(t, sep)[1] != "" ==> FollowsFirst(t, sep, Split(t, sep)[1])
  {
    if IndexOf(t, sep).None? {
      SplitNone(t, sep);
    } else {
      var i := IndexOf(t, sep).value;
      SecondPieceOfTail(t, sep, i);
      var p := Split(t, sep)[1];
      assert IndexOf(p, sep).None?;
      if p != "" {
        PieceFollowsFirst(t, sep, i, p);
      }
    }
  }

  /** `a` at `i` followed by a prefix `b` of what comes after it is `a + b` at `i`. */
  lemma OccursAtThen(s: string, a: string, b: string, i: nat)
    requires OccursAt(s, a, i) && StartsWith(s[i + |a|..], b)
    ensures OccursAt(s, a + b, i)
  {
    assert s[i + |a|..i + |a| + |b|] == s[i + |a|..][..|b|];
    assert s[i..i + |a + b|] == s[i..i + |a|] + s[i + |a|..i + |a| + |b|];
  }

  /** Splitting on a separator whose first character is in no line undoes joining. */
  lemma {:induction false} SplitJoin(lines: seq<string>, sep: string)
    requires |sep| > 0 && |lines| > 0
    requires forall i :: 0 <= i < |lines| ==> sep[0] !in lines[i]
    ensures Split(Join(lines, sep), sep) == lines
  {
    if |lines| == 1 {
      IndexOfFree(lines[0], sep);
      SplitNone(lines[0], sep);
    } else {
      var rest := Join(lines[1..], sep);
      var s := lines[0] + sep + rest;
      assert Join(lines, sep) == s;
      IndexOfAfterFree(lines[0], sep, rest);
      SplitAt(s, sep, |lines[0]|);
      assert s[..|lines[0]|] == lines[0];
      assert s[|lines[0]| + |sep|..] == rest;
      SplitJoin(lines[1..], sep);
      assert lines == [lines[0]] + lines[1..];
    }
  }

  /** With no separator after the last one, splitting `p + c + q` splits `p` and adds `q`. */
  lemma {:induction false} SplitAppendLast(p: string, c: char, q: string)
    requires c !in q
    ensures Split(p + [c] + q, [c]) == Split(p, [c]) + [q]
    decreases |p|
  {
    IndexOfFree(q, [c]);
    match IndexOf(p, [c])
    case None =>
      SplitAppendLastFree(p, c, q);
    case Some(i) =>
      SplitAppendLastStep(p, c, q, i);
      SplitAppendLast(p[i + 1..], c, q);
  }

  lemma NoneMeansAbsent(p: string, c: char)
    requires IndexOf(p, [c]).None?
    ensures c !in p
  {
    forall k | 0 <= k < |p| ensures p[k] != c {
      assert !OccursAt(p, [c], k);
      assert p[k..k + 1] == [p[k]];
    }
  }

  lemma SplitAppendLastFree(p: string, c: char, q: string)
    requires c !in q && IndexOf(p, [c]).None?
    ensures Split(p + [c] + q, [c]) == Split(p, [c]) + [q]
  {
    NoneMeansAbsent(p, c);
    IndexOfFree(q, [c]);
    IndexOfAfterFree(p, [c], q);
    assert (p + [c] + q)[|p| + 1..] == q;
  }

  lemma SplitAppendLastStep(p: string, c: char, q: string, i: nat)
    requires IndexOf(p, [c]) == Some(i)
    ensures Split(p + [c] + q, [c]) == [p[..i]] + Split(p[i + 1..] + [c] + q, [c])
    ensures Split(p, [c]) == [p[..i]] + Split(p[i + 1..], [c])
  {
    assert p + [c] + q == p + ([c] + q);
    IndexOfExtend(p, [c], [c] + q);
    assert (p + [c] + q)[..i] == p[..i];
    assert (p + [c] + q)[i + 1..] == p[i + 1..] + [c] + q;
  }

  /** The last `c`-separated segment of `s` (`s.split(c).at(-1)`). */
  function LastSegment(s: string, c: char): (r: string)
    ensures c !in r
  {
    var parts := Split(s, [c]);
    NoneMeansAbsent(parts[|parts| - 1], c);
    parts[|parts| - 1]
  }

  /** Every character of a piece is a character of the joined string. */
  lemma {:induction false} JoinKeepsChars(parts: seq<string>, sep: string, i: nat, x: char)
    requires i < |parts| && x in parts[i]
    ensures x in Join(parts, sep)
  {
    if |parts| > 1 {
      if i > 0 {
        JoinKeepsChars(parts[1..], sep, i - 1, x);
      }
      assert Join(parts, sep) == parts[0] + sep + Join(parts[1..], sep);
    }
  }

  /** The last segment is made of characters of `s`. */
  lemma LastSegmentChars(s: string, c: char, x: char)
    requires x in LastSegment(s, c)
    ensures x in s
  {
    var parts := Split(s, [c]);
    JoinKeepsChars(parts, [c], |parts| - 1, x);
  }

  /** `s.split(c).slice(0, -1).join(c)`: `s` without its last `c`-separated segment. */
  function DropLastSegment(s: string, c: char): string {
    var parts := Split(s, [c]);
    Join(parts[..|parts| - 1], [c])
  }

  lemma LastSegmentAfter(p: string, c: char, q: string)
    requires c !in q
    ensures LastSegment(p + [c] + q, c) == q
  {
    SplitAppendLast(p, c, q);
  }

  lemma LastSegmentWhole(s: string, c: char)
    requires c !in s
    ensures LastSegment(s, c) == s
  {
    IndexOfFree(s, [c]);
  }

  lemma DropLastSegmentAfter(p: string, c: char, q: string)
    requires c !in q
    ensures DropLastSegment(p + [c] + q, c) == p
  {
    SplitAppendLast(p, c, q);
    assert (Split(p, [c]) + [q])[..|Split(p, [c])|] == Split(p, [c]);
  }

  lemma DropLastSegmentWhole(s: string, c: char)
    requires c !in s
    ensures DropLastSegment(s, c) == ""
  {
    IndexOfFree(s, [c]);
  }

  /** `s` with every `c` removed. */
  function Without(s: string, c: char): (r: string)
    ensures c !in r
    ensures forall x :: x in r <==> x in s && x != c
  {
    if s == [] then [] else (if s[0] == c then [] else [s[0]]) + Without(s[1..], c)
  }

  lemma {:induction false} WithoutConcat(a: string, b: string, c: char)
    ensures Without(a + b, c) == Without(a, c) + Without(b, c)
  {
    if a != [] {
      assert (a + b)[1..] == a[1..] + b;
      WithoutConcat(a[1..], b, c);
    } else {
      assert a + b == b;
    }
  }

  lemma {:induction false} WithoutAbsent(s: string, c: char)
    requires c !in s
    ensures Without(s, c) == s
  {
    if s != [] {
      WithoutAbsent(s[1..], c);
    }
  }

  /** `s.split(c).join('')` removes every `c`. */
  lemma {:induction false} SplitJoinEmptyRemoves(s: string, c: char)
    ensures Join(Split(s, [c]), "") == Without(s, c)
    decreases |s|
  {
    match IndexOf(s, [c])
    case None =>
      NoneMeansAbsent(s, c);
      WithoutAbsent(s, c);
    case Some(i) =>
      var head, tail := s[..i], s[i + 1..];
      assert Split(s, [c]) == [head] + Split(tail, [c]);
      assert IndexOf(head, [c]).None? by { assert Split(s, [c])[0] == head; }
      NoneMeansAbsent(head, c);
      JoinCons(head, Split(tail, [c]), "");
      SplitJoinEmptyRemoves(tail, c);
      assert s == head + [c] + tail;
      WithoutConcat(head + [c], tail, c);
      WithoutConcat(head, [c], c);
      WithoutAbsent(head, c);
      assert Without([c], c) == [];
  }

  /** The characters `String.prototype.trim` removes: ECMAScript WhiteSpace and
      LineTerminator code points. */
  predicate IsWhitespace(ch: char) {
    || ch in {' ', '\t', '\n', '\r', '\U{000B}', '\U{000C}', '\U{00A0}', '\U{FEFF}',
              '\U{1680}', '\U{2028}', '\U{2029}', '\U{202F}', '\U{205F}', '\U{3000}'}
    || '\U{2000}' <= ch <= '\U{200A}'
  }

  /** `s.trimStart()`. */
  function TrimStart(s: string): (r: string)
    ensures |r| <= |s| && r == s[|s| - |r|..]
    ensures r == [] || !IsWhitespace(r[0])
    ensures forall i :: 0 <= i < |s| - |r| ==> IsWhitespace(s[i])
  {
    if s != [] && IsWhitespace(s[0]) then TrimStart(s[1..]) else s
  }

  /** `s.trimEnd()`. */
  function TrimEnd(s: string): (r: string)
    ensures |r| <= |s| && r == s[..|r|]
    ensures r == [] || !IsWhitespace(r[|r| - 1])
    ensures forall i :: |r| <= i < |s| ==> IsWhitespace(s[i])
  {
    if s != [] && IsWhitespace(s[|s| - 1]) then TrimEnd(s[..|s| - 1]) else s
  }

  /** `s.trim()`. */
  function Trim(s: string): string {
    TrimEnd(TrimStart(s))
  }

  /** Trimming removes exactly a whitespace padding in front of a word that
      starts and ends with non-whitespace. */
  lemma {:induction false} TrimPadded(pad: string, word: string)
    requires forall i :: 0 <= i < |pad| ==> IsWhitespace(pad[i])
    requires |word| > 0 && !IsWhitespace(word[0]) && !IsWhitespace(word[|word| - 1])
    ensures Trim(pad + word) == word
    decreases |pad|
  {
    if pad == [] {
      assert pad + word == word;
    } else {
      assert (pad + word)[1..] == pad[1..] + word;
      TrimPadded(pad[1..], word);
    }
  }

  /** `s.startsWith(prefix)`. */
  predicate StartsWith(s: string, prefix: string) {
    |prefix| <= |s| && s[..|prefix|] == prefix
  }

  /** `toLowerCase` for one character, on the ASCII letters only. */
  function LowerChar(ch: char): char {
    if 'A' <= ch <= 'Z' then (ch as int + 32) as char else ch
  }

  /** `s.toLowerCase()` restricted to ASCII letters. */
  function ToLower(s: string): string {
    seq(|s|, i requires 0 <= i < |s| => LowerChar(s[i]))
  }

  /** Text without upper-case ASCII letters is its own lower case. */
  lemma ToLowerNoUpper(s: string)
    requires forall i :: 0 <= i < |s| ==> !('A' <= s[i] <= 'Z')
    ensures ToLower(s) == s
  {
  }

  /** Lowercasing twice is lowercasing once. */
  lemma ToLowerIdempotent(s: string)
    ensures ToLower(ToLower(s)) == ToLower(s)
  {
    ToLowerNoUpper(ToLower(s));
  }
}

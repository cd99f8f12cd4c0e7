/**
 * The Python `str` methods the status-file parser is built from, over
 * strings of Unicode code points: `find`, `split(sep)`, `sep.join`,
 * `replace`, `partition`, `strip` and `splitlines`.
 */
module Text {

  /** `pat` occurs in `s` starting at index `i`. */
  predicate OccursAt(s: string, pat: string, i: nat)
  {
    i + |pat| <= |s| && s[i..i + |pat|] == pat
  }

  predicate Contains(s: string, pat: string)
  {
    exists i :: 0 <= i <= |s| && OccursAt(s, pat, i)
  }

  lemma OccursAtShift(s: string, pat: string, i: nat)
    requires |s| > 0
    ensures OccursAt(s, pat, i + 1) <==> OccursAt(s[1..], pat, i)
  {
    if i + 1 + |pat| <= |s| {
      assert s[1..][i..i + |pat|] == s[i + 1..i + 1 + |pat|];
    }
  }

  /** A single character occurs as a one-character pattern exactly when it is in the string. */
  lemma ContainsChar(s: string, c: char)
    ensures Contains(s, [c]) <==> c in s
  {
    if c in s {
      var i :| 0 <= i < |s| && s[i] == c;
      assert OccursAt(s, [c], i);
    }
    if Contains(s, [c]) {
      var i :| 0 <= i <= |s| && OccursAt(s, [c], i);
      assert s[i] == s[i..i + 1][0] == c;
    }
  }

  /** `s.find(pat)`: the lowest index where `pat` occurs, or -1. */
  function Find(s: string, pat: string): (r: int)
    requires |pat| > 0
    ensures r == -1 || 0 <= r <= |s| - |pat|
    decreases |s|
  {
    if |s| < |pat| then
      -1
    else if s[..|pat|] == pat then
      0
    else
      var k := Find(s[1..], pat);
      if k < 0 then -1 else k + 1
  }

  /** `find` returns the first occurrence, and -1 exactly when there is none. */
  lemma {:induction false} FindFirst(s: string, pat: string)
    requires |pat| > 0
    ensures var r := Find(s, pat);
      && (r >= 0 ==> OccursAt(s, pat, r) && forall j: nat :: j < r ==> !OccursAt(s, pat, j))
      && (r == -1 ==> !Contains(s, pat))
    decreases |s|
  {
    if |s| < |pat| {
      forall j | 0 <= j <= |s| ensures !OccursAt(s, pat, j) {
      }
    } else if s[..|pat|] == pat {
      assert OccursAt(s, pat, 0);
    } else {
      assert !OccursAt(s, pat, 0);
      var k := Find(s[1..], pat);
      FindFirst(s[1..], pat);
      if k < 0 {
        forall j | 0 < j <= |s| ensures !OccursAt(s, pat, j) {
          OccursAtShift(s, pat, j - 1);
        }
      } else {
        OccursAtShift(s, pat, k);
        forall j: nat | 0 < j < k + 1 ensures !OccursAt(s, pat, j) {
          OccursAtShift(s, pat, j - 1);
        }
      }
    }
  }

  /** `s.split(sep)` for a non-empty separator. */
  function Split(s: string, sep: string): (parts: seq<string>)
    requires |sep| > 0
    ensures |parts| >= 1
    decreases |s|
  {
    var i := Find(s, sep);
    if i < 0 then [s] else [s[..i]] + Split(s[i + |sep|..], sep)
  }

  /** `sep.join(parts)`. */
  function Join(parts: seq<string>, sep: string): string
  {
    if |parts| == 0 then ""
    else if |parts| == 1 then parts[0]
    else parts[0] + sep + Join(parts[1..], sep)
  }

  /** A join of two or more parts is the first part, the separator and the join of the rest. */
  lemma JoinCons(parts: seq<string>, sep: string)
    requires |parts| >= 2
    ensures Join(parts, sep) == parts[0] + sep + Join(parts[1..], sep)
  {
  }

  /** Joining the pieces of a split with the same separator rebuilds the string. */
  lemma {:induction false} SplitJoin(s: string, sep: string)
    requires |sep| > 0
    ensures Join(Split(s, sep), sep) == s
    decreases |s|
  {
    var i := Find(s, sep);
    FindFirst(s, sep);
    if i >= 0 {
      var rest := s[i + |sep|..];
      var pieces := Split(rest, sep);
      SplitJoin(rest, sep);
      assert Split(s, sep) == [s[..i]] + pieces;
      assert ([s[..i]] + pieces)[1..] == pieces;
      assert Join([s[..i]] + pieces, sep) == s[..i] + sep + Join(pieces, sep);
      assert s == s[..i] + sep + rest;
    }
  }

  /** No piece of a split contains the separator. */
  lemma {:induction false} SplitPiecesAvoidSeparator(s: string, sep: string)
    requires |sep| > 0
    ensures forall p :: p in Split(s, sep) ==> !Contains(p, sep)
    decreases |s|
  {
    var i := Find(s, sep);
    FindFirst(s, sep);
    if i >= 0 {
      var rest := s[i + |sep|..];
      SplitPiecesAvoidSeparator(rest, sep);
      var head := s[..i];
      forall j: nat | OccursAt(head, sep, j) ensures false {
        assert head[j..j + |sep|] == s[j..j + |sep|];
        assert OccursAt(s, sep, j);
      }
    }
  }

  /** Every character of every piece of a split is a character of the input. */
  lemma {:induction false} SplitPiecesFromSource(s: string, sep: string)
    requires |sep| > 0
    ensures forall p, c :: p in Split(s, sep) && c in p ==> c in s
    decreases |s|
  {
    var i := Find(s, sep);
    if i >= 0 {
      var head, rest := s[..i], s[i + |sep|..];
      SplitPiecesFromSource(rest, sep);
      assert Split(s, sep) == [head] + Split(rest, sep);
      forall p, c | p in Split(s, sep) && c in p ensures c in s {
        if p == head {
          var k :| 0 <= k < |head| && head[k] == c;
          assert s[k] == c;
        } else {
          assert c in rest;
          var k :| 0 <= k < |rest| && rest[k] == c;
          assert s[i + |sep| + k] == c;
        }
      }
    }
  }

  /**
   * Splitting a join gives back the parts, provided no separator can be
   * found in a part or across its boundary with the following separator.
   */
  lemma {:induction false} JoinSplit(parts: seq<string>, sep: string)
    requires |sep| > 0 && |parts| >= 1
    requires forall k :: 0 <= k < |parts| - 1 ==> !Contains(parts[k] + sep[..|sep| - 1], sep)
    requires !Contains(parts[|parts| - 1], sep)
    ensures Split(Join(parts, sep), sep) == parts
    decreases |parts|
  {
    if |parts| > 1 {
      JoinCons(parts, sep);
      SplitAfterHead(parts[0], sep, Join(parts[1..], sep));
      JoinSplit(parts[1..], sep);
      assert parts == [parts[0]] + parts[1..];
    } else {
      FindFirst(parts[0], sep);
    }
  }

  /** A head that the separator cannot start in, even when its first characters follow, is split off. */
  lemma SplitAfterHead(head: string, sep: string, rest: string)
    requires |sep| > 0 && !Contains(head + sep[..|sep| - 1], sep)
    ensures Split(head + sep + rest, sep) == [head] + Split(rest, sep)
  {
    var s := head + sep + rest;
    assert OccursAt(s, sep, |head|) by {
      assert s[|head|..|head| + |sep|] == sep;
    }
    var i := Find(s, sep);
    FindFirst(s, sep);
    forall j: nat | j < |head| ensures !OccursAt(s, sep, j) {
      OccursBeforeSeparator(head, sep, rest, j);
    }
    assert i == |head|;
    assert s[..i] == head;
    assert s[i + |sep|..] == rest;
  }

  /** An occurrence starting inside the head ends before the separator's last character. */
  lemma OccursBeforeSeparator(head: string, sep: string, rest: string, j: nat)
    requires |sep| > 0 && j < |head|
    ensures OccursAt(head + sep + rest, sep, j) ==> OccursAt(head + sep[..|sep| - 1], sep, j)
  {
    var s := head + sep + rest;
    var guarded := head + sep[..|sep| - 1];
    if OccursAt(s, sep, j) {
      var window, guardedWindow := s[j..j + |sep|], guarded[j..j + |sep|];
      forall k | 0 <= k < |sep| ensures window[k] == guardedWindow[k] {
        if j + k >= |head| {
          assert s[j + k] == sep[j + k - |head|];
        }
      }
      assert window == guardedWindow;
    }
  }

  /** Splitting at a character that no part contains gives back the parts. */
  lemma SplitJoinedAtChar(parts: seq<string>, c: char)
    requires |parts| >= 1 && forall k :: 0 <= k < |parts| ==> c !in parts[k]
    ensures Split(Join(parts, [c]), [c]) == parts
  {
    forall k | 0 <= k < |parts| ensures !Contains(parts[k] + [c][..0], [c]) && !Contains(parts[k], [c]) {
      ContainsChar(parts[k], c);
      assert parts[k] + [c][..0] == parts[k];
    }
    JoinSplit(parts, [c]);
  }

  /** `s.replace(pat, with)`: replace occurrences left to right, without overlap. */
  function Replace(s: string, pat: string, with: string): string
    requires |pat| > 0
    decreases |s|
  {
    if |s| == 0 then ""
    else if |pat| <= |s| && s[..|pat|] == pat then with + Replace(s[|pat|..], pat, with)
    else [s[0]] + Replace(s[1..], pat, with)
  }

  /** Replacing by a text no longer than the pattern never lengthens the input. */
  lemma {:induction false} ReplaceNotLonger(s: string, pat: string, with: string)
    requires |pat| > 0 && |with| <= |pat|
    ensures |Replace(s, pat, with)| <= |s|
    decreases |s|
  {
    if |s| > 0 {
      if |pat| <= |s| && s[..|pat|] == pat {
        ReplaceNotLonger(s[|pat|..], pat, with);
      } else {
        ReplaceNotLonger(s[1..], pat, with);
      }
    }
  }

  /** Up to the first occurrence of the pattern, replacing copies the text. */
  lemma {:induction false} ReplaceSkipsToFirst(s: string, pat: string, with: string, i: nat)
    requires |pat| > 0 && i <= |s|
    requires forall j: nat :: j < i ==> !OccursAt(s, pat, j)
    ensures Replace(s, pat, with) == s[..i] + Replace(s[i..], pat, with)
    decreases i
  {
    if i > 0 {
      ReplaceHeadNotMatched(s, pat, with);
      forall j: nat | j < i - 1 ensures !OccursAt(s[1..], pat, j) {
        OccursAtShift(s, pat, j);
      }
      ReplaceSkipsToFirst(s[1..], pat, with, i - 1);
      assert s[1..][i - 1..] == s[i..];
      assert [s[0]] + s[1..][..i - 1] == s[..i];
    }
  }

  /** `s.replace(pat, with) == with.join(s.split(pat))`. */
  lemma {:induction false} ReplaceIsJoinOfSplit(s: string, pat: string, with: string)
    requires |pat| > 0
    ensures Replace(s, pat, with) == Join(Split(s, pat), with)
    decreases |s|
  {
    var i := Find(s, pat);
    FindFirst(s, pat);
    if i < 0 {
      ReplaceSkipsToFirst(s, pat, with, |s|);
      assert s[..|s|] == s;
    } else {
      ReplaceSkipsToFirst(s, pat, with, i);
      var rest := s[i + |pat|..];
      assert s[i..] == pat + rest;
      ReplaceHeadMatched(rest, pat, with);
      ReplaceIsJoinOfSplit(rest, pat, with);
      var pieces := Split(rest, pat);
      assert Split(s, pat) == [s[..i]] + pieces;
      assert ([s[..i]] + pieces)[1..] == pieces;
    }
  }

  /** Deleting a character that no part contains from their join concatenates the parts. */
  lemma DeleteJoiningChar(parts: seq<string>, c: char)
    requires |parts| >= 1 && forall k :: 0 <= k < |parts| ==> c !in parts[k]
    ensures Replace(Join(parts, [c]), [c], "") == Join(parts, "")
  {
    SplitJoinedAtChar(parts, c);
    ReplaceIsJoinOfSplit(Join(parts, [c]), [c], "");
  }

  /** An occurrence at the start is replaced. */
  lemma ReplaceHeadMatched(rest: string, pat: string, with: string)
    requires |pat| > 0
    ensures Replace(pat + rest, pat, with) == with + Replace(rest, pat, with)
  {
    assert (pat + rest)[..|pat|] == pat && (pat + rest)[|pat|..] == rest;
  }

  /** A first character that cannot start the pattern is kept. */
  lemma ReplaceHeadKept(c: char, rest: string, pat: string, with: string)
    requires |pat| > 0 && pat[0] != c
    ensures Replace([c] + rest, pat, with) == [c] + Replace(rest, pat, with)
  {
    assert ([c] + rest)[1..] == rest;
  }

  /** Where the pattern does not start the text, the first character is kept. */
  lemma ReplaceHeadNotMatched(s: string, pat: string, with: string)
    requires |pat| > 0 && |s| > 0 && !OccursAt(s, pat, 0)
    ensures Replace(s, pat, with) == [s[0]] + Replace(s[1..], pat, with)
  {
  }

  /** No proper, non-empty prefix of `pat` ends `a`, so no occurrence straddles the end of `a`. */
  predicate NoPartialMatchAtEnd(a: string, pat: string)
  {
    forall k :: 0 < k < |pat| && k <= |a| ==> a[|a| - k..] != pat[..k]
  }

  /** Replacing in a concatenation replaces in each half when no match straddles the join. */
  lemma {:induction false} ReplaceConcat(a: string, b: string, pat: string, with: string)
    requires |pat| > 0
    requires NoPartialMatchAtEnd(a, pat)
    ensures Replace(a + b, pat, with) == Replace(a, pat, with) + Replace(b, pat, with)
    decreases |a|
  {
    if |a| == 0 {
      assert a + b == b;
    } else if |pat| <= |a| && a[..|pat|] == pat {
      var rest := a[|pat|..];
      assert Replace(a + b, pat, with) == with + Replace(rest + b, pat, with) by {
        assert (a + b)[..|pat|] == pat;
        assert (a + b)[|pat|..] == rest + b;
      }
      assert NoPartialMatchAtEnd(rest, pat) by {
        forall k | 0 < k < |pat| && k <= |rest| ensures rest[|rest| - k..] != pat[..k] {
          assert rest[|rest| - k..] == a[|a| - k..];
        }
      }
      ReplaceConcat(rest, b, pat, with);
      var x, y := Replace(rest, pat, with), Replace(b, pat, with);
      assert with + (x + y) == (with + x) + y;
    } else {
      var rest := a[1..];
      assert Replace(a + b, pat, with) == [a[0]] + Replace(rest + b, pat, with) by {
        PrefixOfConcat(a, b, |pat|);
        if |pat| <= |a + b| && (a + b)[..|pat|] == pat {
          if |pat| <= |a| {
            assert false;
          } else {
            assert false;
          }
        }
        assert (a + b)[1..] == rest + b;
      }
      assert NoPartialMatchAtEnd(rest, pat) by {
        forall k | 0 < k < |pat| && k <= |rest| ensures rest[|rest| - k..] != pat[..k] {
          assert rest[|rest| - k..] == a[|a| - k..];
        }
      }
      ReplaceConcat(rest, b, pat, with);
      var x, y := Replace(rest, pat, with), Replace(b, pat, with);
      assert [a[0]] + (x + y) == ([a[0]] + x) + y;
    }
  }

  /** The last character of a replacement result is the input's last or the replacement's last. */
  lemma {:induction false} ReplaceLast(s: string, pat: string, with: string)
    requires |pat| > 0 && |with| > 0 && |s| > 0
    ensures var r := Replace(s, pat, with);
      |r| > 0 && (r[|r| - 1] == s[|s| - 1] || r[|r| - 1] == with[|with| - 1])
    decreases |s|
  {
    if |pat| <= |s| && s[..|pat|] == pat {
      var rest := s[|pat|..];
      if |rest| > 0 {
        ReplaceLast(rest, pat, with);
      }
    } else if |s| > 1 {
      ReplaceLast(s[1..], pat, with);
    }
  }

  /** Replacing a character by a text without it removes every occurrence of that character. */
  lemma {:induction false} ReplaceRemovesChar(s: string, c: char, with: string)
    requires c !in with
    ensures c !in Replace(s, [c], with)
    decreases |s|
  {
    if |s| > 0 {
      if s[..1] == [c] {
        ReplaceRemovesChar(s[1..], c, with);
      } else {
        assert s[0] != c by { assert s[..1] == [s[0]]; }
        ReplaceRemovesChar(s[1..], c, with);
      }
    }
  }

  /** Replacing only ever keeps characters of the input or of the replacement. */
  lemma {:induction false} ReplaceCharsFrom(s: string, pat: string, with: string)
    requires |pat| > 0
    ensures forall c :: c in Replace(s, pat, with) ==> c in s || c in with
    decreases |s|
  {
    if |s| > 0 {
      if |pat| <= |s| && s[..|pat|] == pat {
        ReplaceCharsFrom(s[|pat|..], pat, with);
        assert forall c :: c in s[|pat|..] ==> c in s;
      } else {
        ReplaceCharsFrom(s[1..], pat, with);
        assert forall c :: c in s[1..] ==> c in s;
      }
    }
  }

  /**
   * `s.partition(sep)`: the text before the first occurrence of `sep`, the
   * separator itself and the text after it; `(s, "", "")` when `sep` is absent.
   */
  function Partition(s: string, sep: string): (r: (string, string, string))
    requires |sep| > 0
    ensures r.0 + r.1 + r.2 == s
    ensures r.1 == sep <==> Contains(s, sep)
    ensures r.1 != sep ==> r.0 == s && r.1 == "" && r.2 == ""
    ensures forall j: nat :: j < |r.0| ==> !OccursAt(s, sep, j)
  {
    var i := Find(s, sep);
    FindFirst(s, sep);
    if i < 0 then (s, "", "")
    else
      assert s == s[..i] + sep + s[i + |sep|..];
      (s[..i], sep, s[i + |sep|..])
  }

  /** The text before the separator does not contain it. */
  lemma PartitionHeadAvoidsSeparator(s: string, sep: string)
    requires |sep| > 0
    ensures !Contains(Partition(s, sep).0, sep)
  {
    var head := Partition(s, sep).0;
    forall j | 0 <= j <= |head| ensures !OccursAt(head, sep, j) {
      if j + |sep| <= |head| {
        assert head[j..j + |sep|] == s[j..j + |sep|];
        assert !OccursAt(s, sep, j);
      }
    }
  }

  /** Splitting at a single separator character that does not occur in the head. */
  lemma PartitionAtFirst(head: string, c: char, tail: string)
    requires c !in head
    ensures Partition(head + [c] + tail, [c]) == (head, [c], tail)
  {
    var s := head + [c] + tail;
    var r := Partition(s, [c]);
    assert OccursAt(s, [c], |head|) by { assert s[|head|..|head| + 1] == [c]; }
    ConcatAt(head, [c] + tail);
    ConcatAt(r.0, r.1 + r.2);
    assert s == head + ([c] + tail) && s == r.0 + (r.1 + r.2);
    if |r.0| > |head| {
      assert false;
    }
    if |r.0| < |head| {
      assert false;
    }
    assert r.0 == s[..|head|] == head;
    assert r.2 == s[|head| + 1..] == tail;
  }

  lemma ConcatAt(x: string, y: string)
    ensures forall i :: 0 <= i < |x| ==> (x + y)[i] == x[i]
    ensures |y| > 0 ==> (x + y)[|x|] == y[0]
  {
  }

  lemma PrefixOfConcat(a: string, b: string, n: nat)
    ensures n <= |a| ==> (a + b)[..n] == a[..n]
    ensures |a| <= n <= |a + b| ==> (a + b)[..n][..|a|] == a
  {
  }

  /** A character `str.isspace()` holds for. */
  predicate IsSpace(c: char)
  {
    || '\t' <= c <= '\r'
    || '\U{1C}' <= c <= ' '
    || c == '\U{85}' || c == '\U{A0}' || c == '\U{1680}'
    || '\U{2000}' <= c <= '\U{200A}'
    || c == '\U{2028}' || c == '\U{2029}' || c == '\U{202F}' || c == '\U{205F}' || c == '\U{3000}'
  }

  /** The index of the first non-whitespace character at or after `i`, or `|s|`. */
  function SkipSpace(s: string, i: nat): (j: nat)
    requires i <= |s|
    ensures i <= j <= |s|
    ensures forall k :: i <= k < j ==> IsSpace(s[k])
    ensures j < |s| ==> !IsSpace(s[j])
    decreases |s| - i
  {
    if i < |s| && IsSpace(s[i]) then SkipSpace(s, i + 1) else i
  }

  /** The index just past the last non-whitespace character of `s[i..j]`, or `i`. */
  function SkipSpaceBack(s: string, i: nat, j: nat): (k: nat)
    requires i <= j <= |s|
    ensures i <= k <= j
    ensures forall m :: k <= m < j ==> IsSpace(s[m])
    ensures k > i ==> !IsSpace(s[k - 1])
    decreases j
  {
    if j > i && IsSpace(s[j - 1]) then SkipSpaceBack(s, i, j - 1) else j
  }

  /** `s.strip()`: leading whitespace skipped forwards, then trailing whitespace backwards. */
  function Strip(s: string): (r: string)
    ensures |r| <= |s|
    ensures r != [] ==> !IsSpace(r[0]) && !IsSpace(r[|r| - 1])
  {
    var i := SkipSpace(s, 0);
    s[i..SkipSpaceBack(s, i, |s|)]
  }

  /**
   * The stripped text is the slice of `s` between its leading and its
   * trailing whitespace, and neither starts nor ends with whitespace.
   */
  lemma StripIsTrimmedSlice(s: string)
    ensures var i := SkipSpace(s, 0); var j := SkipSpaceBack(s, i, |s|);
      && Strip(s) == s[i..j]
      && (forall k :: 0 <= k < i ==> IsSpace(s[k]))
      && (forall k :: j <= k < |s| ==> IsSpace(s[k]))
      && (i < j ==> !IsSpace(s[i]) && !IsSpace(s[j - 1]))
  {
  }

  /** Stripping a string without whitespace at either end leaves it unchanged. */
  lemma StripTrimmed(s: string)
    requires s != [] ==> !IsSpace(s[0]) && !IsSpace(s[|s| - 1])
    ensures Strip(s) == s
  {
    assert SkipSpace(s, 0) == 0;
    assert SkipSpaceBack(s, 0, |s|) == |s|;
  }

  /** Stripping only removes characters. */
  lemma StripKeepsChars(s: string)
    ensures forall c :: c in Strip(s) ==> c in s
  {
    StripIsTrimmedSlice(s);
    var t := Strip(s);
    forall c | c in t ensures c in s {
      var k :| 0 <= k < |t| && t[k] == c;
      assert s[SkipSpace(s, 0) + k] == c;
    }
  }

  /** Stripping twice is stripping once. */
  lemma StripIdempotent(s: string)
    ensures Strip(Strip(s)) == Strip(s)
  {
    StripIsTrimmedSlice(s);
    var t := Strip(s);
    if t != [] {
      assert t[0] == s[SkipSpace(s, 0)];
    }
    StripTrimmed(t);
  }

  /** Characters `str.splitlines()` breaks at (`\r\n` counts as one boundary). */
  predicate IsLineBreak(c: char)
  {
    || '\n' <= c <= '\r'
    || '\U{1C}' <= c <= '\U{1E}'
    || c == '\U{85}' || c == '\U{2028}' || c == '\U{2029}'
  }

  /** Index of the first line-break character, or -1. */
  function FindLineBreak(s: string): (r: int)
    ensures -1 <= r < |s|
    ensures r >= 0 ==> IsLineBreak(s[r]) && forall j :: 0 <= j < r ==> !IsLineBreak(s[j])
    ensures r == -1 ==> forall j :: 0 <= j < |s| ==> !IsLineBreak(s[j])
    decreases |s|
  {
    if |s| == 0 then -1
    else if IsLineBreak(s[0]) then 0
    else
      var k := FindLineBreak(s[1..]);
      if k < 0 then -1 else k + 1
  }

  /** `s.splitlines()`: lines without their terminators, no trailing empty line. */
  function SplitLines(s: string): (lines: seq<string>)
    ensures s == [] <==> lines == []
    ensures forall l, c :: l in lines && c in l ==> !IsLineBreak(c)
    decreases |s|
  {
    var i := FindLineBreak(s);
    if i < 0 then
      if s == [] then [] else [s]
    else
      var width := if s[i] == '\r' && i + 1 < |s| && s[i + 1] == '\n' then 2 else 1;
      [s[..i]] + SplitLines(s[i + width..])
  }

  /** A line terminator `splitlines` recognises: one boundary character, or `\r\n`. */
  predicate IsTerminator(t: string)
  {
    t == "\r\n" || (|t| == 1 && IsLineBreak(t[0]))
  }

  /**
   * A line ended by any terminator is split off as the first line; a lone
   * `\r` is a terminator of its own only when no `\n` follows it, since
   * `\r\n` counts once.
   */
  lemma SplitLinesCons(line: string, t: string, rest: string)
    requires forall c :: c in line ==> !IsLineBreak(c)
    requires IsTerminator(t)
    requires t == "\r" ==> rest == [] || rest[0] != '\n'
    ensures SplitLines(line + t + rest) == [line] + SplitLines(rest)
  {
    var s := line + t + rest;
    assert s[|line|] == t[0];
    forall j | 0 <= j < |line| ensures !IsLineBreak(s[j]) {
      assert s[j] == line[j];
    }
    assert FindLineBreak(s) == |line|;
    assert s[..|line|] == line;
    if t == "\r\n" {
      assert s[|line| + 1] == '\n';
    } else if t[0] == '\r' && |rest| > 0 {
      assert s[|line| + 1] == rest[0];
    }
    assert s[|line| + |t|..] == rest;
  }

  /** A non-empty text without line breaks is a single line. */
  lemma SplitLinesSingle(line: string)
    requires line != [] && forall c :: c in line ==> !IsLineBreak(c)
    ensures SplitLines(line) == [line]
  {
  }

  /**
   * Every text is empty, a single line, or a first line, a terminator and a
   * rest: with the two lemmas above, this fixes `SplitLines` on every input.
   */
  lemma SplitLinesCases(s: string) returns (line: string, t: string, rest: string)
    requires exists c :: c in s && IsLineBreak(c)
    ensures s == line + t + rest && IsTerminator(t)
    ensures forall c :: c in line ==> !IsLineBreak(c)
    ensures t == "\r" ==> rest == [] || rest[0] != '\n'
    ensures SplitLines(s) == [line] + SplitLines(rest)
  {
    var i := FindLineBreak(s);
    var c :| c in s && IsLineBreak(c);
    var width := if s[i] == '\r' && i + 1 < |s| && s[i + 1] == '\n' then 2 else 1;
    line, t, rest := s[..i], s[i..i + width], s[i + width..];
    assert s == line + t + rest;
    SplitLinesCons(line, t, rest);
  }
}

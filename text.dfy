/**
 * The string operations of Python that the core relies on: `str.isspace`,
 * `str.strip`, `str.split` on a character, `str.splitlines`, `sep.join`,
 * `str.rsplit(sep, 1)` and `str.split(sep)[-1]`, all on `seq<char>`.
 */
module Text {

  /** Python's `str.isspace` for one character (ASCII and Unicode white space). */
  predicate IsSpace(c: char) {
    var n := c as int;
    n == 0x20 || 0x09 <= n <= 0x0d || 0x1c <= n <= 0x1f || n == 0x85 || n == 0xa0
    || n == 0x1680 || 0x2000 <= n <= 0x200a || n == 0x2028 || n == 0x2029
    || n == 0x202f || n == 0x205f || n == 0x3000
  }

  /** The characters at which Python's `str.splitlines` ends a line. */
  predicate IsLineBreak(c: char) {
    var n := c as int;
    0x0a <= n <= 0x0d || 0x1c <= n <= 0x1e || n == 0x85 || n == 0x2028 || n == 0x2029
  }

  predicate IsNewline(c: char) { c == '\n' }

  predicate IsDot(c: char) { c == '.' }

  predicate IsEquals(c: char) { c == '=' }

  /** No character of `s` satisfies `p`. */
  predicate NoneIn(s: string, p: char -> bool) {
    forall i :: 0 <= i < |s| ==> !p(s[i])
  }

  lemma NoneInAppend(a: string, b: string, p: char -> bool)
    requires NoneIn(a, p) && NoneIn(b, p)
    ensures NoneIn(a + b, p)
  {
    forall i | 0 <= i < |a + b| ensures !p((a + b)[i]) {
      if i >= |a| {
        assert (a + b)[i] == b[i - |a|];
      }
    }
  }

  /** Every character of `s` is white space: `s.strip() == ""`. */
  predicate Blank(s: string) {
    forall i :: 0 <= i < |s| ==> IsSpace(s[i])
  }

  /** The first index from `i` on that does not hold white space, or `|s|`. */
  function ContentStart(s: string, i: nat): (k: nat)
    requires i <= |s|
    ensures i <= k <= |s|
    ensures forall j :: i <= j < k ==> IsSpace(s[j])
    ensures k == |s| || !IsSpace(s[k])
    decreases |s| - i
  {
    if i < |s| && IsSpace(s[i]) then ContentStart(s, i + 1) else i
  }

  /** One past the last index before `n` that does not hold white space, or 0. */
  function ContentEnd(s: string, n: nat): (k: nat)
    requires n <= |s|
    ensures k <= n
    ensures forall j :: k <= j < n ==> IsSpace(s[j])
    ensures k == 0 || !IsSpace(s[k - 1])
  {
    if n > 0 && IsSpace(s[n - 1]) then ContentEnd(s, n - 1) else n
  }

  /** `s.lstrip()`: the longest suffix of `s` that does not start with white space. */
  function TrimStart(s: string): (r: string)
    ensures |r| <= |s| && r == s[|s| - |r|..]
    ensures Blank(s[..|s| - |r|])
    ensures r == [] || !IsSpace(r[0])
  {
    s[ContentStart(s, 0)..]
  }

  /** `s.rstrip()`: the longest prefix of `s` that does not end with white space. */
  function TrimEnd(s: string): (r: string)
    ensures |r| <= |s| && r == s[..|r|]
    ensures Blank(s[|r|..])
    ensures r == [] || !IsSpace(r[|r| - 1])
  {
    s[..ContentEnd(s, |s|)]
  }

  /** `s.strip()`. */
  function Strip(s: string): string {
    TrimEnd(TrimStart(s))
  }

  /** A line strips to the empty string exactly when it is all white space. */
  lemma StripEmptyIffBlank(s: string)
    ensures Strip(s) == [] <==> Blank(s)
  {
    var t := TrimStart(s);
    if Strip(s) == [] {
      assert Blank(t) by { assert t[|TrimEnd(t)|..] == t; }
      assert t == [];
      assert s[..|s|] == s;
    }
  }

  /**
   * `s.split(c)` generalised to a set of separator characters: the pieces
   * between consecutive separators, including the empty ones.
   */
  function SplitBy(s: string, isSep: char -> bool): (r: seq<string>)
    ensures |r| >= 1
    decreases |s|
  {
    if s == [] then [""]
    else if isSep(s[0]) then [""] + SplitBy(s[1..], isSep)
    else
      var rest := SplitBy(s[1..], isSep);
      [[s[0]] + rest[0]] + rest[1..]
  }

  /** No piece of a split holds a separator. */
  lemma {:induction false} SplitByNoneIn(s: string, isSep: char -> bool)
    ensures forall k :: 0 <= k < |SplitBy(s, isSep)| ==> NoneIn(SplitBy(s, isSep)[k], isSep)
    decreases |s|
  {
    if s != [] {
      SplitByNoneIn(s[1..], isSep);
      var rest := SplitBy(s[1..], isSep);
      var r := SplitBy(s, isSep);
      if isSep(s[0]) {
        assert r == [""] + rest;
        forall k | 0 < k < |r| ensures NoneIn(r[k], isSep) {
          assert r[k] == rest[k - 1] && NoneIn(rest[k - 1], isSep);
        }
      } else {
        var first := [s[0]] + rest[0];
        assert r == [first] + rest[1..];
        assert NoneIn(first, isSep) by {
          forall i | 0 <= i < |first| ensures !isSep(first[i]) {
            if i > 0 { assert first[i] == rest[0][i - 1] && NoneIn(rest[0], isSep); }
          }
        }
        forall k | 0 < k < |r| ensures NoneIn(r[k], isSep) {
          assert r[k] == rest[k] && NoneIn(rest[k], isSep);
        }
      }
    }
  }

  /** A text without separators is one piece. */
  lemma {:induction false} SplitByNoSep(a: string, isSep: char -> bool)
    requires NoneIn(a, isSep)
    ensures SplitBy(a, isSep) == [a]
    decreases |a|
  {
    if a != [] {
      assert !isSep(a[0]);
      assert NoneIn(a[1..], isSep) by {
        forall k | 0 <= k < |a[1..]| ensures !isSep(a[1..][k]) { assert a[1..][k] == a[k + 1]; }
      }
      SplitByNoSep(a[1..], isSep);
      assert [a[0]] + a[1..] == a;
    }
  }

  /** The first piece ends at the first separator; the rest is split afresh. */
  lemma {:induction false} SplitByAt(a: string, c: char, b: string, isSep: char -> bool)
    requires NoneIn(a, isSep) && isSep(c)
    ensures SplitBy(a + [c] + b, isSep) == [a] + SplitBy(b, isSep)
    decreases |a|
  {
    var s := a + [c] + b;
    if a == [] {
      assert s == [c] + b && s[0] == c && s[1..] == b;
    } else {
      assert s[0] == a[0] && !isSep(a[0]);
      assert s[1..] == a[1..] + [c] + b;
      SplitByAt(a[1..], c, b, isSep);
      var rest := SplitBy(s[1..], isSep);
      assert rest == [a[1..]] + SplitBy(b, isSep);
      assert rest[0] == a[1..] && rest[1..] == SplitBy(b, isSep);
      assert [a[0]] + a[1..] == a;
    }
  }

  /**
   * The first piece runs up to the first separator, or is the whole text when
   * there is none; after that separator the rest is split afresh.
   */
  lemma {:induction false} SplitByHead(s: string, isSep: char -> bool)
    ensures var r := SplitBy(s, isSep);
      && (|r| == 1 <==> NoneIn(s, isSep))
      && r[0] <= s
      && (|r| == 1 ==> r[0] == s)
      && (|r| > 1 ==> |r[0]| < |s| && isSep(s[|r[0]|]) && r[1..] == SplitBy(s[|r[0]| + 1..], isSep))
    decreases |s|
  {
    if s != [] && !isSep(s[0]) {
      SplitByHead(s[1..], isSep);
      var rest := SplitBy(s[1..], isSep);
      var r := SplitBy(s, isSep);
      assert r == [[s[0]] + rest[0]] + rest[1..];
      assert s == [s[0]] + s[1..];
      assert NoneIn(s, isSep) <==> NoneIn(s[1..], isSep) by {
        if NoneIn(s[1..], isSep) {
          forall i | 0 <= i < |s| ensures !isSep(s[i]) {
            if i > 0 { assert s[i] == s[1..][i - 1]; }
          }
        }
      }
      if |r| > 1 {
        assert s[|r[0]|] == s[1..][|rest[0]|];
        assert s[|r[0]| + 1..] == s[1..][|rest[0]| + 1..];
      }
    }
  }

  /** With a separator present, the first piece is the text before the first separator. */
  lemma SplitByFirstSep(s: string, isSep: char -> bool)
    requires |SplitBy(s, isSep)| > 1
    ensures var r := SplitBy(s, isSep);
      |r[0]| < |s| && r[0] == s[..|r[0]|] && isSep(s[|r[0]|])
  {
    SplitByHead(s, isSep);
  }

  /** With a separator present, the pieces after the first are the split of the rest. */
  lemma {:induction false} SplitByRest(s: string, isSep: char -> bool)
    requires |SplitBy(s, isSep)| > 1
    ensures var r := SplitBy(s, isSep);
      |r[0]| < |s| && r[1..] == SplitBy(s[|r[0]| + 1..], isSep)
    decreases |s|
  {
    if !isSep(s[0]) {
      var rest := SplitBy(s[1..], isSep);
      SplitByRest(s[1..], isSep);
      assert s[|rest[0]| + 2..] == s[1..][|rest[0]| + 1..];
    }
  }

  /** The first piece is a prefix of the text. */
  lemma {:induction false} SplitByFirstPrefix(s: string, isSep: char -> bool)
    ensures var r := SplitBy(s, isSep); |r[0]| <= |s| && r[0] == s[..|r[0]|]
    decreases |s|
  {
    if s != [] && !isSep(s[0]) {
      SplitByFirstPrefix(s[1..], isSep);
    }
  }

  /** The second piece starts right after the first separator. */
  lemma SplitBySecondPiece(s: string, isSep: char -> bool)
    requires |SplitBy(s, isSep)| > 1
    ensures var r := SplitBy(s, isSep); var n := |r[0]| + 1 + |r[1]|;
      n <= |s| && r[1] == s[|r[0]| + 1..n]
  {
    var r := SplitBy(s, isSep);
    SplitByRest(s, isSep);
    var tail := s[|r[0]| + 1..];
    SplitByFirstPrefix(tail, isSep);
    assert r[1] == SplitBy(tail, isSep)[0];
    assert tail[..|r[1]|] == s[|r[0]| + 1..|r[0]| + 1 + |r[1]|];
  }

  /** The second piece runs up to the next separator, or to the end. */
  lemma SplitBySecondEnd(s: string, isSep: char -> bool)
    requires |SplitBy(s, isSep)| > 1
    ensures var r := SplitBy(s, isSep); var n := |r[0]| + 1 + |r[1]|;
      n <= |s| && (n == |s| || isSep(s[n]))
  {
    var r := SplitBy(s, isSep);
    SplitByRest(s, isSep);
    var tail := s[|r[0]| + 1..];
    SplitByHead(tail, isSep);
    assert r[1] == SplitBy(tail, isSep)[0];
    var n := |r[0]| + 1 + |r[1]|;
    if n < |s| {
      assert s[n] == tail[|r[1]|];
    }
  }

  /** A split into exactly two pieces is the first piece, one separator and the second piece. */
  lemma SplitByTwo(s: string, isSep: char -> bool)
    requires |SplitBy(s, isSep)| == 2
    ensures var r := SplitBy(s, isSep);
      && |r[0]| < |s| && isSep(s[|r[0]|])
      && s == r[0] + [s[|r[0]|]] + r[1]
      && NoneIn(r[0], isSep) && NoneIn(r[1], isSep)
  {
    var r := SplitBy(s, isSep);
    SplitByHead(s, isSep);
    var rest := s[|r[0]| + 1..];
    assert SplitBy(rest, isSep) == r[1..];
    SplitByHead(rest, isSep);
    SplitByNoneIn(s, isSep);
    assert r[0] == s[..|r[0]|];
  }

  /** Text made of lines none of which is empty: no leading, trailing or doubled newline. */
  predicate NoEmptyLines(s: string) {
    && s != "" && s[0] != '\n' && s[|s| - 1] != '\n'
    && forall i :: 0 <= i < |s| - 1 ==> !(s[i] == '\n' && s[i + 1] == '\n')
  }

  /**
   * Without a trailing or doubled newline, only the first line can be empty,
   * and it is empty exactly when the text starts with a newline.
   */
  lemma {:induction false} SplitLinesNonEmpty(s: string)
    requires s != "" && s[|s| - 1] != '\n'
    requires forall i :: 0 <= i < |s| - 1 ==> !(s[i] == '\n' && s[i + 1] == '\n')
    ensures var r := SplitBy(s, IsNewline);
      (r[0] == "" <==> s[0] == '\n') && forall k :: 1 <= k < |r| ==> r[k] != ""
    decreases |s|
  {
    var t := s[1..];
    if t != "" {
      assert t[|t| - 1] == s[|s| - 1];
      forall i | 0 <= i < |t| - 1 ensures !(t[i] == '\n' && t[i + 1] == '\n') {
        assert t[i] == s[i + 1] && t[i + 1] == s[i + 2];
      }
      SplitLinesNonEmpty(t);
      if s[0] == '\n' {
        assert t[0] == s[1];
      }
    }
  }

  /** Joining the lines of a text with newlines gives the text back. */
  lemma {:induction false} JoinSplitLines(s: string)
    ensures Join(SplitBy(s, IsNewline), "\n") == s
    decreases |s|
  {
    if s != [] {
      var rest := SplitBy(s[1..], IsNewline);
      JoinSplitLines(s[1..]);
      if s[0] == '\n' {
        assert SplitBy(s, IsNewline) == [""] + rest;
        assert ([""] + rest)[1..] == rest;
        assert s == "\n" + s[1..];
      } else {
        var first := [s[0]] + rest[0];
        assert SplitBy(s, IsNewline) == [first] + rest[1..];
        assert s == [s[0]] + s[1..];
        if |rest| > 1 {
          assert ([first] + rest[1..])[1..] == rest[1..];
          assert Join(rest, "\n") == rest[0] + "\n" + Join(rest[1..], "\n");
        }
      }
    }
  }

  /** Python's `str.splitlines`, except that a `\r\n` pair or a final line break yields an extra blank piece. */
  function Lines(s: string): seq<string> {
    SplitBy(s, IsLineBreak)
  }

  /** `sep.join(xs)`. */
  function Join(xs: seq<string>, sep: string): (r: string)
    ensures xs != [] ==> |r| >= |xs[0]|
  {
    if |xs| == 0 then ""
    else if |xs| == 1 then xs[0]
    else xs[0] + sep + Join(xs[1..], sep)
  }

  /** Joining pieces that are all non-empty gives "" only for no pieces. */
  lemma JoinEmptyIffNone(xs: seq<string>, sep: string)
    requires forall k :: 0 <= k < |xs| ==> xs[k] != ""
    ensures Join(xs, sep) == "" <==> xs == []
  {
    if xs != [] {
      assert xs[0] != "";
    }
  }

  /** `s` with every character satisfying `p` removed. */
  function Without(s: string, p: char -> bool): (r: string)
    ensures NoneIn(r, p)
  {
    if s == [] then ""
    else if p(s[0]) then Without(s[1..], p)
    else [s[0]] + Without(s[1..], p)
  }

  /** Removing characters that do not occur changes nothing. */
  lemma {:induction false} WithoutNoneIn(s: string, p: char -> bool)
    requires NoneIn(s, p)
    ensures Without(s, p) == s
    decreases |s|
  {
    if s != [] {
      WithoutNoneIn(s[1..], p);
      assert s == [s[0]] + s[1..];
    }
  }

  /** Gluing the pieces of a split back together only loses the separators. */
  lemma {:induction false} ConcatSplitBy(s: string, isSep: char -> bool)
    ensures Join(SplitBy(s, isSep), "") == Without(s, isSep)
    decreases |s|
  {
    if s != [] {
      ConcatSplitBy(s[1..], isSep);
      var rest := SplitBy(s[1..], isSep);
      if isSep(s[0]) {
        assert SplitBy(s, isSep) == [""] + rest;
        JoinCons("", rest, "");
      } else {
        var first := [s[0]] + rest[0];
        assert SplitBy(s, isSep) == [first] + rest[1..];
        JoinCons(first, rest[1..], "");
        JoinHead(rest, "");
        assert Join(SplitBy(s, isSep), "") == [s[0]] + Join(rest, "");
      }
    }
  }

  /** Joining with the empty separator: the head followed by the join of the tail. */
  lemma JoinHead(xs: seq<string>, sep: string)
    requires xs != [] && sep == ""
    ensures Join(xs, sep) == xs[0] + Join(xs[1..], sep)
  {
  }

  lemma JoinCons(x: string, xs: seq<string>, sep: string)
    requires sep == ""
    ensures Join([x] + xs, sep) == x + Join(xs, sep)
  {
    assert ([x] + xs)[1..] == xs;
  }

  /** Concatenating two lists of pieces concatenates their joins. */
  lemma {:induction false} JoinAppend(xs: seq<string>, ys: seq<string>)
    ensures Join(xs + ys, "") == Join(xs, "") + Join(ys, "")
    decreases |xs|
  {
    if xs != [] {
      JoinAppend(xs[1..], ys);
      assert xs + ys == [xs[0]] + (xs[1..] + ys);
      JoinCons(xs[0], xs[1..] + ys, "");
      JoinHead(xs, "");
      calc {
        Join(xs + ys, "");
        xs[0] + Join(xs[1..] + ys, "");
        xs[0] + (Join(xs[1..], "") + Join(ys, ""));
        (xs[0] + Join(xs[1..], "")) + Join(ys, "");
        Join(xs, "") + Join(ys, "");
      }
    } else {
      assert xs + ys == ys;
    }
  }

  /** `sub in s`. */
  predicate Contains(s: string, sub: string)
    decreases |s|
  {
    sub <= s || (s != [] && Contains(s[1..], sub))
  }

  /** `sub` occurs in `s` starting at index `i`. */
  predicate OccursAt(s: string, sub: string, i: int) {
    0 <= i && i + |sub| <= |s| && s[i..i + |sub|] == sub
  }

  /** `s.find(sub, from)`: the first index from `from` on at which `sub` occurs, or -1. */
  function FindFrom(s: string, sub: string, from: nat): (r: int)
    ensures r == -1 || (from <= r && OccursAt(s, sub, r))
    decreases |s| - from
  {
    if from + |sub| > |s| then -1
    else if s[from..from + |sub|] == sub then from
    else FindFrom(s, sub, from + 1)
  }

  /** `FindFrom` finds the first occurrence: there is none between `from` and it. */
  lemma {:induction false} FindFromIsFirst(s: string, sub: string, from: nat)
    ensures forall j :: from <= j && (FindFrom(s, sub, from) < 0 || j < FindFrom(s, sub, from)) ==> !OccursAt(s, sub, j)
    decreases |s| - from
  {
    if from + |sub| <= |s| && s[from..from + |sub|] != sub {
      FindFromIsFirst(s, sub, from + 1);
    }
  }

  /** `s.find(sub)`. */
  function FindFirst(s: string, sub: string): int {
    FindFrom(s, sub, 0)
  }

  /** `s.rfind(sub)`: the last index at which `sub` occurs, or -1. */
  function FindLast(s: string, sub: string): (r: int)
    ensures -1 <= r <= |s|
    ensures r >= 0 ==> OccursAt(s, sub, r)
    decreases |s|
  {
    if |s| < |sub| then -1
    else if s[|s| - |sub|..] == sub then |s| - |sub|
    else
      var k := FindLast(s[..|s| - 1], sub);
      if k >= 0 then
        assert s[..|s| - 1][k..k + |sub|] == s[k..k + |sub|];
        k
      else k
  }

  /** `FindLast` finds the last occurrence: there is none after it. */
  lemma {:induction false} FindLastIsLast(s: string, sub: string)
    ensures var r := FindLast(s, sub); forall j :: r < j ==> !OccursAt(s, sub, j)
    decreases |s|
  {
    if |s| >= |sub| && s[|s| - |sub|..] != sub {
      FindLastIsLast(s[..|s| - 1], sub);
      forall j | FindLast(s, sub) < j && OccursAt(s, sub, j) ensures OccursAt(s[..|s| - 1], sub, j) {
        assert s[..|s| - 1][j..j + |sub|] == s[j..j + |sub|];
      }
    }
  }

  /**
   * `s.rsplit(sep, 1)[0]`: the text before the last occurrence of `sep`, or
   * all of `s` when `sep` does not occur.
   */
  function BeforeLast(s: string, sep: string): (r: string)
    requires sep != ""
    ensures r <= s
    ensures r == s ==> forall j :: !OccursAt(s, sep, j)
    ensures r != s ==> OccursAt(s, sep, |r|) && forall j :: |r| < j ==> !OccursAt(s, sep, j)
  {
    var i := FindLast(s, sep);
    FindLastIsLast(s, sep);
    if i < 0 then s else s[..i]
  }

  /**
   * Where the last piece of `s.split(sep)` starts when the scan for separators
   * begins at `from`: just after the last separator found scanning from the
   * left, or `from` when `sep` does not occur from there on.
   */
  function LastPieceFrom(s: string, sep: string, from: nat): (k: nat)
    requires sep != "" && from <= |s|
    ensures from <= k <= |s|
    decreases |s| - from
  {
    var i := FindFrom(s, sep, from);
    if i < 0 then from else LastPieceFrom(s, sep, i + |sep|)
  }

  /** `s.split(sep)[-1]`. */
  function LastPiece(s: string, sep: string): string
    requires sep != ""
  {
    s[LastPieceFrom(s, sep, 0)..]
  }

  /** The last piece starts where the scan began, or right after an occurrence of `sep`. */
  lemma {:induction false} LastPieceFollowsSep(s: string, sep: string, from: nat)
    requires sep != "" && from <= |s|
    ensures var k := LastPieceFrom(s, sep, from);
      k == from || (|sep| <= k && OccursAt(s, sep, k - |sep|))
    decreases |s| - from
  {
    var i := FindFrom(s, sep, from);
    if i >= 0 {
      LastPieceFollowsSep(s, sep, i + |sep|);
    }
  }

  /** No occurrence of `sep` starts inside the last piece. */
  lemma {:induction false} LastPieceHasNoSep(s: string, sep: string, from: nat)
    requires sep != "" && from <= |s|
    ensures forall j :: LastPieceFrom(s, sep, from) <= j ==> !OccursAt(s, sep, j)
    decreases |s| - from
  {
    var i := FindFrom(s, sep, from);
    FindFromIsFirst(s, sep, from);
    if i >= 0 {
      LastPieceHasNoSep(s, sep, i + |sep|);
    }
  }

  /** `PurePosixPath(name).suffix`: from the last dot on, unless that dot starts or ends the name. */
  function Suffix(name: string): string {
    var i := FindLast(name, ".");
    if 0 < i < |name| - 1 then name[i..] else ""
  }

  /** `PurePosixPath(name).stem`: the name without its suffix. */
  function Stem(name: string): string {
    var i := FindLast(name, ".");
    if 0 < i < |name| - 1 then name[..i] else name
  }

  /** Stem and suffix split the name; a non-empty suffix is a dot followed by dot-free text. */
  lemma StemAndSuffix(name: string)
    ensures Stem(name) + Suffix(name) == name
    ensures Suffix(name) == "" || (Suffix(name)[0] == '.' && |Suffix(name)| >= 2 && '.' !in Suffix(name)[1..])
  {
    var i := FindLast(name, ".");
    FindLastIsLast(name, ".");
    if 0 < i < |name| - 1 {
      assert name[i..i + 1] == ".";
      forall j | i < j < |name| ensures name[j] != '.' {
        assert name[j..j + 1] == [name[j]];
        assert !OccursAt(name, ".", j);
      }
    }
  }

  /** `c * n`. */
  function Repeat(c: char, n: nat): (r: string)
    ensures |r| == n
    ensures forall k :: 0 <= k < n ==> r[k] == c
  {
    if n == 0 then "" else [c] + Repeat(c, n - 1)
  }
}

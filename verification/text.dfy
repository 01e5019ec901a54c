/** The pieces of Python's `str` API that the request handlers rely on:
    `isspace`, `strip`, `splitlines` and `sep.join`, over `seq<char>`. */
module Text {

  /** Python's `str.isspace`: the code points whose bidirectional class is
      WS, B or S, or whose category is Zs. */
  predicate IsSpace(c: char) {
    var n := c as int;
    (0x09 <= n <= 0x0D) || (0x1C <= n <= 0x20) || n == 0x85 || n == 0xA0 || n == 0x1680
    || (0x2000 <= n <= 0x200A) || n == 0x2028 || n == 0x2029 || n == 0x202F
    || n == 0x205F || n == 0x3000
  }

  /** The characters at which Python's `str.splitlines` ends a line
      (`\r\n` is additionally taken as a single boundary). */
  predicate IsLineBreak(c: char) {
    var n := c as int;
    (0x0A <= n <= 0x0D) || (0x1C <= n <= 0x1E) || n == 0x85 || n == 0x2028 || n == 0x2029
  }

  /** A string holding nothing but whitespace (the empty string included). */
  predicate IsBlank(s: string) {
    forall c :: c in s ==> IsSpace(c)
  }

  /** The non-whitespace characters of `s`, in order: what survives any
      amount of stripping and re-joining with line breaks. */
  function NonSpace(s: string): string {
    if s == [] then []
    else
      (if IsSpace(s[0]) then [] else [s[0]]) + NonSpace(s[1..])
  }

  lemma {:induction false} NonSpaceAppend(a: string, b: string)
    ensures NonSpace(a + b) == NonSpace(a) + NonSpace(b)
    decreases |a|
  {
    if a == [] {
      assert a + b == b;
    } else {
      assert (a + b)[0] == a[0];
      assert (a + b)[1..] == a[1..] + b;
      NonSpaceAppend(a[1..], b);
    }
  }

  lemma {:induction false} NonSpaceEmptyIffBlank(s: string)
    ensures NonSpace(s) == [] <==> IsBlank(s)
    decreases |s|
  {
    if s != [] {
      NonSpaceEmptyIffBlank(s[1..]);
      assert forall c :: c in s <==> c == s[0] || c in s[1..];
    }
  }

  /** Python's `sep.join(xs)`. */
  function Join(xs: seq<string>, sep: string): string {
    if |xs| == 0 then []
    else if |xs| == 1 then xs[0]
    else xs[0] + sep + Join(xs[1..], sep)
  }

  /** A join starts with the first element. */
  lemma JoinFirst(xs: seq<string>, sep: string)
    requires xs != []
    ensures |xs[0]| <= |Join(xs, sep)| && Join(xs, sep)[..|xs[0]|] == xs[0]
  {
  }

  /** Joining two non-empty lists is joining their joins. */
  lemma {:induction false} JoinAppend(a: seq<string>, b: seq<string>, sep: string)
    requires a != [] && b != []
    ensures Join(a + b, sep) == Join(a, sep) + sep + Join(b, sep)
    decreases |a|
  {
    if |a| == 1 {
      assert (a + b)[1..] == b;
    } else {
      assert (a + b)[1..] == a[1..] + b;
      JoinAppend(a[1..], b, sep);
    }
  }

  /** Joining with a whitespace separator keeps exactly the non-whitespace
      characters of the concatenation. */
  lemma {:induction false} NonSpaceJoin(xs: seq<string>, sep: string)
    requires IsBlank(sep)
    ensures NonSpace(Join(xs, sep)) == NonSpace(Flatten(xs))
    decreases |xs|
  {
    if |xs| == 0 {
    } else if |xs| == 1 {
      assert Flatten(xs) == xs[0] + Flatten(xs[1..]);
      assert Flatten(xs[1..]) == [];
      assert xs[0] + [] == xs[0];
    } else {
      NonSpaceJoin(xs[1..], sep);
      NonSpaceEmptyIffBlank(sep);
      NonSpaceAppend(xs[0] + sep, Join(xs[1..], sep));
      NonSpaceAppend(xs[0], sep);
      NonSpaceAppend(xs[0], Flatten(xs[1..]));
    }
  }

  /** Python's `s.lstrip()`: drop leading whitespace. */
  function TrimStart(s: string): (r: string)
    ensures |r| <= |s| && r == s[|s| - |r|..]
    ensures r == [] || !IsSpace(r[0])
    ensures forall i :: 0 <= i < |s| - |r| ==> IsSpace(s[i])
    decreases |s|
  {
    if s != [] && IsSpace(s[0]) then TrimStart(s[1..]) else s
  }

  /** Python's `s.rstrip()`: drop trailing whitespace. */
  function TrimEnd(s: string): (r: string)
    ensures |r| <= |s| && r == s[..|r|]
    ensures r == [] || !IsSpace(r[|r| - 1])
    ensures forall i :: |r| <= i < |s| ==> IsSpace(s[i])
    decreases |s|
  {
    if s != [] && IsSpace(s[|s| - 1]) then TrimEnd(s[..|s| - 1]) else s
  }

  lemma {:induction false} NonSpaceOfBlank(s: string)
    requires forall i :: 0 <= i < |s| ==> IsSpace(s[i])
    ensures NonSpace(s) == []
    decreases |s|
  {
    if s != [] {
      assert IsSpace(s[0]);
      NonSpaceOfBlank(s[1..]);
    }
  }

  /** A string with no whitespace at either end. */
  predicate IsTrimmed(s: string) {
    s == [] || (!IsSpace(s[0]) && !IsSpace(s[|s| - 1]))
  }

  /** Dropping a blank prefix and a blank suffix keeps the non-whitespace text. */
  lemma NonSpaceSurround(pre: string, mid: string, post: string)
    requires NonSpace(pre) == [] && NonSpace(post) == []
    ensures NonSpace(pre + mid + post) == NonSpace(mid)
  {
    NonSpaceAppend(pre + mid, post);
    NonSpaceAppend(pre, mid);
  }

  lemma TrimmedNonSpace(s: string, i: nat, j: nat)
    requires i <= j <= |s|
    requires forall k :: 0 <= k < i ==> IsSpace(s[k])
    requires forall k :: j <= k < |s| ==> IsSpace(s[k])
    ensures NonSpace(s[i..j]) == NonSpace(s)
  {
    var pre, mid, post := s[..i], s[i..j], s[j..];
    forall k | 0 <= k < |pre| ensures IsSpace(pre[k]) {
      assert pre[k] == s[k];
    }
    forall k | 0 <= k < |post| ensures IsSpace(post[k]) {
      assert post[k] == s[j + k];
    }
    NonSpaceOfBlank(pre);
    NonSpaceOfBlank(post);
    NonSpaceSurround(pre, mid, post);
    SliceSplit(s, i, j);
  }

  /** Python's `s.strip()`: it removes whitespace from both ends and nothing
      else, so the non-whitespace characters are kept in order, and the
      result is empty exactly when `s` is blank. */
  function Strip(s: string): (r: string)
    ensures IsTrimmed(r)
    ensures exists i, j :: 0 <= i <= j <= |s| && r == s[i..j] && IsBlank(s[..i]) && IsBlank(s[j..])
    ensures NonSpace(r) == NonSpace(s)
    ensures r == [] <==> IsBlank(s)
  {
    var t := TrimStart(s);
    var r := TrimEnd(t);
    StripKeepsNonSpace(s, t, r);
    TrimmedBlank(s, r);
    r
  }

  lemma StripKeepsNonSpace(s: string, t: string, r: string)
    requires t == TrimStart(s) && r == TrimEnd(t)
    ensures exists i, j :: 0 <= i <= j <= |s| && r == s[i..j] && IsBlank(s[..i]) && IsBlank(s[j..])
    ensures NonSpace(r) == NonSpace(s)
  {
    var i := |s| - |t|;
    var j := i + |r|;
    TrimEndSuffix(s, t, r, i, j);
    TrimmedNonSpace(s, i, j);
    BlankSlices(s, i, j);
    assert 0 <= i <= j <= |s| && r == s[i..j] && IsBlank(s[..i]) && IsBlank(s[j..]);
  }

  /** Where the two trims cut `s`: the stripped text is `s[i..j]`, with
      whitespace before `i` and from `j` on. */
  lemma TrimEndSuffix(s: string, t: string, r: string, i: nat, j: nat)
    requires t == TrimStart(s) && r == TrimEnd(t)
    requires i == |s| - |t| && j == i + |r|
    ensures i <= j <= |s| && r == s[i..j]
    ensures forall k :: 0 <= k < i ==> IsSpace(s[k])
    ensures forall k :: j <= k < |s| ==> IsSpace(s[k])
  {
    PrefixOfSuffix(s, t, r, i);
    BlankAfterPrefix(s, t, i, |r|);
  }

  /** A prefix of the suffix `s[i..]` is a slice of `s`. */
  lemma PrefixOfSuffix(s: string, t: string, r: string, i: nat)
    requires i <= |s| && t == s[i..] && |r| <= |t| && r == t[..|r|]
    ensures i + |r| <= |s| && r == s[i..i + |r|]
  {
  }

  /** Whitespace at the end of the suffix `s[i..]` is whitespace at the
      end of `s`. */
  lemma BlankAfterPrefix(s: string, t: string, i: nat, n: nat)
    requires i <= |s| && t == s[i..] && n <= |t|
    requires forall k :: n <= k < |t| ==> IsSpace(t[k])
    ensures forall k :: i + n <= k < |s| ==> IsSpace(s[k])
  {
    forall k | i + n <= k < |s|
      ensures IsSpace(s[k])
    {
      assert s[k] == t[k - i];
    }
  }

  lemma BlankSlices(s: string, i: nat, j: nat)
    requires i <= j <= |s|
    requires forall k :: 0 <= k < i ==> IsSpace(s[k])
    requires forall k :: j <= k < |s| ==> IsSpace(s[k])
    ensures IsBlank(s[..i]) && IsBlank(s[j..])
  {
    forall c | c in s[..i]
      ensures IsSpace(c)
    {
      var k :| 0 <= k < i && s[..i][k] == c;
    }
    forall c | c in s[j..]
      ensures IsSpace(c)
    {
      var k :| 0 <= k < |s| - j && s[j..][k] == c;
      assert c == s[j + k];
    }
  }

  lemma TrimmedBlank(s: string, r: string)
    requires NonSpace(r) == NonSpace(s) && IsTrimmed(r)
    ensures r == [] <==> IsBlank(s)
  {
    NonSpaceEmptyIffBlank(s);
    if r != [] {
      assert NonSpace(r) == [r[0]] + NonSpace(r[1..]);
    }
  }

  /** The index of the first line break in `s`, or `|s|` when there is none. */
  function FirstBreak(s: string): (i: nat)
    ensures i <= |s|
    ensures forall j :: 0 <= j < i ==> !IsLineBreak(s[j])
    ensures i < |s| ==> IsLineBreak(s[i])
    decreases |s|
  {
    if s == [] || IsLineBreak(s[0]) then 0 else 1 + FirstBreak(s[1..])
  }

  /** The index just past the line boundary that starts at `i`: a `\r\n`
      pair is one boundary. */
  function PastBreak(s: string, i: nat): (k: nat)
    requires i < |s|
    ensures i < k <= |s|
  {
    if s[i] == '\r' && i + 1 < |s| && s[i + 1] == '\n' then i + 2 else i + 1
  }

  /** Python's `s.splitlines()`: the lines of `s` without their terminators;
      a terminator at the very end does not open an empty last line. */
  function SplitLines(s: string): (lines: seq<string>)
    ensures s != [] ==> |lines| >= 1
    decreases |s|
  {
    if s == [] then []
    else
      var i := FirstBreak(s);
      if i == |s| then [s]
      else [s[..i]] + SplitLines(s[PastBreak(s, i)..])
  }

  /** A non-empty text without a line break is a single line. */
  lemma SplitLinesOneLine(x: string)
    requires x != [] && NoBreak(x)
    ensures SplitLines(x) == [x]
  {
  }

  /** A line boundary: `\r\n`, or one line-break character that is not a
      `\r` directly followed by `\n`. */
  predicate IsBoundary(b: string, y: string) {
    b == "\r\n" || (|b| == 1 && IsLineBreak(b[0]) && !(b[0] == '\r' && y != [] && y[0] == '\n'))
  }

  /** `splitlines` cuts at the first boundary: the text before it is the
      first line, and the text after it is split in the same way. With
      `SplitLinesOneLine` and the empty case this fixes every cut and so
      the number of lines. */
  lemma {:induction false} SplitLinesAtBoundary(x: string, b: string, y: string)
    requires NoBreak(x) && IsBoundary(b, y)
    ensures SplitLines(x + b + y) == [x] + SplitLines(y)
  {
    var s := x + (b + y);
    SeqAssoc(x, b, y);
    FirstBreakAppend(x, b + y);
    assert FirstBreak(x) == |x|;
    assert (b + y)[0] == b[0];
    assert FirstBreak(s) == |x|;
    assert s[|x|] == b[0];
    if b == "\r\n" {
      assert s[|x| + 1] == '\n';
    } else if b[0] == '\r' && |x| + 1 < |s| {
      assert s[|x| + 1] == y[0];
    }
    assert PastBreak(s, |x|) == |x| + |b|;
    SliceOfAppend(x, b + y, |x|);
    assert s[|x| + |b|..] == y;
  }

  /** `len(s.splitlines())`, the line count the splitter budgets with. */
  function LineCount(s: string): nat {
    |SplitLines(s)|
  }

  lemma LineBreakIsSpace(c: char)
    ensures IsLineBreak(c) ==> IsSpace(c)
  {
  }

  /** Splitting into lines loses only the line terminators, which are whitespace. */
  lemma {:induction false} SplitLinesNonSpace(s: string)
    ensures NonSpace(Flatten(SplitLines(s))) == NonSpace(s)
    decreases |s|
  {
    if s != [] {
      var i := FirstBreak(s);
      if i == |s| {
        assert SplitLines(s) == [s];
        assert Flatten(SplitLines(s)) == s + Flatten([]);
        assert s + [] == s;
      } else {
        var k := PastBreak(s, i);
        SplitLinesNonSpace(s[k..]);
        SplitLinesNonSpaceStep(s, i, k);
      }
    }
  }

  /** A string without line terminators. */
  predicate NoBreak(s: string) {
    forall c :: c in s ==> !IsLineBreak(c)
  }

  /** `s` with its line terminators removed and every other character kept. */
  function DropBreaks(s: string): string {
    if s == [] then []
    else
      (if IsLineBreak(s[0]) then [] else [s[0]]) + DropBreaks(s[1..])
  }

  lemma {:induction false} DropBreaksAppend(a: string, b: string)
    ensures DropBreaks(a + b) == DropBreaks(a) + DropBreaks(b)
    decreases |a|
  {
    if a == [] {
      assert a + b == b;
    } else {
      assert (a + b)[0] == a[0];
      assert (a + b)[1..] == a[1..] + b;
      DropBreaksAppend(a[1..], b);
    }
  }

  lemma {:induction false} DropBreaksNone(s: string)
    requires forall k :: 0 <= k < |s| ==> !IsLineBreak(s[k])
    ensures DropBreaks(s) == s
    decreases |s|
  {
    if s != [] {
      DropBreaksNone(s[1..]);
    }
  }

  /** No line holds a terminator, and the lines together are `s` with
      exactly its terminators removed: every other character, whitespace
      included, is kept in order. */
  lemma {:induction false} SplitLinesDropsBreaks(s: string)
    ensures forall k :: 0 <= k < |SplitLines(s)| ==> NoBreak(SplitLines(s)[k])
    ensures Flatten(SplitLines(s)) == DropBreaks(s)
    decreases |s|
  {
    if s != [] {
      var i := FirstBreak(s);
      if i == |s| {
        assert SplitLines(s) == [s];
        assert Flatten(SplitLines(s)) == s + Flatten([]);
        assert s + [] == s;
        DropBreaksNone(s);
      } else {
        var k := PastBreak(s, i);
        SplitLinesDropsBreaks(s[k..]);
        SplitLinesDropsBreaksStep(s, i, k);
      }
    }
  }

  lemma SplitLinesDropsBreaksStep(s: string, i: nat, k: nat)
    requires i == FirstBreak(s) < |s| && k == PastBreak(s, i)
    requires forall m :: 0 <= m < |SplitLines(s[k..])| ==> NoBreak(SplitLines(s[k..])[m])
    requires Flatten(SplitLines(s[k..])) == DropBreaks(s[k..])
    ensures forall m :: 0 <= m < |SplitLines(s)| ==> NoBreak(SplitLines(s)[m])
    ensures Flatten(SplitLines(s)) == DropBreaks(s)
  {
    var lines := SplitLines(s[k..]);
    assert SplitLines(s) == [s[..i]] + lines;
    BeforeBreakClean(s, i);
    forall m | 0 <= m < |SplitLines(s)|
      ensures NoBreak(SplitLines(s)[m])
    {
      if m > 0 {
        assert SplitLines(s)[m] == lines[m - 1];
      }
    }
    assert Flatten(SplitLines(s)) == s[..i] + Flatten(lines);
    DropBreaksSplit(s, i, k);
  }

  /** The text before the first line break holds no break. */
  lemma BeforeBreakClean(s: string, i: nat)
    requires i == FirstBreak(s)
    ensures NoBreak(s[..i]) && DropBreaks(s[..i]) == s[..i]
  {
    var line := s[..i];
    forall m | 0 <= m < |line|
      ensures !IsLineBreak(line[m])
    {
      assert line[m] == s[m];
    }
    DropBreaksNone(line);
  }

  lemma DropBreaksSplit(s: string, i: nat, k: nat)
    requires i == FirstBreak(s) < |s| && k == PastBreak(s, i)
    ensures DropBreaks(s) == DropBreaks(s[..i]) + DropBreaks(s[k..])
  {
    var line, gap, rest := s[..i], s[i..k], s[k..];
    SliceSplit(s, i, k);
    DropBreaksAppend(line + gap, rest);
    DropBreaksAppend(line, gap);
    DropBreaksGap(s, i, k);
    assert DropBreaks(line) + [] == DropBreaks(line);
  }

  /** A line boundary is all terminators. */
  lemma DropBreaksGap(s: string, i: nat, k: nat)
    requires i == FirstBreak(s) < |s| && k == PastBreak(s, i)
    ensures DropBreaks(s[i..k]) == []
  {
    var gap := s[i..k];
    assert IsLineBreak(gap[0]);
    if k == i + 2 {
      assert gap[1..] == ['\n'];
      assert IsLineBreak('\n');
      assert DropBreaks(gap[1..]) == [] + DropBreaks(gap[1..][1..]);
    }
  }

  lemma SplitLinesNonSpaceStep(s: string, i: nat, k: nat)
    requires i == FirstBreak(s) < |s| && k == PastBreak(s, i)
    requires NonSpace(Flatten(SplitLines(s[k..]))) == NonSpace(s[k..])
    ensures NonSpace(Flatten(SplitLines(s))) == NonSpace(s)
  {
    var line, gap, rest := s[..i], s[i..k], s[k..];
    assert Flatten(SplitLines(s)) == line + Flatten(SplitLines(rest)) by {
      assert SplitLines(s) == [line] + SplitLines(rest);
    }
    NonSpaceAppend(line, Flatten(SplitLines(rest)));
    BreakGapBlank(s, i, k);
    NonSpaceDropGap(line, gap, rest);
    SliceSplit(s, i, k);
  }

  lemma SliceSplit<T>(s: seq<T>, i: nat, k: nat)
    requires i <= k <= |s|
    ensures s == s[..i] + s[i..k] + s[k..]
  {
  }

  lemma BreakGapBlank(s: string, i: nat, k: nat)
    requires i < |s| && IsLineBreak(s[i]) && k == PastBreak(s, i)
    ensures NonSpace(s[i..k]) == []
  {
    LineBreakIsSpace(s[i]);
    var gap := s[i..k];
    assert forall j :: 0 <= j < |gap| ==> gap[j] == s[i] || gap[j] == '\n';
    NonSpaceOfBlank(gap);
  }

  lemma NonSpaceDropGap(x: string, gap: string, y: string)
    requires NonSpace(gap) == []
    ensures NonSpace(x + gap + y) == NonSpace(x) + NonSpace(y)
  {
    NonSpaceAppend(x + gap, y);
    NonSpaceAppend(x, gap);
  }

  lemma {:induction false} FirstBreakAppend(x: string, y: string)
    ensures FirstBreak(x + y) == if FirstBreak(x) < |x| then FirstBreak(x) else |x| + FirstBreak(y)
    decreases |x|
  {
    if x == [] {
      assert x + y == y;
    } else {
      assert (x + y)[0] == x[0];
      assert (x + y)[1..] == x[1..] + y;
      FirstBreakAppend(x[1..], y);
    }
  }

  /** `a + "\n" + b` has the lines of `a` followed by the lines of `b`,
      provided `a` is non-empty and does not itself end with a terminator. */
  lemma {:induction false} SplitLinesJoin(a: string, b: string)
    requires a != [] && !IsLineBreak(a[|a| - 1])
    ensures SplitLines(a + "\n" + b) == SplitLines(a) + SplitLines(b)
    decreases |a|
  {
    var i := FirstBreak(a);
    if i == |a| {
      SplitLinesJoinLast(a, b);
    } else {
      var k := PastBreak(a, i);
      SplitLinesJoinStep(a, b, i, k);
      SplitLinesJoin(a[k..], b);
      SeqAssoc([a[..i]], SplitLines(a[k..]), SplitLines(b));
    }
  }

  lemma SeqAssoc<T>(x: seq<T>, y: seq<T>, z: seq<T>)
    ensures x + (y + z) == (x + y) + z
  {
  }

  lemma SplitLinesJoinLast(a: string, b: string)
    requires a != [] && FirstBreak(a) == |a|
    ensures SplitLines(a + "\n" + b) == [a] + SplitLines(b)
  {
    var s := a + "\n" + b;
    FirstBreakAppend(a, "\n" + b);
    assert s == a + ("\n" + b);
    assert FirstBreak("\n" + b) == 0;
    assert FirstBreak(s) == |a|;
    assert s[|a|] == '\n';
    assert PastBreak(s, |a|) == |a| + 1;
    assert s[..|a|] == a;
    assert s[|a| + 1..] == b;
  }

  lemma SplitLinesJoinStep(a: string, b: string, i: nat, k: nat)
    requires a != [] && !IsLineBreak(a[|a| - 1])
    requires i == FirstBreak(a) < |a| && k == PastBreak(a, i)
    ensures k < |a| && a[k..][|a[k..]| - 1] == a[|a| - 1]
    ensures SplitLines(a) == [a[..i]] + SplitLines(a[k..])
    ensures SplitLines(a + "\n" + b) == [a[..i]] + SplitLines(a[k..] + "\n" + b)
  {
    var s := a + ("\n" + b);
    SeqAssoc(a, "\n", b);
    FirstBreakAppend(a, "\n" + b);
    assert i < |a| - 1;
    assert s[i] == a[i] && s[i + 1] == a[i + 1];
    assert PastBreak(s, i) == k;
    SliceOfAppend(a, "\n" + b, i);
    SliceOfAppend(a, "\n" + b, k);
    SeqAssoc(a[k..], "\n", b);
  }

  lemma SliceOfAppend<T>(x: seq<T>, y: seq<T>, i: nat)
    requires i <= |x|
    ensures (x + y)[..i] == x[..i] && (x + y)[i..] == x[i..] + y
  {
  }

  /** The lines of a `"\n"`-join are the lines of its parts, when every part is
      non-empty and ends with a character other than a terminator. */
  lemma {:induction false} LineCountJoin(xs: seq<string>)
    requires forall k :: 0 <= k < |xs| ==> xs[k] != [] && !IsLineBreak(xs[k][|xs[k]| - 1])
    ensures LineCount(Join(xs, "\n")) == SumLines(xs)
    decreases |xs|
  {
    if |xs| == 1 {
      assert SumLines(xs) == LineCount(xs[0]) + SumLines([]);
    } else if |xs| > 1 {
      LineCountJoin(xs[1..]);
      SplitLinesJoin(xs[0], Join(xs[1..], "\n"));
    }
  }

  /** The total line count of a list of strings. */
  function SumLines(xs: seq<string>): nat {
    if xs == [] then 0 else LineCount(xs[0]) + SumLines(xs[1..])
  }

  lemma {:induction false} SumLinesAppend(a: seq<string>, b: seq<string>)
    ensures SumLines(a + b) == SumLines(a) + SumLines(b)
    decreases |a|
  {
    if a == [] {
      assert a + b == b;
    } else {
      assert (a + b)[1..] == a[1..] + b;
      SumLinesAppend(a[1..], b);
    }
  }

  /** A non-whitespace character occurs in `NonSpace(s)` exactly when it occurs in `s`. */
  lemma {:induction false} NonSpaceMember(s: string, c: char)
    requires !IsSpace(c)
    ensures c in NonSpace(s) <==> c in s
    decreases |s|
  {
    if s != [] {
      NonSpaceMember(s[1..], c);
      assert s == [s[0]] + s[1..];
    }
  }

  /** The concatenation of a list of groups; for a list of strings, the
      strings written one after another. */
  function Flatten<T>(groups: seq<seq<T>>): seq<T> {
    if groups == [] then [] else groups[0] + Flatten(groups[1..])
  }

  lemma FlattenCons<T>(g: seq<T>, gs: seq<seq<T>>)
    ensures Flatten([g] + gs) == g + Flatten(gs)
  {
    assert ([g] + gs)[1..] == gs;
  }

  lemma {:induction false} FlattenMember<T>(groups: seq<seq<T>>, i: nat, j: nat)
    requires i < |groups| && j < |groups[i]|
    ensures |groups[i]| <= |Flatten(groups)|
    ensures groups[i][j] in Flatten(groups)
    decreases i
  {
    FlattenCons(groups[0], groups[1..]);
    assert groups == [groups[0]] + groups[1..];
    if i > 0 {
      FlattenMember(groups[1..], i - 1, j);
    }
  }

  /** There are never more groups than statements. */
  lemma {:induction false} GroupCount<T>(groups: seq<seq<T>>)
    requires forall i :: 0 <= i < |groups| ==> groups[i] != []
    ensures |groups| <= |Flatten(groups)|
    ensures groups != [] ==> Flatten(groups) != []
    decreases |groups|
  {
    if groups != [] {
      FlattenCons(groups[0], groups[1..]);
      assert groups == [groups[0]] + groups[1..];
      GroupCount(groups[1..]);
    }
  }

  /** Every element of a group is an element of the flattening. */
  lemma FlattenContains<T>(groups: seq<seq<T>>, i: nat)
    requires i < |groups|
    ensures forall x :: x in groups[i] ==> x in Flatten(groups)
  {
    forall x | x in groups[i]
      ensures x in Flatten(groups)
    {
      var j :| 0 <= j < |groups[i]| && groups[i][j] == x;
      FlattenMember(groups, i, j);
    }
  }
}

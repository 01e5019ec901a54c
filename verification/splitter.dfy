/** The `/api/sql-splitter` handler: it cuts SQL text into statements at
    every line that contains a semicolon, then packs whole statements
    greedily into chunks under a line budget. */
module Splitter {
  import opened Wrappers
  import opened Text

  /** The budget used when the request does not name `maxChunkSize`. */
  const DefaultMaxChunkSize: int := 1000

  /** How many strings of `xs` contain a semicolon. */
  function CountSemicolon(xs: seq<string>): nat {
    if xs == [] then 0 else (if ';' in xs[0] then 1 else 0) + CountSemicolon(xs[1..])
  }

  lemma CountSemicolonCons(x: string, ys: seq<string>)
    ensures CountSemicolon([x] + ys) == (if ';' in x then 1 else 0) + CountSemicolon(ys)
  {
    assert ([x] + ys)[1..] == ys;
  }

  /** A semicolon survives stripping, since it is not whitespace. */
  lemma SemicolonSurvivesStrip(s: string)
    ensures ';' in Strip(s) <==> ';' in s
  {
    NonSpaceMember(s, ';');
    NonSpaceMember(Strip(s), ';');
  }

  /** The statement fold: every line is appended to `pending` with a `"\n"`;
      a line containing `;` closes the pending statement, which is then
      stripped; a non-blank remainder becomes the last statement. The test
      is on the raw line, so a semicolon inside a string literal or a
      comment closes a statement as well. */
  function BuildStatements(lines: seq<string>, pending: string): (stmts: seq<string>)
    ensures forall k :: 0 <= k < |stmts| ==> stmts[k] != [] && IsTrimmed(stmts[k])
    ensures forall k :: 0 <= k < |stmts| - 1 ==> ';' in stmts[k]
    decreases |lines|
  {
    if lines == [] then
      if Strip(pending) != [] then [Strip(pending)] else []
    else
      var acc := pending + lines[0] + "\n";
      if ';' in lines[0] then
        SemicolonSurvivesStrip(acc);
        var rest := BuildStatements(lines[1..], "");
        ClosedStatementCons(Strip(acc), rest);
        [Strip(acc)] + rest
      else
        BuildStatements(lines[1..], acc)
  }

  lemma ClosedStatementCons(x: string, rest: seq<string>)
    requires x != [] && IsTrimmed(x) && ';' in x
    requires forall k :: 0 <= k < |rest| ==> rest[k] != [] && IsTrimmed(rest[k])
    requires forall k :: 0 <= k < |rest| - 1 ==> ';' in rest[k]
    ensures forall k :: 0 <= k < |[x] + rest| ==> ([x] + rest)[k] != [] && IsTrimmed(([x] + rest)[k])
    ensures forall k :: 0 <= k < |[x] + rest| - 1 ==> ';' in ([x] + rest)[k]
  {
    forall k | 0 < k < |[x] + rest|
      ensures ([x] + rest)[k] == rest[k - 1]
    {
    }
  }

  /** The statements of a SQL text, as the handler builds them from
      `sql_content.splitlines()`. */
  function Statements(sql: string): seq<string> {
    BuildStatements(SplitLines(sql), "")
  }

  /** A semicolon-free pending text stays semicolon-free. */
  lemma PendingSemicolonFree(pending: string, line: string)
    requires ';' !in pending && ';' !in line
    ensures ';' !in pending + line + "\n"
  {
  }

  /** Exactly one statement contains `;` per line that contains `;`; the
      only statement without one is a trailing remainder. */
  lemma {:induction false} StatementsSemicolonCount(lines: seq<string>, pending: string)
    requires ';' !in pending
    ensures CountSemicolon(BuildStatements(lines, pending)) == CountSemicolon(lines)
    decreases |lines|
  {
    if lines == [] {
      SemicolonSurvivesStrip(pending);
      if Strip(pending) != [] {
        CountSemicolonCons(Strip(pending), []);
      }
    } else {
      var acc := pending + lines[0] + "\n";
      if ';' in lines[0] {
        StatementsSemicolonCount(lines[1..], "");
        ClosedStatementCount(lines, acc);
      } else {
        PendingSemicolonFree(pending, lines[0]);
        StatementsSemicolonCount(lines[1..], acc);
        CountSemicolonCons(lines[0], lines[1..]);
        assert lines == [lines[0]] + lines[1..];
      }
    }
  }

  lemma ClosedStatementCount(lines: seq<string>, acc: string)
    requires lines != [] && ';' in lines[0] && ';' in acc
    requires CountSemicolon(BuildStatements(lines[1..], "")) == CountSemicolon(lines[1..])
    ensures CountSemicolon([Strip(acc)] + BuildStatements(lines[1..], "")) == CountSemicolon(lines)
  {
    SemicolonSurvivesStrip(acc);
    CountSemicolonCons(Strip(acc), BuildStatements(lines[1..], ""));
    CountSemicolonCons(lines[0], lines[1..]);
    assert lines == [lines[0]] + lines[1..];
  }

  /** The fold loses no non-whitespace character and adds none: the
      statements hold the non-whitespace text of `pending` and the lines,
      in order. */
  lemma {:induction false} StatementsKeepText(lines: seq<string>, pending: string)
    ensures NonSpace(Flatten(BuildStatements(lines, pending)))
         == NonSpace(pending) + NonSpace(Flatten(lines))
    decreases |lines|
  {
    if lines == [] {
      if Strip(pending) != [] {
        FlattenCons(Strip(pending), []);
        assert Strip(pending) + [] == Strip(pending);
      }
    } else {
      var acc := pending + lines[0] + "\n";
      if ';' in lines[0] {
        StatementsKeepText(lines[1..], "");
        ClosedStatementText(lines, pending, acc, BuildStatements(lines[1..], ""));
      } else {
        StatementsKeepText(lines[1..], acc);
        PendingStatementText(lines, pending, acc);
      }
    }
  }

  lemma ClosedStatementText(lines: seq<string>, pending: string, acc: string, rest: seq<string>)
    requires lines != [] && ';' in lines[0] && acc == pending + lines[0] + "\n"
    requires rest == BuildStatements(lines[1..], "")
    requires NonSpace(Flatten(rest)) == NonSpace("") + NonSpace(Flatten(lines[1..]))
    ensures NonSpace(Flatten(BuildStatements(lines, pending)))
         == NonSpace(pending) + NonSpace(Flatten(lines))
  {
    assert BuildStatements(lines, pending) == [Strip(acc)] + rest;
    AccumulatedText(pending, lines[0]);
    LinesText(lines);
    FlattenCons(Strip(acc), rest);
    NonSpaceAppend(Strip(acc), Flatten(rest));
    assert NonSpace("") + NonSpace(Flatten(lines[1..])) == NonSpace(Flatten(lines[1..]));
    SeqAssoc(NonSpace(pending), NonSpace(lines[0]), NonSpace(Flatten(lines[1..])));
  }

  lemma PendingStatementText(lines: seq<string>, pending: string, acc: string)
    requires lines != [] && ';' !in lines[0] && acc == pending + lines[0] + "\n"
    requires NonSpace(Flatten(BuildStatements(lines[1..], acc)))
          == NonSpace(acc) + NonSpace(Flatten(lines[1..]))
    ensures NonSpace(Flatten(BuildStatements(lines, pending)))
         == NonSpace(pending) + NonSpace(Flatten(lines))
  {
    assert BuildStatements(lines, pending) == BuildStatements(lines[1..], acc);
    AccumulatedText(pending, lines[0]);
    LinesText(lines);
    SeqAssoc(NonSpace(pending), NonSpace(lines[0]), NonSpace(Flatten(lines[1..])));
  }

  lemma AccumulatedText(pending: string, line: string)
    ensures NonSpace(pending + line + "\n") == NonSpace(pending) + NonSpace(line)
  {
    NonSpaceAppend(pending + line, "\n");
    NonSpaceAppend(pending, line);
    assert NonSpace("\n") == [];
  }

  lemma LinesText(lines: seq<string>)
    requires lines != []
    ensures NonSpace(Flatten(lines)) == NonSpace(lines[0]) + NonSpace(Flatten(lines[1..]))
  {
    NonSpaceAppend(lines[0], Flatten(lines[1..]));
  }

  /** A list of non-empty trimmed strings has non-whitespace text exactly
      when it is non-empty. */
  lemma TrimmedListText(xs: seq<string>)
    requires forall k :: 0 <= k < |xs| ==> xs[k] != [] && IsTrimmed(xs[k])
    ensures xs == [] <==> NonSpace(Flatten(xs)) == []
  {
    if xs != [] {
      FlattenCons(xs[0], xs[1..]);
      assert xs == [xs[0]] + xs[1..];
      NonSpaceAppend(xs[0], Flatten(xs[1..]));
      assert NonSpace(xs[0]) == [xs[0][0]] + NonSpace(xs[0][1..]);
    }
  }

  /** The statements of `sql` carry exactly its non-whitespace text, and
      there are none exactly when `sql` is blank (empty input included). */
  lemma StatementsOfText(sql: string)
    ensures NonSpace(Flatten(Statements(sql))) == NonSpace(sql)
    ensures Statements(sql) == [] <==> IsBlank(sql)
    ensures CountSemicolon(Statements(sql)) == CountSemicolon(SplitLines(sql))
  {
    StatementsKeepText(SplitLines(sql), "");
    SplitLinesNonSpace(sql);
    TrimmedListText(Statements(sql));
    NonSpaceEmptyIffBlank(sql);
    StatementsSemicolonCount(SplitLines(sql), "");
  }

  // ----- which lines make up a statement -----

  /** The lines written out with a `"\n"` after each, as the fold
      accumulates them. */
  function Lined(lines: seq<string>): string {
    if lines == [] then [] else lines[0] + "\n" + Lined(lines[1..])
  }

  /** The first `n` lines, written out, are the first line and then the
      next `n - 1`. */
  lemma LinedPrefix(lines: seq<string>, n: nat)
    requires 1 <= n <= |lines|
    ensures Lined(lines[..n]) == lines[0] + "\n" + Lined(lines[1..][..n - 1])
  {
    assert lines[..n][0] == lines[0];
    assert lines[..n][1..] == lines[1..][..n - 1];
  }

  /** A statement is closed at the first line that contains `;`: it is the
      pending text and every line up to and including that one, each
      followed by `"\n"`, stripped, with nothing else removed. The lines
      after it are folded afresh. */
  lemma {:induction false} ClosesAtFirstSemicolon(lines: seq<string>, pending: string, k: nat)
    requires k < |lines| && ';' in lines[k]
    requires forall j :: 0 <= j < k ==> ';' !in lines[j]
    ensures BuildStatements(lines, pending)
         == [Strip(pending + Lined(lines[..k + 1]))] + BuildStatements(lines[k + 1..], "")
    decreases k
  {
    var acc := pending + lines[0] + "\n";
    LinedPrefix(lines, k + 1);
    if k == 0 {
      assert Lined(lines[1..][..0]) == [];
      SeqAssoc(pending, lines[0], "\n");
      assert pending + Lined(lines[..1]) == acc;
    } else {
      assert ';' !in lines[0];
      ClosesAtFirstSemicolon(lines[1..], acc, k - 1);
      assert lines[1..][k..] == lines[k + 1..];
      AccumulatedLines(pending, lines[0], Lined(lines[1..][..k]));
    }
  }

  /** When no line contains `;`, the fold gives one statement, the pending
      text and all the lines stripped, unless that text is blank. */
  lemma {:induction false} RemainderStatement(lines: seq<string>, pending: string)
    requires forall j :: 0 <= j < |lines| ==> ';' !in lines[j]
    ensures BuildStatements(lines, pending)
         == if IsBlank(pending + Lined(lines)) then [] else [Strip(pending + Lined(lines))]
    decreases |lines|
  {
    if lines == [] {
      assert pending + Lined(lines) == pending;
    } else {
      var acc := pending + lines[0] + "\n";
      RemainderStatement(lines[1..], acc);
      AccumulatedLines(pending, lines[0], Lined(lines[1..]));
    }
  }

  lemma AccumulatedLines(pending: string, line: string, more: string)
    ensures (pending + line + "\n") + more == pending + (line + "\n" + more)
  {
    SeqAssoc(pending + line, "\n", more);
    SeqAssoc(pending, line, "\n" + more);
    SeqAssoc(line, "\n", more);
  }

  // ----- packing statements into chunks -----

  /** A chunk respects the budget, or it is a single statement. */
  predicate FitsBudget(group: seq<string>, budget: int) {
    SumLines(group) <= budget || |group| == 1
  }

  /** The specification of the chunk loop, independent of how it is
      computed: the groups cut the statements into consecutive non-empty
      runs, in order; each run fits the budget unless it is a single
      statement; and a run is closed only when its next statement would
      have pushed it over the budget. */
  predicate IsGreedyPacking(stmts: seq<string>, groups: seq<seq<string>>, budget: int) {
    && Flatten(groups) == stmts
    && (forall i :: 0 <= i < |groups| ==> groups[i] != [] && FitsBudget(groups[i], budget))
    && (forall i :: 0 <= i < |groups| - 1 ==>
          SumLines(groups[i]) + LineCount(groups[i + 1][0]) > budget)
  }

  /** The chunk loop, with `current`/`currentSize` as the open chunk and its
      running line count: a statement whose lines would push a non-empty
      open chunk over the budget closes that chunk and opens a new one;
      otherwise it joins the open chunk. A statement is never split. */
  function Pack(stmts: seq<string>, current: seq<string>, currentSize: nat, budget: int)
    : (groups: seq<seq<string>>)
    requires currentSize == SumLines(current)
    requires current == [] || FitsBudget(current, budget)
    ensures Flatten(groups) == current + stmts
    ensures forall i :: 0 <= i < |groups| ==> groups[i] != [] && FitsBudget(groups[i], budget)
    ensures current != [] ==> groups != [] && current <= groups[0]
    ensures forall i :: 0 <= i < |groups| - 1 ==>
              SumLines(groups[i]) + LineCount(groups[i + 1][0]) > budget
    decreases |stmts|
  {
    if stmts == [] then
      assert current + stmts == current;
      if current != [] then
        FlattenCons(current, []);
        assert current + [] == current;
        [current]
      else []
    else
      var size := LineCount(stmts[0]);
      assert stmts == [stmts[0]] + stmts[1..];
      if currentSize + size > budget && current != [] then
        SumLinesAppend([stmts[0]], []);
        var rest := Pack(stmts[1..], [stmts[0]], size, budget);
        FlattenCons(current, rest);
        PackClose(current, stmts[0], rest, budget);
        [current] + rest
      else
        SumLinesAppend(current, [stmts[0]]);
        SeqAssoc(current, [stmts[0]], stmts[1..]);
        Pack(stmts[1..], current + [stmts[0]], currentSize + size, budget)
  }

  /** Closing the open chunk in front of the chunks that start with the
      statement that did not fit keeps the packing's properties. */
  lemma PackClose(current: seq<string>, next: string, rest: seq<seq<string>>, budget: int)
    requires current != [] && FitsBudget(current, budget)
    requires SumLines(current) + LineCount(next) > budget
    requires rest != [] && [next] <= rest[0]
    requires forall i :: 0 <= i < |rest| ==> rest[i] != [] && FitsBudget(rest[i], budget)
    requires forall i :: 0 <= i < |rest| - 1 ==> SumLines(rest[i]) + LineCount(rest[i + 1][0]) > budget
    ensures var groups := [current] + rest;
      && (forall i :: 0 <= i < |groups| ==> groups[i] != [] && FitsBudget(groups[i], budget))
      && (forall i :: 0 <= i < |groups| - 1 ==> SumLines(groups[i]) + LineCount(groups[i + 1][0]) > budget)
  {
    var groups := [current] + rest;
    assert rest[0][0] == next;
    forall i | 0 < i < |groups|
      ensures groups[i] == rest[i - 1]
    {
    }
  }

  /** The chunk loop started with no open chunk. */
  function Packing(stmts: seq<string>, budget: int): (groups: seq<seq<string>>)
    ensures IsGreedyPacking(stmts, groups, budget)
  {
    Pack(stmts, [], 0, budget)
  }

  lemma SumLinesPrefix(xs: seq<string>, a: nat, b: nat)
    requires a <= b <= |xs|
    ensures SumLines(xs[..a]) <= SumLines(xs[..b])
  {
    assert xs[..b] == xs[..a] + xs[a..b];
    SumLinesAppend(xs[..a], xs[a..b]);
  }

  lemma SumLinesSnoc(xs: seq<string>, k: nat)
    requires k < |xs|
    ensures SumLines(xs[..k + 1]) == SumLines(xs[..k]) + LineCount(xs[k])
  {
    assert xs[..k + 1] == xs[..k] + [xs[k]];
    SumLinesAppend(xs[..k], [xs[k]]);
  }

  /** In a greedy packing the first group is followed by the statement
      right after it. */
  lemma GreedyNext(stmts: seq<string>, g: seq<seq<string>>, budget: int)
    requires IsGreedyPacking(stmts, g, budget) && g != []
    ensures g[0] == stmts[..|g[0]|]
    ensures |g[0]| < |stmts| ==> |g| >= 2 && g[1][0] == stmts[|g[0]|]
  {
    FlattenCons(g[0], g[1..]);
    assert g == [g[0]] + g[1..];
    if |g[0]| < |stmts| {
      assert Flatten(g[1..]) != [];
      assert |g| >= 2;
      FlattenCons(g[1], g[2..]);
      assert g[1..] == [g[1]] + g[2..];
      assert stmts[|g[0]|] == Flatten(g[1..])[0] == g[1][0];
    }
  }

  /** The first group of a greedy packing is as long as that of any other. */
  lemma GreedyFirstNotShorter(stmts: seq<string>, g: seq<seq<string>>, h: seq<seq<string>>, budget: int)
    requires IsGreedyPacking(stmts, g, budget) && IsGreedyPacking(stmts, h, budget)
    requires g != [] && h != []
    ensures |g[0]| >= |h[0]|
  {
    GreedyNext(stmts, g, budget);
    GreedyNext(stmts, h, budget);
    var k := |g[0]|;
    FlattenCons(h[0], h[1..]);
    assert h == [h[0]] + h[1..];
    if k < |h[0]| {
      assert |h[0]| >= 2;
      assert SumLines(h[0]) <= budget;
      SumLinesSnoc(stmts, k);
      SumLinesPrefix(stmts, k + 1, |h[0]|);
      assert false;
    }
  }

  /** A greedy packing has no group exactly when there are no statements. */
  lemma GreedyEmpty(stmts: seq<string>, g: seq<seq<string>>, budget: int)
    requires IsGreedyPacking(stmts, g, budget)
    ensures g == [] <==> stmts == []
  {
    if g != [] {
      FlattenCons(g[0], g[1..]);
      assert g == [g[0]] + g[1..];
    }
  }

  /** Dropping the first group leaves a greedy packing of the remaining statements. */
  lemma GreedyTail(stmts: seq<string>, g: seq<seq<string>>, budget: int)
    requires IsGreedyPacking(stmts, g, budget) && g != []
    ensures IsGreedyPacking(stmts[|g[0]|..], g[1..], budget)
  {
    FlattenCons(g[0], g[1..]);
    assert g == [g[0]] + g[1..];
  }

  /** The greedy packing is unique: the chunk loop computes the only
      grouping that meets the specification. */
  lemma {:induction false} GreedyPackingUnique(stmts: seq<string>, g: seq<seq<string>>, h: seq<seq<string>>, budget: int)
    requires IsGreedyPacking(stmts, g, budget) && IsGreedyPacking(stmts, h, budget)
    ensures g == h
    decreases |stmts|
  {
    GreedyEmpty(stmts, g, budget);
    GreedyEmpty(stmts, h, budget);
    if g != [] && h != [] {
      GreedyFirstNotShorter(stmts, g, h, budget);
      GreedyFirstNotShorter(stmts, h, g, budget);
      GreedyNext(stmts, g, budget);
      GreedyNext(stmts, h, budget);
      var k := |g[0]|;
      GreedyTail(stmts, g, budget);
      GreedyTail(stmts, h, budget);
      GreedyPackingUnique(stmts[k..], g[1..], h[1..], budget);
      assert g == [g[0]] + g[1..];
      assert h == [h[0]] + h[1..];
    }
  }

  // ----- chunk texts and the handler's result -----

  /** The text of each chunk: its statements joined by `"\n"`. */
  function ChunkTexts(groups: seq<seq<string>>): (chunks: seq<string>)
    ensures |chunks| == |groups|
  {
    if groups == [] then [] else [Join(groups[0], "\n")] + ChunkTexts(groups[1..])
  }

  lemma ChunkTextAt(groups: seq<seq<string>>, i: nat)
    requires i < |groups|
    ensures ChunkTexts(groups)[i] == Join(groups[i], "\n")
    decreases i
  {
    if i > 0 {
      ChunkTextAt(groups[1..], i - 1);
    }
  }

  /** Joining the chunk texts with `"\n"` gives the statements joined with
      `"\n"`: the chunks hold every statement once, in order, and the
      separators between them. */
  lemma {:induction false} JoinChunkTexts(groups: seq<seq<string>>)
    requires forall i :: 0 <= i < |groups| ==> groups[i] != []
    ensures Join(ChunkTexts(groups), "\n") == Join(Flatten(groups), "\n")
    decreases |groups|
  {
    if |groups| == 1 {
      assert Flatten(groups) == groups[0] + Flatten(groups[1..]);
      assert groups[0] + [] == groups[0];
    } else if |groups| > 1 {
      var rest := groups[1..];
      JoinChunkTexts(rest);
      GroupCount(rest);
      FlattenCons(groups[0], rest);
      assert groups == [groups[0]] + rest;
      JoinAppend(groups[0], Flatten(rest), "\n");
    }
  }

  /** A chunk of non-empty trimmed statements has as many lines as its
      statements have together. */
  lemma ChunkLineCount(group: seq<string>)
    requires forall k :: 0 <= k < |group| ==> group[k] != [] && IsTrimmed(group[k])
    ensures LineCount(Join(group, "\n")) == SumLines(group)
  {
    forall k | 0 <= k < |group| ensures !IsLineBreak(group[k][|group[k]| - 1]) {
      LineBreakIsSpace(group[k][|group[k]| - 1]);
    }
    LineCountJoin(group);
  }

  /** The handler's response: the chunk texts, their number, and the number
      of statements found. */
  datatype SplitResult = SplitResult(chunks: seq<string>, chunkCount: nat, originalStatementCount: nat)

  /** `sql_splitter`: statements, then greedy chunks of at most
      `maxChunkSize` lines (1000 when the request leaves it out). */
  function SplitSql(sql: string, maxChunkSize: Option<int>): (r: SplitResult)
    ensures r.chunkCount == |r.chunks|
    ensures r.originalStatementCount == |Statements(sql)|
    ensures r.chunkCount <= r.originalStatementCount
    ensures r.chunks == [] <==> IsBlank(sql)
    ensures forall i :: 0 <= i < |r.chunks| ==> r.chunks[i] != []
    ensures forall i :: 0 <= i < |r.chunks| ==>
              LineCount(r.chunks[i]) <= maxChunkSize.GetOr(DefaultMaxChunkSize)
              || r.chunks[i] in Statements(sql)
    ensures Join(r.chunks, "\n") == Join(Statements(sql), "\n")
    ensures NonSpace(Join(r.chunks, "\n")) == NonSpace(sql)
  {
    var budget := maxChunkSize.GetOr(DefaultMaxChunkSize);
    var stmts := Statements(sql);
    var groups := Packing(stmts, budget);
    var chunks := ChunkTexts(groups);
    SplitSqlFacts(sql, stmts, budget, groups, chunks);
    SplitResult(chunks, |chunks|, |stmts|)
  }

  lemma SplitSqlFacts(sql: string, stmts: seq<string>, budget: int, groups: seq<seq<string>>, chunks: seq<string>)
    requires stmts == Statements(sql) && IsGreedyPacking(stmts, groups, budget)
    requires chunks == ChunkTexts(groups)
    ensures |chunks| <= |stmts|
    ensures chunks == [] <==> IsBlank(sql)
    ensures forall i :: 0 <= i < |chunks| ==> chunks[i] != []
    ensures forall i :: 0 <= i < |chunks| ==> LineCount(chunks[i]) <= budget || chunks[i] in stmts
    ensures Join(chunks, "\n") == Join(stmts, "\n")
    ensures NonSpace(Join(chunks, "\n")) == NonSpace(sql)
  {
    StatementsOfText(sql);
    GroupCount(groups);
    GreedyEmpty(stmts, groups, budget);
    JoinChunkTexts(groups);
    NonSpaceJoin(stmts, "\n");
    assert IsBlank("\n");
    forall i | 0 <= i < |chunks|
      ensures chunks[i] != []
      ensures LineCount(chunks[i]) <= budget || chunks[i] in stmts
    {
      ChunkTextAt(groups, i);
      var g := groups[i];
      forall k | 0 <= k < |g| ensures g[k] != [] && IsTrimmed(g[k]) && g[k] in stmts {
        FlattenMember(groups, i, k);
      }
      ChunkLineCount(g);
      assert g[0] in stmts;
      if |g| == 1 {
        assert chunks[i] == g[0];
      } else {
        assert LineCount(chunks[i]) <= budget;
        assert chunks[i] != [] by {
          assert LineCount(chunks[i]) >= LineCount(g[0]) >= 1 by {
            assert SumLines(g) == LineCount(g[0]) + SumLines(g[1..]);
          }
        }
      }
    }
  }
}

/**
  The Markdown scanner behind the error-code table check: collect each run of consecutive pipe lines,
  and keep the run if some line of it is a table separator. The text is its list of lines.
 */
module TableRows {
  import opened Text

  predicate IsPipe(line: string) {
    "|" <= TrimStart(line)
  }

  function StripPipes(s: string): string {
    if s != "" && s[0] == '|' then StripPipes(s[1..]) else s
  }

  /** `|---|`: dashes after the leading pipes and spaces of a trimmed line. */
  predicate IsSeparator(line: string) {
    "---" <= TrimStart(StripPipes(Trim(line)))
  }

  lemma {:induction false} StripPipesSplits(s: string) returns (p: string)
    ensures (forall c :: c in p ==> c == '|') && s == p + StripPipes(s)
  {
    if s == "" || s[0] != '|' {
      p := "";
    } else {
      var rest := StripPipesSplits(s[1..]);
      p := "|" + rest;
      assert s == [s[0]] + s[1..];
    }
  }

  lemma {:induction false} StripPipesOf(p: string, t: string)
    requires (forall c :: c in p ==> c == '|') && (t != "" ==> t[0] != '|')
    ensures StripPipes(p + t) == t
  {
    if p == "" {
      assert p + t == t;
    } else {
      assert p[0] in p && (p + t)[1..] == p[1..] + t;
      assert forall c :: c in p[1..] ==> c in p;
      StripPipesOf(p[1..], t);
    }
  }

  /** A pipe line: a pipe after any whitespace. */
  lemma PipeMeaning(line: string)
    ensures IsPipe(line) <==> exists a, rest :: AllWhitespace(a) && line == a + "|" + rest
  {
    TrimStartPrefix(line, "|");
  }

  /** A separator: whitespace, pipes and whitespace, each perhaps none, and then three dashes. */
  ghost predicate IsSeparatorText(line: string, a: string, p: string, w: string, rest: string) {
    AllWhitespace(a) && (forall c :: c in p ==> c == '|') && AllWhitespace(w) && line == a + p + w + "---" + rest
  }

  lemma SeparatorMeaning(line: string)
    ensures IsSeparator(line) <==> exists a, p, w, rest :: IsSeparatorText(line, a, p, w, rest)
  {
    if IsSeparator(line) {
      var a, p, w, rest := SeparatorSplits(line);
    }
    if a, p, w, rest :| IsSeparatorText(line, a, p, w, rest) {
      SeparatorOf(line, a, p, w, rest);
    }
  }

  lemma Regrouped(a: string, p: string, w: string, d: string, rest: string, b: string)
    ensures a + (p + (w + (d + rest))) + b == a + p + w + d + (rest + b)
    ensures a + (p + (w + (d + rest))) + b == a + p + w + (d + rest + b)
  {
  }

  lemma DashedSplits(s: string) returns (p: string, w: string, rest: string)
    requires "---" <= TrimStart(StripPipes(s))
    ensures (forall c :: c in p ==> c == '|') && AllWhitespace(w) && s == p + (w + ("---" + rest))
  {
    p := StripPipesSplits(s);
    w := TrimStartSplits(StripPipes(s));
    rest := TrimStart(StripPipes(s))[3..];
  }

  lemma SeparatorSplits(line: string) returns (a: string, p: string, w: string, rest: string)
    requires IsSeparator(line)
    ensures IsSeparatorText(line, a, p, w, rest)
  {
    a := TrimStartSplits(line);
    var b := TrimEndSplits(TrimStart(line));
    var dashes: string;
    p, w, dashes := DashedSplits(Trim(line));
    rest := dashes + b;
    assert line == a + Trim(line) + b;
    Regrouped(a, p, w, "---", dashes, b);
  }

  lemma SeparatorOf(line: string, a: string, p: string, w: string, rest: string)
    requires IsSeparatorText(line, a, p, w, rest)
    ensures IsSeparator(line)
  {
    var b := TrimEndSplits("---" + rest);
    TrimEndKeeps("---", rest);
    var kept := TrimEnd("---" + rest)[3..];
    var dashed := "---" + kept;
    assert dashed == TrimEnd("---" + rest);
    Regrouped(a, p, w, "---", kept, b);
    assert line == a + p + w + (dashed + b) by {
      Regrouped(a, p, w, "---", rest, "");
      assert dashed + b == "---" + rest + "";
      assert rest + "" == rest;
      assert a + p + w + "---" + rest == a + p + w + ("---" + rest + "");
    }
    SeparatorTrimmed(a, p, w, dashed, b);
  }

  lemma SeparatorTrimmed(a: string, p: string, w: string, dashed: string, b: string)
    requires AllWhitespace(a) && (forall c :: c in p ==> c == '|') && AllWhitespace(w) && AllWhitespace(b)
    requires "---" <= dashed && !IsWhitespace(dashed[|dashed| - 1])
    ensures IsSeparator(a + p + w + (dashed + b))
  {
    var line := a + p + w + (dashed + b);
    if p == "" {
      AllWhitespaceConcatenation(a, w);
      assert line == (a + w) + dashed + b;
      PaddedTrims(a + w, dashed, b);
      StripPipesOf("", dashed);
      TrimStartOf("", dashed);
      assert "" + dashed == dashed;
    } else {
      var trimmed := p + (w + dashed);
      assert p[0] in p && trimmed[|trimmed| - 1] == dashed[|dashed| - 1];
      assert line == a + trimmed + b;
      PaddedTrims(a, trimmed, b);
      assert w != "" ==> w[0] in w;
      StripPipesOf(p, w + dashed);
      TrimStartOf(w, dashed);
    }
  }

  // ----- what a table row is, without mention of blocks -----

  ghost predicate AllPipes(lines: seq<string>, lo: int, hi: int) {
    forall k :: lo <= k <= hi && 0 <= k < |lines| ==> IsPipe(lines[k])
  }

  /** Line `i` is joined to some separator by pipe lines alone. */
  ghost predicate InTable(lines: seq<string>, i: nat)
    requires i < |lines|
  {
    exists j :: 0 <= j < |lines| && IsSeparator(lines[j]) && AllPipes(lines, i, j) && AllPipes(lines, j, i)
                && IsPipe(lines[i]) && IsPipe(lines[j])
  }

  ghost function TableLines(lines: seq<string>): set<nat> {
    set i: nat | i < |lines| && InTable(lines, i)
  }

  /** The lines of `kept` among the first `n`, trimmed, in order. */
  function Rows(lines: seq<string>, kept: set<nat>, n: nat): seq<string>
    requires n <= |lines|
  {
    if n == 0 then []
    else Rows(lines, kept, n - 1) + if n - 1 in kept then [Trim(lines[n - 1])] else []
  }

  /** The table rows among the first `n` lines. */
  ghost function RowsBefore(lines: seq<string>, n: nat): seq<string>
    requires n <= |lines|
  {
    Rows(lines, TableLines(lines), n)
  }

  /** A line that comes next is a row, trimmed and last, exactly when it is in a table. */
  lemma RowsGrow(lines: seq<string>, n: nat)
    requires n < |lines|
    ensures RowsBefore(lines, 0) == []
    ensures RowsBefore(lines, n + 1) == RowsBefore(lines, n) + if InTable(lines, n) then [Trim(lines[n])] else []
  {
  }

  // ----- the scanner -----

  /** The trimmed lines of one run. */
  ghost function Block(lines: seq<string>, lo: nat, hi: nat): (block: seq<string>)
    requires lo <= hi <= |lines|
    ensures |block| == hi - lo
  {
    if lo == hi then [] else Block(lines, lo, hi - 1) + [Trim(lines[hi - 1])]
  }

  lemma {:induction false} BlockAt(lines: seq<string>, lo: nat, hi: nat, k: nat)
    requires lo <= hi <= |lines| && k < hi - lo
    ensures Block(lines, lo, hi)[k] == Trim(lines[lo + k])
    decreases hi
  {
    if k >= hi - lo - 1 {
    } else {
      BlockAt(lines, lo, hi - 1, k);
    }
  }

  /** The nested `flush`: the rows so far, with the block appended if it is a table. */
  method Flush(block: seq<string>, rows: seq<string>) returns (extended: seq<string>)
    ensures extended == Flushed(block, rows)
  {
    for k := 0 to |block|
      invariant forall j :: 0 <= j < k ==> !IsSeparator(block[j])
    {
      if IsSeparator(block[k]) {
        return rows + block;
      }
    }
    extended := rows;
  }

  method Scan(lines: seq<string>) returns (rows: seq<string>)
    ensures rows == RowsBefore(lines, |lines|)
  {
    rows := [];
    var block: seq<string> := [];
    ghost var start := 0;
    for i := 0 to |lines|
      invariant Scanned(lines, start, i, block, rows)
    {
      if IsPipe(lines[i]) {
        ScannedPipe(lines, start, i, block, rows);
        block := block + [Trim(lines[i])];
      } else {
        ScannedOther(lines, start, i, block, rows);
        rows := Flush(block, rows);
        block := [];
        start := i + 1;
      }
    }
    ScannedAll(lines, start, block, rows);
    rows := Flush(block, rows);
  }

  /** The lines from `start` to `i` are pipe lines, and no run reaches back past `start`. */
  ghost predicate IsRunStart(lines: seq<string>, start: nat, i: nat) {
    && start <= i <= |lines|
    && (start == 0 || !IsPipe(lines[start - 1]))
    && forall k :: start <= k < i ==> IsPipe(lines[k])
  }

  /** Where the scan stands before line `i`: the open block is a run, and the rows are settled before it. */
  ghost predicate Scanned(lines: seq<string>, start: nat, i: nat, block: seq<string>, rows: seq<string>) {
    IsRunStart(lines, start, i) && block == Block(lines, start, i) && rows == RowsBefore(lines, start)
  }

  ghost predicate HasSeparator(block: seq<string>) {
    exists k :: 0 <= k < |block| && IsSeparator(block[k])
  }

  ghost function Flushed(block: seq<string>, rows: seq<string>): seq<string> {
    if HasSeparator(block) then rows + block else rows
  }

  lemma ScannedPipe(lines: seq<string>, start: nat, i: nat, block: seq<string>, rows: seq<string>)
    requires Scanned(lines, start, i, block, rows) && i < |lines| && IsPipe(lines[i])
    ensures Scanned(lines, start, i + 1, block + [Trim(lines[i])], rows)
  {
  }

  lemma ScannedOther(lines: seq<string>, start: nat, i: nat, block: seq<string>, rows: seq<string>)
    requires Scanned(lines, start, i, block, rows) && i < |lines| && !IsPipe(lines[i])
    ensures Scanned(lines, i + 1, i + 1, [], Flushed(block, rows))
  {
    RunIsWholeOrNothing(lines, start, i);
  }

  lemma ScannedAll(lines: seq<string>, start: nat, block: seq<string>, rows: seq<string>)
    requires Scanned(lines, start, |lines|, block, rows)
    ensures Flushed(block, rows) == RowsBefore(lines, |lines|)
  {
    RunIsWholeOrNothing(lines, start, |lines|);
  }

  lemma TrimmedSeparator(line: string)
    ensures IsSeparator(Trim(line)) <==> IsSeparator(line)
  {
    TrimIdempotent(line);
  }

  /** A maximal run of pipe lines contributes all of its lines or none, by whether it holds a separator. */
  lemma RunIsWholeOrNothing(lines: seq<string>, lo: nat, hi: nat)
    requires IsRunStart(lines, lo, hi) && (hi == |lines| || !IsPipe(lines[hi]))
    ensures RowsBefore(lines, hi) == Flushed(Block(lines, lo, hi), RowsBefore(lines, lo))
  {
    var block := Block(lines, lo, hi);
    forall j | lo <= j < hi
      ensures block[j - lo] == Trim(lines[j]) && (IsSeparator(block[j - lo]) <==> IsSeparator(lines[j]))
    {
      BlockAt(lines, lo, hi, j - lo);
      TrimmedSeparator(lines[j]);
    }
    if HasSeparator(block) {
      var k :| 0 <= k < |block| && IsSeparator(block[k]);
      forall i | lo <= i < hi
        ensures InTable(lines, i)
      {
        assert IsSeparator(lines[lo + k]) && AllPipes(lines, i, lo + k) && AllPipes(lines, lo + k, i);
      }
      WholeRun(lines, TableLines(lines), lo, hi);
    } else {
      forall i | lo <= i < hi
        ensures !InTable(lines, i)
      {
        NoSeparatorReached(lines, lo, hi, i);
      }
      NoRun(lines, TableLines(lines), lo, hi);
    }
  }

  lemma NoSeparatorReached(lines: seq<string>, lo: nat, hi: nat, i: nat)
    requires lo <= i < hi <= |lines|
    requires lo == 0 || !IsPipe(lines[lo - 1])
    requires hi == |lines| || !IsPipe(lines[hi])
    requires forall j :: lo <= j < hi ==> !IsSeparator(lines[j])
    ensures !InTable(lines, i)
  {
    forall j | 0 <= j < |lines| && IsSeparator(lines[j])
      ensures !(AllPipes(lines, i, j) && AllPipes(lines, j, i))
    {
      assert j < lo || j >= hi;
    }
  }

  lemma Append(a: seq<string>, b: seq<string>, line: string)
    ensures (a + b) + [line] == a + (b + [line])
  {
  }

  lemma {:induction false} WholeRun(lines: seq<string>, kept: set<nat>, lo: nat, hi: nat)
    requires lo <= hi <= |lines| && forall i :: lo <= i < hi ==> i in kept
    ensures Rows(lines, kept, hi) == Rows(lines, kept, lo) + Block(lines, lo, hi)
    decreases hi
  {
    if lo >= hi {
    } else {
      WholeRun(lines, kept, lo, hi - 1);
      Append(Rows(lines, kept, lo), Block(lines, lo, hi - 1), Trim(lines[hi - 1]));
    }
  }

  lemma {:induction false} NoRun(lines: seq<string>, kept: set<nat>, lo: nat, hi: nat)
    requires lo <= hi <= |lines| && forall i :: lo <= i < hi ==> i !in kept
    ensures Rows(lines, kept, hi) == Rows(lines, kept, lo)
    decreases hi
  {
    if lo >= hi {
    } else {
      NoRun(lines, kept, lo, hi - 1);
    }
  }
}

/** The merge-rank table: which adjacent fragment pairs may merge, and in
    which order. A merges file lists one pair per line, two fields separated
    by spaces; its first line is a header. The pair on line `i` (counting
    from 0) gets rank `i - 1`, lower ranks merging first. */
module MergeRanks {
  import opened Wrappers
  import opened Strings

  /** An ordered pair of fragments. Equality is structural over both fields
      and order-sensitive: `BytePair(a, b) != BytePair(b, a)` when `a != b`. */
  datatype BytePair = BytePair(a: string, b: string)

  type Ranks = map<BytePair, int>

  datatype LoadError =
    | EmptyMergeList            // no line at all: the range `1 ..< 0` traps
    | MalformedMergeLine(line: nat)  // a line with fewer than two fields

  /** No two distinct pairs share a rank, so the lowest-ranked candidate is
      unique whatever order the candidates are visited in. */
  predicate Injective(ranks: Ranks)
  {
    forall p, q :: p in ranks && q in ranks && p != q ==> ranks[p] != ranks[q]
  }

  /** The merges text cut into lines; empty lines vanish, as with Swift's
      `split(separator: "\n")`. */
  function MergeLines(text: string): (lines: seq<string>)
    ensures forall i :: 0 <= i < |lines| ==> lines[i] != [] && '\n' !in lines[i]
    ensures Concat(lines) == Without(text, '\n')
  {
    SplitConcat(text, '\n');
    Split(text, '\n')
  }

  /** Each newline cuts the text: the lines before it and the lines after
      it are read independently. */
  lemma MergeLinesCut(x: string, y: string)
    ensures MergeLines(x + "\n" + y) == MergeLines(x) + MergeLines(y)
  {
    SplitSep(x, y, '\n');
  }

  /** Newline-free, non-empty text is exactly one line. */
  lemma MergeLinesOne(line: string)
    requires line != [] && '\n' !in line
    ensures MergeLines(line) == [line]
  {
    SplitWhole(line, '\n');
  }

  /** A newline at the end of the file adds no line. */
  lemma MergeLinesTrailing(x: string)
    ensures MergeLines(x + "\n") == MergeLines(x)
  {
    assert x + "\n" == x + "\n" + [];
    SplitSep(x, [], '\n');
  }

  /** A blank line is dropped: the line after it takes its place. */
  lemma MergeLinesBlank(x: string, y: string)
    ensures MergeLines(x + "\n\n" + y) == MergeLines(x + "\n" + y)
  {
    assert x + "\n\n" + y == x + "\n" + ("\n" + y);
    assert "\n" + y == [] + "\n" + y;
    SplitSep(x, "\n" + y, '\n');
    SplitSep([], y, '\n');
    SplitSep(x, y, '\n');
  }

  /** The pair named by one merges line: its first two space-separated
      fields. Further fields are ignored; fewer than two is malformed. */
  function ParseMergeLine(line: string): (r: Option<BytePair>)
    ensures r.None? <==> |Split(line, ' ')| < 2
    ensures r.Some? ==> r.value.a != [] && ' ' !in r.value.a && r.value.b != [] && ' ' !in r.value.b
  {
    var fields := Split(line, ' ');
    if |fields| < 2 then None else Some(BytePair(fields[0], fields[1]))
  }

  /** A line written as `a b` reads back as the pair `(a, b)`. */
  lemma ParseMergeLineRoundTrip(a: string, b: string)
    requires a != [] && ' ' !in a
    requires b != [] && ' ' !in b
    ensures ParseMergeLine(a + " " + b) == Some(BytePair(a, b))
  {
    assert JoinSep([a, b], ' ') == a + " " + b;
    SplitJoinSep([a, b], ' ');
  }

  /** A line of space-separated fields names the pair of its first two
      fields, whatever follows them; with fewer than two it is malformed. */
  lemma ParseMergeLineFields(ws: seq<string>)
    requires Pieces(ws, ' ')
    ensures |ws| < 2 ==> ParseMergeLine(JoinSep(ws, ' ')) == None
    ensures |ws| >= 2 ==> ParseMergeLine(JoinSep(ws, ' ')) == Some(BytePair(ws[0], ws[1]))
  {
    SplitJoinSep(ws, ' ');
  }

  /** Each line's pair, in order (`None` for a malformed line). */
  function ParsedLines(lines: seq<string>): (pairs: seq<Option<BytePair>>)
    ensures |pairs| == |lines|
    decreases |lines|
  {
    if lines == [] then [] else [ParseMergeLine(lines[0])] + ParsedLines(lines[1..])
  }

  lemma {:induction false} ParsedLineAt(lines: seq<string>, i: nat)
    requires i < |lines|
    ensures ParsedLines(lines)[i] == ParseMergeLine(lines[i])
    decreases i
  {
    if i > 0 {
      ParsedLineAt(lines[1..], i - 1);
    }
  }

  /** `ranks` is the table read from the parsed lines `pairs`: the pairs
      ranked are exactly those named on some line after the header, and each
      pair's rank points at the LAST line naming it (a later duplicate
      overwrites an earlier one). The header line itself gives no rank. */
  ghost predicate IsRankTable(pairs: seq<Option<BytePair>>, ranks: Ranks)
  {
    && (forall p :: p in ranks <==> exists i :: 1 <= i < |pairs| && pairs[i] == Some(p))
    && (forall p :: p in ranks ==>
          && 0 <= ranks[p] < |pairs| - 1
          && pairs[ranks[p] + 1] == Some(p)
          && forall j :: ranks[p] + 1 < j < |pairs| ==> pairs[j] != Some(p))
  }

  /** A rank identifies the line it came from, hence its pair. */
  lemma RankTableInjective(pairs: seq<Option<BytePair>>, ranks: Ranks)
    requires IsRankTable(pairs, ranks)
    ensures Injective(ranks)
  {
    forall p, q | p in ranks && q in ranks && ranks[p] == ranks[q]
      ensures p == q
    {
      assert Some(p) == pairs[ranks[p] + 1] == Some(q);
    }
  }

  /** Every one of lines `1 ..< n` named a pair, and that pair is ranked. */
  ghost predicate LinesRanked(pairs: seq<Option<BytePair>>, n: nat, ranks: Ranks)
    requires 1 <= n <= |pairs|
  {
    forall j :: 1 <= j < n ==> pairs[j].Some? && pairs[j].value in ranks
  }

  /** Each rank points at the last of lines `1 ..< n` naming its pair. */
  ghost predicate RanksPointBack(pairs: seq<Option<BytePair>>, n: nat, ranks: Ranks)
    requires 1 <= n <= |pairs|
  {
    forall p :: p in ranks ==>
      && 0 <= ranks[p] < n - 1
      && pairs[ranks[p] + 1] == Some(p)
      && forall j :: ranks[p] + 1 < j < n ==> pairs[j] != Some(p)
  }

  /** The table after lines `1 ..< n` have been read. */
  ghost predicate RanksSoFar(pairs: seq<Option<BytePair>>, n: nat, ranks: Ranks)
    requires 1 <= n <= |pairs|
  {
    LinesRanked(pairs, n, ranks) && RanksPointBack(pairs, n, ranks)
  }

  lemma LinesRankedStep(pairs: seq<Option<BytePair>>, n: nat, ranks: Ranks)
    requires 1 <= n < |pairs| && pairs[n].Some?
    requires LinesRanked(pairs, n, ranks)
    ensures LinesRanked(pairs, n + 1, ranks[pairs[n].value := n - 1])
  {
    var ranks' := ranks[pairs[n].value := n - 1];
    forall j | 1 <= j < n + 1 ensures pairs[j].Some? && pairs[j].value in ranks' {
      if j < n {
        assert pairs[j].value in ranks;
      }
    }
  }

  lemma RanksPointBackStep(pairs: seq<Option<BytePair>>, n: nat, ranks: Ranks)
    requires 1 <= n < |pairs| && pairs[n].Some?
    requires RanksPointBack(pairs, n, ranks)
    ensures RanksPointBack(pairs, n + 1, ranks[pairs[n].value := n - 1])
  {
    var p := pairs[n].value;
    var ranks' := ranks[p := n - 1];
    forall q | q in ranks'
      ensures && 0 <= ranks'[q] < n
              && pairs[ranks'[q] + 1] == Some(q)
              && forall j :: ranks'[q] + 1 < j < n + 1 ==> pairs[j] != Some(q)
    {
      if q != p {
        assert q in ranks && ranks'[q] == ranks[q];
        assert pairs[n] != Some(q);
      }
    }
  }

  /** Reading line `n` stores rank `n - 1` for its pair, overwriting. */
  lemma RanksSoFarStep(pairs: seq<Option<BytePair>>, n: nat, ranks: Ranks)
    requires 1 <= n < |pairs| && pairs[n].Some?
    requires RanksSoFar(pairs, n, ranks)
    ensures RanksSoFar(pairs, n + 1, ranks[pairs[n].value := n - 1])
  {
    LinesRankedStep(pairs, n, ranks);
    RanksPointBackStep(pairs, n, ranks);
  }

  /** Once every line is read, the table is the rank table of `pairs`. */
  lemma RanksSoFarComplete(pairs: seq<Option<BytePair>>, ranks: Ranks)
    requires 1 <= |pairs| && RanksSoFar(pairs, |pairs|, ranks)
    ensures IsRankTable(pairs, ranks)
  {
    forall p
      ensures p in ranks <==> exists k :: 1 <= k < |pairs| && pairs[k] == Some(p)
    {
      if p in ranks {
        assert pairs[ranks[p] + 1] == Some(p);
      }
      if k :| 1 <= k < |pairs| && pairs[k] == Some(p) {
        assert pairs[k].value == p;
      }
    }
  }

  /** Builds the rank table from the merges lines, visiting lines
      `1 ..< |lines|` in order and storing `i - 1` for the pair of line `i`. */
  method BuildRanks(lines: seq<string>) returns (r: Result<Ranks, LoadError>)
    ensures r.Success? <==> |lines| > 0 && forall i :: 1 <= i < |lines| ==> ParsedLines(lines)[i].Some?
    ensures |lines| == 0 ==> r == Failure(EmptyMergeList)
    ensures r.Failure? && |lines| > 0 ==>
      && r.error.MalformedMergeLine?
      && 1 <= r.error.line < |lines|
      && ParsedLines(lines)[r.error.line].None?
      && forall j :: 1 <= j < r.error.line ==> ParsedLines(lines)[j].Some?
    ensures r.Success? ==> IsRankTable(ParsedLines(lines), r.value) && Injective(r.value)
  {
    if |lines| == 0 {
      return Failure(EmptyMergeList);
    }
    ghost var pairs := ParsedLines(lines);
    var ranks: Ranks := map[];
    var i := 1;
    while i < |lines|
      invariant 1 <= i <= |lines|
      invariant RanksSoFar(pairs, i, ranks)
    {
      var bp := ParseMergeLine(lines[i]);
      ParsedLineAt(lines, i);
      if bp.None? {
        return Failure(MalformedMergeLine(i));
      }
      RanksSoFarStep(pairs, i, ranks);
      ranks := ranks[bp.value := i - 1];
      i := i + 1;
    }
    RanksSoFarComplete(pairs, ranks);
    RankTableInjective(pairs, ranks);
    return Success(ranks);
  }
}

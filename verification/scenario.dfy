/** A worked example: the merges list `#version: 0.2`, `h e`, `e l`,
    `l l o`. Its header names a pair but is never ranked; the third field
    of the last line is ignored, so it ranks `(l, l)`. Merging `hello`
    takes `(h, e)` first, which consumes the `e`, so `(e, l)` never
    applies; `(l, l)` comes next and leaves `he ll o`. */
module Scenario {
  import opened Wrappers
  import opened Strings
  import opened MergeRanks
  import opened BpeEngine

  const HelloMerges: seq<string> := ["#version: 0.2", "h e", "e l", "l l o"]

  /** The ranks the example's merges list yields. */
  ghost predicate HelloRanks(ranks: Ranks)
  {
    && BytePair("h", "e") in ranks && ranks[BytePair("h", "e")] == 0
    && BytePair("e", "l") in ranks && ranks[BytePair("e", "l")] == 1
    && BytePair("l", "l") in ranks && ranks[BytePair("l", "l")] == 2
    && forall q :: q in ranks ==> q == BytePair("h", "e") || q == BytePair("e", "l") || q == BytePair("l", "l")
  }

  /** The lines of the example, stated element by element so that
      reasoning about them does not evaluate the whole list at once. */
  ghost predicate IsHelloMerges(lines: seq<string>)
  {
    && |lines| == 4
    && lines[0] == "#version: 0.2"
    && lines[1] == "h e"
    && lines[2] == "e l"
    && lines[3] == "l l o"
  }

  /** `HelloMerges` is such a list, so every lemma below applies to it. */
  lemma HelloMergesShape()
    ensures IsHelloMerges(HelloMerges)
  {
  }

  lemma HelloLine1(lines: seq<string>)
    requires IsHelloMerges(lines)
    ensures ParsedLines(lines)[1] == Some(BytePair("h", "e"))
  {
    ParsedLineAt(lines, 1);
    ParseMergeLineRoundTrip("h", "e");
    assert "h" + " " + "e" == lines[1];
  }

  lemma HelloLine2(lines: seq<string>)
    requires IsHelloMerges(lines)
    ensures ParsedLines(lines)[2] == Some(BytePair("e", "l"))
  {
    ParsedLineAt(lines, 2);
    ParseMergeLineRoundTrip("e", "l");
    assert "e" + " " + "l" == lines[2];
  }

  /** Only the first two fields of `l l o` count. */
  lemma HelloLine3(lines: seq<string>)
    requires IsHelloMerges(lines)
    ensures ParsedLines(lines)[3] == Some(BytePair("l", "l"))
  {
    ParsedLineAt(lines, 3);
    assert JoinSep(["l", "l", "o"], ' ') == lines[3];
    SplitJoinSep(["l", "l", "o"], ' ');
  }

  /** Reading the example's merges list gives exactly those ranks; the
      header's pair is not among them. */
  lemma HelloRankTable(lines: seq<string>, ranks: Ranks)
    requires IsHelloMerges(lines)
    requires IsRankTable(ParsedLines(lines), ranks)
    ensures HelloRanks(ranks)
    ensures BytePair("#version:", "0.2") !in ranks
  {
    HelloRankValues(lines, ranks);
    HelloRankKeys(lines, ranks);
  }

  lemma HelloRankValues(lines: seq<string>, ranks: Ranks)
    requires IsHelloMerges(lines)
    requires IsRankTable(ParsedLines(lines), ranks)
    ensures BytePair("h", "e") in ranks && ranks[BytePair("h", "e")] == 0
    ensures BytePair("e", "l") in ranks && ranks[BytePair("e", "l")] == 1
    ensures BytePair("l", "l") in ranks && ranks[BytePair("l", "l")] == 2
  {
    HelloLine1(lines);
    HelloLine2(lines);
    HelloLine3(lines);
  }

  lemma HelloRankKeys(lines: seq<string>, ranks: Ranks)
    requires IsHelloMerges(lines)
    requires IsRankTable(ParsedLines(lines), ranks)
    ensures forall q :: q in ranks ==> q == BytePair("h", "e") || q == BytePair("e", "l") || q == BytePair("l", "l")
  {
    var pairs := ParsedLines(lines);
    HelloLine1(lines);
    HelloLine2(lines);
    HelloLine3(lines);
    forall q | q in ranks ensures q == BytePair("h", "e") || q == BytePair("e", "l") || q == BytePair("l", "l") {
      var i :| 1 <= i < |pairs| && pairs[i] == Some(q);
    }
  }

  /** The ranked pairs of `w` are among its neighbours `(w[i], w[i + 1])`. */
  lemma RankedNeighbours(ranks: Ranks, w: Word, q: BytePair)
    requires HelloRanks(ranks)
    requires Adjacent(w, q) && q in ranks
    ensures exists i :: 0 <= i < |w| - 1 && q == BytePair(w[i], w[i + 1])
    ensures q == BytePair("h", "e") || q == BytePair("e", "l") || q == BytePair("l", "l")
  {
    var i :| 0 <= i < |w| - 1 && w[i] == q.a && w[i + 1] == q.b;
    assert q == BytePair(w[i], w[i + 1]);
  }

  /** Round 1: `(h, e)` has rank 0, the lowest possible, and the pass
      merges its one occurrence. */
  lemma HelloRound1(ranks: Ranks)
    requires HelloRanks(ranks)
    ensures IsLowest(ranks, ["h", "e", "l", "l", "o"], BytePair("h", "e"))
    ensures MergePass(["h", "e", "l", "l", "o"], BytePair("h", "e")) == ["he", "l", "l", "o"]
  {
    var w: Word := ["h", "e", "l", "l", "o"];
    assert w[0] == "h" && w[1] == "e";
    forall q | q in ranks && Adjacent(w, q) ensures ranks[BytePair("h", "e")] <= ranks[q] {
      RankedNeighbours(ranks, w, q);
    }
    assert "h" + "e" == "he";
  }

  /** Round 2: of `(he, l)`, `(l, l)` and `(l, o)` only `(l, l)` is ranked. */
  lemma HelloRound2(ranks: Ranks)
    requires HelloRanks(ranks)
    ensures IsLowest(ranks, ["he", "l", "l", "o"], BytePair("l", "l"))
    ensures MergePass(["he", "l", "l", "o"], BytePair("l", "l")) == ["he", "ll", "o"]
  {
    var w: Word := ["he", "l", "l", "o"];
    assert w[1] == "l" && w[2] == "l";
    forall q | q in ranks && Adjacent(w, q) ensures ranks[BytePair("l", "l")] <= ranks[q] {
      RankedNeighbours(ranks, w, q);
      var i :| 0 <= i < |w| - 1 && q == BytePair(w[i], w[i + 1]);
      assert i == 1;
    }
    assert "l" + "l" == "ll";
  }

  /** Round 3: neither `(he, ll)` nor `(ll, o)` is ranked. */
  lemma HelloRound3(ranks: Ranks)
    requires HelloRanks(ranks)
    ensures Final(ranks, ["he", "ll", "o"])
  {
    var w: Word := ["he", "ll", "o"];
    forall q | Adjacent(w, q) ensures q !in ranks {
      var i :| 0 <= i < |w| - 1 && w[i] == q.a && w[i + 1] == q.b;
      assert |q.a| == 2;
    }
  }

  lemma HelloInjective(ranks: Ranks)
    requires HelloRanks(ranks)
    ensures Injective(ranks)
  {
  }

  /** Two rounds, each merging the lowest-ranked pair, then nothing left
      to merge. */
  lemma TwoRounds(ranks: Ranks, w0: Word, p0: BytePair, w1: Word, p1: BytePair, w2: Word)
    requires Injective(ranks)
    requires IsLowest(ranks, w0, p0) && MergePass(w0, p0) == w1
    requires IsLowest(ranks, w1, p1) && MergePass(w1, p1) == w2
    requires Final(ranks, w2)
    ensures BpeWord(ranks, w0) == w2
  {
    BpeWordStep(ranks, w0, p0);
    BpeWordStep(ranks, w1, p1);
    BpeWordStop(ranks, w2);
  }

  /** `bpe("hello")` under the example's rank table is `he ll o`. */
  lemma HelloMerge(lines: seq<string>, ranks: Ranks)
    requires IsHelloMerges(lines)
    requires IsRankTable(ParsedLines(lines), ranks)
    ensures BpeRef(ranks, "hello") == "he ll o"
  {
    HelloRankTable(lines, ranks);
    HelloInjective(ranks);
    HelloChars();
    HelloRound1(ranks);
    HelloRound2(ranks);
    HelloRound3(ranks);
    TwoRounds(ranks, ["h", "e", "l", "l", "o"], BytePair("h", "e"), ["he", "l", "l", "o"], BytePair("l", "l"), ["he", "ll", "o"]);
    HelloJoin();
  }

  lemma HelloChars()
    ensures Chars("hello") == ["h", "e", "l", "l", "o"]
  {
  }

  lemma HelloJoin()
    ensures JoinSep(["he", "ll", "o"], ' ') == "he ll o"
  {
  }
}

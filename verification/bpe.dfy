/** The greedy byte-pair merge. A token (already byte-mapped) starts as one
    fragment per character; each round merges, left to right, every
    non-overlapping occurrence of the adjacent pair with the lowest rank,
    until no adjacent pair is ranked. */
module BpeEngine {
  import opened Wrappers
  import opened Strings
  import opened MergeRanks

  /** The fragments of one token during merging. */
  type Word = seq<string>

  /** `p` occurs in `w` as two neighbouring fragments. */
  ghost predicate Adjacent(w: Word, p: BytePair)
  {
    exists i :: 0 <= i < |w| - 1 && w[i] == p.a && w[i + 1] == p.b
  }

  /** `p` is the lowest-ranked of the ranked pairs adjacent in `w`. */
  ghost predicate IsLowest(ranks: Ranks, w: Word, p: BytePair)
  {
    && p in ranks
    && Adjacent(w, p)
    && forall q :: q in ranks && Adjacent(w, q) ==> ranks[p] <= ranks[q]
  }

  /** No adjacent pair of `w` is ranked: merging is over. */
  ghost predicate Final(ranks: Ranks, w: Word)
  {
    forall p :: Adjacent(w, p) ==> p !in ranks
  }

  /** With distinct ranks the lowest-ranked adjacent pair is unique, so
      which one is found does not depend on the order pairs are visited. */
  lemma LowestUnique(ranks: Ranks, w: Word, p: BytePair, q: BytePair)
    requires Injective(ranks)
    requires IsLowest(ranks, w, p) && IsLowest(ranks, w, q)
    ensures p == q
  {
  }

  /** One fragment per character (`Array(token).map { String($0) }`). */
  function Chars(token: string): (w: Word)
    ensures |w| == |token|
    ensures Concat(w) == token
    ensures forall i :: 0 <= i < |w| ==> w[i] == [token[i]]
    decreases |token|
  {
    if token == [] then [] else [[token[0]]] + Chars(token[1..])
  }

  /** The adjacent pairs of `w` in scan order, repeats included. */
  function AdjacentPairs(w: Word): (ps: seq<BytePair>)
    ensures forall p :: p in ps <==> Adjacent(w, p)
    decreases |w|
  {
    if |w| < 2 then []
    else
      var rest := AdjacentPairs(w[1..]);
      assert forall p :: Adjacent(w[1..], p) ==> Adjacent(w, p) by {
        forall p | Adjacent(w[1..], p) ensures Adjacent(w, p) {
          var i :| 0 <= i < |w| - 2 && w[1..][i] == p.a && w[1..][i + 1] == p.b;
          assert w[i + 1] == p.a && w[i + 2] == p.b;
        }
      }
      assert forall p :: Adjacent(w, p) && p != BytePair(w[0], w[1]) ==> Adjacent(w[1..], p) by {
        forall p | Adjacent(w, p) && p != BytePair(w[0], w[1]) ensures Adjacent(w[1..], p) {
          var i :| 0 <= i < |w| - 1 && w[i] == p.a && w[i + 1] == p.b;
          assert i > 0;
          assert w[1..][i - 1] == p.a && w[1..][i] == p.b;
        }
      }
      [BytePair(w[0], w[1])] + rest
  }

  /** Keep the ranked pairs of `ps` and take the minimum by rank, as
      `filter` followed by `min(by:)`: the running minimum `best` is replaced
      only by a strictly lower rank, so the first minimum wins. */
  function LowestFrom(ranks: Ranks, ps: seq<BytePair>, best: Option<BytePair>): (r: Option<BytePair>)
    requires best.Some? ==> best.value in ranks
    ensures r.None? <==> best.None? && forall i :: 0 <= i < |ps| ==> ps[i] !in ranks
    ensures r.Some? ==> r.value in ranks && (r == best || r.value in ps)
    ensures r.Some? ==> forall q :: q in ps && q in ranks ==> ranks[r.value] <= ranks[q]
    ensures r.Some? && best.Some? ==> ranks[r.value] <= ranks[best.value]
    decreases |ps|
  {
    if ps == [] then best
    else
      var p := ps[0];
      var best' :=
        if p !in ranks then best
        else if best.None? || ranks[p] < ranks[best.value] then Some(p)
        else best;
      LowestFrom(ranks, ps[1..], best')
  }

  /** The lowest-ranked pair among the ranked pairs of `ps`, if any. */
  function LowestRanked(ranks: Ranks, ps: seq<BytePair>): (r: Option<BytePair>)
    ensures r.None? <==> forall q :: q in ps ==> q !in ranks
    ensures r.Some? ==> r.value in ps && r.value in ranks
    ensures r.Some? ==> forall q :: q in ps && q in ranks ==> ranks[r.value] <= ranks[q]
  {
    LowestFrom(ranks, ps, None)
  }

  /** One left-to-right pass merging every non-overlapping occurrence of
      `p` into the single fragment `p.a + p.b`. */
  function MergePass(w: Word, p: BytePair): (r: Word)
    ensures |r| <= |w|
    ensures |w| > 0 ==> |r| > 0
    decreases |w|
  {
    if |w| == 0 then []
    else if |w| >= 2 && w[0] == p.a && w[1] == p.b then [p.a + p.b] + MergePass(w[2..], p)
    else [w[0]] + MergePass(w[1..], p)
  }

  /** A merge pass never changes the text the fragments spell. */
  lemma {:induction false} MergePassConcat(w: Word, p: BytePair)
    ensures Concat(MergePass(w, p)) == Concat(w)
    decreases |w|
  {
    if |w| == 0 {
    } else if |w| >= 2 && w[0] == p.a && w[1] == p.b {
      var rest := MergePass(w[2..], p);
      MergePassConcat(w[2..], p);
      assert MergePass(w, p) == [p.a + p.b] + rest;
      ConcatCons(p.a + p.b, rest);
      assert w[1..][1..] == w[2..];
      assert Concat(w) == w[0] + (w[1] + Concat(w[2..]));
      assert (w[0] + w[1]) + Concat(w[2..]) == w[0] + (w[1] + Concat(w[2..]));
    } else {
      var rest := MergePass(w[1..], p);
      MergePassConcat(w[1..], p);
      assert MergePass(w, p) == [w[0]] + rest;
      ConcatCons(w[0], rest);
    }
  }

  /** A pass merges at least one occurrence of a pair that occurs, so the
      word strictly shrinks. */
  lemma {:induction false} MergePassShrinks(w: Word, p: BytePair)
    requires Adjacent(w, p)
    ensures |MergePass(w, p)| < |w|
    decreases |w|
  {
    if |w| >= 2 && w[0] == p.a && w[1] == p.b {
    } else {
      var i :| 0 <= i < |w| - 1 && w[i] == p.a && w[i + 1] == p.b;
      assert i > 0;
      assert w[1..][i - 1] == p.a && w[1..][i] == p.b;
      MergePassShrinks(w[1..], p);
    }
  }

  /** A pass leaves a word in which `p` does not occur unchanged. */
  lemma {:induction false} MergePassAbsent(w: Word, p: BytePair)
    requires !Adjacent(w, p)
    ensures MergePass(w, p) == w
    decreases |w|
  {
    if |w| > 0 {
      if |w| >= 2 {
        assert !(w[0] == p.a && w[1] == p.b);
      }
      forall i | 0 <= i < |w| - 2
        ensures !(w[1..][i] == p.a && w[1..][i + 1] == p.b)
      {
        assert w[1..][i] == w[i + 1] && w[1..][i + 1] == w[i + 2];
      }
      MergePassAbsent(w[1..], p);
    }
  }

  /** A pass keeps fragments non-empty and free of `sep`. */
  lemma {:induction false} MergePassPieces(w: Word, p: BytePair, sep: char)
    requires Pieces(w, sep)
    ensures Pieces(MergePass(w, p), sep)
    decreases |w|
  {
    if |w| == 0 {
    } else if |w| >= 2 && w[0] == p.a && w[1] == p.b {
      assert Pieces(w[2..], sep);
      MergePassPieces(w[2..], p, sep);
      assert sep !in p.a + p.b;
    } else {
      assert Pieces(w[1..], sep);
      MergePassPieces(w[1..], p, sep);
    }
  }

  /** Fragments before the next occurrence of `p.a` are copied unchanged. */
  lemma {:induction false} MergePassSkip(w: Word, p: BytePair, i: nat, j: nat)
    requires i <= j <= |w|
    requires forall k :: i <= k < j ==> w[k] != p.a
    ensures MergePass(w[i..], p) == w[i..j] + MergePass(w[j..], p)
    decreases j - i
  {
    if i < j {
      MergePassHead(w, p, i);
      MergePassSkip(w, p, i + 1, j);
      AppendAssoc([w[i]], w[i + 1..j], MergePass(w[j..], p));
      assert w[i..j] == [w[i]] + w[i + 1..j];
    }
  }

  /** The complete merge: repeat passes with the lowest-ranked adjacent
      pair until none is ranked. Candidates are taken in scan order; with
      distinct ranks the order is irrelevant (see `BpeWordStep`). */
  function BpeWord(ranks: Ranks, w: Word): (r: Word)
    ensures Concat(r) == Concat(w)
    ensures |r| <= |w|
    ensures |w| > 0 ==> |r| > 0
    ensures Final(ranks, r)
    ensures forall sep :: Pieces(w, sep) ==> Pieces(r, sep)
    decreases |w|
  {
    match LowestRanked(ranks, AdjacentPairs(w))
    case None => w
    case Some(p) =>
      MergePassShrinks(w, p);
      MergePassConcat(w, p);
      forall sep | Pieces(w, sep) ensures Pieces(MergePass(w, p), sep) {
        MergePassPieces(w, p, sep);
      }
      BpeWord(ranks, MergePass(w, p))
  }

  /** A word with no ranked adjacent pair is already merged. */
  lemma BpeWordStop(ranks: Ranks, w: Word)
    requires Final(ranks, w)
    ensures BpeWord(ranks, w) == w
  {
    assert LowestRanked(ranks, AdjacentPairs(w)).None?;
  }

  /** Otherwise the merge continues from the pass over the lowest-ranked
      adjacent pair. */
  lemma BpeWordStep(ranks: Ranks, w: Word, p: BytePair)
    requires Injective(ranks)
    requires IsLowest(ranks, w, p)
    ensures BpeWord(ranks, w) == BpeWord(ranks, MergePass(w, p))
  {
    var b := LowestRanked(ranks, AdjacentPairs(w));
    assert p in AdjacentPairs(w);
    assert b.Some?;
    assert IsLowest(ranks, w, b.value);
    LowestUnique(ranks, w, b.value, p);
  }

  /** `bpe(token)`: tokens of at most one character come back unchanged;
      longer ones are split into characters, merged, and the fragments
      joined with single spaces. */
  function BpeRef(ranks: Ranks, token: string): (r: string)
    ensures |token| <= 1 ==> r == token
    ensures ' ' !in token ==> Concat(Split(r, ' ')) == token
    ensures ' ' !in token ==> |Split(r, ' ')| <= |token|
    ensures ' ' !in token ==> Final(ranks, Split(r, ' '))
  {
    if |token| <= 1 then
      assert ' ' !in token ==> Split(token, ' ') == Split(JoinSep(Chars(token), ' '), ' ') == Chars(token) by {
        if ' ' !in token {
          assert Pieces(Chars(token), ' ');
          SplitJoinSep(Chars(token), ' ');
        }
      }
      token
    else
      var w := BpeWord(ranks, Chars(token));
      assert ' ' !in token ==> Split(JoinSep(w, ' '), ' ') == w by {
        if ' ' !in token {
          assert Pieces(Chars(token), ' ');
          SplitJoinSep(w, ' ');
        }
      }
      JoinSep(w, ' ')
  }

  /** `getPairs`: the set of adjacent pairs of `word`. The source's range
      `0 ..< word.count - 1` traps on an empty word. */
  method GetPairs(word: Word) returns (s: set<BytePair>)
    requires |word| >= 1
    ensures forall p :: p in s <==> Adjacent(word, p)
  {
    s := {};
    var i := 0;
    while i < |word| - 1
      invariant 0 <= i <= |word| - 1
      invariant forall p :: p in s <==> exists k :: 0 <= k < i && word[k] == p.a && word[k + 1] == p.b
    {
      s := s + {BytePair(word[i], word[i + 1])};
      i := i + 1;
    }
  }

  /** `Array(set)`: the elements of `s` once each, in an order the model
      leaves unspecified (Swift's hash-set iteration order). */
  method ArrayOf(s: set<BytePair>) returns (xs: seq<BytePair>)
    ensures forall x :: x in xs <==> x in s
    ensures |xs| == |s|
  {
    xs := [];
    var rest := s;
    while rest != {}
      invariant rest <= s
      invariant forall x :: x in xs <==> x in s && x !in rest
      invariant |xs| + |rest| == |s|
      decreases |rest|
    {
      var x :| x in rest;
      xs := xs + [x];
      rest := rest - {x};
    }
  }

  /** `word[from ..< word.count].firstIndex(of: x)`, as an index of `word`. */
  function FirstIndex(word: Word, from: nat, x: string): (r: Option<nat>)
    requires from <= |word|
    ensures r.Some? ==> from <= r.value < |word| && word[r.value] == x
    ensures forall k :: from <= k < |word| && (r.None? || k < r.value) ==> word[k] != x
    decreases |word| - from
  {
    if from == |word| then None
    else if word[from] == x then Some(from)
    else FirstIndex(word, from + 1, x)
  }

  /** The merge pass as the source writes it: jump to the next occurrence
      of the pair's left fragment, copy what lies before it, then merge it
      with its right neighbour or copy it alone. */
  method MergeOccurrences(word: Word, bigram: BytePair) returns (newWord: Word)
    ensures newWord == MergePass(word, bigram)
    ensures Concat(newWord) == Concat(word)
    ensures Adjacent(word, bigram) ==> |newWord| < |word|
  {
    var first, second := bigram.a, bigram.b;
    ghost var merged := MergePass(word, bigram);
    newWord := [];
    var i := 0;
    assert word[0..] == word;
    while i < |word|
      invariant 0 <= i <= |word|
      invariant newWord + MergePass(word[i..], bigram) == merged
      decreases |word| - i
    {
      var j := FirstIndex(word, i, first);
      if j.None? {
        CopyRest(newWord, word, bigram, i);
        newWord := newWord + word[i..];
        break;
      }
      CopyUpTo(newWord, word, bigram, i, j.value);
      newWord := newWord + word[i..j.value];
      i := j.value;
      if word[i] == first && i < |word| - 1 && word[i + 1] == second {
        MergeAt(newWord, word, bigram, i);
        newWord := newWord + [first + second];
        i := i + 2;
      } else {
        CopyAt(newWord, word, bigram, i);
        newWord := newWord + [word[i]];
        i := i + 1;
      }
    }
    if i == |word| {
      assert word[i..] == [];
      assert newWord + [] == newWord;
    }
    MergePassFacts(word, bigram);
  }

  lemma MergePassFacts(w: Word, p: BytePair)
    ensures Concat(MergePass(w, p)) == Concat(w)
    ensures Adjacent(w, p) ==> |MergePass(w, p)| < |w|
  {
    MergePassConcat(w, p);
    if Adjacent(w, p) {
      MergePassShrinks(w, p);
    }
  }

  /** No occurrence of `p.a` from `i` on: the rest is copied as it is. */
  lemma CopyRest(done: Word, word: Word, p: BytePair, i: nat)
    requires i <= |word|
    requires forall k :: i <= k < |word| ==> word[k] != p.a
    ensures done + MergePass(word[i..], p) == done + word[i..]
  {
    MergePassSkip(word, p, i, |word|);
    assert word[|word|..] == [];
  }

  /** Fragments before the next occurrence of `p.a` move to the output. */
  lemma CopyUpTo(done: Word, word: Word, p: BytePair, i: nat, j: nat)
    requires i <= j <= |word|
    requires forall k :: i <= k < j ==> word[k] != p.a
    ensures done + MergePass(word[i..], p) == (done + word[i..j]) + MergePass(word[j..], p)
  {
    MergePassSkip(word, p, i, j);
    AppendAssoc(done, word[i..j], MergePass(word[j..], p));
  }

  /** The pair starts at `i`: its merged fragment moves to the output. */
  lemma MergeAt(done: Word, word: Word, p: BytePair, i: nat)
    requires i + 1 < |word| && word[i] == p.a && word[i + 1] == p.b
    ensures done + MergePass(word[i..], p) == (done + [p.a + p.b]) + MergePass(word[i + 2..], p)
  {
    MergePassHead(word, p, i);
    AppendAssoc(done, [p.a + p.b], MergePass(word[i + 2..], p));
  }

  /** The pair does not start at `i`: that fragment moves to the output. */
  lemma CopyAt(done: Word, word: Word, p: BytePair, i: nat)
    requires i < |word|
    requires !(i + 1 < |word| && word[i] == p.a && word[i + 1] == p.b)
    ensures done + MergePass(word[i..], p) == (done + [word[i]]) + MergePass(word[i + 1..], p)
  {
    MergePassHead(word, p, i);
    AppendAssoc(done, [word[i]], MergePass(word[i + 1..], p));
  }

  lemma AppendAssoc(a: Word, b: Word, c: Word)
    ensures a + (b + c) == (a + b) + c
  {
  }

  /** The pass at position `i`: merge there if the pair starts there, else
      copy one fragment. */
  lemma MergePassHead(word: Word, p: BytePair, i: nat)
    requires i < |word|
    ensures i + 1 < |word| && word[i] == p.a && word[i + 1] == p.b ==>
      MergePass(word[i..], p) == [p.a + p.b] + MergePass(word[i + 2..], p)
    ensures !(i + 1 < |word| && word[i] == p.a && word[i + 1] == p.b) ==>
      MergePass(word[i..], p) == [word[i]] + MergePass(word[i + 1..], p)
  {
    assert word[i..][1..] == word[i + 1..];
    if i + 1 < |word| {
      assert word[i..][2..] == word[i + 2..];
    }
  }

  /** `bpe(token)` as the source runs it: candidate pairs are visited in an
      unspecified order, and the loop ends when no candidate is ranked or
      a single fragment is left. `rounds` counts the merge passes. */
  method Bpe(ranks: Ranks, token: string) returns (r: string, ghost rounds: nat)
    ensures |token| <= 1 ==> r == token
    ensures Injective(ranks) ==> r == BpeRef(ranks, token)
    ensures ' ' !in token ==> Concat(Split(r, ' ')) == token && Final(ranks, Split(r, ' '))
    ensures rounds == 0 || rounds < |token|
  {
    rounds := 0;
    if |token| <= 1 {
      return token, rounds;
    }
    var word := Chars(token);
    var pairs := GetPairs(word);
    var candidates := ArrayOf(pairs);
    while true
      invariant 2 <= |word|
      invariant rounds + |word| <= |token|
      invariant Concat(word) == token
      invariant forall sep :: Pieces(Chars(token), sep) ==> Pieces(word, sep)
      invariant forall p :: p in candidates <==> Adjacent(word, p)
      invariant Injective(ranks) ==> BpeWord(ranks, word) == BpeWord(ranks, Chars(token))
      decreases |word|
    {
      var bigram := LowestRanked(ranks, candidates);
      if bigram.None? {
        break;
      }
      assert IsLowest(ranks, word, bigram.value);
      if Injective(ranks) {
        BpeWordStep(ranks, word, bigram.value);
      }
      forall sep | Pieces(word, sep) ensures Pieces(MergePass(word, bigram.value), sep) {
        MergePassPieces(word, bigram.value, sep);
      }
      word := MergeOccurrences(word, bigram.value);
      rounds := rounds + 1;
      if |word| == 1 {
        break;
      }
      pairs := GetPairs(word);
      candidates := ArrayOf(pairs);
    }
    BpeWordStop(ranks, word);
    r := JoinSep(word, ' ');
    if ' ' !in token {
      assert Pieces(Chars(token), ' ');
      SplitJoinSep(word, ' ');
    }
  }
}

/** The three string operations the tokenizer borrows from Swift's standard
    library: `joined()` (concatenation), `joined(separator:)` and
    `split(separator:)`, which drops empty pieces by default.
 */
module Strings {

  /** Concatenation of all pieces, with no separator (`joined()`). */
  function Concat<T>(ws: seq<seq<T>>): (r: seq<T>)
    ensures ws == [] ==> r == []
    ensures ws != [] ==> ws[0] <= r
    decreases |ws|
  {
    if ws == [] then [] else ws[0] + Concat(ws[1..])
  }

  /** Every element of every piece occurs in the concatenation, and every
      element of the concatenation comes from some piece. */
  lemma {:induction false} ConcatMembers<T>(ws: seq<seq<T>>)
    ensures forall i, j :: 0 <= i < |ws| && 0 <= j < |ws[i]| ==> ws[i][j] in Concat(ws)
    ensures forall k :: 0 <= k < |Concat(ws)| ==>
      exists i, j :: 0 <= i < |ws| && 0 <= j < |ws[i]| && Concat(ws)[k] == ws[i][j]
    decreases |ws|
  {
    if ws != [] {
      ConcatMembers(ws[1..]);
      var r, rest := Concat(ws), Concat(ws[1..]);
      assert r == ws[0] + rest;
      forall i, j | 0 <= i < |ws| && 0 <= j < |ws[i]| ensures ws[i][j] in r {
        if i > 0 {
          assert ws[i][j] == ws[1..][i - 1][j];
        }
      }
      forall k | 0 <= k < |Concat(ws)|
        ensures exists i, j :: 0 <= i < |ws| && 0 <= j < |ws[i]| && Concat(ws)[k] == ws[i][j]
      {
        if k < |ws[0]| {
          assert r[k] == ws[0][k];
          assert 0 <= 0 < |ws| && 0 <= k < |ws[0]|;
        } else {
          assert r[k] == rest[k - |ws[0]|];
          var i, j :| 0 <= i < |ws[1..]| && 0 <= j < |ws[1..][i]| && rest[k - |ws[0]|] == ws[1..][i][j];
          assert r[k] == ws[i + 1][j];
          assert 0 <= i + 1 < |ws| && 0 <= j < |ws[i + 1]|;
          assert exists i', j' :: 0 <= i' < |ws| && 0 <= j' < |ws[i']| && r[k] == ws[i'][j'];
        }
      }
      assert r == Concat(ws);
    } else {
      assert Concat(ws) == [];
    }
  }

  lemma {:induction false} ConcatAppend<T>(a: seq<seq<T>>, b: seq<seq<T>>)
    ensures Concat(a + b) == Concat(a) + Concat(b)
  {
    if a == [] {
      assert a + b == b;
    } else {
      assert (a + b)[1..] == a[1..] + b;
      ConcatAppend(a[1..], b);
    }
  }

  lemma ConcatCons<T>(x: seq<T>, ws: seq<seq<T>>)
    ensures Concat([x] + ws) == x + Concat(ws)
  {
    assert ([x] + ws)[1..] == ws;
  }

  /** Fragments joined with one separator character between neighbours
      (`joined(separator:)`). */
  function JoinSep(ws: seq<string>, sep: char): (r: string)
    ensures |ws| > 0 ==> |r| == |Concat(ws)| + |ws| - 1
    decreases |ws|
  {
    if |ws| == 0 then []
    else if |ws| == 1 then ws[0]
    else ws[0] + [sep] + JoinSep(ws[1..], sep)
  }

  /** Every piece is non-empty and free of the separator: exactly the
      sequences that `split` can produce. */
  ghost predicate Pieces(ws: seq<string>, sep: char)
  {
    forall i :: 0 <= i < |ws| ==> ws[i] != [] && sep !in ws[i]
  }

  lemma PiecesAppend(a: seq<string>, b: seq<string>, sep: char)
    requires Pieces(a, sep) && Pieces(b, sep)
    ensures Pieces(a + b, sep)
  {
    forall i | 0 <= i < |a + b| ensures (a + b)[i] != [] && sep !in (a + b)[i] {
      if i < |a| {
        assert (a + b)[i] == a[i];
      } else {
        assert (a + b)[i] == b[i - |a|];
      }
    }
  }

  /** Length of the longest prefix of `s` that does not contain `sep`. */
  function Span(s: string, sep: char): (k: nat)
    ensures k <= |s|
    ensures forall i :: 0 <= i < k ==> s[i] != sep
    ensures k < |s| ==> s[k] == sep
  {
    if s == [] || s[0] == sep then 0 else 1 + Span(s[1..], sep)
  }

  /** Maximal separator-free runs of `s`, in order, empty runs omitted
      (`split(separator:)` with its default `omittingEmptySubsequences`). */
  function Split(s: string, sep: char): (r: seq<string>)
    ensures Pieces(r, sep)
    decreases |s|
  {
    if s == [] then []
    else if s[0] == sep then Split(s[1..], sep)
    else
      var k := Span(s, sep);
      [s[..k]] + Split(s[k..], sep)
  }

  /** Splitting undoes joining, as long as no piece is empty or holds the
      separator. */
  lemma {:induction false} SplitJoinSep(ws: seq<string>, sep: char)
    requires Pieces(ws, sep)
    ensures Split(JoinSep(ws, sep), sep) == ws
    decreases |ws|
  {
    if |ws| == 1 {
      var s := ws[0];
      assert sep !in s;
      assert Span(s, sep) == |s|;
      assert s[..|s|] == s && s[|s|..] == [];
    } else if |ws| > 1 {
      var x, rest := ws[0], JoinSep(ws[1..], sep);
      var s := x + [sep] + rest;
      assert JoinSep(ws, sep) == s;
      assert s[0] == x[0] != sep;
      var k := Span(s, sep);
      assert forall i :: 0 <= i < |x| ==> s[i] == x[i];
      assert s[|x|] == sep;
      assert k == |x|;
      assert s[..k] == x;
      assert s[k..] == [sep] + rest;
      assert ([sep] + rest)[1..] == rest;
      assert Split(s[k..], sep) == Split(rest, sep);
      assert Pieces(ws[1..], sep);
      SplitJoinSep(ws[1..], sep);
      assert ws == [x] + ws[1..];
    }
  }

  /** Text free of the separator is one piece. */
  lemma SplitWhole(s: string, sep: char)
    requires s != [] && sep !in s
    ensures Split(s, sep) == [s]
  {
    assert Span(s, sep) == |s|;
    assert s[..|s|] == s && s[|s|..] == [];
  }

  /** `Span` is the index of the first separator, so it is unchanged by
      what follows that separator. */
  lemma SpanBefore(s: string, sep: char, k: nat)
    requires k <= |s|
    requires forall i :: 0 <= i < k ==> s[i] != sep
    requires k < |s| ==> s[k] == sep
    ensures Span(s, sep) == k
  {
  }

  /** Each separator is a cut: the pieces on its two sides are split
      independently. Runs of separators and separators at either end of
      the text therefore yield no pieces of their own. */
  lemma {:induction false} SplitSep(x: string, y: string, sep: char)
    ensures Split(x + [sep] + y, sep) == Split(x, sep) + Split(y, sep)
    decreases |x|
  {
    var s := x + [sep] + y;
    if x == [] {
      assert s[1..] == y;
    } else if x[0] == sep {
      assert s[1..] == x[1..] + [sep] + y;
      SplitSep(x[1..], y, sep);
    } else {
      var kx := Span(x, sep);
      assert forall i :: 0 <= i < kx ==> s[i] == x[i];
      SpanBefore(s, sep, kx);
      assert s[..kx] == x[..kx];
      assert Split(s, sep) == [x[..kx]] + Split(s[kx..], sep);
      if kx < |x| {
        assert s[kx..] == x[kx..] + [sep] + y;
        SplitSep(x[kx..], y, sep);
      } else {
        assert s[kx..] == [sep] + y;
        assert ([sep] + y)[1..] == y;
        assert x[kx..] == [];
      }
    }
  }

  /** `s` with every `sep` removed. */
  function Without(s: string, sep: char): (r: string)
    ensures |r| <= |s|
    ensures sep !in r
    decreases |s|
  {
    if s == [] then []
    else if s[0] == sep then Without(s[1..], sep)
    else [s[0]] + Without(s[1..], sep)
  }

  /** A separator-free prefix passes through `Without` unchanged. */
  lemma {:induction false} WithoutPrefix(s: string, sep: char, k: nat)
    requires k <= |s|
    requires forall i :: 0 <= i < k ==> s[i] != sep
    ensures Without(s, sep) == s[..k] + Without(s[k..], sep)
    decreases k
  {
    if k > 0 {
      assert s[1..][k - 1..] == s[k..];
      WithoutPrefix(s[1..], sep, k - 1);
      assert s[..k] == [s[0]] + s[1..][..k - 1];
    }
  }

  /** Splitting loses exactly the separators: the pieces spell the text
      with its separators removed. */
  lemma {:induction false} SplitConcat(s: string, sep: char)
    ensures Concat(Split(s, sep)) == Without(s, sep)
    decreases |s|
  {
    if s == [] {
    } else if s[0] == sep {
      SplitConcat(s[1..], sep);
    } else {
      var k := Span(s, sep);
      SplitConcat(s[k..], sep);
      WithoutPrefix(s, sep, k);
      ConcatAppend([s[..k]], Split(s[k..], sep));
    }
  }
}

/** The ranked symptom search of the richer selector component
    (`fuzzySearch`): drop the symptoms already selected, score the rest
    against the lower-cased search term, keep the positive scores and list
    them best first, ties in catalogue order.

    Scores are kept in exact tenths: a prefix match is worth 100, a
    substring match 50, and every character of length difference between
    entry and term costs 1. */
module SymptomSelector {
  import opened Seqs
  import opened Text

  function Abs(n: int): nat
  {
    if n < 0 then -n else n
  }

  /** `{ item, score }`, the pair the search sorts. */
  datatype Scored = Scored(item: string, score: int)

  /** Ten times the score of a lower-cased entry against a lower-cased term.
      Only an entry that contains the term can score above zero. */
  function Score(lowerItem: string, lowerTerm: string): (r: int)
    ensures r <= 100
    ensures r > 0 ==> Includes(lowerItem, lowerTerm)
  {
    (if StartsWith(lowerItem, lowerTerm) then 100 else if Includes(lowerItem, lowerTerm) then 50 else 0)
      - Abs(|lowerItem| - |lowerTerm|)
  }

  /** Which entries the search keeps, stated without scores: a prefix
      match whose length differs from the term's by less than 100, or a
      match elsewhere in the entry whose length differs by less than 50. */
  predicate Survives(item: string, term: string)
  {
    var lowerItem, lowerTerm := Lower(item), Lower(term);
    var diff := Abs(|item| - |term|);
    if StartsWith(lowerItem, lowerTerm) then diff < 100 else Includes(lowerItem, lowerTerm) && diff < 50
  }

  function NotSelected(selected: seq<string>): string -> bool
  {
    x => x !in selected
  }

  function ScoreAgainst(lowerTerm: string): string -> Scored
  {
    x => Scored(x, Score(Lower(x), lowerTerm))
  }

  predicate IsPositive(r: Scored)
  {
    r.score > 0
  }

  function ItemOf(r: Scored): string
  {
    r.item
  }

  function ScoreIs(k: int): Scored -> bool
  {
    (r: Scored) => r.score == k
  }

  predicate NonIncreasing(s: seq<Scored>)
  {
    forall i, j :: 0 <= i < j < |s| ==> s[i].score >= s[j].score
  }

  /** Places `x` after every element scoring at least as much as it does. */
  function InsertByScore(x: Scored, s: seq<Scored>): (r: seq<Scored>)
    ensures multiset(r) == multiset(s) + multiset{x}
    decreases |s|
  {
    if s == [] then [x]
    else if s[0].score >= x.score then
      assert s == [s[0]] + s[1..];
      [s[0]] + InsertByScore(x, s[1..])
    else
      [x] + s
  }

  /** Putting an element no worse than the head in front of a best-first
      sequence keeps it best first. */
  lemma ConsKeepsOrder(h: Scored, t: seq<Scored>)
    requires NonIncreasing(t) && (t == [] || h.score >= t[0].score)
    ensures NonIncreasing([h] + t)
  {
    var r := [h] + t;
    forall i, j | 0 <= i < j < |r| ensures r[i].score >= r[j].score {
      if i == 0 {
        assert r[j] == t[j - 1];
        if j > 1 {
          assert t[0].score >= t[j - 1].score;
        }
      } else {
        assert r[i] == t[i - 1] && r[j] == t[j - 1];
      }
    }
  }

  /** Inserting into a best-first sequence keeps it best first. */
  lemma {:induction false} InsertKeepsOrder(x: Scored, s: seq<Scored>)
    requires NonIncreasing(s)
    ensures NonIncreasing(InsertByScore(x, s))
    decreases |s|
  {
    if s != [] {
      if s[0].score >= x.score {
        var tail := s[1..];
        assert NonIncreasing(tail) by {
          forall i, j | 0 <= i < j < |tail| ensures tail[i].score >= tail[j].score {
            assert tail[i] == s[i + 1] && tail[j] == s[j + 1];
          }
        }
        var rest := InsertByScore(x, tail);
        InsertKeepsOrder(x, tail);
        if tail != [] && tail[0].score >= x.score {
          assert rest[0] == tail[0] == s[1];
        } else {
          assert rest[0] == x;
        }
        ConsKeepsOrder(s[0], rest);
        assert InsertByScore(x, s) == [s[0]] + rest;
      } else {
        ConsKeepsOrder(x, s);
      }
    }
  }

  /** `.sort((a, b) => b.score - a.score)`: a stable sort, best score first. */
  function SortByScore(s: seq<Scored>): (r: seq<Scored>)
    ensures multiset(r) == multiset(s)
    ensures NonIncreasing(r)
    decreases |s|
  {
    if s == [] then []
    else
      var n := |s| - 1;
      var sorted := SortByScore(s[..n]);
      assert s == s[..n] + [s[n]];
      InsertKeepsOrder(s[n], sorted);
      InsertByScore(s[n], sorted)
  }

  /** `fuzzySearch(term, items)` with `selectedSymptoms` as a parameter. */
  function FuzzySearch(term: string, items: seq<string>, selected: seq<string>): seq<string>
  {
    if term == [] then []
    else
      var lowerTerm := Lower(term);
      var scored := Map(Filter(items, NotSelected(selected)), ScoreAgainst(lowerTerm));
      Map(SortByScore(Filter(scored, IsPositive)), ItemOf)
  }

  // ---------------------------------------------------------------------
  // What the search must return, stated without the pipeline
  // ---------------------------------------------------------------------

  function Eligible(selected: seq<string>, term: string): string -> bool
  {
    x => x !in selected && Survives(x, term)
  }

  /** The entries the search returns, in catalogue order. */
  function EligibleInCatalogueOrder(items: seq<string>, selected: seq<string>, term: string): seq<string>
  {
    Filter(items, Eligible(selected, term))
  }

  function ItemScoreIs(term: string, k: int): string -> bool
  {
    x => Score(Lower(x), Lower(term)) == k
  }

  /** A positive score and the score-free description agree. */
  lemma ScorePositiveIffSurvives(item: string, term: string)
    ensures Score(Lower(item), Lower(term)) > 0 <==> Survives(item, term)
  {
  }

  /** For entries of the same length, a prefix match outscores an entry
      that contains the term only further in. */
  lemma PrefixOutscoresInnerMatch(a: string, b: string, term: string)
    requires |a| == |b|
    requires StartsWith(Lower(a), Lower(term)) && !StartsWith(Lower(b), Lower(term))
    ensures Score(Lower(a), Lower(term)) > Score(Lower(b), Lower(term))
  {
  }

  // ---------------------------------------------------------------------
  // The sort is stable
  // ---------------------------------------------------------------------

  lemma {:induction false} InsertKeepsTies(x: Scored, s: seq<Scored>, k: int)
    requires NonIncreasing(s)
    ensures Filter(InsertByScore(x, s), ScoreIs(k)) == Filter(s, ScoreIs(k)) + (if x.score == k then [x] else [])
    decreases |s|
  {
    var r := InsertByScore(x, s);
    if s == [] {
      assert r == [x] && [x][1..] == [];
    } else if s[0].score >= x.score {
      InsertKeepsTies(x, s[1..], k);
      assert r[0] == s[0] && r[1..] == InsertByScore(x, s[1..]);
    } else {
      assert r[0] == x && r[1..] == s;
      if x.score == k {
        assert forall i :: 0 <= i < |s| ==> s[0].score >= s[i].score;
        FilterKeepsNone(s, ScoreIs(k));
      }
    }
  }

  lemma SortByScoreLast(s: seq<Scored>)
    requires s != []
    ensures SortByScore(s) == InsertByScore(s[|s| - 1], SortByScore(s[..|s| - 1]))
  {
  }

  /** Entries with equal scores keep their relative order. */
  lemma {:induction false} SortKeepsTies(s: seq<Scored>, k: int)
    ensures Filter(SortByScore(s), ScoreIs(k)) == Filter(s, ScoreIs(k))
    decreases |s|
  {
    if s != [] {
      var n := |s| - 1;
      var prefix, last := s[..n], s[n];
      var sorted := SortByScore(prefix);
      var tie := if last.score == k then [last] else [];
      assert s == prefix + [last];
      calc {
        Filter(SortByScore(s), ScoreIs(k));
        { SortByScoreLast(s); }
        Filter(InsertByScore(last, sorted), ScoreIs(k));
        { InsertKeepsTies(last, sorted, k); }
        Filter(sorted, ScoreIs(k)) + tie;
        { SortKeepsTies(prefix, k); }
        Filter(prefix, ScoreIs(k)) + tie;
        { FilterSingleton(last, ScoreIs(k)); }
        Filter(prefix, ScoreIs(k)) + Filter([last], ScoreIs(k));
        { FilterAppend(prefix, [last], ScoreIs(k)); }
        Filter(s, ScoreIs(k));
      }
    }
  }

  /** The first element of a non-increasing sequence is first among those of its score. */
  lemma FirstOfItsScore(a: seq<Scored>)
    requires NonIncreasing(a) && a != []
    ensures Filter(a, ScoreIs(a[0].score)) == [a[0]] + Filter(a[1..], ScoreIs(a[0].score))
  {
  }

  /** Any non-increasing arrangement with the same ties as `s` is
      `SortByScore(s)`: every stable descending sort gives this result. */
  lemma {:induction false} StableSortIsUnique(r: seq<Scored>, s: seq<Scored>)
    requires NonIncreasing(r)
    requires SameTies(r, s)
    ensures r == SortByScore(s)
  {
    forall k ensures Filter(r, ScoreIs(k)) == Filter(SortByScore(s), ScoreIs(k)) {
      SortKeepsTies(s, k);
    }
    SameTiesSame(r, SortByScore(s));
  }

  /** For every score, `a` and `b` list the elements with that score in the same order. */
  ghost predicate SameTies(a: seq<Scored>, b: seq<Scored>)
  {
    forall k :: Filter(a, ScoreIs(k)) == Filter(b, ScoreIs(k))
  }

  lemma {:induction false} SameTiesHead(a: seq<Scored>, b: seq<Scored>)
    requires NonIncreasing(a) && NonIncreasing(b) && SameTies(a, b) && a != []
    ensures b != [] && a[0] == b[0]
  {
    var m := a[0].score;
    assert a[0] in Filter(a, ScoreIs(m));
    assert Filter(b, ScoreIs(m)) == Filter(a, ScoreIs(m));
    var y := Filter(b, ScoreIs(m))[0];
    assert y in b && y.score == m;
    var n := b[0].score;
    assert b[0] in Filter(b, ScoreIs(n));
    assert Filter(a, ScoreIs(n)) == Filter(b, ScoreIs(n));
    var z := Filter(a, ScoreIs(n))[0];
    assert z in a && z.score == n;
    FirstOfItsScore(a);
    FirstOfItsScore(b);
  }

  lemma {:induction false} SameTiesTail(a: seq<Scored>, b: seq<Scored>)
    requires SameTies(a, b) && a != [] && b != [] && a[0] == b[0]
    ensures SameTies(a[1..], b[1..])
  {
    forall k ensures Filter(a[1..], ScoreIs(k)) == Filter(b[1..], ScoreIs(k)) {
      assert Filter(a, ScoreIs(k)) == Filter(b, ScoreIs(k));
      FilterCons(a, ScoreIs(k));
      FilterCons(b, ScoreIs(k));
      var head := if a[0].score == k then [a[0]] else [];
      assert head + Filter(a[1..], ScoreIs(k)) == head + Filter(b[1..], ScoreIs(k));
      assert Filter(a[1..], ScoreIs(k)) == (head + Filter(a[1..], ScoreIs(k)))[|head|..];
    }
  }

  /** Two best-first sequences with the same ties are equal. */
  lemma {:induction false} SameTiesSame(a: seq<Scored>, b: seq<Scored>)
    requires NonIncreasing(a) && NonIncreasing(b) && SameTies(a, b)
    ensures a == b
    decreases |a|
  {
    if a != [] {
      SameTiesHead(a, b);
      SameTiesTail(a, b);
      SameTiesSame(a[1..], b[1..]);
      assert a == [a[0]] + a[1..] && b == [b[0]] + b[1..];
    } else if b != [] {
      SameTiesHead(b, a);
    }
  }

  // ---------------------------------------------------------------------
  // The search against its description
  // ---------------------------------------------------------------------

  ghost predicate WellScored(s: seq<Scored>, lowerTerm: string)
  {
    forall x :: x in s ==> x.score == Score(Lower(x.item), lowerTerm)
  }

  function PositiveAgainst(lowerTerm: string): string -> bool
  {
    x => Score(Lower(x), lowerTerm) > 0
  }

  /** Scoring the items of a well-scored sequence again gives it back. */
  lemma RescoreWellScored(s: seq<Scored>, lowerTerm: string)
    requires WellScored(s, lowerTerm)
    ensures Map(Map(s, ItemOf), ScoreAgainst(lowerTerm)) == s
  {
    var r := Map(Map(s, ItemOf), ScoreAgainst(lowerTerm));
    forall i | 0 <= i < |s| ensures r[i] == s[i] {
      assert s[i] in s;
    }
  }

  /** Scoring, keeping the positive scores and dropping the scores again
      is filtering by a positive score. */
  lemma {:induction false} KeptItems(unselected: seq<string>, lowerTerm: string)
    ensures Map(Filter(Map(unselected, ScoreAgainst(lowerTerm)), IsPositive), ItemOf)
         == Filter(unselected, PositiveAgainst(lowerTerm))
  {
    FilterMap(unselected, ScoreAgainst(lowerTerm), PositiveAgainst(lowerTerm), IsPositive);
    var positive := Filter(unselected, PositiveAgainst(lowerTerm));
    assert Map(Map(positive, ScoreAgainst(lowerTerm)), ItemOf) == positive;
  }

  lemma {:induction false} KeptWellScored(unselected: seq<string>, lowerTerm: string)
    ensures WellScored(Filter(Map(unselected, ScoreAgainst(lowerTerm)), IsPositive), lowerTerm)
  {
    var scored := Map(unselected, ScoreAgainst(lowerTerm));
    var kept := Filter(scored, IsPositive);
    forall x | x in kept ensures x.score == Score(Lower(x.item), lowerTerm) {
      var i :| 0 <= i < |kept| && kept[i] == x;
      assert x in scored;
      var j :| 0 <= j < |scored| && scored[j] == x;
      assert x == ScoreAgainst(lowerTerm)(unselected[j]);
    }
  }

  lemma {:induction false} UnselectedAndPositive(term: string, items: seq<string>, selected: seq<string>)
    ensures Filter(Filter(items, NotSelected(selected)), PositiveAgainst(Lower(term)))
         == EligibleInCatalogueOrder(items, selected, term)
  {
    forall x ensures Eligible(selected, term)(x) == (NotSelected(selected)(x) && PositiveAgainst(Lower(term))(x)) {
      ScorePositiveIffSurvives(x, term);
    }
    FilterFilter(items, NotSelected(selected), PositiveAgainst(Lower(term)), Eligible(selected, term));
  }

  /** The scored entries the sort receives: well scored, and in catalogue
      order exactly the eligible entries. */
  lemma {:induction false} BeforeSort(term: string, items: seq<string>, selected: seq<string>)
    ensures var lowerTerm := Lower(term);
      var kept := Filter(Map(Filter(items, NotSelected(selected)), ScoreAgainst(lowerTerm)), IsPositive);
      && WellScored(kept, lowerTerm)
      && Map(kept, ItemOf) == EligibleInCatalogueOrder(items, selected, term)
  {
    KeptItems(Filter(items, NotSelected(selected)), Lower(term));
    KeptWellScored(Filter(items, NotSelected(selected)), Lower(term));
    UnselectedAndPositive(term, items, selected);
  }

  /** The result is a rearrangement of the eligible entries: no entry is
      lost, invented or repeated. */
  lemma {:induction false} FuzzySearchIsPermutation(term: string, items: seq<string>, selected: seq<string>)
    requires term != []
    ensures multiset(FuzzySearch(term, items, selected)) == multiset(EligibleInCatalogueOrder(items, selected, term))
  {
    var lowerTerm := Lower(term);
    var kept := Filter(Map(Filter(items, NotSelected(selected)), ScoreAgainst(lowerTerm)), IsPositive);
    BeforeSort(term, items, selected);
    MapPermutation(SortByScore(kept), kept, ItemOf);
  }

  lemma {:induction false} SortKeepsWellScored(s: seq<Scored>, lowerTerm: string)
    requires WellScored(s, lowerTerm)
    ensures WellScored(SortByScore(s), lowerTerm)
  {
    var sorted := SortByScore(s);
    forall x | x in sorted ensures x.score == Score(Lower(x.item), lowerTerm) {
      assert x in multiset(sorted);
    }
  }

  /** The items of a well-scored best-first sequence are in score order. */
  lemma {:induction false} ItemsInScoreOrder(sorted: seq<Scored>, lowerTerm: string)
    requires WellScored(sorted, lowerTerm) && NonIncreasing(sorted)
    ensures var r := Map(sorted, ItemOf);
      forall i, j :: 0 <= i < j < |r| ==> Score(Lower(r[i]), lowerTerm) >= Score(Lower(r[j]), lowerTerm)
  {
    var r := Map(sorted, ItemOf);
    forall i, j | 0 <= i < j < |r| ensures Score(Lower(r[i]), lowerTerm) >= Score(Lower(r[j]), lowerTerm) {
      assert sorted[i] in sorted && sorted[j] in sorted;
    }
  }

  /** The result lists scores best first. */
  lemma {:induction false} FuzzySearchIsOrdered(term: string, items: seq<string>, selected: seq<string>)
    ensures var r := FuzzySearch(term, items, selected);
      forall i, j :: 0 <= i < j < |r| ==> Score(Lower(r[i]), Lower(term)) >= Score(Lower(r[j]), Lower(term))
  {
    if term != [] {
      var lowerTerm := Lower(term);
      var kept := Filter(Map(Filter(items, NotSelected(selected)), ScoreAgainst(lowerTerm)), IsPositive);
      KeptWellScored(Filter(items, NotSelected(selected)), lowerTerm);
      SortKeepsWellScored(kept, lowerTerm);
      ItemsInScoreOrder(SortByScore(kept), lowerTerm);
    }
  }

  /** Entries with equal scores come out in catalogue order: for every
      score, the entries with that score appear in the result exactly as
      they appear among the eligible catalogue entries. */
  lemma {:induction false} FuzzySearchIsStable(term: string, items: seq<string>, selected: seq<string>, k: int)
    requires term != []
    ensures Filter(FuzzySearch(term, items, selected), ItemScoreIs(term, k))
         == Filter(EligibleInCatalogueOrder(items, selected, term), ItemScoreIs(term, k))
  {
    var lowerTerm := Lower(term);
    var kept := Filter(Map(Filter(items, NotSelected(selected)), ScoreAgainst(lowerTerm)), IsPositive);
    var sorted := SortByScore(kept);
    BeforeSort(term, items, selected);
    SortKeepsWellScored(kept, lowerTerm);
    FilterMap(sorted, ItemOf, ScoreIs(k), ItemScoreIs(term, k));
    SortKeepsTies(kept, k);
    FilterMap(kept, ItemOf, ScoreIs(k), ItemScoreIs(term, k));
  }

  /** The result is fully determined by its description: it is the
      stable best-first arrangement of the eligible entries. */
  lemma {:induction false} FuzzySearchIsStableSortOfEligible(term: string, items: seq<string>, selected: seq<string>)
    requires term != []
    ensures var lowerTerm := Lower(term);
      FuzzySearch(term, items, selected)
        == Map(SortByScore(Map(EligibleInCatalogueOrder(items, selected, term), ScoreAgainst(lowerTerm))), ItemOf)
  {
    var lowerTerm := Lower(term);
    var kept := Filter(Map(Filter(items, NotSelected(selected)), ScoreAgainst(lowerTerm)), IsPositive);
    BeforeSort(term, items, selected);
    RescoreWellScored(kept, lowerTerm);
  }

  // ---------------------------------------------------------------------
  // Consequences for a caller
  // ---------------------------------------------------------------------

  /** An empty term shows no suggestions. */
  lemma FuzzySearchEmptyTerm(items: seq<string>, selected: seq<string>)
    ensures FuzzySearch([], items, selected) == []
  {
  }

  /** An entry is suggested exactly when it is in the catalogue, is not
      selected, and survives the score threshold. */
  lemma {:induction false} FuzzySearchMembership(term: string, items: seq<string>, selected: seq<string>, x: string)
    requires term != []
    ensures x in FuzzySearch(term, items, selected) <==> x in items && x !in selected && Survives(x, term)
  {
    FuzzySearchIsPermutation(term, items, selected);
    assert x in FuzzySearch(term, items, selected) <==> x in multiset(FuzzySearch(term, items, selected));
    var e := EligibleInCatalogueOrder(items, selected, term);
    assert x in e <==> x in multiset(e);
    if x in items && x !in selected && Survives(x, term) {
      var i :| 0 <= i < |items| && items[i] == x;
      assert Eligible(selected, term)(items[i]);
    }
  }

  /** A selected symptom is never suggested, whatever the term. */
  lemma {:induction false} FuzzySearchExcludesSelected(term: string, items: seq<string>, selected: seq<string>, x: string)
    requires x in selected
    ensures x !in FuzzySearch(term, items, selected)
  {
    if term != [] {
      FuzzySearchMembership(term, items, selected, x);
    }
  }

  /** Every suggestion contains the term, ignoring case. */
  lemma {:induction false} FuzzySearchMatchesTerm(term: string, items: seq<string>, selected: seq<string>, x: string)
    requires x in FuzzySearch(term, items, selected)
    ensures Includes(Lower(x), Lower(term))
  {
    FuzzySearchMembership(term, items, selected, x);
    ScorePositiveIffSurvives(x, term);
  }

  /** The result is a rearrangement of a subsequence of the catalogue. */
  lemma {:induction false} FuzzySearchDrawsFromCatalogue(term: string, items: seq<string>, selected: seq<string>)
    ensures multiset(FuzzySearch(term, items, selected)) <= multiset(items)
  {
    if term != [] {
      FuzzySearchIsPermutation(term, items, selected);
      FilterIsSubsequence(items, Eligible(selected, term));
      SubsequenceMultiset(EligibleInCatalogueOrder(items, selected, term), items);
    }
  }

  /** Two suggestions in list order are in score order. */
  lemma {:induction false} FuzzySearchOrderedAt(term: string, items: seq<string>, selected: seq<string>, i: int, j: int)
    requires 0 <= i < j < |FuzzySearch(term, items, selected)|
    ensures var r := FuzzySearch(term, items, selected);
      Score(Lower(r[i]), Lower(term)) >= Score(Lower(r[j]), Lower(term))
  {
    FuzzySearchIsOrdered(term, items, selected);
  }

  /** Of two suggestions of equal length, a prefix match comes first. */
  lemma {:induction false} PrefixMatchListedFirst(term: string, items: seq<string>, selected: seq<string>, i: int, j: int)
    requires var r := FuzzySearch(term, items, selected); 0 <= i < |r| && 0 <= j < |r|
    requires var r := FuzzySearch(term, items, selected); |r[i]| == |r[j]|
    requires var r := FuzzySearch(term, items, selected);
      StartsWith(Lower(r[i]), Lower(term)) && !StartsWith(Lower(r[j]), Lower(term))
    ensures i < j
  {
    var r := FuzzySearch(term, items, selected);
    PrefixOutscoresInnerMatch(r[i], r[j], term);
    if j < i {
      FuzzySearchOrderedAt(term, items, selected, j, i);
    }
  }

}

module SymptomSelectorExamples {
  import opened Seqs
  import opened Text
  import opened SymptomSelector

  lemma ScoreOf(item: string, score: int)
    requires item in ["fever", "feverish", "cough", "chest pain"]
    requires score == if item == "fever" then 98 else if item == "feverish" then 95 else if item == "cough" then -2 else -7
    ensures ScoreAgainst("fev")(item) == Scored(item, score)
  {
    LowerOfLowerCase(item);
    if item == "cough" || item == "chest pain" {
      FirstCharMissing(item, "fev");
    }
  }

  lemma FeverScores()
    ensures Map(["fever", "feverish", "cough", "chest pain"], ScoreAgainst("fev"))
         == [Scored("fever", 98), Scored("feverish", 95), Scored("cough", -2), Scored("chest pain", -7)]
  {
    var items := ["fever", "feverish", "cough", "chest pain"];
    var m := Map(items, ScoreAgainst("fev"));
    ScoreOf(items[0], 98);
    ScoreOf(items[1], 95);
    ScoreOf(items[2], -2);
    ScoreOf(items[3], -7);
    assert m[0] == Scored("fever", 98);
    assert m[1] == Scored("feverish", 95);
    assert m[2] == Scored("cough", -2);
    assert m[3] == Scored("chest pain", -7);
  }

  lemma FeverKept()
    ensures Filter([Scored("fever", 98), Scored("feverish", 95), Scored("cough", -2), Scored("chest pain", -7)], IsPositive)
         == [Scored("fever", 98), Scored("feverish", 95)]
  {
    var s := [Scored("fever", 98), Scored("feverish", 95), Scored("cough", -2), Scored("chest pain", -7)];
    FilterCons(s, IsPositive);
    FilterCons(s[1..], IsPositive);
    FilterCons(s[2..], IsPositive);
    assert s[2..][1..] == [Scored("chest pain", -7)];
    FilterCons(s[3..], IsPositive);
  }

  lemma FeverSorted()
    ensures SortByScore([Scored("fever", 98), Scored("feverish", 95)]) == [Scored("fever", 98), Scored("feverish", 95)]
  {
    var s := [Scored("fever", 98), Scored("feverish", 95)];
    assert s[..1] == [s[0]] && [s[0]][..0] == [];
    assert SortByScore([s[0]]) == [s[0]];
  }

  lemma Pipeline(term: string, items: seq<string>, selected: seq<string>)
    requires term != []
    ensures FuzzySearch(term, items, selected)
         == Map(SortByScore(Filter(Map(Filter(items, NotSelected(selected)), ScoreAgainst(Lower(term))), IsPositive)), ItemOf)
  {
  }

  lemma LowerFev(term: string)
    requires term == "fev"
    ensures Lower(term) == "fev"
  {
    LowerOfLowerCase(term);
  }

  lemma NothingSelected(items: seq<string>, selected: seq<string>)
    requires selected == []
    ensures Filter(items, NotSelected(selected)) == items
  {
    FilterKeepsAll(items, NotSelected(selected));
  }

  lemma FeverPipeline(term: string, items: seq<string>, selected: seq<string>)
    requires term == "fev" && items == ["fever", "feverish", "cough", "chest pain"] && selected == []
    ensures FuzzySearch(term, items, selected) == Map(SortByScore(Filter(Map(items, ScoreAgainst("fev")), IsPositive)), ItemOf)
  {
    Pipeline(term, items, selected);
    LowerFev(term);
    NothingSelected(items, selected);
  }

  lemma FeverItems()
    ensures Map([Scored("fever", 98), Scored("feverish", 95)], ItemOf) == ["fever", "feverish"]
  {
    var kept := [Scored("fever", 98), Scored("feverish", 95)];
    var m := Map(kept, ItemOf);
    assert m[0] == ItemOf(kept[0]) == "fever";
    assert m[1] == ItemOf(kept[1]) == "feverish";
  }

  /** "fev" against a catalogue with two prefix matches and two misses:
      both prefix matches, the one closer in length first. */
  lemma FeverExample(term: string, items: seq<string>, selected: seq<string>)
    requires term == "fev" && items == ["fever", "feverish", "cough", "chest pain"] && selected == []
    ensures FuzzySearch(term, items, selected) == ["fever", "feverish"]
  {
    FeverPipeline(term, items, selected);
    FeverScores();
    FeverKept();
    FeverSorted();
    FeverItems();
  }

  /** A singleton multiset comes from a one-element sequence. */
  lemma SingletonMultiset(r: seq<string>, x: string)
    requires multiset(r) == multiset{x}
    ensures r == [x]
  {
    assert |r| == |multiset(r)| == 1;
    assert r[0] in multiset(r);
  }

  lemma DryCoughSurvives()
    ensures Survives("dry cough", "cough")
  {
    var s, p := "dry cough", "cough";
    LowerOfLowerCase(s);
    LowerOfLowerCase(p);
    assert OccursAt(s, p, 4) by {
      assert s[4..9] == p;
    }
    IncludesIffOccurs(s, p);
    assert !StartsWith(s, p) by {
      assert s[..|p|][0] == 'd';
    }
  }

  lemma HeadacheDoesNotSurvive()
    ensures !Survives("headache", "cough")
  {
    LowerOfLowerCase("headache");
    LowerOfLowerCase("cough");
    CharMissing("headache", "cough", 1);
    StartsWithMeansIncludes("headache", "cough");
  }

  lemma CoughEligible(term: string, items: seq<string>, selected: seq<string>)
    requires term == "cough" && items == ["cough", "dry cough", "headache"] && selected == ["cough"]
    ensures EligibleInCatalogueOrder(items, selected, term) == ["dry cough"]
  {
    DryCoughSurvives();
    HeadacheDoesNotSurvive();
    var e := Eligible(selected, term);
    FilterCons(items, e);
    FilterCons(items[1..], e);
    assert items[1..][1..] == ["headache"];
    FilterCons(items[2..], e);
  }

  /** With "cough" already selected, searching "cough" over cough, dry
      cough and headache suggests only dry cough. */
  lemma CoughExample(term: string, items: seq<string>, selected: seq<string>)
    requires term == "cough" && items == ["cough", "dry cough", "headache"] && selected == ["cough"]
    ensures FuzzySearch(term, items, selected) == ["dry cough"]
  {
    CoughEligible(term, items, selected);
    FuzzySearchIsPermutation(term, items, selected);
    SingletonMultiset(FuzzySearch(term, items, selected), "dry cough");
  }

  /** A term none of the catalogue entries contains gives no suggestions. */
  lemma NoMatchExample(term: string, items: seq<string>, selected: seq<string>)
    requires term == "xyz" && items == ["fever", "feverish", "cough", "chest pain"]
    ensures FuzzySearch(term, items, selected) == []
  {
    LowerOfLowerCase(term);
    forall i | 0 <= i < |items| ensures !Eligible(selected, term)(items[i]) {
      LowerOfLowerCase(items[i]);
      FirstCharMissing(items[i], term);
      StartsWithMeansIncludes(items[i], term);
    }
    FilterKeepsNone(items, Eligible(selected, term));
    FuzzySearchIsPermutation(term, items, selected);
    assert |FuzzySearch(term, items, selected)| == |multiset(FuzzySearch(term, items, selected))| == 0;
  }
}

/** The older, minimal selector component: a plain case-insensitive
    substring filter over the whole catalogue, in catalogue order, with no
    exclusion of selected symptoms and no ranking. Its click handler is
    `Selection.Toggle`. */
module SymptomSelectorMinimal {
  import opened Seqs
  import opened Text
  import SymptomSelector

  function MatchesTerm(term: string): string -> bool
  {
    x => Includes(Lower(x), Lower(term))
  }

  /** `filteredSymptoms`. */
  function FilteredSymptoms(allSymptoms: seq<string>, searchTerm: string): seq<string>
  {
    Filter(allSymptoms, MatchesTerm(searchTerm))
  }

  /** A symptom is listed exactly when it is in the catalogue and contains
      the term, ignoring case. */
  lemma FilteredSymptomsMembership(allSymptoms: seq<string>, searchTerm: string, x: string)
    ensures x in FilteredSymptoms(allSymptoms, searchTerm)
        <==> x in allSymptoms && Includes(Lower(x), Lower(searchTerm))
  {
    FilterMembership(allSymptoms, MatchesTerm(searchTerm), x);
  }

  /** The list keeps catalogue order, and filtering it again changes nothing. */
  lemma FilteredSymptomsInCatalogueOrder(allSymptoms: seq<string>, searchTerm: string)
    ensures IsSubsequence(FilteredSymptoms(allSymptoms, searchTerm), allSymptoms)
    ensures FilteredSymptoms(FilteredSymptoms(allSymptoms, searchTerm), searchTerm)
         == FilteredSymptoms(allSymptoms, searchTerm)
  {
    FilterIsSubsequence(allSymptoms, MatchesTerm(searchTerm));
    FilterIdempotent(allSymptoms, MatchesTerm(searchTerm));
  }

  /** Before anything is typed the whole catalogue is listed. */
  lemma FilteredSymptomsEmptyTerm(allSymptoms: seq<string>)
    ensures FilteredSymptoms(allSymptoms, []) == allSymptoms
  {
    forall x | x in allSymptoms ensures MatchesTerm([])(x) {
      EmptyIsIncluded(Lower(x));
    }
    FilterKeepsAll(allSymptoms, MatchesTerm([]));
  }

  /** Unlike the ranked search, a selected symptom that matches is still
      listed here. */
  lemma SelectedStillListed(allSymptoms: seq<string>, searchTerm: string, selected: seq<string>, x: string)
    requires x in allSymptoms && x in selected && Includes(Lower(x), Lower(searchTerm))
    ensures x in FilteredSymptoms(allSymptoms, searchTerm)
    ensures x !in SymptomSelector.FuzzySearch(searchTerm, allSymptoms, selected)
  {
    FilteredSymptomsMembership(allSymptoms, searchTerm, x);
    SymptomSelector.FuzzySearchExcludesSelected(searchTerm, allSymptoms, selected, x);
  }

  /** The ranked search suggests nothing this list leaves out: its
      entries, taken in catalogue order, are a subsequence of this list,
      and its result is a rearrangement of part of this list. */
  lemma {:induction false} RankedSearchIsSubsetOfPlainFilter(searchTerm: string, allSymptoms: seq<string>, selected: seq<string>)
    ensures IsSubsequence(SymptomSelector.EligibleInCatalogueOrder(allSymptoms, selected, searchTerm),
                          FilteredSymptoms(allSymptoms, searchTerm))
    ensures multiset(SymptomSelector.FuzzySearch(searchTerm, allSymptoms, selected))
         <= multiset(FilteredSymptoms(allSymptoms, searchTerm))
  {
    var eligible := SymptomSelector.Eligible(selected, searchTerm);
    forall x ensures eligible(x) ==> MatchesTerm(searchTerm)(x) {
      SymptomSelector.ScorePositiveIffSurvives(x, searchTerm);
    }
    FilterStrongerIsSubsequence(allSymptoms, eligible, MatchesTerm(searchTerm));
    SubsequenceMultiset(SymptomSelector.EligibleInCatalogueOrder(allSymptoms, selected, searchTerm),
                        FilteredSymptoms(allSymptoms, searchTerm));
    if searchTerm != [] {
      SymptomSelector.FuzzySearchIsPermutation(searchTerm, allSymptoms, selected);
    }
  }
}

/** The disease dictionary sidebar: the catalogue served by `/diseases`,
    filtered by a case-insensitive substring search on the disease name. */
module DiseaseDictionary {
  import opened Seqs
  import opened Text
  import opened Backend

  /** The search box starts empty. */
  const InitialSearchTerm: string := ""

  function NameMatches(searchTerm: string): CatalogEntry -> bool
  {
    (d: CatalogEntry) => Includes(Lower(d.disease), Lower(searchTerm))
  }

  /** `filteredDiseases`. */
  function FilteredDiseases(diseases: seq<CatalogEntry>, searchTerm: string): seq<CatalogEntry>
  {
    Filter(diseases, NameMatches(searchTerm))
  }

  /** A disease is listed exactly when its name contains the term, ignoring case. */
  lemma FilteredDiseasesMembership(diseases: seq<CatalogEntry>, searchTerm: string, d: CatalogEntry)
    ensures d in FilteredDiseases(diseases, searchTerm)
        <==> d in diseases && Includes(Lower(d.disease), Lower(searchTerm))
  {
    FilterMembership(diseases, NameMatches(searchTerm), d);
  }

  /** The list keeps the catalogue's order, never repeats a record the
      catalogue has once, and filtering it again changes nothing. */
  lemma {:induction false} FilteredDiseasesInCatalogueOrder(diseases: seq<CatalogEntry>, searchTerm: string)
    ensures IsSubsequence(FilteredDiseases(diseases, searchTerm), diseases)
    ensures multiset(FilteredDiseases(diseases, searchTerm)) <= multiset(diseases)
    ensures FilteredDiseases(FilteredDiseases(diseases, searchTerm), searchTerm) == FilteredDiseases(diseases, searchTerm)
  {
    FilterIdempotent(diseases, NameMatches(searchTerm));
    FilterIsSubsequence(diseases, NameMatches(searchTerm));
    SubsequenceMultiset(FilteredDiseases(diseases, searchTerm), diseases);
  }

  /** With the initial, empty term the whole catalogue is listed. */
  lemma {:induction false} InitialListIsWholeCatalogue(diseases: seq<CatalogEntry>)
    ensures FilteredDiseases(diseases, InitialSearchTerm) == diseases
  {
    forall d | d in diseases ensures NameMatches(InitialSearchTerm)(d) {
      EmptyIsIncluded(Lower(d.disease));
    }
    FilterKeepsAll(diseases, NameMatches(InitialSearchTerm));
  }

  /** The case of the typed term does not matter. */
  lemma {:induction false} SearchIgnoresCase(diseases: seq<CatalogEntry>, searchTerm: string)
    ensures FilteredDiseases(diseases, Lower(searchTerm)) == FilteredDiseases(diseases, searchTerm)
  {
    LowerIdempotent(searchTerm);
    FilterSamePredicate(diseases, NameMatches(Lower(searchTerm)), NameMatches(searchTerm));
  }

  /** Typing more characters can only narrow the list. */
  lemma {:induction false} LongerTermNarrows(diseases: seq<CatalogEntry>, searchTerm: string, more: string)
    ensures IsSubsequence(FilteredDiseases(diseases, searchTerm + more), FilteredDiseases(diseases, searchTerm))
  {
    LowerAppend(searchTerm, more);
    forall d ensures NameMatches(searchTerm + more)(d) ==> NameMatches(searchTerm)(d) {
      if NameMatches(searchTerm + more)(d) {
        IncludesPrefix(Lower(d.disease), Lower(searchTerm), Lower(more));
      }
    }
    FilterStrongerIsSubsequence(diseases, NameMatches(searchTerm + more), NameMatches(searchTerm));
  }
}

/** The selected-symptoms list and the click handler that toggles one
    symptom in it. Both selector components compute the next list the
    same way: drop the symptom if it is there, otherwise append it. */
module Selection {
  import opened Seqs

  function IsNot(symptom: string): string -> bool
  {
    s => s != symptom
  }

  /** The list handed to `setSelectedSymptoms` when `symptom` is clicked. */
  function Toggle(selected: seq<string>, symptom: string): seq<string>
  {
    if symptom in selected then Filter(selected, IsNot(symptom)) else selected + [symptom]
  }

  /** Removing every occurrence of a symptom that occurs once shortens the list by one. */
  lemma {:induction false} RemoveSingleOccurrence(s: seq<string>, symptom: string)
    requires NoDuplicates(s) && symptom in s
    ensures |Filter(s, IsNot(symptom))| == |s| - 1
    decreases |s|
  {
    if s[0] == symptom {
      assert symptom !in s[1..];
      FilterKeepsAll(s[1..], IsNot(symptom));
    } else {
      RemoveSingleOccurrence(s[1..], symptom);
    }
  }

  lemma {:induction false} RemoveShortens(s: seq<string>, symptom: string)
    requires symptom in s
    ensures |Filter(s, IsNot(symptom))| < |s|
    decreases |s|
  {
    if s[0] != symptom {
      RemoveShortens(s[1..], symptom);
    }
  }

  /** Clicking a symptom flips whether it is selected. */
  lemma ToggleFlipsMembership(selected: seq<string>, symptom: string)
    ensures symptom in Toggle(selected, symptom) <==> symptom !in selected
  {
  }

  /** A selected symptom is removed, every occurrence of it and nothing
      else, and the others keep their order; an unselected one is appended
      at the end. */
  lemma {:induction false} ToggleShape(selected: seq<string>, symptom: string)
    ensures var r := Toggle(selected, symptom);
      && (symptom in selected ==>
            && IsSubsequence(r, selected) && |r| < |selected|
            && symptom !in r
            && forall x :: x != symptom ==> multiset(r)[x] == multiset(selected)[x])
      && (symptom !in selected ==> |r| == |selected| + 1 && r[..|selected|] == selected && r[|selected|] == symptom)
  {
    if symptom in selected {
      var r := Filter(selected, IsNot(symptom));
      FilterIsSubsequence(selected, IsNot(symptom));
      RemoveShortens(selected, symptom);
      FilterMembership(selected, IsNot(symptom), symptom);
      forall x | x != symptom ensures multiset(r)[x] == multiset(selected)[x] {
        FilterKeepsMultiplicity(selected, IsNot(symptom), x);
      }
    }
  }

  /** No symptom other than the clicked one changes: the others appear in
      the same order, with the same multiplicity, before and after. */
  lemma {:induction false} ToggleKeepsOthers(selected: seq<string>, symptom: string)
    ensures Filter(Toggle(selected, symptom), IsNot(symptom)) == Filter(selected, IsNot(symptom))
  {
    if symptom in selected {
      FilterIdempotent(selected, IsNot(symptom));
    } else {
      FilterAppend(selected, [symptom], IsNot(symptom));
    }
  }

  /** A duplicate-free selection stays duplicate-free, and its length
      changes by exactly one. */
  lemma {:induction false} ToggleKeepsNoDuplicates(selected: seq<string>, symptom: string)
    requires NoDuplicates(selected)
    ensures NoDuplicates(Toggle(selected, symptom))
    ensures |Toggle(selected, symptom)| == if symptom in selected then |selected| - 1 else |selected| + 1
  {
    if symptom in selected {
      FilterNoDuplicates(selected, IsNot(symptom));
      RemoveSingleOccurrence(selected, symptom);
    }
  }

  /** Clicking an unselected symptom twice restores the original list. */
  lemma {:induction false} ToggleTwiceRestores(selected: seq<string>, symptom: string)
    requires symptom !in selected
    ensures Toggle(Toggle(selected, symptom), symptom) == selected
  {
    FilterAppend(selected, [symptom], IsNot(symptom));
    FilterKeepsAll(selected, IsNot(symptom));
  }
}

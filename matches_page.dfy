/** The matches page (src/pages/Matches.tsx): the filter panel's change handler. */
module MatchesPage {
  import opened Seqs

  datatype Filters = Filters(remote: bool, locations: seq<string>, industries: seq<string>)

  /** The filters the page starts with. */
  const InitialFilters := Filters(false, [], [])

  /** A list filter after its check box changes: checking appends the value,
      unchecking removes every entry equal to it. */
  function Checked(list: seq<string>, checked: bool, value: string): seq<string> {
    if checked then list + [value] else RemoveAll(list, value)
  }

  /** The filters after a change event of the input `name`. */
  function FilterChange(filters: Filters, name: string, checked: bool, value: string): Filters {
    if name == "remote" then filters.(remote := checked)
    else if name == "location" then filters.(locations := Checked(filters.locations, checked, value))
    else if name == "industry" then filters.(industries := Checked(filters.industries, checked, value))
    else filters
  }

  /** Checking appends the value, without looking for an equal entry;
      unchecking drops every equal entry and keeps the others in order. */
  lemma CheckedEffect(list: seq<string>, checked: bool, value: string)
    ensures checked ==> Checked(list, checked, value) == list + [value]
    ensures checked ==> multiset(Checked(list, checked, value))[value] == multiset(list)[value] + 1
    ensures !checked ==> value !in Checked(list, checked, value)
    ensures !checked ==> forall x :: x != value ==> multiset(Checked(list, checked, value))[x] == multiset(list)[x]
    ensures !checked ==> IsSubsequence(Checked(list, checked, value), list)
  {
    if !checked {
      RemoveAllSubsequence(list, value);
    }
  }

  /** Each input name changes only its own field; any other name changes nothing. */
  lemma FilterChangeFields(filters: Filters, name: string, checked: bool, value: string)
    ensures var f := FilterChange(filters, name, checked, value);
      && (name == "remote" ==> f.remote == checked && f.locations == filters.locations && f.industries == filters.industries)
      && (name == "location" ==>
            f.remote == filters.remote && f.industries == filters.industries
            && f.locations == Checked(filters.locations, checked, value))
      && (name == "industry" ==>
            f.remote == filters.remote && f.locations == filters.locations
            && f.industries == Checked(filters.industries, checked, value))
      && (name != "remote" && name != "location" && name != "industry" ==> f == filters)
  {
  }

  /** Checking an unchecked box and unchecking it again restores the filters:
      for `remote` the box was off, for a list the value was not listed. */
  lemma {:induction false} CheckUncheck(filters: Filters, name: string, value: string)
    requires name == "remote" ==> !filters.remote
    requires name == "location" ==> value !in filters.locations
    requires name == "industry" ==> value !in filters.industries
    ensures FilterChange(FilterChange(filters, name, true, value), name, false, value) == filters
  {
    if name == "location" {
      RemoveAllSnocAbsent(filters.locations, value);
    } else if name == "industry" {
      RemoveAllSnocAbsent(filters.industries, value);
    }
  }

  /** Unchecking twice is the same as unchecking once. */
  lemma UncheckIdempotent(filters: Filters, name: string, value: string)
    ensures var once := FilterChange(filters, name, false, value);
      FilterChange(once, name, false, value) == once
  {
    RemoveAllAbsent(RemoveAll(filters.locations, value), value);
    RemoveAllAbsent(RemoveAll(filters.industries, value), value);
  }

  /** The page's filter state. */
  class MatchesPage {
    var filters: Filters

    constructor ()
      ensures filters == InitialFilters
    {
      filters := InitialFilters;
    }

    method HandleFilterChange(name: string, checked: bool, value: string)
      modifies this
      ensures filters == FilterChange(old(filters), name, checked, value)
    {
      filters := FilterChange(filters, name, checked, value);
    }
  }
}

/** The list of resorts the main screen shows: the catalog is first
    narrowed by the search text, then arranged in the chosen sort order.
    Both steps are pure functions of the catalog, the search text and the
    sort choice. */
module ContentView {
  import opened Text
  import opened Sorting

  /** A resort record, reduced to the fields the list screen reads. */
  datatype Resort = Resort(id: string, name: string, country: string, runs: int)

  /** The three sort orders the user can pick. */
  datatype SortType = Default | Alphabetical | Country

  /** The search test applied to one resort: its name contains the search
      text, ignoring letter case. */
  predicate NameMatches(r: Resort, searchText: string): (m: bool)
    ensures Contains(r.name, searchText) ==> m
    ensures m ==> |searchText| <= |r.name|
  {
    assert Contains(r.name, searchText) ==> CaseInsensitiveContains(r.name, searchText) by {
      if Contains(r.name, searchText) {
        ExactMatchIsCaseInsensitiveMatch(r.name, searchText);
      }
    }
    CaseInsensitiveContains(r.name, searchText)
  }

  /** Keep, in catalog order, the resorts whose name matches. */
  function FilterByName(resorts: seq<Resort>, searchText: string): (r: seq<Resort>)
    ensures |r| <= |resorts|
    ensures forall x :: x in r ==> x in resorts && NameMatches(x, searchText)
    ensures forall x :: x in resorts && NameMatches(x, searchText) ==> x in r
  {
    if resorts == [] then []
    else if NameMatches(resorts[0], searchText) then
      [resorts[0]] + FilterByName(resorts[1..], searchText)
    else
      FilterByName(resorts[1..], searchText)
  }

  /** The search-filtered catalog: everything when the search text is
      empty, otherwise exactly the resorts whose name matches it. */
  function FilteredResorts(resorts: seq<Resort>, searchText: string): (r: seq<Resort>)
    ensures searchText == [] ==> r == resorts
    ensures |r| <= |resorts|
    ensures searchText != [] ==>
      forall x :: x in r <==> x in resorts && NameMatches(x, searchText)
  {
    if searchText == [] then resorts else FilterByName(resorts, searchText)
  }

  /** Sort keys of the two non-default orders. */
  function ByName(r: Resort): string { r.name }
  function ByCountry(r: Resort): string { r.country }

  /** Arrange the filtered list by the chosen sort order. */
  function SortResults(filtered: seq<Resort>, sortType: SortType): (r: seq<Resort>)
    ensures multiset(r) == multiset(filtered)
    ensures sortType == Default ==> r == filtered
    ensures sortType == Alphabetical ==>
      forall i, j :: 0 <= i < j < |r| ==> LessEq(r[i].name, r[j].name)
    ensures sortType == Country ==>
      forall i, j :: 0 <= i < j < |r| ==> LessEq(r[i].country, r[j].country)
  {
    match sortType
    case Default => filtered
    case Alphabetical => SortBy(filtered, ByName)
    case Country => SortBy(filtered, ByCountry)
  }

  /** The list shown on screen: a rearrangement of the filtered catalog,
      so no longer than the catalog and made of matching catalog resorts. */
  function SortedResults(resorts: seq<Resort>, searchText: string, sortType: SortType): (r: seq<Resort>)
    ensures |r| <= |resorts|
    ensures forall x :: x in r ==> x in resorts && (searchText == [] || NameMatches(x, searchText))
  {
    var filtered := FilteredResorts(resorts, searchText);
    var sorted := SortResults(filtered, sortType);
    assert |sorted| == |multiset(sorted)| == |multiset(filtered)| == |filtered|;
    assert forall x :: x in sorted ==> x in multiset(filtered);
    sorted
  }

  /** `a` can be obtained from `b` by deleting elements, keeping the order
      of the rest. */
  ghost predicate IsSubsequence<T>(a: seq<T>, b: seq<T>)
    decreases |b|
  {
    if a == [] then true
    else if b == [] then false
    else if a[0] == b[0] then IsSubsequence(a[1..], b[1..])
    else IsSubsequence(a, b[1..])
  }

  /** Every sequence is a subsequence of itself. */
  lemma {:induction false} SubsequenceReflexive<T>(s: seq<T>)
    ensures IsSubsequence(s, s)
    decreases |s|
  {
    if s != [] {
      SubsequenceReflexive(s[1..]);
    }
  }

  /** The name filter keeps the catalog order. */
  lemma {:induction false} FilterByNameIsSubsequence(resorts: seq<Resort>, searchText: string)
    ensures IsSubsequence(FilterByName(resorts, searchText), resorts)
    decreases |resorts|
  {
    if resorts != [] {
      FilterByNameIsSubsequence(resorts[1..], searchText);
      var rest := FilterByName(resorts[1..], searchText);
      assert rest != [] ==> rest[0] in rest;
    }
  }

  /** The filtered list is an order-preserving subsequence of the catalog. */
  lemma FilteredIsSubsequence(resorts: seq<Resort>, searchText: string)
    ensures IsSubsequence(FilteredResorts(resorts, searchText), resorts)
  {
    if searchText == [] {
      SubsequenceReflexive(resorts);
    } else {
      FilterByNameIsSubsequence(resorts, searchText);
    }
  }

  /** The name filter keeps each matching resort exactly as often as the
      catalog lists it, and drops every other resort. */
  lemma {:induction false} FilterByNameCount(resorts: seq<Resort>, searchText: string, x: Resort)
    ensures multiset(FilterByName(resorts, searchText))[x]
         == if NameMatches(x, searchText) then multiset(resorts)[x] else 0
    decreases |resorts|
  {
    if resorts != [] {
      FilterByNameCount(resorts[1..], searchText, x);
      assert resorts == [resorts[0]] + resorts[1..];
    }
  }

  /** What the filtered list holds, with multiplicities: a matching resort
      as often as in the catalog, any other resort not at all. */
  lemma FilteredCount(resorts: seq<Resort>, searchText: string, x: Resort)
    ensures multiset(FilteredResorts(resorts, searchText))[x]
         == if searchText == [] || NameMatches(x, searchText) then multiset(resorts)[x] else 0
  {
    if searchText != [] {
      FilterByNameCount(resorts, searchText, x);
    }
  }

  /** Typing more search text narrows the list: filtering the filtered list
      by a longer search text (one that contains the old one, ignoring
      case) gives the same list as filtering the catalog by it directly. */
  lemma {:induction false} FilterRefines(resorts: seq<Resort>, searchText: string, longer: string)
    requires CaseInsensitiveContains(longer, searchText)
    ensures FilteredResorts(FilteredResorts(resorts, searchText), longer) == FilteredResorts(resorts, longer)
    decreases |resorts|
  {
    if searchText != [] && resorts != [] {
      FilterRefines(resorts[1..], searchText, longer);
      if NameMatches(resorts[0], longer) {
        ContainsTransitive(Fold(resorts[0].name), Fold(longer), Fold(searchText));
      }
    }
  }

  /** Whatever the sort order, the list shown holds exactly the filtered
      resorts: sorting never adds, drops or duplicates one. */
  lemma SortedResultsCount(resorts: seq<Resort>, searchText: string, sortType: SortType, x: Resort)
    ensures multiset(SortedResults(resorts, searchText, sortType))[x]
         == if searchText == [] || NameMatches(x, searchText) then multiset(resorts)[x] else 0
  {
    FilteredCount(resorts, searchText, x);
  }

  /** Whatever the sort order, every resort shown is in the catalog and,
      when there is search text, matches it; and every matching catalog
      resort is shown. */
  lemma SortedResultsMembership(resorts: seq<Resort>, searchText: string, sortType: SortType, x: Resort)
    ensures x in SortedResults(resorts, searchText, sortType)
        <==> x in resorts && (searchText == [] || NameMatches(x, searchText))
  {
    SortedResultsCount(resorts, searchText, sortType, x);
    assert x in SortedResults(resorts, searchText, sortType)
       <==> multiset(SortedResults(resorts, searchText, sortType))[x] > 0;
    assert x in resorts <==> multiset(resorts)[x] > 0;
  }

  /** The alphabetical order shown is the only one possible up to resorts
      with equal names: any rearrangement of the filtered list sorted by
      name lists the same names in the same positions. */
  lemma AlphabeticalNamesDetermined(filtered: seq<Resort>, other: seq<Resort>)
    requires multiset(other) == multiset(filtered)
    requires forall i, j :: 0 <= i < j < |other| ==> LessEq(other[i].name, other[j].name)
    ensures |other| == |filtered|
    ensures forall i :: 0 <= i < |other| ==>
      other[i].name == SortResults(filtered, Alphabetical)[i].name
  {
    var r := SortResults(filtered, Alphabetical);
    assert SortedBy(other, ByName);
    assert SortedBy(r, ByName);
    SortedPermutationsAgreeOnKeys(other, r, ByName);
  }

  /** Likewise for the country order. */
  lemma CountryOrderDetermined(filtered: seq<Resort>, other: seq<Resort>)
    requires multiset(other) == multiset(filtered)
    requires forall i, j :: 0 <= i < j < |other| ==> LessEq(other[i].country, other[j].country)
    ensures |other| == |filtered|
    ensures forall i :: 0 <= i < |other| ==>
      other[i].country == SortResults(filtered, Country)[i].country
  {
    var r := SortResults(filtered, Country);
    assert SortedBy(other, ByCountry);
    assert SortedBy(r, ByCountry);
    SortedPermutationsAgreeOnKeys(other, r, ByCountry);
  }

  /** A two-resort catalog, sorted both ways. */
  lemma TwoResortSortScenario()
    ensures
      var chamonix := Resort("fr-1", "Chamonix", "France", 0);
      var aspen := Resort("us-1", "Aspen", "USA", 0);
      && SortedResults([chamonix, aspen], "", Default) == [chamonix, aspen]
      && SortedResults([chamonix, aspen], "", Alphabetical) == [aspen, chamonix]
      && SortedResults([chamonix, aspen], "", Country) == [chamonix, aspen]
  {
  }

  /** The same catalog searched with a hit in another letter case. */
  lemma TwoResortSearchScenario()
    ensures
      var chamonix := Resort("fr-1", "Chamonix", "France", 0);
      var aspen := Resort("us-1", "Aspen", "USA", 0);
      SortedResults([chamonix, aspen], "CHAM", Alphabetical) == [chamonix]
  {
    var chamonix := Resort("fr-1", "Chamonix", "France", 0);
    var aspen := Resort("us-1", "Aspen", "USA", 0);
    ChamFacts();
    assert [chamonix, aspen][1..] == [aspen];
  }

  /** The same catalog searched with no hit. */
  lemma TwoResortNoHitScenario()
    ensures
      var chamonix := Resort("fr-1", "Chamonix", "France", 0);
      var aspen := Resort("us-1", "Aspen", "USA", 0);
      SortedResults([chamonix, aspen], "xyz", Country) == []
  {
    var chamonix := Resort("fr-1", "Chamonix", "France", 0);
    var aspen := Resort("us-1", "Aspen", "USA", 0);
    ChamonixRejectsXyz();
    AspenRejectsXyz();
    assert [chamonix, aspen][1..] == [aspen];
  }

  /** The case-insensitive test accepts "Chamonix" for "CHAM" and rejects
      "Aspen" for it. */
  lemma ChamFacts()
    ensures CaseInsensitiveContains("Chamonix", "CHAM")
    ensures !CaseInsensitiveContains("Aspen", "CHAM")
  {
    assert Fold("CHAM") == "cham" by { FoldCham(); }
    assert Fold("Chamonix") == "chamonix" by { FoldChamonix(); }
    assert Fold("Aspen") == "aspen" by { FoldAspen(); }
    assert IsPrefix("cham", "chamonix");
    MissingCharNotContained("aspen", "cham", 0);
  }

  /** The case-insensitive test rejects "Chamonix" for "xyz". */
  lemma ChamonixRejectsXyz()
    ensures !CaseInsensitiveContains("Chamonix", "xyz")
  {
    FoldChamonix();
    MissingCharNoCaseInsensitiveMatch("Chamonix", "xyz", 1);
  }

  /** The case-insensitive test rejects "Aspen" for "xyz". */
  lemma AspenRejectsXyz()
    ensures !CaseInsensitiveContains("Aspen", "xyz")
  {
    FoldAspen();
    MissingCharNoCaseInsensitiveMatch("Aspen", "xyz", 0);
  }

  lemma FoldCham() ensures Fold("CHAM") == "cham" {}
  lemma FoldChamonix() ensures Fold("Chamonix") == "chamonix" {}
  lemma FoldAspen() ensures Fold("Aspen") == "aspen" {}
}

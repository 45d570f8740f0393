/**
 * The entry list filter and sort of the renderer's search service: a case-insensitive
 * phrase filter over titles and usernames, and ascending or descending order on one
 * property, where entries lacking the property are ranked after (ascending) or before
 * (descending) the others.
 */
module Search {
  import opened Wrappers
  import opened Strings
  import opened Sequences

  /** A password entry or a note; notes have no username, shown here as "". */
  datatype SearchEntry = SearchEntry(isPassword: bool, title: string, username: string, creationDate: Option<int>)

  datatype SortProp = Title | Username | CreationDate

  datatype SortOrder = Asc | Desc

  /** `a[sortProp]` is truthy: a non-empty text, or a creation date that is set. */
  predicate Has(e: SearchEntry, prop: SortProp)
  {
    match prop
    case Title => e.title != ""
    case Username => e.username != ""
    case CreationDate => e.creationDate.Some?
  }

  /** How two present values compare: date difference in milliseconds, or `localeCompare`. */
  function ValueCompare(prop: SortProp, a: SearchEntry, b: SearchEntry): int
    requires Has(a, prop) && Has(b, prop)
  {
    match prop
    case Title => LocaleCompare(a.title, b.title)
    case Username => LocaleCompare(a.username, b.username)
    case CreationDate => a.creationDate.value - b.creationDate.value
  }

  lemma ValueCompareFlip(prop: SortProp, a: SearchEntry, b: SearchEntry)
    requires Has(a, prop) && Has(b, prop)
    ensures ValueCompare(prop, b, a) == -ValueCompare(prop, a, b)
  {
    match prop
    case Title => LocaleCompareFlip(a.title, b.title);
    case Username => LocaleCompareFlip(a.username, b.username);
    case CreationDate =>
  }

  lemma ValueCompareTrans(prop: SortProp, a: SearchEntry, b: SearchEntry, c: SearchEntry)
    requires Has(a, prop) && Has(b, prop) && Has(c, prop)
    requires ValueCompare(prop, a, b) <= 0 && ValueCompare(prop, b, c) <= 0
    ensures ValueCompare(prop, a, c) <= 0
  {
    match prop
    case Title => LocaleCompareTrans(a.title, b.title, c.title);
    case Username => LocaleCompareTrans(a.username, b.username, c.username);
    case CreationDate =>
  }

  /** `compareAscending`: entries with the property first, in increasing value. */
  function CompareAscending(prop: SortProp, a: SearchEntry, b: SearchEntry): (c: int)
    ensures Has(a, prop) && !Has(b, prop) ==> c < 0
    ensures !Has(a, prop) ==> c > 0
  {
    if Has(a, prop) && Has(b, prop) then ValueCompare(prop, a, b)
    else if Has(a, prop) && !Has(b, prop) then -1
    else 1
  }

  /** `compareDescending`: entries without the property first, then in decreasing value. */
  function CompareDescending(prop: SortProp, a: SearchEntry, b: SearchEntry): (c: int)
    ensures !Has(a, prop) && Has(b, prop) ==> c < 0
    ensures !Has(b, prop) ==> c > 0
  {
    if Has(a, prop) && Has(b, prop) then ValueCompare(prop, b, a)
    else if !Has(a, prop) && Has(b, prop) then -1
    else 1
  }

  /** `Array.prototype.sort` keeps `a` before `b` when the comparator answers at most 0. */
  function AscLe(prop: SortProp): (SearchEntry, SearchEntry) -> bool
  {
    (a, b) => CompareAscending(prop, a, b) <= 0
  }

  function DescLe(prop: SortProp): (SearchEntry, SearchEntry) -> bool
  {
    (a, b) => CompareDescending(prop, a, b) <= 0
  }

  /**
   * Ascending rank: an entry with the property is preceded only by entries with the
   * property and a value no larger.
   */
  predicate RankedAsc(r: seq<SearchEntry>, prop: SortProp)
  {
    forall i, j :: 0 <= i < j < |r| && Has(r[j], prop) ==>
      Has(r[i], prop) && ValueCompare(prop, r[i], r[j]) <= 0
  }

  /**
   * Descending rank: an entry with the property is followed only by entries with the
   * property and a value no larger.
   */
  predicate RankedDesc(r: seq<SearchEntry>, prop: SortProp)
  {
    forall i, j :: 0 <= i < j < |r| && Has(r[i], prop) ==>
      Has(r[j], prop) && ValueCompare(prop, r[j], r[i]) <= 0
  }

  /** `h` may stand before every entry of `t` in an ascending ranking. */
  predicate LeadsAsc(h: SearchEntry, t: seq<SearchEntry>, prop: SortProp)
  {
    forall y :: y in t && Has(y, prop) ==> Has(h, prop) && ValueCompare(prop, h, y) <= 0
  }

  /** `h` may stand before every entry of `t` in a descending ranking. */
  predicate LeadsDesc(h: SearchEntry, t: seq<SearchEntry>, prop: SortProp)
  {
    Has(h, prop) ==> forall y :: y in t ==> Has(y, prop) && ValueCompare(prop, y, h) <= 0
  }

  lemma RankedAscCons(h: SearchEntry, t: seq<SearchEntry>, prop: SortProp)
    requires RankedAsc(t, prop) && LeadsAsc(h, t, prop)
    ensures RankedAsc([h] + t, prop)
  {
    var r := [h] + t;
    forall i, j | 0 <= i < j < |r| && Has(r[j], prop)
      ensures Has(r[i], prop) && ValueCompare(prop, r[i], r[j]) <= 0
    {
      assert r[j] == t[j - 1];
      if i > 0 {
        assert r[i] == t[i - 1];
      }
    }
  }

  lemma RankedAscTail(s: seq<SearchEntry>, prop: SortProp)
    requires s != [] && RankedAsc(s, prop)
    ensures RankedAsc(s[1..], prop) && LeadsAsc(s[0], s[1..], prop)
  {
    forall y | y in s[1..] && Has(y, prop)
      ensures Has(s[0], prop) && ValueCompare(prop, s[0], y) <= 0
    {
      var k :| 0 <= k < |s[1..]| && s[1..][k] == y;
      assert s[k + 1] == y;
    }
  }

  lemma RankedDescCons(h: SearchEntry, t: seq<SearchEntry>, prop: SortProp)
    requires RankedDesc(t, prop) && LeadsDesc(h, t, prop)
    ensures RankedDesc([h] + t, prop)
  {
    var r := [h] + t;
    forall i, j | 0 <= i < j < |r| && Has(r[i], prop)
      ensures Has(r[j], prop) && ValueCompare(prop, r[j], r[i]) <= 0
    {
      assert r[j] == t[j - 1];
      if i > 0 {
        assert r[i] == t[i - 1];
      }
    }
  }

  lemma RankedDescTail(s: seq<SearchEntry>, prop: SortProp)
    requires s != [] && RankedDesc(s, prop)
    ensures RankedDesc(s[1..], prop) && LeadsDesc(s[0], s[1..], prop)
  {
    if Has(s[0], prop) {
      forall y | y in s[1..]
        ensures Has(y, prop) && ValueCompare(prop, y, s[0]) <= 0
      {
        var k :| 0 <= k < |s[1..]| && s[1..][k] == y;
        assert s[k + 1] == y;
      }
    }
  }

  /** An entry of `Insert(x, s, le)` is `x` or an entry of `s`. */
  lemma InsertMember(x: SearchEntry, s: seq<SearchEntry>, le: (SearchEntry, SearchEntry) -> bool, y: SearchEntry)
    requires y in Insert(x, s, le)
    ensures y == x || y in s
  {
    assert y in multiset(Insert(x, s, le));
  }

  lemma {:induction false} InsertRankedAsc(x: SearchEntry, s: seq<SearchEntry>, prop: SortProp)
    requires RankedAsc(s, prop)
    ensures RankedAsc(Insert(x, s, AscLe(prop)), prop)
  {
    var le := AscLe(prop);
    if s == [] {
    } else if le(x, s[0]) {
      RankedAscTail(s, prop);
      forall y | y in s && Has(y, prop)
        ensures Has(x, prop) && ValueCompare(prop, x, y) <= 0
      {
        if y != s[0] {
          assert y in s[1..];
          ValueCompareTrans(prop, x, s[0], y);
        }
      }
      RankedAscCons(x, s, prop);
    } else {
      RankedAscTail(s, prop);
      InsertRankedAsc(x, s[1..], prop);
      var t := Insert(x, s[1..], le);
      forall y | y in t && Has(y, prop)
        ensures Has(s[0], prop) && ValueCompare(prop, s[0], y) <= 0
      {
        InsertMember(x, s[1..], le, y);
        if y == x {
          ValueCompareFlip(prop, x, s[0]);
        }
      }
      RankedAscCons(s[0], t, prop);
    }
  }

  lemma {:induction false} InsertRankedDesc(x: SearchEntry, s: seq<SearchEntry>, prop: SortProp)
    requires RankedDesc(s, prop)
    ensures RankedDesc(Insert(x, s, DescLe(prop)), prop)
  {
    var le := DescLe(prop);
    if s == [] {
    } else if le(x, s[0]) {
      RankedDescTail(s, prop);
      if Has(x, prop) {
        forall y | y in s
          ensures Has(y, prop) && ValueCompare(prop, y, x) <= 0
        {
          if y != s[0] {
            assert y in s[1..];
            ValueCompareTrans(prop, y, s[0], x);
          }
        }
      }
      RankedDescCons(x, s, prop);
    } else {
      RankedDescTail(s, prop);
      InsertRankedDesc(x, s[1..], prop);
      var t := Insert(x, s[1..], le);
      if Has(s[0], prop) {
        forall y | y in t
          ensures Has(y, prop) && ValueCompare(prop, y, s[0]) <= 0
        {
          InsertMember(x, s[1..], le, y);
          if y == x {
            ValueCompareFlip(prop, x, s[0]);
          }
        }
      }
      RankedDescCons(s[0], t, prop);
    }
  }

  /** Sorting with `compareAscending` ranks the entries ascending. */
  lemma {:induction false} SortRankedAsc(s: seq<SearchEntry>, prop: SortProp)
    ensures RankedAsc(Sort(s, AscLe(prop)), prop)
  {
    if s != [] {
      SortRankedAsc(s[1..], prop);
      InsertRankedAsc(s[0], Sort(s[1..], AscLe(prop)), prop);
    }
  }

  /** Sorting with `compareDescending` ranks the entries descending. */
  lemma {:induction false} SortRankedDesc(s: seq<SearchEntry>, prop: SortProp)
    ensures RankedDesc(Sort(s, DescLe(prop)), prop)
  {
    if s != [] {
      SortRankedDesc(s[1..], prop);
      InsertRankedDesc(s[0], Sort(s[1..], DescLe(prop)), prop);
    }
  }

  /** Every entry has its creation date set. */
  predicate Dated(s: seq<SearchEntry>)
  {
    forall e :: e in s ==> e.creationDate.Some?
  }

  predicate DatesNonDecreasing(r: seq<SearchEntry>)
    requires Dated(r)
  {
    forall i, j :: 0 <= i < j < |r| ==> r[i].creationDate.value <= r[j].creationDate.value
  }

  predicate DatesNonIncreasing(r: seq<SearchEntry>)
    requires Dated(r)
  {
    forall i, j :: 0 <= i < j < |r| ==> r[i].creationDate.value >= r[j].creationDate.value
  }

  /** Sorting keeps every creation date set. */
  lemma SortDated(s: seq<SearchEntry>, le: (SearchEntry, SearchEntry) -> bool)
    requires Dated(s)
    ensures Dated(Sort(s, le))
  {
    var r := Sort(s, le);
    forall e | e in r
      ensures e.creationDate.Some?
    {
      assert e in multiset(r);
    }
  }

  /** With every creation date set, the ascending sort orders the dates non-decreasingly. */
  lemma DatesAscending(s: seq<SearchEntry>)
    requires Dated(s)
    ensures Dated(Sort(s, AscLe(CreationDate)))
    ensures DatesNonDecreasing(Sort(s, AscLe(CreationDate)))
  {
    var r := Sort(s, AscLe(CreationDate));
    SortDated(s, AscLe(CreationDate));
    SortRankedAsc(s, CreationDate);
    forall i, j | 0 <= i < j < |r|
      ensures r[i].creationDate.value <= r[j].creationDate.value
    {
      assert Has(r[j], CreationDate);
    }
  }

  /** With every creation date set, the descending sort orders the dates non-increasingly. */
  lemma DatesDescending(s: seq<SearchEntry>)
    requires Dated(s)
    ensures Dated(Sort(s, DescLe(CreationDate)))
    ensures DatesNonIncreasing(Sort(s, DescLe(CreationDate)))
  {
    var r := Sort(s, DescLe(CreationDate));
    SortDated(s, DescLe(CreationDate));
    SortRankedDesc(s, CreationDate);
    forall i, j | 0 <= i < j < |r|
      ensures r[i].creationDate.value >= r[j].creationDate.value
    {
      assert Has(r[i], CreationDate);
    }
  }

  /** The `filter` callback: an empty phrase keeps everything. */
  predicate Matches(p: SearchEntry, phrase: string)
  {
    || phrase == ""
    || Contains(Lower(p.title), Lower(phrase))
    || (p.isPassword && Contains(Lower(p.username), Lower(phrase)))
  }

  /** `passwords.filter(...)`: the matching entries, in their order. */
  function Filter(passwords: seq<SearchEntry>, phrase: string): (r: seq<SearchEntry>)
    ensures |r| <= |passwords|
    ensures forall x :: x in r <==> x in passwords && Matches(x, phrase)
    ensures forall x :: multiset(r)[x] == if Matches(x, phrase) then multiset(passwords)[x] else 0
    ensures Subsequence(r, passwords)
    ensures phrase == "" ==> r == passwords
  {
    if passwords == [] then []
    else
      var rest := Filter(passwords[1..], phrase);
      assert passwords == [passwords[0]] + passwords[1..];
      if Matches(passwords[0], phrase) then [passwords[0]] + rest else rest
  }

  function SortBy(order: SortOrder, prop: SortProp, s: seq<SearchEntry>): seq<SearchEntry>
  {
    match order
    case Asc => Sort(s, AscLe(prop))
    case Desc => Sort(s, DescLe(prop))
  }

  /** The phrase, the sort state and the search mode the service holds. */
  class SearchService {
    var searchPhraseValue: string
    var sortProp: SortProp
    var sortOrder: SortOrder
    var isGlobalSearchMode: bool

    /** The service starts with no phrase, outside global mode, newest first. */
    constructor()
      ensures searchPhraseValue == "" && !isGlobalSearchMode
      ensures sortOrder == Desc && sortProp == CreationDate
    {
      searchPhraseValue := "";
      sortProp := CreationDate;
      sortOrder := Desc;
      isGlobalSearchMode := false;
    }

    /** `reset`: clears the phrase and leaves global mode. */
    method Reset()
      modifies this
      ensures searchPhraseValue == "" && !isGlobalSearchMode
      ensures sortOrder == old(sortOrder) && sortProp == old(sortProp)
    {
      isGlobalSearchMode := false;
      searchPhraseValue := "";
    }

    /** `setSort`: stores both the order and the property. */
    method SetSort(state: SortOrder, prop: SortProp)
      modifies this
      ensures sortOrder == state && sortProp == prop
      ensures searchPhraseValue == old(searchPhraseValue) && isGlobalSearchMode == old(isGlobalSearchMode)
    {
      sortOrder := state;
      sortProp := prop;
    }

    /**
     * `filterEntries`: without search results, the passwords matching the phrase;
     * with search results, those results whatever the passwords and phrase. Either
     * way sorted by the current order and property.
     */
    method FilterEntries(passwords: seq<SearchEntry>, phrase: string, searchResults: seq<SearchEntry>)
      returns (r: seq<SearchEntry>)
      ensures searchResults == [] ==> multiset(r) == multiset(Filter(passwords, phrase))
      ensures searchResults == [] ==> forall x :: x in r <==> x in passwords && Matches(x, phrase)
      ensures searchResults == [] && phrase == "" ==> multiset(r) == multiset(passwords)
      ensures searchResults != [] ==> r == SortBy(sortOrder, sortProp, searchResults)
      ensures sortOrder == Asc ==> RankedAsc(r, sortProp)
      ensures sortOrder == Desc ==> RankedDesc(r, sortProp)
    {
      var source := if searchResults == [] then Filter(passwords, phrase) else searchResults;
      if sortOrder == Asc {
        SortRankedAsc(source, sortProp);
        r := Sort(source, AscLe(sortProp));
      } else {
        SortRankedDesc(source, sortProp);
        r := Sort(source, DescLe(sortProp));
      }
      assert forall x :: x in r <==> x in multiset(source);
    }
  }
}

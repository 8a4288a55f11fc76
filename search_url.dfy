/** The search URL for sold listings (build_search_url). */
module SearchUrl {
  import opened Text

  const BaseUrl: string := "https://www.ebay.com"

  /** Sold items, completed listings, no category constraint, Buy It Now only. */
  const FixedParameters: string := "&LH_Sold=1&LH_Complete=1&rt=nc&LH_BIN=1"

  /** A filter mapping: (filter type, value) pairs in the dictionary's insertion order. */
  type Filters = seq<(string, string)>

  /** The truthy (non-empty) values of the filters, in order. */
  function FilterTerms(filters: Filters): seq<string>
    decreases |filters|
  {
    if filters == [] then []
    else
      var value := filters[|filters| - 1].1;
      FilterTerms(filters[..|filters| - 1]) + (if value != "" then [value] else [])
  }

  /** The device type followed by the filter terms. */
  function SearchTerms(deviceType: string, filters: Filters): seq<string> {
    [deviceType] + FilterTerms(filters)
  }

  /** `" ".join(search_terms).replace(" ", "+")`. */
  function SearchQuery(deviceType: string, filters: Filters): string {
    Replace(Join(SearchTerms(deviceType, filters), ' '), ' ', '+')
  }

  method BuildSearchUrl(deviceType: string, filters: Filters) returns (url: string)
    ensures url == BaseUrl + "/sch/i.html?_nkw=" + SearchQuery(deviceType, filters) + FixedParameters
  {
    var searchTerms := [deviceType];
    for i := 0 to |filters|
      invariant searchTerms == SearchTerms(deviceType, filters[..i])
    {
      assert filters[..i + 1][..i] == filters[..i];
      var (_, value) := filters[i];
      if value != "" {
        searchTerms := searchTerms + [value];
      }
    }
    assert filters[..|filters|] == filters;
    var searchQuery := Replace(Join(searchTerms, ' '), ' ', '+');
    url := BaseUrl + "/sch/i.html";
    url := url + "?_nkw=" + searchQuery;
    ghost var head := url;
    url := url + "&LH_Sold=1";
    url := url + "&LH_Complete=1";
    url := url + "&rt=nc";
    url := url + "&LH_BIN=1";
    ParametersInOrder(head);
    assert head == BaseUrl + "/sch/i.html?_nkw=" + searchQuery;
  }

  /** The four appended parameters make up FixedParameters. */
  lemma ParametersInOrder(head: string)
    ensures head + "&LH_Sold=1" + "&LH_Complete=1" + "&rt=nc" + "&LH_BIN=1" == head + FixedParameters
  {
    assert "&LH_Sold=1" + "&LH_Complete=1" + "&rt=nc" + "&LH_BIN=1" == FixedParameters;
  }

  /** Every filter term is a non-empty value of the filters. */
  lemma {:induction false} FilterTermsAreValues(filters: Filters)
    ensures forall t :: t in FilterTerms(filters) ==> t != "" && exists k :: k in filters && k.1 == t
    decreases |filters|
  {
    if filters != [] {
      var init := filters[..|filters| - 1];
      FilterTermsAreValues(init);
      forall t | t in FilterTerms(filters)
        ensures t != "" && exists k :: k in filters && k.1 == t
      {
        if t in FilterTerms(init) {
          var k :| k in init && k.1 == t;
          assert k in filters;
        } else {
          assert filters[|filters| - 1] in filters;
        }
      }
    }
  }

  /** Every non-empty filter value is a filter term. */
  lemma {:induction false} ValuesAreFilterTerms(filters: Filters)
    ensures forall k :: k in filters && k.1 != "" ==> k.1 in FilterTerms(filters)
    decreases |filters|
  {
    if filters != [] {
      var init := filters[..|filters| - 1];
      ValuesAreFilterTerms(init);
      forall k | k in filters && k.1 != "" ensures k.1 in FilterTerms(filters) {
        var i :| 0 <= i < |filters| && filters[i] == k;
        if i < |init| {
          assert init[i] == k;
        }
      }
    }
  }

  /** Filter terms of a concatenation are the concatenated filter terms (order is kept). */
  lemma {:induction false} FilterTermsAppend(a: Filters, b: Filters)
    ensures FilterTerms(a + b) == FilterTerms(a) + FilterTerms(b)
    decreases |b|
  {
    if b == [] {
      assert a + b == a;
    } else {
      var b' := b[..|b| - 1];
      assert (a + b)[..|a + b| - 1] == a + b';
      assert (a + b)[|a + b| - 1] == b[|b| - 1];
      FilterTermsAppend(a, b');
    }
  }

  /** A filter with an empty value contributes nothing to the query. */
  lemma EmptyValueIgnored(deviceType: string, a: Filters, filterType: string, b: Filters)
    ensures SearchQuery(deviceType, a + [(filterType, "")] + b) == SearchQuery(deviceType, a + b)
  {
    FilterTermsAppend(a + [(filterType, "")], b);
    FilterTermsAppend(a, [(filterType, "")]);
    assert [(filterType, "")][..0] == [];
    assert FilterTerms([(filterType, "")]) == [];
    FilterTermsAppend(a, b);
    assert FilterTerms(a + [(filterType, "")] + b) == FilterTerms(a + b);
    assert SearchTerms(deviceType, a + [(filterType, "")] + b) == SearchTerms(deviceType, a + b);
  }

  /** The query contains no space. */
  lemma QueryHasNoSpace(deviceType: string, filters: Filters)
    ensures ' ' !in SearchQuery(deviceType, filters)
  {
    ReplaceRemoves(Join(SearchTerms(deviceType, filters), ' '), ' ', '+');
  }

  /** The query is the device type and the filter terms, each with its spaces turned
      into `+`, joined by `+`. */
  lemma QueryIsPlusJoin(deviceType: string, filters: Filters)
    ensures SearchQuery(deviceType, filters) == Join(ReplaceEach(SearchTerms(deviceType, filters), ' ', '+'), '+')
  {
    ReplaceJoin(SearchTerms(deviceType, filters), ' ', ' ', '+');
  }

  /** With no filters (or only empty ones) the query is the device type alone. */
  lemma NoFilterTerms(deviceType: string, filters: Filters)
    requires forall k :: k in filters ==> k.1 == ""
    ensures SearchQuery(deviceType, filters) == Replace(deviceType, ' ', '+')
  {
    if FilterTerms(filters) != [] {
      FilterTermsAreValues(filters);
      assert FilterTerms(filters)[0] in FilterTerms(filters);
    }
  }

  /** Example: a phone with storage and a two-word color, condition left empty. */
  lemma Example()
    ensures SearchQuery("phone", [("storage", "128GB"), ("color", "Rose Gold"), ("condition", "")])
            == "phone+128GB+Rose+Gold"
  {
    var f := [("storage", "128GB"), ("color", "Rose Gold"), ("condition", "")];
    assert f == [("storage", "128GB")] + [("color", "Rose Gold")] + [("condition", "")];
    FilterTermsAppend([("storage", "128GB")] + [("color", "Rose Gold")], [("condition", "")]);
    FilterTermsAppend([("storage", "128GB")], [("color", "Rose Gold")]);
    SingleFilterTerm("storage", "128GB");
    SingleFilterTerm("color", "Rose Gold");
    SingleFilterTerm("condition", "");
    assert SearchTerms("phone", f) == ["phone", "128GB", "Rose Gold"];
    ExampleJoin();
  }

  lemma SingleFilterTerm(filterType: string, value: string)
    ensures FilterTerms([(filterType, value)]) == if value == "" then [] else [value]
  {
    assert [(filterType, value)][..0] == [];
  }

  lemma ExampleJoin()
    ensures Replace(Join(["phone", "128GB", "Rose Gold"], ' '), ' ', '+') == "phone+128GB+Rose+Gold"
  {
    ReplaceJoin(["phone", "128GB", "Rose Gold"], ' ', ' ', '+');
    assert Replace("Rose Gold", ' ', '+') == "Rose+Gold";
    assert Replace("phone", ' ', '+') == "phone";
    assert Replace("128GB", ' ', '+') == "128GB";
    assert ReplaceEach(["phone", "128GB", "Rose Gold"], ' ', '+') == ["phone", "128GB", "Rose+Gold"];
    assert Join(["phone", "128GB", "Rose+Gold"], '+') == "phone+128GB+Rose+Gold";
  }
}

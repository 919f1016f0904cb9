/** wpsync_webspark_get_all_articles and the two PHP array look-ups the
    job runs on its result (in_array and array_search). */
module SkuIndex {
  import opened Records

  /** The SKU index: position in the snapshot to that record's SKU, for
      every record that has one. */
  function Articles(productData: seq<Record>): map<nat, string> {
    map k: nat | k < |productData| && productData[k].sku.Some? :: productData[k].sku.value
  }

  /** The loop of wpsync_webspark_get_all_articles. */
  method GetAllArticles(productData: seq<Record>) returns (articles: map<nat, string>)
    ensures forall k: nat :: k in articles <==> k < |productData| && productData[k].sku.Some?
    ensures forall k :: k in articles ==> articles[k] == productData[k].sku.value
    ensures articles == Articles(productData)
  {
    articles := map[];
    for key := 0 to |productData|
      invariant forall k: nat :: k in articles <==> k < key && productData[k].sku.Some?
      invariant forall k :: k in articles ==> articles[k] == productData[k].sku.value
    {
      if productData[key].sku.Some? {
        articles := articles[key := productData[key].sku.value];
      }
    }
  }

  /** array_search(sku, articles) on an array whose keys were inserted in
      ascending order below n: the smallest key holding `sku`, or None
      where PHP gives false. */
  function ArraySearch(articles: map<nat, string>, sku: string, n: nat): (r: Option<nat>)
    ensures r.Some? ==> r.value < n && r.value in articles && articles[r.value] == sku
    ensures r.Some? ==> forall j :: 0 <= j < r.value && j in articles ==> articles[j] != sku
    ensures r.None? ==> forall j :: 0 <= j < n && j in articles ==> articles[j] != sku
    decreases n
  {
    if n == 0 then None
    else
      match ArraySearch(articles, sku, n - 1)
      case Some(k) => Some(k)
      case None => if n - 1 in articles && articles[n - 1] == sku then Some(n - 1) else None
  }

  /** in_array on the index holds exactly when some record carries the SKU,
      and then array_search finds a record. */
  lemma InArrayIffPresent(productData: seq<Record>, sku: string)
    ensures sku in Articles(productData).Values
        <==> exists k :: 0 <= k < |productData| && productData[k].sku == Some(sku)
    ensures sku in Articles(productData).Values
        <==> ArraySearch(Articles(productData), sku, |productData|).Some?
  {
    var articles := Articles(productData);
    if k :| 0 <= k < |productData| && productData[k].sku == Some(sku) {
      assert k in articles && articles[k] == sku;
    }
    if sku in articles.Values {
      var k :| k in articles && articles[k] == sku;
      assert productData[k].sku == Some(sku);
    }
  }

  /** array_search on the index finds the FIRST record carrying the SKU:
      later duplicates are never reached. */
  lemma LookupFindsFirstOccurrence(productData: seq<Record>, sku: string, k: nat)
    ensures ArraySearch(Articles(productData), sku, |productData|) == Some(k)
        <==> (k < |productData| && productData[k].sku == Some(sku)
              && forall j :: 0 <= j < k ==> productData[j].sku != Some(sku))
  {
    var articles := Articles(productData);
    var found := ArraySearch(articles, sku, |productData|);
    if k < |productData| && productData[k].sku == Some(sku)
       && forall j :: 0 <= j < k ==> productData[j].sku != Some(sku)
    {
      assert k in articles && articles[k] == sku;
    }
    if found == Some(k) {
      forall j | 0 <= j < k ensures productData[j].sku != Some(sku) {
        assert productData[j].sku.Some? ==> j in articles && articles[j] == productData[j].sku.value;
      }
    }
  }
}

/** What the reconciliation pass guarantees, proved about the functions that
    specify it (Sync.SweepAll, Sync.InsertFrom, Sync.Run), which the
    Catalog methods are proved to follow. */
module SyncProofs {
  import opened Records
  import opened SkuIndex
  import opened Sync

  predicate Distinct(ids: seq<Id>) {
    forall i, j :: 0 <= i < j < |ids| ==> ids[i] != ids[j]
  }

  /** The number of save() calls on `id` in a journal. */
  function Saves(log: seq<Event>, id: Id): nat
    decreases |log|
  {
    if log == [] then 0
    else Saves(log[..|log| - 1], id) + if log[|log| - 1].Saved? && log[|log| - 1].id == id then 1 else 0
  }

  /** The number of deletions of `id` in a journal. */
  function Deletes(log: seq<Event>, id: Id): nat
    decreases |log|
  {
    if log == [] then 0
    else Deletes(log[..|log| - 1], id) + if log[|log| - 1] == Deleted(id) then 1 else 0
  }

  /** The SKUs of the products created, in creation order. */
  function CreatedSkus(log: seq<Event>): seq<string>
    decreases |log|
  {
    if log == [] then []
    else CreatedSkus(log[..|log| - 1]) + if log[|log| - 1].Created? then [log[|log| - 1].sku] else []
  }

  lemma CountsAppend(log: seq<Event>, e: Event, id: Id)
    ensures Saves(log + [e], id) == Saves(log, id) + if e.Saved? && e.id == id then 1 else 0
    ensures Deletes(log + [e], id) == Deletes(log, id) + if e == Deleted(id) then 1 else 0
    ensures CreatedSkus(log + [e]) == CreatedSkus(log) + if e.Created? then [e.sku] else []
  {
    assert (log + [e])[..|log|] == log;
  }

  // ----- Phase 1, one id at a time ----------------------------------------

  /** Everything the first loop can change about one id. */
  datatype View = View(product: Option<Product>, kept: bool, saves: nat, deletes: nat)

  function ViewOf(s: Pass, id: Id): View {
    View(if id in s.store.products then Some(s.store.products[id]) else None,
         id in s.kept, Saves(s.store.log, id), Deletes(s.store.log, id))
  }

  /** Handling one listed id touches no other id. */
  lemma StepFrame(s: Pass, x: Id, productData: seq<Record>, o: Oracles, id: Id)
    requires x != id
    ensures ViewOf(SweepStep(s, x, productData, o), id) == ViewOf(s, id)
  {
    var s' := SweepStep(s, x, productData, o);
    assert id in s'.kept <==> id in s.kept;
    if s'.store.log != s.store.log {
      CountsAppend(s.store.log, s'.store.log[|s.store.log|], id);
      assert s'.store.log == s.store.log + [s'.store.log[|s.store.log|]];
    }
  }

  /** What one iteration does to its own id, given what the catalog holds for it. */
  function StepOutcome(v: View, id: Id, productData: seq<Record>, o: Oracles): View {
    if v.product.None? then v.(kept := true)
    else if v.product.value.sku !in Articles(productData).Values then
      v.(product := None, deletes := v.deletes + 1)
    else
      InArrayIffPresent(productData, v.product.value.sku);
      var r := productData[ArraySearch(Articles(productData), v.product.value.sku, |productData|).value];
      View(Some(Refresh(v.product.value, id, r, o).product), true, v.saves + 1, v.deletes)
  }

  lemma StepOwnView(s: Pass, id: Id, productData: seq<Record>, o: Oracles)
    ensures ViewOf(SweepStep(s, id, productData, o), id) == StepOutcome(ViewOf(s, id), id, productData, o)
  {
    var t := SweepStep(s, id, productData, o);
    if t.store.log != s.store.log {
      assert t.store.log == s.store.log + [t.store.log[|s.store.log|]];
      CountsAppend(s.store.log, t.store.log[|s.store.log|], id);
    }
  }

  /** What happens to an id depends only on what the catalog holds for it. */
  lemma StepLocal(s1: Pass, s2: Pass, productData: seq<Record>, o: Oracles, id: Id)
    requires ViewOf(s1, id) == ViewOf(s2, id)
    ensures ViewOf(SweepStep(s1, id, productData, o), id) == ViewOf(SweepStep(s2, id, productData, o), id)
  {
    StepOwnView(s1, id, productData, o);
    StepOwnView(s2, id, productData, o);
  }

  /** Ids the loop does not visit are left exactly as they were. */
  lemma {:induction false} SweepFrame(s: Pass, ids: seq<Id>, productData: seq<Record>, o: Oracles, id: Id)
    requires id !in ids
    ensures ViewOf(SweepAll(s, ids, productData, o), id) == ViewOf(s, id)
    decreases |ids|
  {
    if ids != [] {
      StepFrame(s, ids[0], productData, o, id);
      SweepFrame(SweepStep(s, ids[0], productData, o), ids[1..], productData, o, id);
    }
  }

  /** With distinct ids, the whole loop does to each listed id what its own
      iteration does, as if it were alone. */
  lemma {:induction false} SweepPointwise(s: Pass, ids: seq<Id>, productData: seq<Record>, o: Oracles, id: Id)
    requires Distinct(ids) && id in ids
    ensures ViewOf(SweepAll(s, ids, productData, o), id) == ViewOf(SweepStep(s, id, productData, o), id)
    decreases |ids|
  {
    var s1 := SweepStep(s, ids[0], productData, o);
    assert Distinct(ids[1..]);
    if ids[0] == id {
      assert id !in ids[1..];
      SweepFrame(s1, ids[1..], productData, o, id);
    } else {
      SweepPointwise(s1, ids[1..], productData, o, id);
      StepFrame(s, ids[0], productData, o, id);
      StepLocal(s1, s, productData, o, id);
    }
  }

  /** Deletion completeness: a listed product whose SKU no snapshot record
      carries is hard-deleted once, never saved, and dropped from the list. */
  lemma SweepDeletesAbsent(st: Store, listed: seq<Id>, productData: seq<Record>, o: Oracles, id: Id)
    requires Distinct(listed) && id in listed
    requires id in st.products && st.products[id].sku !in Articles(productData).Values
    ensures var r := SweepAll(Pass(st, []), listed, productData, o);
            && id !in r.store.products && id !in r.kept
            && Deletes(r.store.log, id) == Deletes(st.log, id) + 1
            && Saves(r.store.log, id) == Saves(st.log, id)
  {
    var s := Pass(st, []);
    SweepPointwise(s, listed, productData, o, id);
    CountsAppend(st.log, Deleted(id), id);
  }

  /** A listed product whose SKU the snapshot carries is updated from the
      FIRST record with that SKU, saved exactly once whatever number of
      fields changed, never deleted, and stays in the list. */
  lemma SweepUpdatesMatchedOnce(st: Store, listed: seq<Id>, productData: seq<Record>, o: Oracles, id: Id, k: nat)
    requires Distinct(listed) && id in listed && id in st.products
    requires k < |productData| && productData[k].sku == Some(st.products[id].sku)
    requires forall j :: 0 <= j < k ==> productData[j].sku != Some(st.products[id].sku)
    ensures var r := SweepAll(Pass(st, []), listed, productData, o);
            && id in r.store.products && id in r.kept
            && r.store.products[id] == Refresh(st.products[id], id, productData[k], o).product
            && Saves(r.store.log, id) == Saves(st.log, id) + 1
            && Deletes(r.store.log, id) == Deletes(st.log, id)
  {
    var s := Pass(st, []);
    var p := st.products[id];
    SweepPointwise(s, listed, productData, o, id);
    InArrayIffPresent(productData, p.sku);
    LookupFindsFirstOccurrence(productData, p.sku, k);
    var u := Refresh(p, id, productData[k], o);
    CountsAppend(st.log, Saved(id, u.written), id);
  }

  /** An id that wc_get_product cannot load stays in the list and is
      neither written nor deleted. */
  lemma SweepKeepsUnloadable(st: Store, listed: seq<Id>, productData: seq<Record>, o: Oracles, id: Id)
    requires Distinct(listed) && id in listed && id !in st.products
    ensures var r := SweepAll(Pass(st, []), listed, productData, o);
            && id !in r.store.products && id in r.kept
            && Saves(r.store.log, id) == Saves(st.log, id)
            && Deletes(r.store.log, id) == Deletes(st.log, id)
  {
    SweepPointwise(Pass(st, []), listed, productData, o, id);
  }

  /** Nothing else changes: products that are not listed are untouched. */
  lemma SweepLeavesUnlisted(st: Store, listed: seq<Id>, productData: seq<Record>, o: Oracles, id: Id)
    requires id !in listed
    ensures var r := SweepAll(Pass(st, []), listed, productData, o);
            && (id in r.store.products <==> id in st.products)
            && (id in st.products ==> r.store.products[id] == st.products[id])
            && Saves(r.store.log, id) == Saves(st.log, id)
            && Deletes(r.store.log, id) == Deletes(st.log, id)
  {
    SweepFrame(Pass(st, []), listed, productData, o, id);
  }

  /** After the first loop every listed product left in the catalog has a
      SKU that the snapshot carries. */
  lemma SweepSurvivorsAreIndexed(st: Store, listed: seq<Id>, productData: seq<Record>, o: Oracles)
    requires Distinct(listed)
    ensures var r := SweepAll(Pass(st, []), listed, productData, o);
            forall id :: id in listed && id in r.store.products
              ==> r.store.products[id].sku in Articles(productData).Values
  {
    var r := SweepAll(Pass(st, []), listed, productData, o);
    forall id | id in listed && id in r.store.products
      ensures r.store.products[id].sku in Articles(productData).Values
    {
      SweepPointwise(Pass(st, []), listed, productData, o, id);
    }
  }

  // ----- Phase 1, the list that is counted ---------------------------------

  /** The listed ids the first loop does not delete, in order. */
  function Survivors(products: map<Id, Product>, ids: seq<Id>, productData: seq<Record>): seq<Id>
    decreases |ids|
  {
    if ids == [] then []
    else
      (if ids[0] in products && products[ids[0]].sku !in Articles(productData).Values then [] else [ids[0]])
      + Survivors(products, ids[1..], productData)
  }

  lemma {:induction false} SurvivorsAgree(p1: map<Id, Product>, p2: map<Id, Product>, ids: seq<Id>, productData: seq<Record>)
    requires forall id :: id in ids ==> (id in p1 <==> id in p2) && (id in p1 ==> p1[id].sku == p2[id].sku)
    ensures Survivors(p1, ids, productData) == Survivors(p2, ids, productData)
    decreases |ids|
  {
    if ids != [] {
      SurvivorsAgree(p1, p2, ids[1..], productData);
    }
  }

  /** Whether the first loop keeps a listed id in its list. */
  function KeptPart(products: map<Id, Product>, id: Id, productData: seq<Record>): seq<Id> {
    if id in products && products[id].sku !in Articles(productData).Values then [] else [id]
  }

  /** One iteration appends its id to the list unless it deletes the product. */
  lemma StepKept(s: Pass, id: Id, productData: seq<Record>, o: Oracles)
    ensures SweepStep(s, id, productData, o).kept == s.kept + KeptPart(s.store.products, id, productData)
  {
  }

  lemma {:induction false} SweepKeptIsSurvivors(s: Pass, ids: seq<Id>, productData: seq<Record>, o: Oracles)
    requires Distinct(ids)
    ensures SweepAll(s, ids, productData, o).kept == s.kept + Survivors(s.store.products, ids, productData)
    decreases |ids|, 1
  {
    if ids != [] {
      var s1 := SweepStep(s, ids[0], productData, o);
      StepKept(s, ids[0], productData, o);
      forall id | id in ids[1..]
        ensures (id in s1.store.products <==> id in s.store.products)
        ensures id in s1.store.products ==> s1.store.products[id].sku == s.store.products[id].sku
      {
        assert id != ids[0];
        StepFrame(s, ids[0], productData, o, id);
        assert ViewOf(s1, id).product == ViewOf(s, id).product;
      }
      KeptAfterStep(s, s1, ids, productData, o);
    }
  }

  /** SweepKeptIsSurvivors, on what the first iteration left. */
  lemma {:induction false} KeptAfterStep(s: Pass, s1: Pass, ids: seq<Id>, productData: seq<Record>, o: Oracles)
    requires Distinct(ids) && ids != []
    requires s1.kept == s.kept + KeptPart(s.store.products, ids[0], productData)
    requires forall id :: id in ids[1..] ==> (id in s1.store.products <==> id in s.store.products)
    requires forall id :: id in ids[1..] && id in s1.store.products
               ==> s1.store.products[id].sku == s.store.products[id].sku
    ensures SweepAll(s1, ids[1..], productData, o).kept == s.kept + Survivors(s.store.products, ids, productData)
    decreases |ids|, 0
  {
    assert Distinct(ids[1..]);
    SweepKeptIsSurvivors(s1, ids[1..], productData, o);
    SurvivorsAgree(s1.store.products, s.store.products, ids[1..], productData);
    var head := KeptPart(s.store.products, ids[0], productData);
    var tail := Survivors(s.store.products, ids[1..], productData);
    assert Survivors(s.store.products, ids, productData) == head + tail;
    assert (s.kept + head) + tail == s.kept + (head + tail);
  }

  /** The count the cap is computed from: the listed ids minus the deleted ones. */
  lemma SweepCount(st: Store, listed: seq<Id>, productData: seq<Record>, o: Oracles)
    requires Distinct(listed)
    ensures SweepAll(Pass(st, []), listed, productData, o).kept == Survivors(st.products, listed, productData)
  {
    SweepKeptIsSurvivors(Pass(st, []), listed, productData, o);
  }

  /** The first loop neither creates products nor hands out ids. */
  lemma {:induction false} SweepCreatesNothing(s: Pass, ids: seq<Id>, productData: seq<Record>, o: Oracles)
    ensures var r := SweepAll(s, ids, productData, o);
            && CreatedSkus(r.store.log) == CreatedSkus(s.store.log)
            && r.store.nextId == s.store.nextId
            && r.store.products.Keys <= s.store.products.Keys
    decreases |ids|
  {
    if ids != [] {
      var s1 := SweepStep(s, ids[0], productData, o);
      if s1.store.log != s.store.log {
        assert s1.store.log == s.store.log + [s1.store.log[|s.store.log|]];
        CountsAppend(s.store.log, s1.store.log[|s.store.log|], ids[0]);
      }
      SweepCreatesNothing(s1, ids[1..], productData, o);
    }
  }

  // ----- Phase 2 ------------------------------------------------------------

  /** The SKUs the insertion loop would create with no cap: in snapshot
      order, each the first record of its SKU that is not yet in the catalog
      and that set_sku accepts. */
  function NewSkus(records: seq<Record>, taken: set<string>, accepted: string -> bool): seq<string>
    decreases |records|
  {
    if records == [] then []
    else
      var r := records[0];
      if r.sku.Some? && r.sku.value !in taken && accepted(r.sku.value)
      then [r.sku.value] + NewSkus(records[1..], taken + {r.sku.value}, accepted)
      else NewSkus(records[1..], taken, accepted)
  }

  /** The first n elements of s, or all of s when it is shorter. */
  function Take<T>(s: seq<T>, n: nat): (t: seq<T>)
    ensures |t| <= n && t <= s
  {
    if n >= |s| then s else s[..n]
  }

  /** Some record of the snapshot carries the SKU. */
  predicate Carries(records: seq<Record>, sku: string) {
    exists k :: 0 <= k < |records| && records[k].sku == Some(sku)
  }

  /** No SKU is created twice or over one the catalog already has, and each
      is an accepted SKU of some record. */
  lemma {:induction false} NewSkusAreNew(records: seq<Record>, taken: set<string>, accepted: string -> bool)
    ensures forall s :: s in NewSkus(records, taken, accepted) ==> s !in taken && accepted(s) && Carries(records, s)
    ensures forall i, j :: 0 <= i < j < |NewSkus(records, taken, accepted)|
              ==> NewSkus(records, taken, accepted)[i] != NewSkus(records, taken, accepted)[j]
    decreases |records|
  {
    if records != [] {
      var r := records[0];
      var taken' := if r.sku.Some? && r.sku.value !in taken && accepted(r.sku.value) then taken + {r.sku.value} else taken;
      var rest := NewSkus(records[1..], taken', accepted);
      NewSkusAreNew(records[1..], taken', accepted);
      forall x | Carries(records[1..], x) ensures Carries(records, x) {
        var k :| 0 <= k < |records[1..]| && records[1..][k].sku == Some(x);
        assert records[k + 1].sku == Some(x);
      }
      if r.sku.Some? && r.sku.value !in taken && accepted(r.sku.value) {
        var n := [r.sku.value] + rest;
        assert NewSkus(records, taken, accepted) == n;
        assert Carries(records, r.sku.value) by { assert records[0].sku == Some(r.sku.value); }
        forall x | x in n ensures x !in taken && accepted(x) && Carries(records, x) {
          if x != r.sku.value { assert x in rest; }
        }
        forall i, j | 0 <= i < j < |n| ensures n[i] != n[j] {
          assert n[j] == rest[j - 1];
          if i > 0 { assert n[i] == rest[i - 1]; }
        }
      }
    }
  }

  lemma HasSkuIsSkus(products: map<Id, Product>, sku: string)
    ensures HasSku(products, sku) <==> sku in Skus(products)
  {
    if sku in Skus(products) {
      var id :| id in products && products[id].sku == sku;
    }
  }

  /** A created product gets a fresh id, holds the product made from its
      record, and adds exactly its SKU. */
  lemma CreateStepFacts(st: Store, r: Record, sku: string, o: Oracles)
    requires Fresh(st)
    ensures var st' := CreateStep(st, r, sku, o);
            && Fresh(st') && st'.nextId == st.nextId + 1
            && st.nextId !in st.products
            && st'.products.Keys == st.products.Keys + {st.nextId}
            && (forall id :: id in st.products ==> st'.products[id] == st.products[id])
            && st'.products[st.nextId] == CreatedProduct(r, sku, st.nextId, o)
            && Skus(st'.products) == Skus(st.products) + {sku}
            && CreatedSkus(st'.log) == CreatedSkus(st.log) + [sku]
            && st'.log[..|st.log|] == st.log
  {
    var st' := CreateStep(st, r, sku, o);
    var id := st.nextId;
    var e1 := Created(id, sku);
    var e2 := st'.log[|st.log| + 1];
    assert st'.log == st.log + [e1] + [e2];
    CountsAppend(st.log, e1, id);
    CountsAppend(st.log + [e1], e2, id);
    assert st'.products[id].sku == sku;
    assert Skus(st'.products) == Skus(st.products) + {sku} by {
      forall x | x in Skus(st'.products) ensures x in Skus(st.products) + {sku} {
        var j :| j in st'.products && st'.products[j].sku == x;
        if j != id { assert x in Skus(st.products); }
      }
      forall x | x in Skus(st.products) ensures x in Skus(st'.products) {
        var j :| j in st.products && st.products[j].sku == x;
        assert st'.products[j].sku == x;
      }
    }
  }

  /** The part of CreateStepFacts that the insertion order depends on,
      stated alone so that the proofs which use it carry no more facts than
      they need. */
  lemma CreateStepSkus(st: Store, r: Record, sku: string, o: Oracles)
    requires Fresh(st)
    ensures var st' := CreateStep(st, r, sku, o);
            && Fresh(st')
            && Skus(st'.products) == Skus(st.products) + {sku}
            && CreatedSkus(st'.log) == CreatedSkus(st.log) + [sku]
  {
    CreateStepFacts(st, r, sku, o);
  }

  /** Cap and order: from a fresh catalog with room for `difference` more
      products, the insertion loop creates exactly the first `difference`
      SKUs of NewSkus, in snapshot order, and no others. */
  lemma {:induction false} InsertCreatesFirstNewSkus(st: Store, records: seq<Record>, difference: int, o: Oracles)
    requires Fresh(st) && difference > 0
    ensures CreatedSkus(InsertFrom(st, records, difference, o).log)
         == CreatedSkus(st.log) + Take(NewSkus(records, Skus(st.products), o.skuAccepted), difference)
    decreases |records|, 2
  {
    if records != [] {
      var r := records[0];
      if r.sku.Some? && !HasSku(st.products, r.sku.value) && o.skuAccepted(r.sku.value) {
        if difference > 1 {
          InsertCreatesHead(st, records, difference, o);
        } else {
          InsertCreatesLast(st, records, o);
        }
      } else {
        var taken := Skus(st.products);
        if r.sku.Some? {
          HasSkuIsSkus(st.products, r.sku.value);
        }
        assert InsertFrom(st, records, difference, o) == InsertFrom(st, records[1..], difference, o);
        assert NewSkus(records, taken, o.skuAccepted) == NewSkus(records[1..], taken, o.skuAccepted);
        InsertCreatesFirstNewSkus(st, records[1..], difference, o);
      }
    }
  }

  /** The step of InsertCreatesFirstNewSkus where the first record is
      created and more creations are allowed. */
  lemma {:induction false} InsertCreatesHead(st: Store, records: seq<Record>, difference: int, o: Oracles)
    requires Fresh(st) && difference > 1 && records != []
    requires records[0].sku.Some? && !HasSku(st.products, records[0].sku.value)
    requires o.skuAccepted(records[0].sku.value)
    ensures CreatedSkus(InsertFrom(st, records, difference, o).log)
         == CreatedSkus(st.log) + Take(NewSkus(records, Skus(st.products), o.skuAccepted), difference)
    decreases |records|, 1
  {
    var sku := records[0].sku.value;
    var taken := Skus(st.products);
    var st' := CreateStep(st, records[0], sku, o);
    HasSkuIsSkus(st.products, sku);
    CreateStepSkus(st, records[0], sku, o);
    assert InsertFrom(st, records, difference, o) == InsertFrom(st', records[1..], difference - 1, o);
    var rest := NewSkus(records[1..], taken + {sku}, o.skuAccepted);
    assert NewSkus(records, taken, o.skuAccepted) == [sku] + rest;
    assert Take([sku] + rest, difference) == [sku] + Take(rest, difference - 1);
    InsertCreatesAfter(st.log, st', sku, records[1..], difference - 1, o, taken);
  }

  /** InsertCreatesHead, on what the creation of the first record left. */
  lemma {:induction false} InsertCreatesAfter(log: seq<Event>, st': Store, sku: string, records: seq<Record>,
                                              difference: int, o: Oracles, taken: set<string>)
    requires Fresh(st') && difference > 0
    requires Skus(st'.products) == taken + {sku}
    requires CreatedSkus(st'.log) == CreatedSkus(log) + [sku]
    ensures CreatedSkus(InsertFrom(st', records, difference, o).log)
         == CreatedSkus(log) + ([sku] + Take(NewSkus(records, taken + {sku}, o.skuAccepted), difference))
    decreases |records| + 1, 0
  {
    InsertCreatesFirstNewSkus(st', records, difference, o);
  }

  /** The step of InsertCreatesFirstNewSkus where the first record is
      created and uses up the last allowed creation. */
  lemma InsertCreatesLast(st: Store, records: seq<Record>, o: Oracles)
    requires Fresh(st) && records != []
    requires records[0].sku.Some? && !HasSku(st.products, records[0].sku.value)
    requires o.skuAccepted(records[0].sku.value)
    ensures CreatedSkus(InsertFrom(st, records, 1, o).log)
         == CreatedSkus(st.log) + Take(NewSkus(records, Skus(st.products), o.skuAccepted), 1)
  {
    var sku := records[0].sku.value;
    var taken := Skus(st.products);
    HasSkuIsSkus(st.products, sku);
    CreateStepSkus(st, records[0], sku, o);
    assert NewSkus(records, taken, o.skuAccepted)[0] == sku;
    assert InsertFrom(st, records, 1, o) == CreateStep(st, records[0], sku, o);
  }

  /** The insertion loop never deletes or changes a product that already
      exists, and every product it adds has a fresh id. */
  lemma {:induction false} InsertKeepsExisting(st: Store, records: seq<Record>, difference: int, o: Oracles)
    requires Fresh(st)
    ensures var r := InsertFrom(st, records, difference, o);
            && Fresh(r) && st.nextId <= r.nextId
            && (forall id :: id in st.products ==> id in r.products && r.products[id] == st.products[id])
            && (forall id :: id in r.products && id !in st.products ==> st.nextId <= id)
    decreases |records|
  {
    if records != [] {
      var r := records[0];
      if r.sku.Some? && !HasSku(st.products, r.sku.value) && o.skuAccepted(r.sku.value) {
        var st' := CreateStep(st, r, r.sku.value, o);
        CreateStepFacts(st, r, r.sku.value, o);
        if difference - 1 > 0 {
          InsertKeepsExisting(st', records[1..], difference - 1, o);
        }
      } else {
        InsertKeepsExisting(st, records[1..], difference, o);
      }
    }
  }

  /** The SKUs of a sequence, as a set. */
  function SkuSet(skus: seq<string>): set<string> {
    set s | s in skus
  }

  /** The k-th record is the first of the snapshot to carry `sku`. */
  predicate FirstCarrier(records: seq<Record>, sku: string, k: int) {
    0 <= k < |records| && records[k].sku == Some(sku)
    && forall j :: 0 <= j < k ==> records[j].sku != Some(sku)
  }

  lemma FirstCarrierShift(records: seq<Record>, sku: string, k: int)
    requires records != [] && records[0].sku != Some(sku) && FirstCarrier(records[1..], sku, k)
    ensures FirstCarrier(records, sku, k + 1)
  {
    forall j | 0 <= j < k + 1 ensures records[j].sku != Some(sku) {
      if j > 0 { assert records[j] == records[1..][j - 1]; }
    }
  }

  /** Every product in `after` but not in `before` carries a SKU that
      `before` lacks and set_sku accepts, and is the product created from the
      first record of the snapshot carrying that SKU. */
  ghost predicate AddsFirstCarriers(before: Store, after: Store, records: seq<Record>, o: Oracles) {
    forall id :: id in after.products && id !in before.products ==>
      && after.products[id].sku !in Skus(before.products)
      && o.skuAccepted(after.products[id].sku)
      && exists k :: FirstCarrier(records, after.products[id].sku, k)
                     && after.products[id] == CreatedProduct(records[k], after.products[id].sku, id, o)
  }

  /** The insertion loop grows the catalog by one product per SKU it
      creates, and its set of SKUs by exactly those SKUs. */
  lemma {:induction false} InsertAddsCreated(st: Store, records: seq<Record>, difference: int, o: Oracles)
    requires Fresh(st)
    ensures var r := InsertFrom(st, records, difference, o);
            && CreatedSkus(st.log) <= CreatedSkus(r.log)
            && |r.products.Keys| == |st.products.Keys| + (|CreatedSkus(r.log)| - |CreatedSkus(st.log)|)
            && Skus(r.products) == Skus(st.products) + SkuSet(CreatedSkus(r.log)[|CreatedSkus(st.log)|..])
    decreases |records|
  {
    if records != [] {
      var rec := records[0];
      if rec.sku.Some? && !HasSku(st.products, rec.sku.value) && o.skuAccepted(rec.sku.value) {
        var sku := rec.sku.value;
        var st' := CreateStep(st, rec, sku, o);
        CreateStepFacts(st, rec, sku, o);
        assert |st'.products.Keys| == |st.products.Keys| + 1;
        if difference - 1 > 0 {
          InsertAddsCreated(st', records[1..], difference - 1, o);
          AddsAfterCreate(st, st', sku, InsertFrom(st', records[1..], difference - 1, o));
        } else {
          assert CreatedSkus(st'.log)[|CreatedSkus(st.log)|..] == [sku];
        }
      } else {
        InsertAddsCreated(st, records[1..], difference, o);
      }
    }
  }

  /** InsertAddsCreated, composed over one creation. */
  lemma AddsAfterCreate(st: Store, st': Store, sku: string, r: Store)
    requires CreatedSkus(st'.log) == CreatedSkus(st.log) + [sku]
    requires |st'.products.Keys| == |st.products.Keys| + 1
    requires Skus(st'.products) == Skus(st.products) + {sku}
    requires CreatedSkus(st'.log) <= CreatedSkus(r.log)
    requires |r.products.Keys| == |st'.products.Keys| + (|CreatedSkus(r.log)| - |CreatedSkus(st'.log)|)
    requires Skus(r.products) == Skus(st'.products) + SkuSet(CreatedSkus(r.log)[|CreatedSkus(st'.log)|..])
    ensures CreatedSkus(st.log) <= CreatedSkus(r.log)
    ensures |r.products.Keys| == |st.products.Keys| + (|CreatedSkus(r.log)| - |CreatedSkus(st.log)|)
    ensures Skus(r.products) == Skus(st.products) + SkuSet(CreatedSkus(r.log)[|CreatedSkus(st.log)|..])
  {
    var n := |CreatedSkus(st.log)|;
    var c := CreatedSkus(r.log);
    assert c[n] == sku;
    assert c[n..] == [sku] + c[n + 1..];
    assert SkuSet(c[n..]) == {sku} + SkuSet(c[n + 1..]);
  }

  /** The insertion loop adds, for each SKU it creates, the product made
      from the first record carrying that SKU, with its thumbnail. */
  lemma {:induction false} InsertNewProducts(st: Store, records: seq<Record>, difference: int, o: Oracles)
    requires Fresh(st)
    ensures AddsFirstCarriers(st, InsertFrom(st, records, difference, o), records, o)
    decreases |records|
  {
    if records != [] {
      var rec := records[0];
      if rec.sku.Some? && !HasSku(st.products, rec.sku.value) && o.skuAccepted(rec.sku.value) {
        var sku := rec.sku.value;
        var st' := CreateStep(st, rec, sku, o);
        CreateStepFacts(st, rec, sku, o);
        HasSkuIsSkus(st.products, sku);
        if difference - 1 > 0 {
          var r := InsertFrom(st', records[1..], difference - 1, o);
          InsertNewProducts(st', records[1..], difference - 1, o);
          InsertKeepsExisting(st', records[1..], difference - 1, o);
          AddsAfterCreateStep(st, st', r, records, sku, o);
        } else {
          AddsAfterCreateStep(st, st', st', records, sku, o);
        }
      } else {
        if rec.sku.Some? {
          HasSkuIsSkus(st.products, rec.sku.value);
        }
        InsertNewProducts(st, records[1..], difference, o);
        AddsAfterSkip(st, InsertFrom(st, records[1..], difference, o), records, o);
      }
    }
  }

  /** InsertNewProducts, over a first record that creates nothing. */
  lemma AddsAfterSkip(st: Store, r: Store, records: seq<Record>, o: Oracles)
    requires records != []
    requires records[0].sku.Some? ==> records[0].sku.value in Skus(st.products) || !o.skuAccepted(records[0].sku.value)
    requires AddsFirstCarriers(st, r, records[1..], o)
    ensures AddsFirstCarriers(st, r, records, o)
  {
    forall id | id in r.products && id !in st.products
      ensures exists k :: FirstCarrier(records, r.products[id].sku, k)
                          && r.products[id] == CreatedProduct(records[k], r.products[id].sku, id, o)
    {
      var sku := r.products[id].sku;
      var k :| FirstCarrier(records[1..], sku, k) && r.products[id] == CreatedProduct(records[1..][k], sku, id, o);
      FirstCarrierShift(records, sku, k);
      assert records[1..][k] == records[k + 1];
    }
  }

  /** InsertNewProducts, over a first record that creates a product. */
  lemma AddsAfterCreateStep(st: Store, st': Store, r: Store, records: seq<Record>, sku: string, o: Oracles)
    requires records != [] && records[0].sku == Some(sku)
    requires sku !in Skus(st.products) && o.skuAccepted(sku)
    requires st.nextId !in st.products && st'.products.Keys == st.products.Keys + {st.nextId}
    requires st'.products[st.nextId] == CreatedProduct(records[0], sku, st.nextId, o)
    requires Skus(st'.products) == Skus(st.products) + {sku}
    requires forall id :: id in st'.products ==> id in r.products && r.products[id] == st'.products[id]
    requires AddsFirstCarriers(st', r, records[1..], o)
    ensures AddsFirstCarriers(st, r, records, o)
  {
    forall id | id in r.products && id !in st.products
      ensures r.products[id].sku !in Skus(st.products) && o.skuAccepted(r.products[id].sku)
      ensures exists k :: FirstCarrier(records, r.products[id].sku, k)
                          && r.products[id] == CreatedProduct(records[k], r.products[id].sku, id, o)
    {
      if id == st.nextId {
        assert FirstCarrier(records, sku, 0);
      } else {
        var s := r.products[id].sku;
        var k :| FirstCarrier(records[1..], s, k) && r.products[id] == CreatedProduct(records[1..][k], s, id, o);
        FirstCarrierShift(records, s, k);
        assert records[1..][k] == records[k + 1];
      }
    }
  }

  // ----- The whole pass -------------------------------------------------------

  /** After a whole pass, a listed product whose SKU the snapshot lacks is
      gone, whatever the insertion phase did. */
  lemma RunDeletesAbsent(st: Store, listed: seq<Id>, productData: seq<Record>, o: Oracles, id: Id)
    requires Fresh(st) && Distinct(listed) && id in listed && |productData| > 0
    requires id in st.products && st.products[id].sku !in Articles(productData).Values
    ensures id !in Run(st, listed, productData, o).products
  {
    var swept := SweepAll(Pass(st, []), listed, productData, o);
    SweepDeletesAbsent(st, listed, productData, o, id);
    SweepCreatesNothing(Pass(st, []), listed, productData, o);
    assert Fresh(swept.store);
    if |productData| > 0 && |swept.kept| < ShopVolume {
      InsertKeepsExisting(swept.store, productData, ShopVolume - |swept.kept|, o);
    }
  }

  /** The shop-volume cap: a pass creates no product when the listed ids
      that survive the first loop number ShopVolume or more, and otherwise
      exactly the first ShopVolume - count new SKUs of the snapshot; the
      catalog grows by at most that many products. */
  lemma RunRespectsShopVolume(st: Store, listed: seq<Id>, productData: seq<Record>, o: Oracles)
    requires Fresh(st) && Distinct(listed)
    ensures var count := |Survivors(st.products, listed, productData)|;
            var swept := SweepAll(Pass(st, []), listed, productData, o);
            var created := CreatedSkus(Run(st, listed, productData, o).log);
            && (count >= ShopVolume ==> created == CreatedSkus(st.log))
            && (count < ShopVolume && |productData| > 0 ==>
                  created == CreatedSkus(st.log)
                             + Take(NewSkus(productData, Skus(swept.store.products), o.skuAccepted),
                                    ShopVolume - count))
            && |created| <= |CreatedSkus(st.log)| + (if count < ShopVolume then ShopVolume - count else 0)
            && (|productData| > 0 ==>
                  |Run(st, listed, productData, o).products.Keys|
                  <= |swept.store.products.Keys| + if count < ShopVolume then ShopVolume - count else 0)
  {
    var swept := SweepAll(Pass(st, []), listed, productData, o);
    SweepCount(st, listed, productData, o);
    SweepCreatesNothing(Pass(st, []), listed, productData, o);
    assert Fresh(swept.store);
    if |productData| > 0 && |swept.kept| < ShopVolume {
      InsertCreatesFirstNewSkus(swept.store, productData, ShopVolume - |swept.kept|, o);
    }
    RunGrowsAtMost(st, listed, productData, o);
  }

  /** The product-count half of RunRespectsShopVolume. */
  lemma RunGrowsAtMost(st: Store, listed: seq<Id>, productData: seq<Record>, o: Oracles)
    requires Fresh(st) && Distinct(listed)
    ensures var count := |Survivors(st.products, listed, productData)|;
            var swept := SweepAll(Pass(st, []), listed, productData, o);
            |productData| > 0 ==>
              |Run(st, listed, productData, o).products.Keys|
              <= |swept.store.products.Keys| + if count < ShopVolume then ShopVolume - count else 0
  {
    if |productData| > 0 {
      RunAddsProducts(st, listed, productData, o);
    }
  }

  // ----- A second pass over the same snapshot ---------------------------------

  /** A product whose SKU the snapshot carries survives the first loop, with its SKU. */
  lemma SweepKeepsIndexed(st: Store, listed: seq<Id>, productData: seq<Record>, o: Oracles, id: Id)
    requires Distinct(listed) && id in st.products && st.products[id].sku in Articles(productData).Values
    ensures var r := SweepAll(Pass(st, []), listed, productData, o).store;
            id in r.products && r.products[id].sku == st.products[id].sku
  {
    if id in listed {
      var sku := st.products[id].sku;
      SweepPointwise(Pass(st, []), listed, productData, o, id);
      StepOwnView(Pass(st, []), id, productData, o);
      InArrayIffPresent(productData, sku);
      var k := ArraySearch(Articles(productData), sku, |productData|).value;
      RefreshValues(st.products[id], id, productData[k], o);
    } else {
      SweepLeavesUnlisted(st, listed, productData, o, id);
    }
  }

  /** A product whose SKU the snapshot carries is still in the catalog after
      a pass over that snapshot, with its SKU. */
  lemma RunKeepsIndexed(st: Store, listed: seq<Id>, productData: seq<Record>, o: Oracles, id: Id)
    requires Fresh(st) && Distinct(listed) && |productData| > 0
    requires id in st.products && st.products[id].sku in Articles(productData).Values
    ensures id in Run(st, listed, productData, o).products
    ensures Run(st, listed, productData, o).products[id].sku == st.products[id].sku
  {
    var swept := SweepAll(Pass(st, []), listed, productData, o);
    SweepKeepsIndexed(st, listed, productData, o, id);
    SweepKeepsFresh(Pass(st, []), listed, productData, o);
    if |swept.kept| < ShopVolume {
      InsertKeepsExisting(swept.store, productData, ShopVolume - |swept.kept|, o);
    }
  }

  /** After a pass, every product that was listed or that the pass created
      carries a SKU of the snapshot. */
  lemma RunLeavesIndexed(st: Store, listed: seq<Id>, productData: seq<Record>, o: Oracles, id: Id)
    requires Fresh(st) && Distinct(listed) && |productData| > 0
    requires id in Run(st, listed, productData, o).products && (id in listed || id !in st.products)
    ensures Run(st, listed, productData, o).products[id].sku in Articles(productData).Values
  {
    var swept := SweepAll(Pass(st, []), listed, productData, o);
    var r := Run(st, listed, productData, o);
    SweepCreatesNothing(Pass(st, []), listed, productData, o);
    SweepKeepsFresh(Pass(st, []), listed, productData, o);
    if id in swept.store.products {
      SweepSurvivorsAreIndexed(st, listed, productData, o);
      if |swept.kept| < ShopVolume {
        InsertKeepsExisting(swept.store, productData, ShopVolume - |swept.kept|, o);
      }
    } else {
      RunAddsProducts(st, listed, productData, o);
      var sku := r.products[id].sku;
      var k :| FirstCarrier(productData, sku, k) && r.products[id] == CreatedProduct(productData[k], sku, id, o);
      InArrayIffPresent(productData, sku);
    }
  }

  /** A second pass over the same snapshot deletes no product that the first
      pass updated or created, whatever ids it lists. */
  lemma SecondPassKeeps(st: Store, listed: seq<Id>, listed2: seq<Id>, productData: seq<Record>, o: Oracles, id: Id)
    requires Fresh(st) && Distinct(listed) && Distinct(listed2) && |productData| > 0
    requires id in Run(st, listed, productData, o).products && (id in listed || id !in st.products)
    ensures id in Run(Run(st, listed, productData, o), listed2, productData, o).products
  {
    RunLeavesIndexed(st, listed, productData, o, id);
    RunKeepsFresh(st, listed, productData, o);
    RunKeepsIndexed(Run(st, listed, productData, o), listed2, productData, o, id);
  }

  /** A second pass over the same snapshot creates no product whose SKU a
      product created by the first pass carries. */
  lemma SecondPassCreatesNoneAgain(st: Store, listed: seq<Id>, listed2: seq<Id>, productData: seq<Record>,
                                   o: Oracles, id1: Id, id2: Id)
    requires Fresh(st) && Distinct(listed) && Distinct(listed2) && |productData| > 0
    requires id1 in Run(st, listed, productData, o).products && id1 !in st.products
    requires id2 in Run(Run(st, listed, productData, o), listed2, productData, o).products
    requires id2 !in Run(st, listed, productData, o).products
    ensures Run(Run(st, listed, productData, o), listed2, productData, o).products[id2].sku
         != Run(st, listed, productData, o).products[id1].sku
  {
    var r1 := Run(st, listed, productData, o);
    var swept2 := SweepAll(Pass(r1, []), listed2, productData, o).store;
    RunLeavesIndexed(st, listed, productData, o, id1);
    RunKeepsFresh(st, listed, productData, o);
    SweepKeepsIndexed(r1, listed2, productData, o, id1);
    SweepCreatesNothing(Pass(r1, []), listed2, productData, o);
    RunAddsProducts(r1, listed2, productData, o);
    assert r1.products[id1].sku in Skus(swept2.products);
  }

  // ----- Repeating an update ----------------------------------------------------

  /** What a pass adds to the catalog the first loop left: one product per
      SKU among the first ShopVolume - count new SKUs of the snapshot (none
      when count reaches ShopVolume), each the product made from the first
      record carrying its SKU. */
  lemma RunAddsProducts(st: Store, listed: seq<Id>, productData: seq<Record>, o: Oracles)
    requires Fresh(st) && Distinct(listed) && |productData| > 0
    ensures var count := |Survivors(st.products, listed, productData)|;
            var swept := SweepAll(Pass(st, []), listed, productData, o).store;
            var r := Run(st, listed, productData, o);
            var added := if count < ShopVolume
                         then Take(NewSkus(productData, Skus(swept.products), o.skuAccepted), ShopVolume - count)
                         else [];
            && |added| <= (if count < ShopVolume then ShopVolume - count else 0)
            && |r.products.Keys| == |swept.products.Keys| + |added|
            && Skus(r.products) == Skus(swept.products) + SkuSet(added)
            && AddsFirstCarriers(swept, r, productData, o)
  {
    var swept := SweepAll(Pass(st, []), listed, productData, o);
    SweepCount(st, listed, productData, o);
    SweepCreatesNothing(Pass(st, []), listed, productData, o);
    AddsAfterSweep(swept.store, Run(st, listed, productData, o), productData, |swept.kept|, o);
  }

  /** RunAddsProducts, on what the first loop left and its count. */
  lemma AddsAfterSweep(swept: Store, r: Store, productData: seq<Record>, count: nat, o: Oracles)
    requires Fresh(swept)
    requires count < ShopVolume ==> r == InsertFrom(swept, productData, ShopVolume - count, o)
    requires count >= ShopVolume ==> r == swept
    ensures var added := if count < ShopVolume
                         then Take(NewSkus(productData, Skus(swept.products), o.skuAccepted), ShopVolume - count)
                         else [];
            && |added| <= (if count < ShopVolume then ShopVolume - count else 0)
            && |r.products.Keys| == |swept.products.Keys| + |added|
            && Skus(r.products) == Skus(swept.products) + SkuSet(added)
            && AddsFirstCarriers(swept, r, productData, o)
  {
    if count < ShopVolume {
      InsertAddsFirstNewSkus(swept, productData, ShopVolume - count, o);
    }
  }

  /** The products the insertion loop adds, in terms of the SKUs it creates:
      one per SKU among the first `difference` new SKUs of the snapshot. */
  lemma InsertAddsFirstNewSkus(st: Store, records: seq<Record>, difference: int, o: Oracles)
    requires Fresh(st) && difference > 0
    ensures var r := InsertFrom(st, records, difference, o);
            var added := Take(NewSkus(records, Skus(st.products), o.skuAccepted), difference);
            && |r.products.Keys| == |st.products.Keys| + |added|
            && Skus(r.products) == Skus(st.products) + SkuSet(added)
            && AddsFirstCarriers(st, r, records, o)
  {
    var r := InsertFrom(st, records, difference, o);
    InsertCreatesFirstNewSkus(st, records, difference, o);
    InsertAddsCreated(st, records, difference, o);
    InsertNewProducts(st, records, difference, o);
    var before := CreatedSkus(st.log);
    assert CreatedSkus(r.log)[|before|..] == Take(NewSkus(records, Skus(st.products), o.skuAccepted), difference);
  }

  /** Update minimality: applying the same record again writes no field but
      possibly the image, and writes nothing at all when the picture's
      resolved name is already the attached file's name or cannot be sideloaded. */
  lemma RefreshSettles(p: Product, id: Id, r: Record, o: Oracles)
    ensures var u := Refresh(p, id, r, o);
            var v := Refresh(u.product, id, r, o);
            && v.written <= {Image}
            && (Image !in v.written ==> v.product == u.product)
  {
  }
}

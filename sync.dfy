/** The reconciliation pass of wpsync_webspark_get_data: the WooCommerce
    catalog as a class, the pass as methods over it, and the functions that
    specify what each phase does to the catalog. */
module Sync {
  import opened Records
  import opened SkuIndex
  import opened Price
  import opened ImageFile

  /** WPSYNC_WEBSPARC_SHOP_VOLUME: the catalog size up to which new products are added. */
  const ShopVolume := 2000

  /** A write that reaches the product store. */
  datatype Event =
    | Deleted(id: Id)                      // $product->delete(true)
    | Created(id: Id, sku: string)         // first save() of a new product
    | Saved(id: Id, written: set<Field>)   // save() of an existing product, with the fields set since it was loaded

  /** The catalog as a value: the loadable products, the id the next new
      product gets, and the journal of writes. */
  datatype Store = Store(products: map<Id, Product>, nextId: Id, log: seq<Event>)

  /** No product id has been handed out beyond the counter. */
  predicate Fresh(st: Store) {
    forall id :: id in st.products ==> id < st.nextId
  }

  /** wc_get_product_id_by_sku(sku) is non-zero. */
  predicate HasSku(products: map<Id, Product>, sku: string) {
    exists id :: id in products && products[id].sku == sku
  }

  /** The set of SKUs in the catalog. */
  function Skus(products: map<Id, Product>): set<string> {
    set id | id in products :: products[id].sku
  }

  // ----- Updating one matched product -----------------------------------

  /** A product after some setter calls, with the fields those calls wrote. */
  datatype Refreshed = Refreshed(product: Product, written: set<Field>)

  /** The thumbnail id read after a successful sideload, when the picture
      resolves to a file whose name differs from the basename of the current
      attachment; None when any of these fails. */
  function NewImage(current: ImageId, id: Id, picture: Option<string>, o: Oracles): Option<ImageId> {
    if picture.None? then None
    else
      match ImageFileInfo(picture.value)
      case None => None
      case Some(info) =>
        if o.attachedName(current) == info.name then None else o.sideload(info.path, id)
  }

  /** set_name when the record has a name that differs from the product's. */
  function SetName(u: Refreshed, r: Record): (v: Refreshed)
    ensures v.product == u.product.(name := v.product.name)
    ensures v.product.name == if r.name.Some? then r.name.value else u.product.name
    ensures v.written == u.written + if r.name.Some? && r.name.value != u.product.name then {Name} else {}
  {
    if r.name.Some? && u.product.name != r.name.value
    then Refreshed(u.product.(name := r.name.value), u.written + {Name})
    else u
  }

  /** set_description when the record has a description that differs from the product's. */
  function SetDescription(u: Refreshed, r: Record): (v: Refreshed)
    ensures v.product == u.product.(description := v.product.description)
    ensures v.product.description == if r.description.Some? then r.description.value else u.product.description
    ensures v.written == u.written
                       + if r.description.Some? && r.description.value != u.product.description
                         then {Description} else {}
  {
    if r.description.Some? && u.product.description != r.description.value
    then Refreshed(u.product.(description := r.description.value), u.written + {Description})
    else u
  }

  /** set_regular_price when the record has a price whose value differs from the product's. */
  function SetPrice(u: Refreshed, r: Record, o: Oracles): (v: Refreshed)
    ensures v.product == u.product.(regularPrice := v.product.regularPrice)
    ensures v.product.regularPrice
         == if r.price.Some? then Some(GetPrice(r.price.value, o.floatval)) else u.product.regularPrice
    ensures v.written == u.written
                       + if r.price.Some? && u.product.regularPrice != Some(GetPrice(r.price.value, o.floatval))
                         then {RegularPrice} else {}
  {
    if r.price.Some? && u.product.regularPrice != Some(GetPrice(r.price.value, o.floatval))
    then Refreshed(u.product.(regularPrice := Some(GetPrice(r.price.value, o.floatval))), u.written + {RegularPrice})
    else u
  }

  /** set_image_id when NewImage gives a thumbnail id. */
  function SetImage(u: Refreshed, id: Id, r: Record, o: Oracles): (v: Refreshed)
    ensures v.product == u.product.(imageId := v.product.imageId)
    ensures var image := NewImage(u.product.imageId, id, r.picture, o);
            && v.product.imageId == (if image.Some? then image.value else u.product.imageId)
            && v.written == u.written + if image.Some? then {Image} else {}
  {
    var image := NewImage(u.product.imageId, id, r.picture, o);
    if image.Some?
    then Refreshed(u.product.(imageId := image.value), u.written + {Image})
    else u
  }

  /** set_stock_quantity when the record has a stock figure that differs from the product's. */
  function SetStock(u: Refreshed, r: Record): (v: Refreshed)
    ensures v.product == u.product.(stockQuantity := v.product.stockQuantity)
    ensures v.product.stockQuantity == if r.inStock.Some? then Some(r.inStock.value) else u.product.stockQuantity
    ensures v.written == u.written
                       + if r.inStock.Some? && u.product.stockQuantity != Some(r.inStock.value)
                         then {StockQuantity} else {}
  {
    if r.inStock.Some? && u.product.stockQuantity != Some(r.inStock.value)
    then Refreshed(u.product.(stockQuantity := Some(r.inStock.value)), u.written + {StockQuantity})
    else u
  }

  /** The field updates applied to a product whose SKU is in the snapshot,
      in the order the setters are called. UpdateFields performs these steps
      one assignment at a time; this function is its specification. */
  function Refresh(p: Product, id: Id, r: Record, o: Oracles): Refreshed {
    SetStock(SetImage(SetPrice(SetDescription(SetName(Refreshed(p, {}), r), r), r, o), id, r, o), r)
  }

  /** Each of name, description, price, picture and stock takes the record's
      value when the record has one; SKU and stock settings stay. */
  lemma RefreshValues(p: Product, id: Id, r: Record, o: Oracles)
    ensures var u := Refresh(p, id, r, o);
            && u.product.sku == p.sku && u.product.manageStock == p.manageStock
            && u.product.stockStatus == p.stockStatus
            && u.product.name == (if r.name.Some? then r.name.value else p.name)
            && u.product.description == (if r.description.Some? then r.description.value else p.description)
            && u.product.regularPrice
               == (if r.price.Some? then Some(GetPrice(r.price.value, o.floatval)) else p.regularPrice)
            && u.product.stockQuantity == (if r.inStock.Some? then Some(r.inStock.value) else p.stockQuantity)
            && u.product.imageId
               == (if NewImage(p.imageId, id, r.picture, o).Some?
                   then NewImage(p.imageId, id, r.picture, o).value else p.imageId)
  {
    var u1 := SetName(Refreshed(p, {}), r);
    var u2 := SetDescription(u1, r);
    var u3 := SetPrice(u2, r, o);
    var u4 := SetImage(u3, id, r, o);
    assert u4.product.imageId == u3.product.imageId || NewImage(p.imageId, id, r.picture, o).Some?;
  }

  /** A field is written exactly when the record has it and its value differs
      from the product's; the image exactly when a thumbnail id is read after a
      successful sideload. */
  lemma RefreshWrites(p: Product, id: Id, r: Record, o: Oracles)
    ensures var u := Refresh(p, id, r, o);
            && u.written <= {Name, Description, RegularPrice, Image, StockQuantity}
            && (Name in u.written <==> r.name.Some? && r.name.value != p.name)
            && (Description in u.written <==> r.description.Some? && r.description.value != p.description)
            && (RegularPrice in u.written
                <==> r.price.Some? && p.regularPrice != Some(GetPrice(r.price.value, o.floatval)))
            && (StockQuantity in u.written <==> r.inStock.Some? && p.stockQuantity != Some(r.inStock.value))
            && (Image in u.written <==> NewImage(p.imageId, id, r.picture, o).Some?)
  {
    var u1 := SetName(Refreshed(p, {}), r);
    var u2 := SetDescription(u1, r);
    var u3 := SetPrice(u2, r, o);
    var u4 := SetImage(u3, id, r, o);
    assert u3.product.imageId == p.imageId;
  }

  // ----- Phase 1: delete or update every listed product ------------------

  /** The state of the first loop: the catalog and what is left of the id
      list ($products after its unset() calls). */
  datatype Pass = Pass(store: Store, kept: seq<Id>)

  /** One iteration of the first loop, for the listed id `id`. */
  function SweepStep(s: Pass, id: Id, productData: seq<Record>, o: Oracles): Pass {
    if id !in s.store.products then
      // wc_get_product gave nothing: the id stays in the list, untouched
      s.(kept := s.kept + [id])
    else
      var p := s.store.products[id];
      var articles := Articles(productData);
      if p.sku !in articles.Values then
        Pass(s.store.(products := s.store.products - {id}, log := s.store.log + [Deleted(id)]), s.kept)
      else
        InArrayIffPresent(productData, p.sku);
        var u := Refresh(p, id, productData[ArraySearch(articles, p.sku, |productData|).value], o);
        Pass(s.store.(products := s.store.products[id := u.product], log := s.store.log + [Saved(id, u.written)]),
             s.kept + [id])
  }

  /** The first loop over the listed ids, in their order. */
  function SweepAll(s: Pass, ids: seq<Id>, productData: seq<Record>, o: Oracles): Pass
    decreases |ids|
  {
    if ids == [] then s else SweepAll(SweepStep(s, ids[0], productData, o), ids[1..], productData, o)
  }

  // ----- Phase 2: capped insertion ---------------------------------------

  /** A new simple product with the accepted SKU and the record's name,
      description, price and stock, before it has an id. FillNewProduct
      performs these setter calls; this function is its specification. */
  function NewProduct(r: Record, sku: string, o: Oracles): (p: Product)
    ensures p.sku == sku && p.imageId == 0
    ensures p.name == (if r.name.Some? then r.name.value else "")
    ensures p.description == (if r.description.Some? then r.description.value else "")
    ensures p.regularPrice == (if r.price.Some? then Some(GetPrice(r.price.value, o.floatval)) else None)
    ensures p.manageStock == r.inStock.Some? && p.stockStatus == InStock
    ensures p.stockQuantity == (if r.inStock.Some? then Some(r.inStock.value) else None)
  {
    var p0 := Product(sku, "", "", None, false, InStock, None, 0);
    var p1 := if r.name.Some? then p0.(name := r.name.value) else p0;
    var p2 := if r.description.Some? then p1.(description := r.description.value) else p1;
    var p3 := if r.price.Some? then p2.(regularPrice := Some(GetPrice(r.price.value, o.floatval))) else p2;
    if r.inStock.Some?
    then p3.(manageStock := true, stockStatus := InStock, stockQuantity := Some(r.inStock.value))
    else p3
  }

  /** The thumbnail id a new product gets: the one read after a successful
      sideload of the resolved path, when the record has a picture that
      resolves. SideloadNewPicture performs these steps; this function is its
      specification. */
  function NewProductImage(picture: Option<string>, id: Id, o: Oracles): (image: Option<ImageId>)
    ensures image.Some? ==> picture.Some? && ImageFileInfo(picture.value).Some?
  {
    if picture.None? then None
    else
      match ImageFileInfo(picture.value)
      case None => None
      case Some(info) => o.sideload(info.path, id)
  }

  /** The product a creation leaves under id `id`: NewProduct, with the
      thumbnail id read after a successful sideload of its picture. */
  function CreatedProduct(r: Record, sku: string, id: Id, o: Oracles): Product {
    var image := NewProductImage(r.picture, id, o);
    if image.Some? then NewProduct(r, sku, o).(imageId := image.value) else NewProduct(r, sku, o)
  }

  /** A new product created from a record whose SKU was accepted: saved once
      to get its id and then again after its picture is sideloaded. */
  function CreateStep(st: Store, r: Record, sku: string, o: Oracles): Store {
    var id := st.nextId;
    var image := NewProductImage(r.picture, id, o);
    Store(st.products[id := CreatedProduct(r, sku, id, o)], id + 1,
          st.log + [Created(id, sku), Saved(id, if image.Some? then {Image} else {})])
  }

  /** The second loop from a given record on, with `difference` products
      still allowed. */
  function InsertFrom(st: Store, records: seq<Record>, difference: int, o: Oracles): Store
    decreases |records|
  {
    if records == [] then st
    else
      var r := records[0];
      if r.sku.Some? && !HasSku(st.products, r.sku.value) then
        if !o.skuAccepted(r.sku.value) then
          InsertFrom(st, records[1..], difference, o)
        else
          var st' := CreateStep(st, r, r.sku.value, o);
          if difference - 1 <= 0 then st' else InsertFrom(st', records[1..], difference - 1, o)
      else
        InsertFrom(st, records[1..], difference, o)
  }

  /** The whole pass, from the listed ids and the fetched records. */
  function Run(st: Store, listed: seq<Id>, uploadedProductData: seq<Record>, o: Oracles): Store {
    if |uploadedProductData| == 0 then st
    else
      var swept := SweepAll(Pass(st, []), listed, uploadedProductData, o);
      var productCount := |swept.kept|;
      if productCount < ShopVolume
      then InsertFrom(swept.store, uploadedProductData, ShopVolume - productCount, o)
      else swept.store
  }

  // ----- The catalog invariant ----------------------------------------------

  /** The first loop only removes or rewrites loaded products and hands out no id. */
  lemma {:induction false} SweepKeepsFresh(s: Pass, ids: seq<Id>, productData: seq<Record>, o: Oracles)
    requires Fresh(s.store)
    ensures Fresh(SweepAll(s, ids, productData, o).store)
    ensures SweepAll(s, ids, productData, o).store.nextId == s.store.nextId
    decreases |ids|
  {
    if ids != [] {
      var s1 := SweepStep(s, ids[0], productData, o);
      assert s1.store.products.Keys <= s.store.products.Keys;
      SweepKeepsFresh(s1, ids[1..], productData, o);
    }
  }

  /** Every product the second loop creates takes the counter's id and
      advances the counter. */
  lemma {:induction false} InsertKeepsFresh(st: Store, records: seq<Record>, difference: int, o: Oracles)
    requires Fresh(st)
    ensures Fresh(InsertFrom(st, records, difference, o))
    decreases |records|
  {
    if records != [] {
      var r := records[0];
      if r.sku.Some? && !HasSku(st.products, r.sku.value) && o.skuAccepted(r.sku.value) {
        var st' := CreateStep(st, r, r.sku.value, o);
        assert Fresh(st');
        if difference - 1 > 0 {
          InsertKeepsFresh(st', records[1..], difference - 1, o);
        }
      } else {
        InsertKeepsFresh(st, records[1..], difference, o);
      }
    }
  }

  /** A whole pass keeps every product id below the counter. */
  lemma RunKeepsFresh(st: Store, listed: seq<Id>, uploadedProductData: seq<Record>, o: Oracles)
    requires Fresh(st)
    ensures Fresh(Run(st, listed, uploadedProductData, o))
  {
    if |uploadedProductData| > 0 {
      var swept := SweepAll(Pass(st, []), listed, uploadedProductData, o);
      SweepKeepsFresh(Pass(st, []), listed, uploadedProductData, o);
      if |swept.kept| < ShopVolume {
        InsertKeepsFresh(swept.store, uploadedProductData, ShopVolume - |swept.kept|, o);
      }
    }
  }

  // ----- The catalog ------------------------------------------------------

  class Catalog {
    var products: map<Id, Product>
    var nextId: Id
    var log: seq<Event>

    function State(): Store
      reads this
    {
      Store(products, nextId, log)
    }

    /** Every product id is below the id the next new product gets. */
    predicate Valid()
      reads this
    {
      Fresh(State())
    }

    /** The body of wpsync_webspark_get_data after the fetch. `listed` is what
        wc_get_products(['limit' => -1, 'return' => 'ids']) returned. */
    method Reconcile(listed: seq<Id>, uploadedProductData: seq<Record>, o: Oracles)
      requires Valid()
      modifies this
      ensures Valid()
      ensures State() == Run(old(State()), listed, uploadedProductData, o)
      ensures |uploadedProductData| == 0 ==> State() == old(State())
    {
      RunKeepsFresh(State(), listed, uploadedProductData, o);
      if |uploadedProductData| == 0 {
        return;
      }
      var articles := GetAllArticles(uploadedProductData);
      var kept := PruneAndUpdate(listed, uploadedProductData, articles, o);
      var productCount := |kept|;
      if productCount < ShopVolume {
        var difference := ShopVolume - productCount;
        AddNewProducts(uploadedProductData, difference, o);
      }
    }

    /** The first loop: delete every listed product whose SKU the snapshot
        lacks, update and save every other loadable one. */
    method PruneAndUpdate(listed: seq<Id>, uploadedProductData: seq<Record>, articles: map<nat, string>, o: Oracles)
      returns (kept: seq<Id>)
      requires articles == Articles(uploadedProductData)
      modifies this
      ensures Pass(State(), kept) == SweepAll(Pass(old(State()), []), listed, uploadedProductData, o)
    {
      kept := [];
      for i := 0 to |listed|
        invariant SweepAll(Pass(State(), kept), listed[i..], uploadedProductData, o)
               == SweepAll(Pass(old(State()), []), listed, uploadedProductData, o)
      {
        ghost var before := Pass(State(), kept);
        var productId := listed[i];
        if productId in products {
          var product := products[productId];
          var sku := product.sku;
          if sku !in articles.Values {
            products := products - {productId};
            log := log + [Deleted(productId)];
          } else {
            InArrayIffPresent(uploadedProductData, sku);
            var articleKey := ArraySearch(articles, sku, |uploadedProductData|).value;
            var newData := uploadedProductData[articleKey];
            var product', written := UpdateFields(productId, product, newData, o);
            products := products[productId := product'];
            log := log + [Saved(productId, written)];
            kept := kept + [productId];
          }
        } else {
          kept := kept + [productId];
        }
        assert Pass(State(), kept) == SweepStep(before, listed[i], uploadedProductData, o);
        assert listed[i..][1..] == listed[i + 1..];
      }
    }

    /** The second loop: walk the snapshot in order and create a product for
        every record whose SKU is new to the catalog, until `difference`
        products have been created. */
    method AddNewProducts(uploadedProductData: seq<Record>, difference0: int, o: Oracles)
      modifies this
      ensures State() == InsertFrom(old(State()), uploadedProductData, difference0, o)
    {
      var difference := difference0;
      for i := 0 to |uploadedProductData|
        invariant InsertFrom(State(), uploadedProductData[i..], difference, o)
               == InsertFrom(old(State()), uploadedProductData, difference0, o)
      {
        ghost var before := State();
        ghost var rest := uploadedProductData[i + 1..];
        assert uploadedProductData[i..][1..] == rest;
        var datum := uploadedProductData[i];
        if datum.sku.Some? && !HasSku(products, datum.sku.value) {
          if !o.skuAccepted(datum.sku.value) {
            assert InsertFrom(before, uploadedProductData[i..], difference, o)
                == InsertFrom(before, rest, difference, o);
            continue;
          }
          CreateProduct(datum, datum.sku.value, o);
          difference := difference - 1;
          if difference <= 0 {
            assert InsertFrom(before, uploadedProductData[i..], difference + 1, o) == State();
            break;
          }
          assert InsertFrom(before, uploadedProductData[i..], difference + 1, o)
              == InsertFrom(State(), rest, difference, o);
        } else {
          assert InsertFrom(before, uploadedProductData[i..], difference, o)
              == InsertFrom(before, rest, difference, o);
        }
      }
    }

    /** Create, fill and save a new product for an accepted SKU, then attach
        its picture and save it again. */
    method CreateProduct(datum: Record, sku: string, o: Oracles)
      modifies this
      ensures State() == CreateStep(old(State()), datum, sku, o)
    {
      var product := FillNewProduct(datum, sku, o);
      var productId := nextId;
      nextId := nextId + 1;
      products := products[productId := product];
      log := log + [Created(productId, sku)];
      var written: set<Field> := {};
      var image := SideloadNewPicture(datum.picture, productId, o);
      if image.Some? {
        product := product.(imageId := image.value);
        written := {Image};
      }
      products := products[productId := product];
      log := log + [Saved(productId, written)];
    }
  }

  /** The setter calls on a loaded product whose SKU the snapshot has,
      before its single save(); `written` lists the setters called. This is
      the step-by-step code; Refresh, its specification, composes one
      function per setter so that lemmas can reason about each field. */
  method UpdateFields(productId: Id, loaded: Product, newData: Record, o: Oracles)
    returns (product: Product, written: set<Field>)
    ensures Refreshed(product, written) == Refresh(loaded, productId, newData, o)
  {
    product := loaded;
    written := {};
    if newData.name.Some? && product.name != newData.name.value {
      product := product.(name := newData.name.value);
      written := written + {Name};
    }
    ghost var u1 := SetName(Refreshed(loaded, {}), newData);
    assert Refreshed(product, written) == u1;
    if newData.description.Some? && product.description != newData.description.value {
      product := product.(description := newData.description.value);
      written := written + {Description};
    }
    ghost var u2 := SetDescription(u1, newData);
    assert Refreshed(product, written) == u2;
    if newData.price.Some? {
      var newPrice := GetPrice(newData.price.value, o.floatval);
      if product.regularPrice != Some(newPrice) {
        product := product.(regularPrice := Some(newPrice));
        written := written + {RegularPrice};
      }
    }
    ghost var u3 := SetPrice(u2, newData, o);
    assert Refreshed(product, written) == u3;
    var sideloaded := SideloadChangedPicture(product.imageId, newData.picture, productId, o);
    if sideloaded.Some? {
      product := product.(imageId := sideloaded.value);
      written := written + {Image};
    }
    ghost var u4 := SetImage(u3, productId, newData, o);
    assert Refreshed(product, written) == u4;
    if newData.inStock.Some? && product.stockQuantity != Some(newData.inStock.value) {
      product := product.(stockQuantity := Some(newData.inStock.value));
      written := written + {StockQuantity};
    }
    assert Refreshed(product, written) == SetStock(u4, newData);
  }

  /** The picture step for a loaded product: resolve the record's picture,
      compare its file name with the attached file's, and sideload it when
      they differ; the thumbnail id read after a successful sideload.
      Specified by NewImage. */
  method SideloadChangedPicture(current: ImageId, picture: Option<string>, productId: Id, o: Oracles)
    returns (image: Option<ImageId>)
    ensures image == NewImage(current, productId, picture, o)
  {
    image := None;
    if picture.Some? {
      var productImageName := o.attachedName(current);
      var newPictureInfo := GetImageFileInfo(picture.value);
      if newPictureInfo.Some? && productImageName != newPictureInfo.value.name {
        image := o.sideload(newPictureInfo.value.path, productId);
      }
    }
  }

  /** The setter calls on a fresh WC_Product_Simple before its first save.
      Specified by NewProduct. */
  method FillNewProduct(datum: Record, sku: string, o: Oracles) returns (product: Product)
    ensures product == NewProduct(datum, sku, o)
  {
    product := Product(sku, "", "", None, false, InStock, None, 0);
    if datum.name.Some? {
      product := product.(name := datum.name.value);
    }
    if datum.description.Some? {
      product := product.(description := datum.description.value);
    }
    if datum.price.Some? {
      product := product.(regularPrice := Some(GetPrice(datum.price.value, o.floatval)));
    }
    if datum.inStock.Some? {
      product := product.(manageStock := true, stockStatus := InStock,
                          stockQuantity := Some(datum.inStock.value));
    }
  }

  /** The picture step for a new product: resolve, sideload, and report the
      thumbnail id read after a successful sideload. Specified by
      NewProductImage. */
  method SideloadNewPicture(picture: Option<string>, productId: Id, o: Oracles) returns (image: Option<ImageId>)
    ensures image == NewProductImage(picture, productId, o)
  {
    image := None;
    if picture.Some? {
      var pictureInfo := GetImageFileInfo(picture.value);
      if pictureInfo.Some? {
        image := o.sideload(pictureInfo.value.path, productId);
      }
    }
  }
}

/** The values the reconciliation job works on: the records of the remote
    feed snapshot, the WooCommerce products of the local catalog, and the
    outside services (float parsing, SKU validation, the media library)
    that the job consults but whose code is not part of this model. */
module Records {

  datatype Option<+T> = None | Some(value: T)

  /** A WordPress post id of a product. */
  type Id = nat

  /** A WordPress attachment id; 0 stands for "no image", which is what
      get_image_id() and get_post_thumbnail_id() give when there is none. */
  type ImageId = nat

  /** One entry of the feed's `data` array. Every field is optional: the
      job tests each with isset() before it uses it. `inStock` is the
      integer the feed sends (the job casts it with (int)). */
  datatype Record = Record(
    sku: Option<string>,
    name: Option<string>,
    description: Option<string>,
    price: Option<string>,
    picture: Option<string>,
    inStock: Option<int>)

  datatype StockStatus = InStock | OutOfStock | OnBackorder

  /** The properties of a WooCommerce product that the job reads or writes.
      An unset regular price or stock quantity is None. */
  datatype Product = Product(
    sku: string,
    name: string,
    description: string,
    regularPrice: Option<real>,
    manageStock: bool,
    stockStatus: StockStatus,
    stockQuantity: Option<int>,
    imageId: ImageId)

  /** The product properties a setter can write. */
  datatype Field = Sku | Name | Description | RegularPrice | ManageStock | Status | StockQuantity | Image

  /** What the job learns from code outside this model.
      - floatval: PHP's floatval on the stripped price string;
      - skuAccepted: set_sku() returns instead of throwing WC_Data_Exception;
      - attachedName: basename(get_attached_file(id)) of an attachment;
      - sideload: media_sideload_image(path, product id) followed by
        get_post_thumbnail_id(product id); None when the sideload gives a WP_Error. */
  datatype Oracles = Oracles(
    floatval: string -> real,
    skuAccepted: string -> bool,
    attachedName: ImageId -> string,
    sideload: (string, Id) -> Option<ImageId>)
}

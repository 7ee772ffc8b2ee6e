/** The upstream feed's records. Every text field may be null in the feed,
    and so may the deal list and each entry of it. */
module Domain {
  import opened Wrappers

  datatype Deal = Deal(
    objectId: Option<string>,
    discount: Option<string>,
    dineIn: Option<string>,
    lightning: Option<string>,
    qtyLeft: Option<string>,
    open: Option<string>,
    close: Option<string>,
    start: Option<string>,
    end: Option<string>)

  datatype Restaurant = Restaurant(
    objectId: Option<string>,
    name: Option<string>,
    address1: Option<string>,
    suburb: Option<string>,
    open: Option<string>,
    close: Option<string>,
    deals: Option<seq<Option<Deal>>>)

  /** One immutable read of the cached feed: restaurants in feed order, any
      of which may be null. */
  type Snapshot = seq<Option<Restaurant>>
}

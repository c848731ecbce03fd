/**
 * The Product entity. A request body may leave any field out (JSON null), so the
 * incoming form and the stored form are two types.
 */
module Products {

  datatype Option<T> = None | Some(value: T)

  /**
   * The product a client posts: `partNumber`, `partName`, `category`, `price`
   * and `stock`, each possibly absent. `price` is a Double in the service and
   * is taken here as an exact real; `stock` is an Integer.
   */
  datatype Candidate = Candidate(
    partNumber: Option<string>,
    partName: Option<string>,
    category: Option<string>,
    price: Option<real>,
    stock: Option<int>)

  /** A stored row of the product table; `id` is the generated primary key. */
  datatype Product = Product(
    id: int,
    partNumber: string,
    partName: string,
    category: string,
    price: real,
    stock: int)

  /** Some required field of the request body is absent. */
  predicate HasNull(c: Candidate) {
    c.partNumber.None? || c.partName.None? || c.category.None? || c.price.None? || c.stock.None?
  }
}

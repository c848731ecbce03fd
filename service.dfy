/**
 * ProductService: validation and normalisation of new products, and the read
 * operations that shape a repository selection into a response or a failure.
 */
module Service {
  import opened Products
  import opened Text
  import opened Errors
  import opened Repository

  /** The success body: `{statusCode, message, data}`. */
  datatype Response<T> = Response(statusCode: int, message: string, data: T)

  /** What an operation returns, or the failure it raises. */
  datatype Result<T> = Ok(response: Response<T>) | Err(failure: Failure)

  const OK := 200

  const NULL_MESSAGE := "Null value cannot be inserted, please provide a valid Input"
  const NEGATIVE_MESSAGE := "Products price or stock cannot have a negative value"
  const SAVED_MESSAGE := "Product data successfully saved"
  const BLANK_NAME_MESSAGE := "Invalid Part Name, please provide a valid part name"
  const NO_PRODUCT_DATA_MESSAGE := "No Product data found in the Database"
  const ID_NOT_FOUND_MESSAGE := "Invalid Id, no Product information found"

  /** Some stored product already carries this part number. */
  predicate PartNumberTaken(store: seq<Product>, partNumber: string) {
    exists i :: 0 <= i < |store| && store[i].partNumber == partNumber
  }

  /**
   * The checks of addNewProduct, in the order it runs them: absent fields, then
   * a part number already counted in the store, then a negative price or stock.
   * None means the product is accepted.
   */
  function CheckCandidate(store: seq<Product>, c: Candidate): (r: Option<Failure>)
    ensures HasNull(c) ==> r == Some(NullInput(NULL_MESSAGE))
    ensures (!HasNull(c) && PartNumberTaken(store, c.partNumber.value))
              ==> r == Some(DuplicateData("Part Number already exists: " + c.partNumber.value))
    ensures (!HasNull(c) && !PartNumberTaken(store, c.partNumber.value) && (c.price.value < 0.0 || c.stock.value < 0))
              ==> r == Some(NegativeValue(NEGATIVE_MESSAGE))
    ensures r.None? <==> !HasNull(c) && !PartNumberTaken(store, c.partNumber.value)
                         && c.price.value >= 0.0 && c.stock.value >= 0
  {
    if HasNull(c) then Some(NullInput(NULL_MESSAGE))
    else if CountOfPartNumber(store, c.partNumber.value) > 0 then
      Some(DuplicateData("Part Number already exists: " + c.partNumber.value))
    else if c.price.value < 0.0 || c.stock.value < 0 then Some(NegativeValue(NEGATIVE_MESSAGE))
    else None
  }

  /**
   * The accepted product as it is handed to save: category and part name lower-cased,
   * part number, price and stock as given; `id` is the key the store assigns.
   */
  function Normalize(c: Candidate, id: int): (p: Product)
    requires !HasNull(c)
    ensures p.partName == Lower(c.partName.value) && p.category == Lower(c.category.value)
    ensures IsLower(p.partName) && IsLower(p.category)
    ensures |p.partName| == |c.partName.value| && |p.category| == |c.category.value|
    ensures IsLower(c.partName.value) ==> p.partName == c.partName.value
    ensures IsLower(c.category.value) ==> p.category == c.category.value
    ensures p.partNumber == c.partNumber.value && p.price == c.price.value && p.stock == c.stock.value
    ensures p.id == id
  {
    Product(id, c.partNumber.value, Lower(c.partName.value), Lower(c.category.value), c.price.value, c.stock.value)
  }

  /**
   * What the service keeps true of the catalogue when it is the only writer: part
   * numbers are unique, names and categories are stored lower-cased, and no price
   * or stock is negative.
   */
  predicate WellFormed(store: seq<Product>) {
    && (forall i, j :: 0 <= i < j < |store| ==> store[i].partNumber != store[j].partNumber)
    && (forall i :: 0 <= i < |store| ==> IsLower(store[i].partName) && IsLower(store[i].category))
    && (forall i :: 0 <= i < |store| ==> store[i].price >= 0.0 && store[i].stock >= 0)
  }

  /** An accepted add keeps part numbers unique, names lower-cased and values non-negative. */
  lemma AddPreservesWellFormed(store: seq<Product>, c: Candidate, id: int)
    requires WellFormed(store)
    requires CheckCandidate(store, c).None?
    ensures WellFormed(store + [Normalize(c, id)])
  {
    var p := Normalize(c, id);
    var s := store + [p];
    forall i, j | 0 <= i < j < |s| ensures s[i].partNumber != s[j].partNumber {
      if j == |store| {
        assert s[i] == store[i];
        assert !PartNumberTaken(store, p.partNumber);
      }
    }
  }

  /** getAllProducts */
  function GetAllProducts(store: seq<Product>): (r: Result<seq<Product>>)
    ensures r.Err? <==> store == []
    ensures r.Err? ==> r.failure == NoRecord("No Data exist in the Database")
    ensures r.Ok? ==> r.response == Response(OK, "Product details found successfully", store)
  {
    if store != [] then Ok(Response(OK, "Product details found successfully", store))
    else Err(NoRecord("No Data exist in the Database"))
  }

  /** searchByPartName: a null or blank name is refused before the store is queried. */
  function SearchByPartName(store: seq<Product>, name: Option<string>): (r: Result<seq<Product>>)
    ensures (name.None? || IsBlank(name.value)) ==> r == Err(InvalidInput(BLANK_NAME_MESSAGE))
    ensures r.Err? && r.failure.InvalidInput? <==> name.None? || IsBlank(name.value)
    ensures r.Ok? <==> name.Some? && !IsBlank(name.value)
                       && exists p :: p in store && Contains(p.partName, Lower(name.value))
    ensures r.Err? && r.failure.NoRecord? <==>
              name.Some? && !IsBlank(name.value)
              && forall p :: p in store ==> !Contains(p.partName, Lower(name.value))
    ensures r.Err? ==> r.failure.InvalidInput? || r.failure.NoRecord?
    ensures r.Err? && r.failure.NoRecord? ==>
              r.failure.message == "No Product is present with the Part Name: " + name.value
    ensures r.Ok? ==> r.response.statusCode == OK
                      && r.response.message == "Products Info found by Part Name: " + name.value
                      && r.response.data != []
                      && multiset(r.response.data) <= multiset(store)
                      && forall p :: p in r.response.data <==> p in store && Contains(p.partName, Lower(name.value))
  {
    if name.None? || IsBlank(name.value) then Err(InvalidInput(BLANK_NAME_MESSAGE))
    else
      var products := Repository.SearchByPartName(store, Lower(name.value));
      if |products| > 0 then
        assert products[0] in products;
        Ok(Response(OK, "Products Info found by Part Name: " + name.value, products))
      else Err(NoRecord("No Product is present with the Part Name: " + name.value))
  }

  /** filterByCategory: the argument is lower-cased before the equality filter. */
  function FilterByCategory(store: seq<Product>, category: string): (r: Result<seq<Product>>)
    ensures r.Err? <==> forall p :: p in store ==> p.category != Lower(category)
    ensures r.Err? ==> r.failure == NoRecord("No Product found under the Category: " + category)
    ensures r.Ok? ==> r.response.statusCode == OK
                      && r.response.message == "Products fetched based on category: " + category
                      && multiset(r.response.data) <= multiset(store)
                      && forall p :: p in r.response.data <==> p in store && p.category == Lower(category)
  {
    var products := Repository.FilterByCategory(store, Lower(category));
    if |products| > 0 then
      assert products[0] in products;
      Ok(Response(OK, "Products fetched based on category: " + category, products))
    else Err(NoRecord("No Product found under the Category: " + category))
  }

  /** sortProductByPrice: every product, cheapest first. */
  function SortProductByPrice(store: seq<Product>): (r: Result<seq<Product>>)
    ensures r.Err? <==> store == []
    ensures r.Err? ==> r.failure == NoRecord(NO_PRODUCT_DATA_MESSAGE)
    ensures r.Ok? ==> r.response.statusCode == OK
                      && r.response.message == "Products are sorted based on price in ascending order"
                      && SortedByPrice(r.response.data)
                      && multiset(r.response.data) == multiset(store)
  {
    var products := Repository.SortProductByPrice(store);
    if |products| > 0 then Ok(Response(OK, "Products are sorted based on price in ascending order", products))
    else Err(NoRecord(NO_PRODUCT_DATA_MESSAGE))
  }

  /** getByID: absence is IdNotFound, not NoRecord. */
  function GetById(store: seq<Product>, id: int): (r: Result<Product>)
    ensures r.Err? <==> forall i :: 0 <= i < |store| ==> store[i].id != id
    ensures r.Err? ==> r.failure == IdNotFound(ID_NOT_FOUND_MESSAGE)
    ensures r.Ok? ==> r.response.statusCode == OK
                      && r.response.message == "Product Info found based on Id:" + IntToString(id)
                      && r.response.data in store && r.response.data.id == id
  {
    var opt := FindById(store, id);
    if opt.Some? then Ok(Response(OK, "Product Info found based on Id:" + IntToString(id), opt.value))
    else Err(IdNotFound(ID_NOT_FOUND_MESSAGE))
  }

  /** The inventory value of a run of products: the sum of price times stock. */
  function InventoryValue(products: seq<Product>): real {
    if products == [] then 0.0
    else InventoryValue(products[..|products| - 1])
         + products[|products| - 1].price * products[|products| - 1].stock as real
  }

  /** The service, bound to the repository it reads and writes. */
  class ProductService {
    const repository: ProductStore

    constructor (repository: ProductStore)
      ensures this.repository == repository
    {
      this.repository := repository;
    }

    /**
     * addNewProduct. A refused product leaves the store as it was; an accepted one
     * is normalised and saved under the next id, and it is returned.
     */
    method AddNewProduct(c: Candidate) returns (r: Result<Product>)
      requires repository.Valid()
      modifies repository
      ensures repository.Valid()
      ensures r.Err? <==> CheckCandidate(old(repository.products), c).Some?
      ensures r.Err? ==> && r.failure == CheckCandidate(old(repository.products), c).value
                         && repository.products == old(repository.products)
                         && repository.nextId == old(repository.nextId)
      ensures r.Ok? ==> && r.response.statusCode == OK
                        && r.response.message == SAVED_MESSAGE
                        && r.response.data == Normalize(c, old(repository.nextId))
                        && repository.products == old(repository.products) + [r.response.data]
                        && repository.nextId == old(repository.nextId) + 1
      ensures WellFormed(old(repository.products)) ==> WellFormed(repository.products)
    {
      if HasNull(c) {
        return Err(NullInput(NULL_MESSAGE));
      } else if CountOfPartNumber(repository.products, c.partNumber.value) > 0 {
        return Err(DuplicateData("Part Number already exists: " + c.partNumber.value));
      } else if c.price.value < 0.0 || c.stock.value < 0 {
        return Err(NegativeValue(NEGATIVE_MESSAGE));
      }
      var product := Product(0, c.partNumber.value, c.partName.value, c.category.value, c.price.value, c.stock.value);
      product := product.(category := Lower(product.category));
      product := product.(partName := Lower(product.partName));
      var saved := repository.Save(product);
      if WellFormed(old(repository.products)) {
        AddPreservesWellFormed(old(repository.products), c, saved.id);
      }
      r := Ok(Response(OK, SAVED_MESSAGE, saved));
    }

    /**
     * totalInventoryValue: the sum of price times stock over every stored product,
     * accumulated front to back; an empty catalogue is a failure, not zero.
     */
    method TotalInventoryValue() returns (r: Result<real>)
      ensures r.Err? <==> repository.products == []
      ensures r.Err? ==> r.failure == NoRecord(NO_PRODUCT_DATA_MESSAGE)
      ensures r.Ok? ==> r.response == Response(OK, "Inventory value computed successfully",
                                                InventoryValue(repository.products))
    {
      var products := repository.products;
      var inventoryValue := 0.0;
      if |products| > 0 {
        for i := 0 to |products|
          invariant inventoryValue == InventoryValue(products[..i])
        {
          assert products[..i + 1][..i] == products[..i];
          inventoryValue := inventoryValue + products[i].price * products[i].stock as real;
        }
        assert products[..|products|] == products;
        r := Ok(Response(OK, "Inventory value computed successfully", inventoryValue));
      } else {
        r := Err(NoRecord(NO_PRODUCT_DATA_MESSAGE));
      }
    }
  }
}

/**
 * Properties that relate several operations of the catalogue: what an accepted
 * add does to the later answers of the read operations.
 */
module Properties {
  import opened Products
  import opened Text
  import opened Errors
  import opened Repository
  import opened Service

  /** Once a product is accepted, any complete product with its part number is a duplicate. */
  lemma AddThenSamePartNumberIsDuplicate(store: seq<Product>, c: Candidate, id: int, again: Candidate)
    requires CheckCandidate(store, c).None?
    requires !HasNull(again) && again.partNumber == c.partNumber
    ensures CheckCandidate(store + [Normalize(c, id)], again)
            == Some(DuplicateData("Part Number already exists: " + again.partNumber.value))
  {
    var s := store + [Normalize(c, id)];
    assert s[|store|].partNumber == again.partNumber.value;
    assert PartNumberTaken(s, again.partNumber.value);
  }

  /** The same property on the service object: two adds with one part number, the second refused. */
  method AddTwice(service: ProductService, c: Candidate, again: Candidate)
      returns (first: Result<Product>, second: Result<Product>)
    requires service.repository.Valid()
    requires !HasNull(again) && again.partNumber == c.partNumber
    modifies service.repository
    ensures first.Ok? ==> second == Err(DuplicateData("Part Number already exists: " + again.partNumber.value))
    ensures first.Ok? ==> service.repository.products == old(service.repository.products) + [first.response.data]
  {
    first := service.AddNewProduct(c);
    second := service.AddNewProduct(again);
    if first.Ok? {
      AddThenSamePartNumberIsDuplicate(old(service.repository.products), c, old(service.repository.nextId), again);
    }
  }

  /** The inventory value of a concatenation is the sum of the two values. */
  lemma {:induction false} InventoryValueAppend(a: seq<Product>, b: seq<Product>)
    ensures InventoryValue(a + b) == InventoryValue(a) + InventoryValue(b)
    decreases |b|
  {
    if b != [] {
      var b' := b[..|b| - 1];
      assert (a + b)[..|a + b| - 1] == a + b';
      InventoryValueAppend(a, b');
    } else {
      assert a + b == a;
    }
  }

  /** An accepted add raises the inventory value by exactly the new product's price times stock. */
  lemma AddRaisesInventoryValue(store: seq<Product>, c: Candidate, id: int)
    requires !HasNull(c)
    ensures InventoryValue(store + [Normalize(c, id)])
            == InventoryValue(store) + c.price.value * c.stock.value as real
  {
    InventoryValueAppend(store, [Normalize(c, id)]);
    assert [Normalize(c, id)][..0] == [];
  }

  /** A catalogue the service wrote never has a negative inventory value. */
  lemma {:induction false} InventoryValueNonNegative(store: seq<Product>)
    requires forall i :: 0 <= i < |store| ==> store[i].price >= 0.0 && store[i].stock >= 0
    ensures InventoryValue(store) >= 0.0
    decreases |store|
  {
    if store != [] {
      InventoryValueNonNegative(store[..|store| - 1]);
      var last := store[|store| - 1];
      assert last.price * last.stock as real >= 0.0;
    }
  }

  /** Two products (price 10, stock 2) and (price 5, stock 3) are worth 35. */
  lemma InventoryValueExample(p: Product, q: Product)
    requires p.price == 10.0 && p.stock == 2 && q.price == 5.0 && q.stock == 3
    ensures InventoryValue([p, q]) == 35.0
  {
    assert [p, q][..1] == [p];
    assert [p][..0] == [];
    assert InventoryValue([p]) == 20.0;
  }

  /** After save, the new id is found, and it yields exactly the saved product. */
  lemma GetByIdAfterSave(store: seq<Product>, p: Product, id: int)
    requires DistinctIds(store)
    requires forall i :: 0 <= i < |store| ==> store[i].id < id
    ensures GetById(store + [p.(id := id)], id)
            == Ok(Response(OK, "Product Info found based on Id:" + IntToString(id), p.(id := id)))
  {
    var s := store + [p.(id := id)];
    assert DistinctIds(s) by {
      forall i, j | 0 <= i < j < |s| ensures s[i].id != s[j].id {
        if j == |store| {
          assert s[i] == store[i];
        }
      }
    }
    FindByIdUnique(s, |store|);
  }

  /** An id that no stored product carries is IdNotFound, never NoRecord. */
  lemma UnusedIdIsIdNotFound(store: seq<Product>, nextId: int, id: int)
    requires forall i :: 0 <= i < |store| ==> store[i].id < nextId
    requires nextId <= id
    ensures GetById(store, id) == Err(IdNotFound(ID_NOT_FOUND_MESSAGE))
    ensures Handle(GetById(store, id).failure).status == NOT_FOUND
  {
  }

  /** Lower-casing leaves every trimmable character where it was, so blankness survives it. */
  lemma LowerKeepsBlank(s: string)
    ensures IsBlank(Lower(s)) <==> IsBlank(s)
  {
    BlankIffAllTrimmable(s);
    BlankIffAllTrimmable(Lower(s));
  }

  /** Search by part name cannot tell two spellings apart that differ only in letter case. */
  lemma SearchIgnoresCase(store: seq<Product>, a: string, b: string)
    requires Lower(a) == Lower(b)
    ensures Service.SearchByPartName(store, Some(a)).Ok? <==> Service.SearchByPartName(store, Some(b)).Ok?
    ensures Service.SearchByPartName(store, Some(a)).Ok? ==>
              Service.SearchByPartName(store, Some(a)).response.data == Service.SearchByPartName(store, Some(b)).response.data
  {
    LowerKeepsBlank(a);
    LowerKeepsBlank(b);
    var ra := Service.SearchByPartName(store, Some(a));
    var rb := Service.SearchByPartName(store, Some(b));
    if IsBlank(a) {
      assert ra.Err? && rb.Err?;
    } else {
      var found := Repository.SearchByPartName(store, Lower(a));
      assert found == Repository.SearchByPartName(store, Lower(b));
      assert ra.Ok? <==> |found| > 0;
      assert rb.Ok? <==> |found| > 0;
    }
  }

  /**
   * An accepted product is found again by the category it was posted with, in any
   * letter case, and by its part name whenever that name is not blank.
   */
  lemma AddedProductIsFound(store: seq<Product>, c: Candidate, id: int, category: string)
    requires CheckCandidate(store, c).None?
    requires Lower(category) == Lower(c.category.value)
    ensures Service.FilterByCategory(store + [Normalize(c, id)], category).Ok?
    ensures Normalize(c, id) in Service.FilterByCategory(store + [Normalize(c, id)], category).response.data
    ensures !IsBlank(c.partName.value) ==>
              && Service.SearchByPartName(store + [Normalize(c, id)], c.partName).Ok?
              && Normalize(c, id) in Service.SearchByPartName(store + [Normalize(c, id)], c.partName).response.data
  {
    var p := Normalize(c, id);
    var s := store + [p];
    assert p in s;
    assert IsPrefix(p.partName, p.partName);
  }

  /**
   * Whatever order the database gives rows of equal price, the sorted answer lists
   * the same prices as the one computed here.
   */
  lemma SortAnswerDeterminedUpToTies(store: seq<Product>, other: seq<Product>)
    requires store != []
    requires SortedByPrice(other) && multiset(other) == multiset(store)
    ensures Service.SortProductByPrice(store).Ok?
    ensures Prices(Service.SortProductByPrice(store).response.data) == Prices(other)
  {
    SortedPermutationsAgreeOnPrices(Service.SortProductByPrice(store).response.data, other);
  }
}

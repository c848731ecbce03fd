/**
 * The product repository: the four JPQL queries of ProductRepository and the
 * inherited findById/save, as functions over the stored rows (in table order)
 * and a store object that owns the rows and the id counter.
 */
module Repository {
  import opened Products
  import opened Text
  import opened Sequences

  /** The positions of the rows that carry `partNumber`. */
  ghost function RowsWithPartNumber(store: seq<Product>, partNumber: string): set<int> {
    set i | 0 <= i < |store| && store[i].partNumber == partNumber
  }

  /** `select count(p) from Product p where p.partNumber = :partNumber` */
  function CountOfPartNumber(store: seq<Product>, partNumber: string): (n: nat)
    ensures n == |RowsWithPartNumber(store, partNumber)|
    ensures n <= |store|
    ensures n > 0 <==> exists i :: 0 <= i < |store| && store[i].partNumber == partNumber
    ensures n == |store| <==> forall i :: 0 <= i < |store| ==> store[i].partNumber == partNumber
  {
    if store == [] then
      assert RowsWithPartNumber(store, partNumber) == {};
      0
    else
      var init := store[..|store| - 1];
      var last := |store| - 1;
      var m := CountOfPartNumber(init, partNumber);
      if store[last].partNumber == partNumber then
        assert RowsWithPartNumber(store, partNumber) == RowsWithPartNumber(init, partNumber) + {last};
        assert store[last].partNumber == partNumber;
        m + 1
      else
        assert RowsWithPartNumber(store, partNumber) == RowsWithPartNumber(init, partNumber);
        assert store[last].partNumber != partNumber;
        m
  }

  /** `select p from Product p where p.partName like %:name%` */
  function SearchByPartName(store: seq<Product>, name: string): (r: seq<Product>)
    ensures multiset(r) <= multiset(store)
    ensures forall p :: p in r <==> p in store && Contains(p.partName, name)
  {
    if store == [] then []
    else
      assert store == [store[0]] + store[1..];
      (if Contains(store[0].partName, name) then [store[0]] else []) + SearchByPartName(store[1..], name)
  }

  /** `select p from Product p where p.category = :category` */
  function FilterByCategory(store: seq<Product>, category: string): (r: seq<Product>)
    ensures multiset(r) <= multiset(store)
    ensures forall p :: p in r <==> p in store && p.category == category
  {
    if store == [] then []
    else
      assert store == [store[0]] + store[1..];
      (if store[0].category == category then [store[0]] else []) + FilterByCategory(store[1..], category)
  }

  /** Non-decreasing by price; the order among equal prices is left open. */
  predicate SortedByPrice(s: seq<Product>) {
    forall i, j :: 0 <= i < j < |s| ==> s[i].price <= s[j].price
  }

  /** Places `p` before the first row of `s` that costs at least as much as it, so `p` goes ahead of rows of equal price. */
  function InsertByPrice(p: Product, s: seq<Product>): (r: seq<Product>)
    requires SortedByPrice(s)
    ensures SortedByPrice(r)
    ensures multiset(r) == multiset(s) + multiset{p}
  {
    if s == [] then [p]
    else if p.price <= s[0].price then [p] + s
    else
      var rest := InsertByPrice(p, s[1..]);
      assert s == [s[0]] + s[1..];
      forall k | 0 <= k < |rest| ensures s[0].price <= rest[k].price {
        assert rest[k] in multiset(rest);
        if rest[k] != p {
          assert rest[k] in s[1..];
        }
      }
      [s[0]] + rest
  }

  /** `select p from Product p order by p.price asc` */
  function SortProductByPrice(store: seq<Product>): (r: seq<Product>)
    ensures SortedByPrice(r)
    ensures multiset(r) == multiset(store)
  {
    if store == [] then []
    else
      assert store == [store[0]] + store[1..];
      InsertByPrice(store[0], SortProductByPrice(store[1..]))
  }

  /** The prices of a run of products, in order. */
  function Prices(s: seq<Product>): (r: seq<real>)
    ensures |r| == |s|
    ensures forall i :: 0 <= i < |s| ==> r[i] == s[i].price
  {
    Map(s, (p: Product) => p.price)
  }

  /**
   * The order among equal prices is the only freedom `order by price` leaves:
   * any two price-sorted arrangements of the same rows list the same prices.
   */
  lemma SortedPermutationsAgreeOnPrices(a: seq<Product>, b: seq<Product>)
    requires SortedByPrice(a) && SortedByPrice(b)
    requires multiset(a) == multiset(b)
    ensures Prices(a) == Prices(b)
  {
    MapOfPermutation(a, b, (p: Product) => p.price);
    SortedRealsUnique(Prices(a), Prices(b));
  }

  /** JpaRepository.findById: the row with primary key `id`, if there is one. */
  function FindById(store: seq<Product>, id: int): (r: Option<Product>)
    ensures r.Some? ==> r.value in store && r.value.id == id
    ensures r.None? <==> forall i :: 0 <= i < |store| ==> store[i].id != id
  {
    if store == [] then None
    else if store[0].id == id then Some(store[0])
    else FindById(store[1..], id)
  }

  /** No two rows share a primary key. */
  predicate DistinctIds(store: seq<Product>) {
    forall i, j :: 0 <= i < j < |store| ==> store[i].id != store[j].id
  }

  /** With distinct keys, findById returns the one row that has the key. */
  lemma {:induction false} FindByIdUnique(store: seq<Product>, i: int)
    requires DistinctIds(store)
    requires 0 <= i < |store|
    ensures FindById(store, store[i].id) == Some(store[i])
  {
    if i > 0 {
      assert store[0].id != store[i].id;
      assert DistinctIds(store[1..]) by {
        forall a, b | 0 <= a < b < |store| - 1 ensures store[1..][a].id != store[1..][b].id {
          assert store[a + 1].id != store[b + 1].id;
        }
      }
      FindByIdUnique(store[1..], i - 1);
    }
  }

  /**
   * The product table. Ids are generated from a counter that starts at 1 and
   * only grows, so every stored id is below the counter and no two rows share one.
   */
  class ProductStore {
    var products: seq<Product>
    var nextId: int

    ghost predicate Valid()
      reads this
    {
      && 1 <= nextId
      && (forall i :: 0 <= i < |products| ==> 1 <= products[i].id < nextId)
      && DistinctIds(products)
    }

    constructor ()
      ensures Valid()
      ensures products == [] && nextId == 1
    {
      products := [];
      nextId := 1;
    }

    /** JpaRepository.save of a new entity: assigns the next id and appends the row. */
    method Save(p: Product) returns (saved: Product)
      requires Valid()
      modifies this
      ensures Valid()
      ensures saved == p.(id := old(nextId))
      ensures forall i :: 0 <= i < |old(products)| ==> old(products)[i].id != saved.id
      ensures products == old(products) + [saved]
      ensures nextId == old(nextId) + 1
      ensures FindById(products, saved.id) == Some(saved)
    {
      saved := p.(id := nextId);
      products := products + [saved];
      nextId := nextId + 1;
      FindByIdUnique(products, |products| - 1);
    }
  }
}

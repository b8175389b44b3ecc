/** `ProductModel`: the in-memory product store, a list of product objects
    and the next id to hand out. The list holds the callers' own objects, so
    `save` and `updateExisting` change objects other code may hold. */
module ProductStore {
  import opened Platform
  import opened ProductEntities

  /** The position of the first product with the id, or the length when
      none has it. */
  function FirstWithId(vs: seq<ProductValue>, id: Option<int>): (k: nat)
    ensures k <= |vs|
    ensures k < |vs| ==> vs[k].id == id
    ensures forall j :: 0 <= j < k ==> vs[j].id != id
  {
    if vs == [] then 0
    else if vs[0].id == id then 0
    else
      var k := FirstWithId(vs[1..], id);
      assert forall j :: 0 < j <= k ==> vs[j] == vs[1..][j - 1];
      k + 1
  }

  /** What `updateExisting` makes of the stored products: the first one with
      the product's id takes its name, price and description. */
  function UpdateFirst(vs: seq<ProductValue>, u: ProductValue): (r: seq<ProductValue>)
    ensures |r| == |vs|
    ensures forall k :: 0 <= k < |vs| ==> r[k].id == vs[k].id
    ensures forall k :: 0 <= k < |vs| && r[k] != vs[k] ==> k == FirstWithId(vs, u.id) && vs[k].id == u.id
  {
    var k := FirstWithId(vs, u.id);
    if k == |vs| then vs
    else vs[k := vs[k].(name := u.name, price := u.price, description := u.description)]
  }

  /** The update keeps every id and every product but the first with the
      id; that one carries the new name, price and description and keeps
      the rest; with no such product nothing changes. */
  lemma UpdateFirstEffect(vs: seq<ProductValue>, u: ProductValue)
    ensures |UpdateFirst(vs, u)| == |vs|
    ensures forall k :: 0 <= k < |vs| ==> UpdateFirst(vs, u)[k].id == vs[k].id
    ensures forall k :: 0 <= k < |vs| && k != FirstWithId(vs, u.id) ==> UpdateFirst(vs, u)[k] == vs[k]
    ensures FirstWithId(vs, u.id) == |vs| ==> UpdateFirst(vs, u) == vs
    ensures var k := FirstWithId(vs, u.id);
      k < |vs| ==>
        UpdateFirst(vs, u)[k] == vs[k].(name := u.name, price := u.price, description := u.description)
  {
  }

  /** Saving the same product twice is saving it once; afterwards the first
      product with its id carries its name, price and description. */
  lemma UpdateFirstIdempotent(vs: seq<ProductValue>, u: ProductValue)
    ensures UpdateFirst(UpdateFirst(vs, u), u) == UpdateFirst(vs, u)
    ensures var r := UpdateFirst(vs, u);
      var k := FirstWithId(r, u.id);
      k < |r| ==> r[k].name == u.name && r[k].price == u.price && r[k].description == u.description
  {
    var r := UpdateFirst(vs, u);
    UpdateFirstEffect(vs, u);
    var k := FirstWithId(vs, u.id);
    assert FirstWithId(r, u.id) == k;
  }

  /** Every product has an id, and the ids increase along the list. */
  predicate IdsIncreasing(ps: seq<Product>)
    reads ps
  {
    (forall k :: 0 <= k < |ps| ==> ps[k].id.Some?)
    && forall i, j :: 0 <= i < j < |ps| ==> ps[i].id.value < ps[j].id.value
  }

  /** The list `removeIf(p -> p.getId().equals(id))` leaves: the products
      without the id, in order. */
  function WithoutId(ps: seq<Product>, id: Option<int>): (r: seq<Product>)
    reads ps
    ensures |r| <= |ps|
    ensures forall k :: 0 <= k < |r| ==> r[k].id != id
  {
    if ps == [] then []
    else
      var rest := WithoutId(ps[..|ps| - 1], id);
      if ps[|ps| - 1].id == id then rest else rest + [ps[|ps| - 1]]
  }

  /** `removeIf` removes exactly the products with the id: what is left has
      none, every other product is kept, and something was removed exactly
      when some product had the id. */
  lemma {:induction false} WithoutIdMembers(ps: seq<Product>, id: Option<int>)
    ensures var r := WithoutId(ps, id);
      |r| <= |ps|
      && (forall k :: 0 <= k < |r| ==> r[k].id != id && r[k] in ps)
      && (forall k :: 0 <= k < |ps| && ps[k].id != id ==> ps[k] in r)
      && (|r| < |ps| <==> exists k :: 0 <= k < |ps| && ps[k].id == id)
  {
    if ps != [] {
      var init := ps[..|ps| - 1];
      WithoutIdMembers(init, id);
      assert forall k :: 0 <= k < |init| ==> init[k] == ps[k];
    }
  }

  /** `removeIf` reports a removal exactly when some product had the id. */
  lemma WithoutIdShrinks(ps: seq<Product>, id: Option<int>)
    ensures |WithoutId(ps, id)| < |ps| <==> exists k :: 0 <= k < |ps| && ps[k].id == id
  {
    WithoutIdMembers(ps, id);
  }

  /** Removing products keeps the ids increasing. */
  lemma {:induction false} IdsIncreasingWithoutId(ps: seq<Product>, id: Option<int>)
    requires IdsIncreasing(ps)
    ensures IdsIncreasing(WithoutId(ps, id))
  {
    if ps != [] {
      var init := ps[..|ps| - 1];
      var last := ps[|ps| - 1];
      assert IdsIncreasing(init);
      IdsIncreasingWithoutId(init, id);
      WithoutIdMembers(init, id);
      var rest := WithoutId(init, id);
      if last.id != id {
        forall a | 0 <= a < |rest| ensures rest[a].id.value < last.id.value {
          var m :| 0 <= m < |init| && init[m] == rest[a];
          assert init[m] == ps[m];
        }
        assert WithoutId(ps, id) == rest + [last];
        IdsIncreasingAppend(rest, last);
      } else {
        assert WithoutId(ps, id) == rest;
      }
    }
  }

  /** A product whose id exceeds every id of an increasing list can be
      appended to it. */
  lemma IdsIncreasingAppend(ps: seq<Product>, p: Product)
    requires IdsIncreasing(ps) && p.id.Some?
    requires forall a :: 0 <= a < |ps| ==> ps[a].id.value < p.id.value
    ensures IdsIncreasing(ps + [p])
  {
    var qs := ps + [p];
    assert forall k :: 0 <= k < |ps| ==> qs[k] == ps[k];
  }

  /** The store's invariant: ids increasing, positive and below `nextId`. */
  predicate StoreInvariant(ps: seq<Product>, nextId: int)
    reads ps
  {
    nextId >= 1
    && IdsIncreasing(ps)
    && (forall k :: 0 <= k < |ps| ==> 1 <= ps[k].id.value < nextId)
  }

  /** `removeIf` keeps the store's invariant. */
  lemma WithoutIdKeepsInvariant(ps: seq<Product>, id: Option<int>, nextId: int)
    requires StoreInvariant(ps, nextId)
    ensures StoreInvariant(WithoutId(ps, id), nextId)
  {
    IdsIncreasingWithoutId(ps, id);
    WithoutIdMembers(ps, id);
    var r := WithoutId(ps, id);
    forall k | 0 <= k < |r| ensures 1 <= r[k].id.value < nextId {
      var m :| 0 <= m < |ps| && ps[m] == r[k];
    }
  }

  /** Appending a product under `nextId` and counting on keeps the
      invariant. */
  lemma AppendKeepsInvariant(ps: seq<Product>, p: Product, nextId: int)
    requires StoreInvariant(ps, nextId) && p.id == Some(nextId)
    ensures StoreInvariant(ps + [p], nextId + 1)
  {
    assert forall k :: 0 <= k < |ps| ==> (ps + [p])[k] == ps[k];
  }

  /** One of `init`'s anonymous products: id, name, price and description
      set, everything else null. */
  method NewSample(id: int, name: string, price: real, description: string) returns (p: Product)
    ensures fresh(p)
    ensures p.Value() == ProductValue(Some(id), Some(name), Some(price), Some(description), None, None, [])
  {
    p := new Product();
    p.SetId(Some(id));
    p.SetDetails(Some(name), Some(price), Some(description));
  }

  class ProductModel {
    var products: seq<Product>
    var nextId: int

    /** Every stored product has an id below `nextId`, and the ids increase
        along the list, so no two products share an id. */
    predicate Valid()
      reads this, products
    {
      StoreInvariant(products, nextId)
    }

    /** An empty list and `nextId` 1, before `init` runs. */
    constructor ()
      ensures products == [] && nextId == 1
      ensures Valid()
    {
      products := [];
      nextId := 1;
    }

    /** `init`: appends two new sample products under the next two ids. */
    method Init()
      requires Valid()
      modifies this
      ensures Valid()
      ensures nextId == old(nextId) + 2
      ensures |products| == |old(products)| + 2 && products[..|old(products)|] == old(products)
      ensures fresh(products[|old(products)|]) && fresh(products[|old(products)| + 1])
      ensures products[|old(products)|].Value()
        == ProductValue(Some(old(nextId)), Some("Laptop"), Some(3999.99), Some("Laptop gamingowy"), None, None, [])
      ensures products[|old(products)| + 1].Value()
        == ProductValue(Some(old(nextId) + 1), Some("Smartfon"), Some(1999.99), Some("Smartfon z 5G"), None, None, [])
    {
      var laptop := NewSample(nextId, "Laptop", 3999.99, "Laptop gamingowy");
      Append(laptop);
      var phone := NewSample(nextId, "Smartfon", 1999.99, "Smartfon z 5G");
      Append(phone);
    }

    /** `findAll`: the stored products in insertion order, as a list of its
        own: a `seq` is a value, so changing it leaves the store alone. */
    function FindAll(): (r: seq<Product>)
      reads this
      ensures |r| == |products| && forall k :: 0 <= k < |r| ==> r[k] == products[k]
    {
      products
    }

    /** `findById`: the first product with an equal id. Ids are distinct, so
        it is the only one; a null id finds nothing. */
    function FindById(id: Option<int>): (r: Option<Product>)
      requires Valid()
      reads this, products
      ensures r.Some? <==> exists k :: 0 <= k < |products| && products[k].id == id
      ensures r.Some? ==> r.value in products && r.value.id == id && id.Some?
      ensures r.Some? ==> forall k :: 0 <= k < |products| && products[k].id == id ==> products[k] == r.value
    {
      var k := FirstWithId(Values(products), id);
      if k < |products| then
        assert products[k].id == id;
        Some(products[k])
      else None
    }

    /** `exists`: some product has the id, exactly when `findById` finds one. */
    function Exists(id: Option<int>): (b: bool)
      requires Valid()
      reads this, products
      ensures b <==> FindById(id).Some?
    {
      exists k :: 0 <= k < |products| && products[k].id == id
    }

    /** `save`: a product without an id gets `nextId` and is appended; one
        with an id updates the first stored product with that id (see
        `UpdateFirst`), and the argument itself is left as it was. The
        argument is returned either way. */
    method Save(p: Product) returns (r: Product)
      requires Valid()
      modifies this, p, products
      ensures Valid()
      ensures r == p
      ensures old(p.id).None? ==>
        products == old(products) + [p]
        && nextId == old(nextId) + 1
        && p.Value() == old(p.Value()).(id := Some(old(nextId)))
        && Values(old(products)) == old(Values(products))
      ensures old(p.id).Some? ==>
        products == old(products)
        && nextId == old(nextId)
        && Values(products) == UpdateFirst(old(Values(products)), old(p.Value()))
        && p.Value() == old(p.Value())
    {
      if p.id.None? {
        assert p !in products;
        p.SetId(Some(nextId));
        Append(p);
      } else {
        UpdateExisting(p);
      }
      return p;
    }

    /** `nextId++` and `products.add(p)` for a product that already carries
        the id being handed out. */
    method Append(p: Product)
      requires Valid() && p.id == Some(nextId)
      modifies this
      ensures Valid()
      ensures products == old(products) + [p] && nextId == old(nextId) + 1
    {
      AppendKeepsInvariant(products, p, nextId);
      products, nextId := products + [p], nextId + 1;
    }

    /** `updateExisting`: copies name, price and description onto the first
        stored product with the same id, if any. */
    method UpdateExisting(updated: Product)
      requires Valid() && updated.id.Some?
      modifies products
      ensures Valid()
      ensures Values(products) == UpdateFirst(old(Values(products)), old(updated.Value()))
      ensures updated.Value() == old(updated.Value())
    {
      ghost var before := Values(products);
      ghost var was := updated.Value();
      var k := FirstWithId(Values(products), updated.id);
      if k < |products| {
        assert UpdateFirst(before, was) == before[k := before[k].(name := was.name, price := was.price, description := was.description)];
        SetDetailsAt(k, updated.name, updated.price, updated.description);
        if updated == products[k] {
          assert updated.Value() == Values(products)[k];
        }
      }
    }

    /** The setters `updateExisting` calls, on the product at position `k`:
        only that product changes, and only in those fields. */
    method SetDetailsAt(k: nat, name: Option<string>, price: Option<real>, description: Option<string>)
      requires Valid() && k < |products|
      modifies products[k]
      ensures Valid()
      ensures Values(products)
        == old(Values(products))[k := old(Values(products))[k].(name := name, price := price, description := description)]
    {
      var existing := products[k];
      assert forall j :: 0 <= j < |products| && j != k ==> products[j] != existing;
      existing.SetDetails(name, price, description);
    }

    /** `delete`: `removeIf` over the list, keeping the other products in
        order; reports whether any was removed. */
    method Delete(id: Option<int>) returns (removed: bool)
      requires Valid()
      modifies this
      ensures Valid()
      ensures nextId == old(nextId)
      ensures products == WithoutId(old(products), id)
      ensures removed <==> old(Exists(id))
    {
      var kept := Kept(id);
      removed := |kept| < |products|;
      WithoutIdKeepsInvariant(products, id, nextId);
      WithoutIdShrinks(products, id);
      products := kept;
    }

    /** The walk `removeIf` makes over the list, collecting the products it
        keeps. */
    method Kept(id: Option<int>) returns (kept: seq<Product>)
      ensures kept == WithoutId(products, id)
    {
      kept := [];
      var i := 0;
      while i < |products|
        invariant 0 <= i <= |products|
        invariant kept == WithoutId(products[..i], id)
      {
        assert products[..i + 1][..i] == products[..i];
        if products[i].id != id {
          kept := kept + [products[i]];
        }
        i := i + 1;
      }
      assert products[..i] == products;
    }
  }

  /** A fresh store after `init`: two products with ids 1 and 2, and
      `nextId` 3. */
  method Started() returns (m: ProductModel)
    ensures m.Valid() && m.nextId == 3 && |m.products| == 2
    ensures m.products[0].id == Some(1) && m.products[1].id == Some(2)
  {
    m := new ProductModel();
    m.Init();
  }
}

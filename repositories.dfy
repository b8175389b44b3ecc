/** The two Spring Data repositories the catalogue's services use, reduced to
    the calls they make: `findById`, `save`, `delete`, `count` and `findAll`
    over a table keyed by the generated id. Products are stored as the
    entity objects themselves; categories as values. */
module CatalogRepositories {
  import opened Platform
  import opened ProductEntities

  /** Whether `save` inserts: the entity has no id, or one no row has. */
  predicate IsNew(id: Option<int>, keys: set<int>)
  {
    id.None? || id.value !in keys
  }

  /** A key under which a value of a map is stored. */
  lemma KeyOf<K, V>(m: map<K, V>, v: V) returns (k: K)
    requires v in m.Values
    ensures k in m && m[k] == v
  {
    k :| k in m && m[k] == v;
  }

  /** A map has no more distinct values than keys. */
  lemma {:induction false} MapValuesBound<K, V>(m: map<K, V>)
    ensures |m.Values| <= |m|
  {
    if |m| > 0 {
      var k :| k in m;
      var rest := m - {k};
      MapValuesBound(rest);
      forall v | v in m.Values ensures v in rest.Values + {m[k]} {
        var j := KeyOf(m, v);
        if j != k { assert rest[j] == v; }
      }
      assert |rest.Values + {m[k]}| <= |rest.Values| + 1;
    }
  }

  class ProductRepository {
    var products: map<int, Product>
    var nextId: int

    /** Every row is stored under its own id, below the next identity
        value. */
    predicate Valid()
      reads this, products.Values
    {
      nextId >= 1
      && forall id :: id in products ==> 1 <= id < nextId && products[id].id == Some(id)
    }

    constructor ()
      ensures products == map[] && nextId == 1
      ensures Valid()
    {
      products := map[];
      nextId := 1;
    }

    /** `save`: a new product gets the next id, written into it, and is
        inserted; a product with a stored id replaces that row. Either way
        the product is returned and is found under its id. */
    method Save(p: Product) returns (r: Product)
      requires Valid()
      modifies this, p
      ensures Valid()
      ensures r == p && p.id.Some? && p.id.value in products && products[p.id.value] == p
      ensures IsNew(old(p.id), old(products.Keys)) ==>
        p.Value() == old(p.Value()).(id := Some(old(nextId)))
        && products == old(products)[old(nextId) := p]
        && nextId == old(nextId) + 1
      ensures !IsNew(old(p.id), old(products.Keys)) ==>
        p.Value() == old(p.Value())
        && products == old(products)[old(p.id).value := p]
        && nextId == old(nextId)
    {
      if p.id.None? || p.id.value !in products {
        assert forall id :: id in products ==> products[id] != p;
        var id := nextId;
        p.SetId(Some(id));
        products := products[id := p];
        nextId := nextId + 1;
      } else {
        products := products[p.id.value := p];
      }
      return p;
    }

    /** `findById`. */
    function FindById(id: int): (r: Option<Product>)
      reads this
      ensures r.Some? <==> id in products
      ensures r.Some? ==> r.value == products[id]
    {
      if id in products then Some(products[id]) else None
    }

    /** `delete(entity)`: removes the row with the entity's id; an entity
        without an id is ignored. */
    method Delete(p: Product)
      requires Valid()
      modifies this
      ensures Valid()
      ensures products == if p.id.None? then old(products) else old(products) - {p.id.value}
      ensures nextId == old(nextId)
    {
      if p.id.Some? {
        products := products - {p.id.value};
      }
    }

    /** `count`: the number of stored rows; zero exactly when none is stored. */
    function Count(): (n: nat)
      reads this
      ensures n == 0 <==> products == map[]
    {
      |products|
    }

    /** `findAll`: every stored product, in no particular order. */
    function FindAll(): (r: set<Product>)
      requires Valid()
      reads this, products.Values
      ensures forall id :: FindById(id).Some? ==> FindById(id).value in r
      ensures forall p :: p in r ==> p.id.Some? && FindById(p.id.value) == Some(p)
      ensures |r| <= Count()
    {
      MapValuesBound(products);
      var r := products.Values;
      assert forall p :: p in r ==> p.id.Some? && FindById(p.id.value) == Some(p) by {
        forall p | p in r ensures p.id.Some? && FindById(p.id.value) == Some(p) {
          var id := KeyOf(products, p);
        }
      }
      r
    }
  }

  class CategoryRepository {
    var categories: map<int, Category>
    var nextId: int

    predicate Valid()
      reads this
    {
      nextId >= 1
      && forall id :: id in categories ==> 1 <= id < nextId && categories[id].id == Some(id)
    }

    constructor ()
      ensures categories == map[] && nextId == 1
      ensures Valid()
    {
      categories := map[];
      nextId := 1;
    }

    /** `save`: a new category is stored under the next id and returned with
        it; one with a stored id replaces that row and comes back as it is. */
    method Save(c: Category) returns (r: Category)
      requires Valid()
      modifies this
      ensures Valid()
      ensures r.name == c.name && r.id.Some? && r.id.value in categories && categories[r.id.value] == r
      ensures IsNew(c.id, old(categories.Keys)) ==>
        r == c.(id := Some(old(nextId)))
        && categories == old(categories)[old(nextId) := r]
        && nextId == old(nextId) + 1
      ensures !IsNew(c.id, old(categories.Keys)) ==>
        r == c && categories == old(categories)[c.id.value := c] && nextId == old(nextId)
    {
      if c.id.None? || c.id.value !in categories {
        r := c.(id := Some(nextId));
        categories := categories[nextId := r];
        nextId := nextId + 1;
      } else {
        r := c;
        categories := categories[c.id.value := c];
      }
    }

    function FindById(id: int): (r: Option<Category>)
      reads this
      ensures r.Some? <==> id in categories
      ensures r.Some? ==> r.value == categories[id]
    {
      if id in categories then Some(categories[id]) else None
    }

    /** `findAll`: every stored category, in no particular order. */
    function FindAll(): (r: set<Category>)
      requires Valid()
      reads this
      ensures forall id :: FindById(id).Some? ==> FindById(id).value in r
      ensures forall c :: c in r ==> c.id.Some? && FindById(c.id.value) == Some(c)
    {
      var r := categories.Values;
      assert forall c :: c in r ==> c.id.Some? && c.id.value in categories && categories[c.id.value] == c by {
        forall c | c in r ensures c.id.Some? && c.id.value in categories && categories[c.id.value] == c {
          var id := KeyOf(categories, c);
        }
      }
      r
    }
  }
}

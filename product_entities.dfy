/** The catalogue's JPA entities. `Product` and `Review` are mutable objects
    with Lombok setters; prices are exact decimals, so `real`. The
    `Category` entity is modelled by the two fields the services use, its id
    and its name. */
module ProductEntities {
  import opened Platform

  /** A category: its id (null before it is saved) and its name. */
  datatype Category = Category(id: Option<int>, name: Option<string>)

  /** The fields of a product at one moment. */
  datatype ProductValue = ProductValue(
    id: Option<int>,
    name: Option<string>,
    price: Option<real>,
    description: Option<string>,
    imagePath: Option<string>,
    category: Option<Category>,
    reviews: seq<Review>)

  class Product {
    var id: Option<int>
    var name: Option<string>
    var price: Option<real>
    var description: Option<string>
    var imagePath: Option<string>
    var category: Option<Category>
    var reviews: seq<Review>

    function Value(): ProductValue
      reads this
    {
      ProductValue(id, name, price, description, imagePath, category, reviews)
    }

    /** `new Product()`: every reference null and no reviews. */
    constructor ()
      ensures Value() == ProductValue(None, None, None, None, None, None, [])
    {
      id := None;
      name := None;
      price := None;
      description := None;
      imagePath := None;
      category := None;
      reviews := [];
    }

    method SetId(id: Option<int>)
      modifies this
      ensures Value() == old(Value()).(id := id)
    {
      this.id := id;
    }

    method SetName(name: Option<string>)
      modifies this
      ensures Value() == old(Value()).(name := name)
    {
      this.name := name;
    }

    method SetPrice(price: Option<real>)
      modifies this
      ensures Value() == old(Value()).(price := price)
    {
      this.price := price;
    }

    method SetDescription(description: Option<string>)
      modifies this
      ensures Value() == old(Value()).(description := description)
    {
      this.description := description;
    }

    method SetCategory(category: Option<Category>)
      modifies this
      ensures Value() == old(Value()).(category := category)
    {
      this.category := category;
    }

    /** The three fields `updateExisting` copies, set together. */
    method SetDetails(name: Option<string>, price: Option<real>, description: Option<string>)
      modifies this
      ensures Value() == old(Value()).(name := name, price := price, description := description)
    {
      this.name := name;
      this.price := price;
      this.description := description;
    }

    /** `getReviews().add(review)`. */
    method AddToReviews(review: Review)
      modifies this
      ensures Value() == old(Value()).(reviews := old(reviews) + [review])
    {
      reviews := reviews + [review];
    }
  }

  /** The products' fields at one moment, in list order. */
  function Values(ps: seq<Product>): (r: seq<ProductValue>)
    reads ps
    ensures |r| == |ps|
    ensures forall k :: 0 <= k < |ps| ==> r[k] == ps[k].Value()
  {
    if ps == [] then [] else Values(ps[..|ps| - 1]) + [ps[|ps| - 1].Value()]
  }

  class Review {
    var id: Option<int>
    var comment: Option<string>
    var product: Product?

    constructor (comment: Option<string>)
      ensures id.None? && this.comment == comment && product == null
    {
      id := None;
      this.comment := comment;
      product := null;
    }

    method SetProduct(product: Product?)
      modifies this
      ensures this.product == product && id == old(id) && comment == old(comment)
    {
      this.product := product;
    }
  }
}

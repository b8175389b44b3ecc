/** `ProductService`: products over their repository, with the catalogue's
    rules: a product needs a name and a positive price, its category must
    exist, a review is attached to its product, and deleting a product
    deletes its image. */
module CatalogService {
  import opened Platform
  import opened JavaStrings
  import opened Paths
  import opened ProductEntities
  import opened CatalogRepositories
  import opened ProductFiles
  import opened CatalogExceptions

  const NameRequired := "Nazwa produktu jest wymagana"
  const PriceRequired := "Cena musi być większa od zera"
  const CategoryMissing := "Kategoria nie istnieje"

  /** `getPrice() == null || getPrice().compareTo(ZERO) <= 0`. */
  predicate PriceInvalid(price: Option<real>)
  {
    price.None? || price.value <= 0.0
  }

  /** The messages `validateProduct` collects: one per failing check, the
      name's first. */
  function ProductErrors(name: Option<string>, price: Option<real>): (errors: seq<string>)
    ensures NameRequired in errors <==> NullOrBlank(name)
    ensures PriceRequired in errors <==> PriceInvalid(price)
    ensures |errors| <= 2
    ensures NullOrBlank(name) ==> errors[0] == NameRequired
    ensures forall k :: 0 <= k < |errors| ==> errors[k] == NameRequired || errors[k] == PriceRequired
  {
    (if NullOrBlank(name) then [NameRequired] else [])
      + (if PriceInvalid(price) then [PriceRequired] else [])
  }

  /** `validateProduct`: a product passes exactly when its name is not blank
      and its price is positive; otherwise a `ValidationException` carries
      the collected messages joined with ", ". */
  function ValidateProduct(product: ProductValue): (c: Completion)
    ensures c.Normal? <==> !NullOrBlank(product.name) && !PriceInvalid(product.price)
    ensures c.Abrupt? ==> c.exception == Validation(Join(ProductErrors(product.name, product.price), ", "))
  {
    var errors := ProductErrors(product.name, product.price);
    if |errors| != 0 then Abrupt(Validation(Join(errors, ", "))) else Normal
  }

  /** The three messages `validateProduct` can give, by which checks fail. */
  lemma ValidationMessages(product: ProductValue)
    ensures NullOrBlank(product.name) && PriceInvalid(product.price) ==>
      ValidateProduct(product) == Abrupt(Validation(NameRequired + ", " + PriceRequired))
    ensures NullOrBlank(product.name) && !PriceInvalid(product.price) ==>
      ValidateProduct(product) == Abrupt(Validation(NameRequired))
    ensures !NullOrBlank(product.name) && PriceInvalid(product.price) ==>
      ValidateProduct(product) == Abrupt(Validation(PriceRequired))
  {
    assert Join([NameRequired, PriceRequired], ", ") == NameRequired + ", " + Join([PriceRequired], ", ");
  }

  /** The category step of `save`: a category with an id is replaced by the
      stored one, or refused when there is none; a missing category or one
      without an id is kept as it is. */
  function ResolveCategory(category: Option<Category>, categories: map<int, Category>): (r: Result<Option<Category>>)
    ensures category.None? || category.value.id.None? ==> r == Ok(category)
    ensures category.Some? && category.value.id.Some? ==>
      (r.Ok? <==> category.value.id.value in categories)
    ensures category.Some? && category.value.id.Some? && r.Ok? ==>
      r.value == Some(categories[category.value.id.value])
    ensures r.Err? ==> r.error == ResourceNotFound(CategoryMissing)
  {
    if category.None? || category.value.id.None? then Ok(category)
    else if category.value.id.value in categories then Ok(Some(categories[category.value.id.value]))
    else Err(ResourceNotFound(CategoryMissing))
  }

  /** Resolving against a repository whose rows carry their own ids keeps
      the category's id: the product ends up with the stored category of
      the id it named. */
  lemma ResolveCategoryKeepsId(category: Option<Category>, categories: map<int, Category>)
    requires forall id :: id in categories ==> categories[id].id == Some(id)
    requires ResolveCategory(category, categories).Ok?
    ensures var r := ResolveCategory(category, categories).value;
      (r.None? <==> category.None?) && (r.Some? ==> r.value.id == category.value.id)
  {
    if category.Some? && category.value.id.Some? {
      var id := category.value.id.value;
      assert categories[id].id == Some(id);
    }
  }

  /** The product sample data adds: a laptop in the given category. */
  function SampleLaptop(id: int, electronics: Category): ProductValue
  {
    ProductValue(Some(id), Some("Laptop Dell XPS 13"), Some(4999.99),
      Some("Nowoczesny laptop biznesowy"), None, Some(electronics), [])
  }

  class ProductService {
    const productRepository: ProductRepository
    const categoryRepository: CategoryRepository
    const fileService: FileService

    constructor (productRepository: ProductRepository, categoryRepository: CategoryRepository,
                 fileService: FileService)
      ensures this.productRepository == productRepository
      ensures this.categoryRepository == categoryRepository
      ensures this.fileService == fileService
    {
      this.productRepository := productRepository;
      this.categoryRepository := categoryRepository;
      this.fileService := fileService;
    }

    predicate Valid()
      reads this, productRepository, productRepository.products.Values, categoryRepository
    {
      productRepository.Valid() && categoryRepository.Valid()
    }

    /** `getProduct`: the stored product, or a `ResourceNotFoundException`
        naming the id. */
    function GetProduct(id: int): (r: Result<Product>)
      reads this, productRepository
      ensures r.Ok? <==> id in productRepository.products
      ensures r.Ok? ==> r.value == productRepository.products[id]
      ensures r.Err? ==> r.error == ResourceNotFound(NotFoundMessage("Produkt", "id", IntegerText(id)))
    {
      match productRepository.FindById(id)
      case Some(p) => Ok(p)
      case None => Err(ResourceNotFound(NotFoundMessage("Produkt", "id", IntegerText(id))))
    }

    /** `getAllProducts`: exactly the products `getProduct` finds. */
    function GetAllProducts(): (r: set<Product>)
      requires Valid()
      reads this, productRepository, productRepository.products.Values, categoryRepository
      ensures forall id :: GetProduct(id).Ok? ==> GetProduct(id).value in r
      ensures forall p :: p in r ==> p.id.Some? && GetProduct(p.id.value) == Ok(p)
      ensures |r| <= productRepository.Count()
    {
      productRepository.FindAll()
    }

    /** `save`: validation first, then the category, then the repository.
        Either refusal persists nothing and leaves the product as it was;
        otherwise the product, with its category resolved, is saved and can
        be found under its id. */
    method Save(product: Product) returns (r: Result<Product>)
      requires Valid()
      modifies productRepository, product
      ensures Valid()
      ensures var check := ValidateProduct(old(product.Value()));
        check.Abrupt? ==>
          r == Err(check.exception)
          && product.Value() == old(product.Value())
          && productRepository.products == old(productRepository.products)
          && productRepository.nextId == old(productRepository.nextId)
      ensures var resolved := ResolveCategory(old(product.category), categoryRepository.categories);
        ValidateProduct(old(product.Value())).Normal? && resolved.Err? ==>
          r == Err(resolved.error)
          && product.Value() == old(product.Value())
          && productRepository.products == old(productRepository.products)
          && productRepository.nextId == old(productRepository.nextId)
      ensures var resolved := ResolveCategory(old(product.category), categoryRepository.categories);
        ValidateProduct(old(product.Value())).Normal? && resolved.Ok? ==>
          r == Ok(product)
          && product.id.Some? && GetProduct(product.id.value) == Ok(product)
          && (IsNew(old(product.id), old(productRepository.products.Keys)) ==>
                product.Value() == old(product.Value()).(id := Some(old(productRepository.nextId)), category := resolved.value)
                && productRepository.products == old(productRepository.products)[old(productRepository.nextId) := product])
          && (!IsNew(old(product.id), old(productRepository.products.Keys)) ==>
                product.Value() == old(product.Value()).(category := resolved.value)
                && productRepository.products == old(productRepository.products)[old(product.id).value := product])
    {
      var valid := ValidateProduct(product.Value());
      if valid.Abrupt? {
        return Err(valid.exception);
      }
      if product.category.Some? && product.category.value.id.Some? {
        var category := categoryRepository.FindById(product.category.value.id.value);
        if category.None? {
          return Err(ResourceNotFound(CategoryMissing));
        }
        product.SetCategory(category);
      }
      var saved := productRepository.Save(product);
      return Ok(saved);
    }

    /** `addReview`: for an unknown product, the lookup's exception and no
        change; otherwise the review points at the product, is appended to
        its reviews, and the product is saved again under its own id. */
    method AddReview(productId: int, review: Review) returns (r: Result<Product>)
      requires Valid()
      modifies productRepository, review
      modifies if productId in productRepository.products then {productRepository.products[productId]} else {}
      ensures Valid()
      ensures productRepository.products == old(productRepository.products)
      ensures productRepository.nextId == old(productRepository.nextId)
      ensures r.Err? <==> old(GetProduct(productId)).Err?
      ensures r.Err? ==>
        r.error == old(GetProduct(productId)).error
        && review.product == old(review.product) && review.id == old(review.id) && review.comment == old(review.comment)
      ensures forall id :: id in productRepository.products && id != productId ==>
        productRepository.products[id].Value() == old(productRepository.products[id].Value())
      ensures r.Ok? ==>
        var product := old(productRepository.products[productId]);
        r == Ok(product)
        && review.product == product && review.id == old(review.id) && review.comment == old(review.comment)
        && product.Value() == old(product.Value()).(reviews := old(product.reviews) + [review])
    {
      var found := GetProduct(productId);
      if found.Err? {
        return Err(found.error);
      }
      var product := found.value;
      review.SetProduct(product);
      product.AddToReviews(review);
      var saved := productRepository.Save(product);
      return Ok(saved);
    }

    /** `deleteProduct`: for an unknown id, the lookup's exception and no
        change; otherwise the product's image is deleted when it names one,
        and the product is removed. */
    method DeleteProduct(id: int) returns (c: Completion)
      requires Valid()
      modifies productRepository, fileService
      ensures Valid()
      ensures productRepository.nextId == old(productRepository.nextId)
      ensures c.Abrupt? <==> id !in old(productRepository.products)
      ensures c.Abrupt? ==>
        c.exception == ResourceNotFound(NotFoundMessage("Produkt", "id", IntegerText(id)))
        && productRepository.products == old(productRepository.products)
        && fileService.files == old(fileService.files)
      ensures c.Normal? ==>
        var imagePath := old(productRepository.products[id].imagePath);
        productRepository.products == old(productRepository.products) - {id}
        && GetProduct(id).Err?
        && fileService.files ==
             if imagePath.None? then old(fileService.files)
             else old(fileService.files) - {Resolve(fileService.fileStorageLocation, imagePath.value)}
    {
      var found := GetProduct(id);
      if found.Err? {
        return Abrupt(found.error);
      }
      RemoveStored(id);
      return Normal;
    }

    /** The body of `deleteProduct` once the product is found: its image,
        when it names one, and then its row are removed. */
    method RemoveStored(id: int)
      requires Valid() && id in productRepository.products
      modifies productRepository, fileService
      ensures Valid()
      ensures productRepository.nextId == old(productRepository.nextId)
      ensures var imagePath := old(productRepository.products[id].imagePath);
        productRepository.products == old(productRepository.products) - {id}
        && fileService.files ==
             if imagePath.None? then old(fileService.files)
             else old(fileService.files) - {Resolve(fileService.fileStorageLocation, imagePath.value)}
    {
      var product := productRepository.products[id];
      var imagePath := product.imagePath;
      if imagePath.Some? {
        fileService.DeleteFile(imagePath.value);
      }
      assert productRepository.Valid() && product.id == Some(id);
      productRepository.Delete(product);
    }

    /** `init` with `createSampleData`: only an empty product table is
        seeded, with the category "Elektronika" and a laptop in it. */
    method Init()
      requires Valid()
      modifies productRepository, categoryRepository
      ensures Valid()
      ensures old(productRepository.Count()) != 0 ==>
        productRepository.products == old(productRepository.products)
        && productRepository.nextId == old(productRepository.nextId)
        && categoryRepository.categories == old(categoryRepository.categories)
        && categoryRepository.nextId == old(categoryRepository.nextId)
      ensures old(productRepository.Count()) == 0 ==>
        var electronics := Category(Some(old(categoryRepository.nextId)), Some("Elektronika"));
        var laptopId := old(productRepository.nextId);
        categoryRepository.categories == old(categoryRepository.categories)[electronics.id.value := electronics]
        && productRepository.products.Keys == {laptopId}
        && fresh(productRepository.products[laptopId])
        && productRepository.products[laptopId].Value() == SampleLaptop(laptopId, electronics)
    {
      if productRepository.Count() == 0 {
        CreateSampleData();
      }
    }

    /** `createSampleData`: the category is saved first, and the laptop
        refers to the saved category, id included. */
    method CreateSampleData()
      requires Valid()
      modifies productRepository, categoryRepository
      ensures Valid()
      ensures var electronics := Category(Some(old(categoryRepository.nextId)), Some("Elektronika"));
        var laptopId := old(productRepository.nextId);
        categoryRepository.categories == old(categoryRepository.categories)[electronics.id.value := electronics]
        && laptopId in productRepository.products
        && productRepository.products == old(productRepository.products)[laptopId := productRepository.products[laptopId]]
        && fresh(productRepository.products[laptopId])
        && productRepository.products[laptopId].Value() == SampleLaptop(laptopId, electronics)
    {
      var electronics := categoryRepository.Save(Category(None, Some("Elektronika")));
      var laptop := new Product();
      laptop.SetName(Some("Laptop Dell XPS 13"));
      laptop.SetPrice(Some(4999.99));
      laptop.SetDescription(Some("Nowoczesny laptop biznesowy"));
      laptop.SetCategory(Some(electronics));
      var saved := productRepository.Save(laptop);
    }
  }
}

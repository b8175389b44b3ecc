/** `CategoryService`: categories over their repository, with one rule of its
    own: a category needs a name that is not blank. */
module CatalogCategories {
  import opened Platform
  import opened JavaStrings
  import opened ProductEntities
  import opened CatalogRepositories
  import opened CatalogExceptions

  const CategoryNameRequired := "Nazwa kategorii jest wymagana"

  /** `validateCategory`: a null or blank name is refused. */
  function ValidateCategory(category: Category): (c: Completion)
    ensures c.Normal? <==> !NullOrBlank(category.name)
    ensures c.Abrupt? ==> c.exception == Validation(CategoryNameRequired)
  {
    if NullOrBlank(category.name) then Abrupt(Validation(CategoryNameRequired)) else Normal
  }

  /** A name is refused exactly when every character of it is white space or
      a control character; one visible character is enough to pass. */
  lemma CategoryNameRule(name: string)
    ensures ValidateCategory(Category(None, Some(name))).Abrupt?
      <==> forall k :: 0 <= k < |name| ==> name[k] <= ' '
    ensures ValidateCategory(Category(None, None)).Abrupt?
  {
    BlankIffAllSpace(name);
  }

  class CategoryService {
    const categoryRepository: CategoryRepository

    constructor (categoryRepository: CategoryRepository)
      ensures this.categoryRepository == categoryRepository
    {
      this.categoryRepository := categoryRepository;
    }

    /** `getCategory`: the stored category, or a `ResourceNotFoundException`
        naming the id. */
    function GetCategory(id: int): (r: Result<Category>)
      reads this, categoryRepository
      ensures r.Ok? <==> id in categoryRepository.categories
      ensures r.Ok? ==> r.value == categoryRepository.categories[id]
      ensures r.Err? ==> r.error == ResourceNotFound(NotFoundMessage("Category", "id", IntegerText(id)))
    {
      match categoryRepository.FindById(id)
      case Some(c) => Ok(c)
      case None => Err(ResourceNotFound(NotFoundMessage("Category", "id", IntegerText(id))))
    }

    /** `getAllCategories`: exactly the categories `getCategory` finds. */
    function GetAllCategories(): (r: set<Category>)
      requires categoryRepository.Valid()
      reads this, categoryRepository
      ensures forall id :: GetCategory(id).Ok? ==> GetCategory(id).value in r
      ensures forall c :: c in r ==> c.id.Some? && GetCategory(c.id.value) == Ok(c)
    {
      categoryRepository.FindAll()
    }

    /** `save`: a refused name persists nothing; a valid category is saved
        by the repository, whose result is returned and can be found under
        its id. */
    method Save(category: Category) returns (r: Result<Category>)
      requires categoryRepository.Valid()
      modifies categoryRepository
      ensures categoryRepository.Valid()
      ensures r.Err? <==> ValidateCategory(category).Abrupt?
      ensures r.Err? ==>
        r.error == Validation(CategoryNameRequired)
        && categoryRepository.categories == old(categoryRepository.categories)
        && categoryRepository.nextId == old(categoryRepository.nextId)
      ensures r.Ok? ==>
        r.value.name == category.name && r.value.id.Some?
        && GetCategory(r.value.id.value) == Ok(r.value)
      ensures r.Ok? && IsNew(category.id, old(categoryRepository.categories.Keys)) ==>
        r.value == category.(id := Some(old(categoryRepository.nextId)))
        && categoryRepository.categories == old(categoryRepository.categories)[old(categoryRepository.nextId) := r.value]
      ensures r.Ok? && !IsNew(category.id, old(categoryRepository.categories.Keys)) ==>
        r.value == category
        && categoryRepository.categories == old(categoryRepository.categories)[category.id.value := category]
    {
      var valid := ValidateCategory(category);
      if valid.Abrupt? {
        return Err(valid.exception);
      }
      var saved := categoryRepository.Save(category);
      return Ok(saved);
    }
  }
}

/**
 * ProductRepository: the relations `findOne` always loads, the catalogue filter with its
 * admin and public visibility rules, and the named sort orders.
 */
module ProductRepository {
  import opened Wrappers
  import opened Text
  import opened SortSpec
  import opened Entities
  import Tables
  import Pagination

  /** The `options` object a caller hands to findOne; findOne adds to its relations in place. */
  class FindOptions {
    var relations: Option<seq<string>>

    constructor (relations: Option<seq<string>>)
      ensures this.relations == relations
    {
      this.relations := relations;
    }
  }

  /**
   * The relation list findOne ends with: 'categories' and 'quality' when none was given,
   * otherwise the given list with whichever of the two it lacks appended.
   */
  function WithRequiredRelations(relations: Option<seq<string>>): (r: seq<string>)
    ensures "categories" in r && "quality" in r
    ensures relations.None? ==> r == ["categories", "quality"]
    ensures relations.Some? ==> |relations.value| <= |r| <= |relations.value| + 2
    ensures relations.Some? ==> r[..|relations.value|] == relations.value
    ensures forall x :: x in r ==> x == "categories" || x == "quality" || (relations.Some? && x in relations.value)
    ensures relations.Some? && Tables.NoDuplicates(relations.value) ==> Tables.NoDuplicates(r)
  {
    match relations
    case None => ["categories", "quality"]
    case Some(rel) =>
      var withCategories := if "categories" in rel then rel else rel + ["categories"];
      var r := if "quality" in withCategories then withCategories else withCategories + ["quality"];
      assert withCategories[..|rel|] == rel;
      assert r[..|withCategories|] == withCategories;
      r
  }

  /** A list already naming both relations is left as it is. */
  lemma WithRequiredRelationsIdempotent(relations: Option<seq<string>>)
    ensures WithRequiredRelations(Some(WithRequiredRelations(relations))) == WithRequiredRelations(relations)
  {
  }

  /** The product with that id, active or not: the row every `findOne({ where: { id } })` loads. */
  function FindById(rows: seq<Product>, id: Id): (r: Option<Product>)
    ensures r.Some? ==> r.value in rows && r.value.id == id
    ensures r.None? <==> forall p :: p in rows ==> p.id != id
  {
    Tables.FindFirst(rows, (p: Product) => p.id == id)
  }

  /** findOne({ where: { id }, ... }): the product with that id, active or not. */
  method FindOne(rows: seq<Product>, id: Id, options: FindOptions) returns (r: Option<Product>)
    modifies options
    ensures options.relations == Some(WithRequiredRelations(old(options.relations)))
    ensures r.Some? ==> r.value in rows && r.value.id == id
    ensures r.None? <==> forall p :: p in rows ==> p.id != id
  {
    options.relations := Some(WithRequiredRelations(options.relations));
    r := FindById(rows, id);
  }

  datatype ProductFilters = ProductFilters(
    q: Option<string>, sort: Option<string>,
    category: Option<seq<Id>>, quality: Option<seq<Id>>, color: Option<seq<Id>>,
    minPrice: Option<Cents>, maxPrice: Option<Cents>,
    active: Option<bool>, isAdmin: Option<bool>)

  /** An id-list filter takes part only when it is given and not empty. */
  predicate ListGiven(xs: Option<seq<Id>>) {
    xs.Some? && |xs.value| > 0
  }

  /** `categories.id IN (...)` over the joined categories: one of the product's categories is listed. */
  predicate InSomeCategory(p: Product, ids: seq<Id>) {
    exists i :: 0 <= i < |p.categoryIds| && p.categoryIds[i] in ids
  }

  /** The EXISTS over the variables JSON: some variant has one of the colours. */
  predicate HasSomeColor(p: Product, colors: seq<Id>) {
    p.variables.Some? && exists i :: 0 <= i < |p.variables.value| && p.variables.value[i].colorId in colors
  }

  /** The admin and public visibility rule on `active`. */
  function Visible(p: Product, f: ProductFilters): (v: bool)
    ensures f.active.Some? ==> (v <==> p.active == f.active.value)
    ensures f.active.None? && f.isAdmin == Some(true) ==> v
    ensures f.active.None? && f.isAdmin != Some(true) ==> (v <==> p.active)
  {
    if f.isAdmin == Some(true) then f.active.None? || p.active == f.active.value
    else if f.active.Some? then p.active == f.active.value
    else p.active
  }

  /** applyFilters, as the condition a product must meet to be listed. */
  function ApplyFilters(p: Product, f: ProductFilters): (keep: bool)
    ensures keep && TruthyText(f.q) ==> Like(p.name, f.q.value)
    ensures keep && ListGiven(f.category) ==> InSomeCategory(p, f.category.value)
    ensures keep && ListGiven(f.quality) ==> p.qualityId in f.quality.value
    ensures keep && ListGiven(f.color) ==> HasSomeColor(p, f.color.value)
    ensures keep && f.minPrice.Some? ==> f.minPrice.value <= p.price
    ensures keep && f.maxPrice.Some? ==> p.price <= f.maxPrice.value
    ensures keep ==> Visible(p, f)
    ensures ((!TruthyText(f.q) || Like(p.name, f.q.value)) &&
             (!ListGiven(f.category) || InSomeCategory(p, f.category.value)) &&
             (!ListGiven(f.quality) || p.qualityId in f.quality.value) &&
             (!ListGiven(f.color) || HasSomeColor(p, f.color.value)) &&
             (f.minPrice.None? || f.minPrice.value <= p.price) &&
             (f.maxPrice.None? || p.price <= f.maxPrice.value) &&
             Visible(p, f)) ==> keep
  {
    (!TruthyText(f.q) || Like(p.name, f.q.value)) &&
    (!ListGiven(f.category) || InSomeCategory(p, f.category.value)) &&
    (!ListGiven(f.quality) || p.qualityId in f.quality.value) &&
    (!ListGiven(f.color) || HasSomeColor(p, f.color.value)) &&
    (f.minPrice.None? || f.minPrice.value <= p.price) &&
    (f.maxPrice.None? || p.price <= f.maxPrice.value) &&
    Visible(p, f)
  }

  const NoFilters := ProductFilters(None, None, None, None, None, None, None, None, None)

  /** The public catalogue without filters is exactly the active products. */
  lemma PublicListingIsActiveProducts(p: Product)
    ensures ApplyFilters(p, NoFilters) <==> p.active
  {
  }

  /** In admin mode without filters every product is listed, active or not. */
  lemma AdminListingIsEverything(p: Product)
    ensures ApplyFilters(p, NoFilters.(isAdmin := Some(true)))
  {
  }

  /** Both price bounds are inclusive: a product priced exactly at a bound is kept. */
  lemma PriceBoundsInclusive(p: Product, f: ProductFilters)
    requires ApplyFilters(p, f.(minPrice := None, maxPrice := None))
    requires f.minPrice == Some(p.price) || f.minPrice.None?
    requires f.maxPrice == Some(p.price) || f.maxPrice.None?
    ensures ApplyFilters(p, f)
  {
  }

  /** Given the other filters pass, the colour filter keeps a product exactly when one of its variants has a listed colour. */
  lemma ColorFilterAnyVariant(p: Product, f: ProductFilters)
    requires ApplyFilters(p, f.(color := None))
    ensures ApplyFilters(p, f) <==> !ListGiven(f.color) || HasSomeColor(p, f.color.value)
  {
  }

  /**
   * The product as the listing loads it. The category filter is a condition on the
   * left-joined `categories` alias, so with it only the product's listed categories are
   * joined and loaded; without it all of them are.
   */
  function Loaded(p: Product, f: ProductFilters): (r: Product)
    ensures r == p.(categoryIds := r.categoryIds)
    ensures !ListGiven(f.category) ==> r == p
    ensures ListGiven(f.category) ==> forall id :: id in r.categoryIds <==> id in p.categoryIds && id in f.category.value
  {
    if ListGiven(f.category) then p.(categoryIds := Tables.Filter(p.categoryIds, (id: Id) => id in f.category.value))
    else p
  }

  /** A product the category filter keeps is loaded with at least one category, all listed. */
  lemma LoadedKeepsAListedCategory(q: Product, f: ProductFilters)
    requires ListGiven(f.category) && InSomeCategory(q, f.category.value)
    ensures |Loaded(q, f).categoryIds| > 0
    ensures forall id :: id in Loaded(q, f).categoryIds ==> id in f.category.value
  {
    var j :| 0 <= j < |q.categoryIds| && q.categoryIds[j] in f.category.value;
    assert q.categoryIds[j] in Loaded(q, f).categoryIds;
  }

  function LoadAll(ps: seq<Product>, f: ProductFilters): (r: seq<Product>)
    ensures |r| == |ps| && forall i :: 0 <= i < |ps| ==> r[i] == Loaded(ps[i], f)
  {
    seq(|ps|, i requires 0 <= i < |ps| => Loaded(ps[i], f))
  }

  /** Loading rows that all match the filters gives loaded matching rows, each in a listed category. */
  lemma LoadAllOfMatching(rows: seq<Product>, ordered: seq<Product>, f: ProductFilters)
    requires forall x :: x in rows ==> x in ordered && ApplyFilters(x, f)
    ensures forall p :: p in LoadAll(rows, f) ==> exists q :: q in ordered && ApplyFilters(q, f) && p == Loaded(q, f)
    ensures ListGiven(f.category) ==> forall p :: p in LoadAll(rows, f) ==>
              |p.categoryIds| > 0 && forall id :: id in p.categoryIds ==> id in f.category.value
  {
    var data := LoadAll(rows, f);
    forall p | p in data ensures exists q :: q in ordered && ApplyFilters(q, f) && p == Loaded(q, f) {
      var i :| 0 <= i < |data| && data[i] == p;
      assert rows[i] in rows;
    }
    forall p | p in data && ListGiven(f.category)
      ensures |p.categoryIds| > 0 && forall id :: id in p.categoryIds ==> id in f.category.value
    {
      var i :| 0 <= i < |data| && data[i] == p;
      assert rows[i] in rows;
      LoadedKeepsAListedCategory(rows[i], f);
    }
  }

  /**
   * findWithFilters over the products as the database orders them (ApplySorting), with the
   * categories and quality joined: the matching products, counted before the page is cut,
   * each loaded with the categories the join kept. The name search is the collation's
   * case-insensitive LIKE and the colour filter looks into each variant's colour; see
   * FindWithFiltersAsWritten for the SQL the repository writes.
   */
  function FindWithFilters(ordered: seq<Product>, f: ProductFilters, page: Pagination.PageOptions)
    : (r: Result<Pagination.Paginated<Product>, string>)
    ensures r.Success? ==> r.value.meta.total == Tables.Count(ordered, p => ApplyFilters(p, f))
    ensures r.Success? ==> forall p :: p in r.value.data ==>
              exists q :: q in ordered && ApplyFilters(q, f) && p == Loaded(q, f)
    ensures r.Success? && ListGiven(f.category) ==> forall p :: p in r.value.data ==>
              |p.categoryIds| > 0 && forall id :: id in p.categoryIds ==> id in f.category.value
    ensures !(Pagination.Truthy(page.page) && Pagination.Truthy(page.limit)) ==>
              r.Success? && r.value.data == LoadAll(Tables.Filter(ordered, p => ApplyFilters(p, f)), f)
    ensures Pagination.Truthy(page.page) && Pagination.Truthy(page.limit) && page.page.value >= 1 && page.limit.value >= 1 ==>
              r.Success? &&
              r.value.data == LoadAll(Pagination.PageOf(Tables.Filter(ordered, p => ApplyFilters(p, f)), page.page.value, page.limit.value), f)
  {
    var matching := Tables.Filter(ordered, p => ApplyFilters(p, f));
    match Pagination.ExecutePaginatedQuery(matching, page)
    case Failure(e) => Failure(e)
    case Success(pg) =>
      var data := LoadAll(pg.data, f);
      LoadAllOfMatching(pg.data, ordered, f);
      Success(Pagination.Paginated(data, pg.meta))
  }

  /**
   * findWithFilters as the repository writes it. The connection is MySQL, and `ILIKE`
   * (the name search) and `json_array_elements` with the `::jsonb` cast (the colour filter)
   * are PostgreSQL syntax, so a query with either is refused by the server and nothing is
   * listed; any other query is FindWithFilters.
   */
  function FindWithFiltersAsWritten(ordered: seq<Product>, f: ProductFilters, page: Pagination.PageOptions)
    : (r: Result<Pagination.Paginated<Product>, string>)
    ensures TruthyText(f.q) || ListGiven(f.color) ==> r == Failure("ER_PARSE_ERROR")
    ensures !TruthyText(f.q) && !ListGiven(f.color) ==> r == FindWithFilters(ordered, f, page)
  {
    if TruthyText(f.q) || ListGiven(f.color) then Failure("ER_PARSE_ERROR")
    else FindWithFilters(ordered, f, page)
  }

  /**
   * Searching the catalogue for "tee", or for the colour of a variant, finds the active
   * product "Tee" with a red variant once the search is the dialect's own; as written, both
   * requests fail.
   */
  lemma SearchAndColourFailAsWritten()
    ensures var p := Product("p1", "Tee", 1000, true, ["c1"], "q1", Some([Variable("v1", "red", ["a.jpg"])]), 0);
      var byName := NoFilters.(q := Some("tee"));
      var byColour := NoFilters.(color := Some(["red"]));
      var all := Pagination.PageOptions(None, None);
      FindWithFilters([p], byName, all).Success? && FindWithFilters([p], byName, all).value.data == [p] &&
      FindWithFilters([p], byColour, all).Success? && FindWithFilters([p], byColour, all).value.data == [p] &&
      FindWithFiltersAsWritten([p], byName, all).Failure? &&
      FindWithFiltersAsWritten([p], byColour, all).Failure?
  {
    var p := Product("p1", "Tee", 1000, true, ["c1"], "q1", Some([Variable("v1", "red", ["a.jpg"])]), 0);
    TeeMatchesSearch(p);
    TeeMatchesColour(p);
    FindsTheOneMatch(p, NoFilters.(q := Some("tee")));
    FindsTheOneMatch(p, NoFilters.(color := Some(["red"])));
  }

  lemma TeeMatchesSearch(p: Product)
    requires p == Product("p1", "Tee", 1000, true, ["c1"], "q1", Some([Variable("v1", "red", ["a.jpg"])]), 0)
    ensures ApplyFilters(p, NoFilters.(q := Some("tee")))
  {
    LikeOfPlainText("Tee", "tee");
    assert ToLower("Tee") == "tee";
    assert ToLower("tee") == "tee";
    assert OccursAt("tee", "tee", 0);
  }

  lemma TeeMatchesColour(p: Product)
    requires p == Product("p1", "Tee", 1000, true, ["c1"], "q1", Some([Variable("v1", "red", ["a.jpg"])]), 0)
    ensures ApplyFilters(p, NoFilters.(color := Some(["red"])))
  {
    assert HasSomeColor(p, ["red"]) by { assert p.variables.value[0].colorId == "red"; }
  }

  /** Listing a one-product table, unpaginated, with filters it passes and no category filter gives that product. */
  lemma FindsTheOneMatch(p: Product, f: ProductFilters)
    requires ApplyFilters(p, f) && !ListGiven(f.category)
    ensures var r := FindWithFilters([p], f, Pagination.PageOptions(None, None));
            r.Success? && r.value.data == [p]
  {
    var m := Tables.Filter([p], q => ApplyFilters(q, f));
    assert p in m;
    assert m == [p];
    assert LoadAll(m, f)[0] == Loaded(p, f) == p;
  }


  /** The named orders, and the newest first for anything else. */
  function ApplySorting(sort: Option<string>): (order: seq<OrderKey>)
    ensures |order| == 1
    ensures sort == Some("priceDesc") ==> order == [OrderKey("price", Desc)]
    ensures sort == Some("priceAsc") ==> order == [OrderKey("price", Asc)]
    ensures sort == Some("dateDesc") ==> order == [OrderKey("createdAt", Desc)]
    ensures sort == Some("dateAsc") ==> order == [OrderKey("createdAt", Asc)]
    ensures !(sort.Some? && sort.value in ["priceDesc", "priceAsc", "dateDesc", "dateAsc"]) ==>
              order == [OrderKey("createdAt", Desc)]
  {
    match sort
    case Some("priceDesc") => [OrderKey("price", Desc)]
    case Some("priceAsc") => [OrderKey("price", Asc)]
    case Some("dateDesc") => [OrderKey("createdAt", Desc)]
    case Some("dateAsc") => [OrderKey("createdAt", Asc)]
    case _ => [OrderKey("createdAt", Desc)]
  }
}

/** QualityRepository: the listing filter and sort parameter, and the active-only lookups. */
module QualityRepository {
  import opened Wrappers
  import opened Text
  import opened SortSpec
  import opened Entities
  import Tables
  import Sorting
  import Pagination

  datatype QualityFilters = QualityFilters(q: Option<string>, active: Option<bool>, sort: Option<string>)

  const SortFields: seq<string> := ["name", "description", "createdAt", "active"]

  /** A null description takes part in `LIKE` as no match. */
  predicate DescriptionLike(x: Quality, q: string) {
    x.description.Some? && Like(x.description.value, q)
  }

  /** applyFilters, as the condition a row must meet to be listed. */
  function ApplyFilters(x: Quality, f: QualityFilters): (keep: bool)
    ensures !TruthyText(f.q) && f.active.None? ==> keep
    ensures keep && TruthyText(f.q) ==> Like(x.name, f.q.value) || DescriptionLike(x, f.q.value)
    ensures keep && f.active.Some? ==> x.active == f.active.value
    ensures f.active.None? ==> (keep <==> !TruthyText(f.q) || Like(x.name, f.q.value) || DescriptionLike(x, f.q.value))
    ensures !TruthyText(f.q) ==> (keep <==> f.active.None? || x.active == f.active.value)
  {
    (!TruthyText(f.q) || Like(x.name, f.q.value) || DescriptionLike(x, f.q.value)) &&
    (f.active.None? || x.active == f.active.value)
  }

  /** applySorting: a whitelisted `field:direction`, otherwise by name ascending. */
  function ApplySorting(sort: Option<string>): (order: seq<OrderKey>)
    ensures |order| == 1 && order[0].column in SortFields
    ensures ParseSortSpec(sort, SortFields).None? ==> order == [OrderKey("name", Asc)]
  {
    match ParseSortSpec(sort, SortFields)
    case Some(key) => [key]
    case None => [OrderKey("name", Asc)]
  }

  /** Any whitelisted field with ASC or DESC, in any letter case, is the order used. */
  lemma ApplySortingAccepts(field: string, dir: string, d: Direction)
    requires field in SortFields && ToUpper(dir) == DirectionName(d) && ':' !in dir
    ensures ApplySorting(Some(field + ":" + dir)) == [OrderKey(field, d)]
  {
    assert ':' !in field;
    ParseSortSpecAccepts(field, dir, "", d, SortFields);
    assert field + ":" + dir + "" == field + ":" + dir;
  }

  /** findWithFilters over the rows as the database orders them. */
  function FindWithFilters(ordered: seq<Quality>, f: QualityFilters, page: Pagination.PageOptions)
    : (r: Result<Pagination.Paginated<Quality>, string>)
    ensures r.Success? ==> r.value.meta.total == Tables.Count(ordered, x => ApplyFilters(x, f))
    ensures r.Success? ==> forall x :: x in r.value.data ==> x in ordered && ApplyFilters(x, f)
    ensures !(Pagination.Truthy(page.page) && Pagination.Truthy(page.limit)) ==>
              r.Success? && r.value.data == Tables.Filter(ordered, x => ApplyFilters(x, f))
    ensures Pagination.Truthy(page.page) && Pagination.Truthy(page.limit) && page.page.value >= 1 && page.limit.value >= 1 ==>
              r.Success? &&
              r.value.data == Pagination.PageOf(Tables.Filter(ordered, x => ApplyFilters(x, f)), page.page.value, page.limit.value)
  {
    var matching := Tables.Filter(ordered, x => ApplyFilters(x, f));
    var r := Pagination.ExecutePaginatedQuery(matching, page);
    assert r.Success? ==> forall i :: 0 <= i < |r.value.data| ==> r.value.data[i] in matching;
    r
  }

  /** The collation key `ORDER BY name` sorts on. */
  function NameKey(x: Quality): string {
    ToLower(x.name)
  }

  /** findAll: exactly the active qualities, sorted by name. */
  function FindAll(rows: seq<Quality>): (r: seq<Quality>)
    ensures Sorting.SortedBy(r, NameKey)
    ensures forall x :: x in r ==> x in rows && x.active
    ensures forall x :: x in rows && x.active ==> x in r
    ensures multiset(r) == multiset(Tables.Filter(rows, (x: Quality) => x.active))
  {
    var active := Tables.Filter(rows, (x: Quality) => x.active);
    var r := Sorting.SortBy(active, NameKey);
    forall x | x in r ensures x in rows && x.active {
      assert x in multiset(r);
      assert x in multiset(active);
    }
    forall x | x in rows && x.active ensures x in r {
      assert x in multiset(active);
    }
    r
  }

  /** findById: the quality with that id, only while it is active. */
  function FindById(rows: seq<Quality>, id: Id): (r: Option<Quality>)
    ensures r.Some? ==> r.value in rows && r.value.id == id && r.value.active
    ensures r.None? <==> forall x :: x in rows ==> !(x.id == id && x.active)
  {
    Tables.FindFirst(rows, (x: Quality) => x.id == id && x.active)
  }

  /**
   * findByName: an active quality whose name equals `name` under the column's
   * case-insensitive collation.
   */
  function FindByName(rows: seq<Quality>, name: string): (r: Option<Quality>)
    ensures r.Some? ==> r.value in rows && SameText(r.value.name, name) && r.value.active
    ensures r.None? <==> forall x :: x in rows ==> !(SameText(x.name, name) && x.active)
  {
    Tables.FindFirst(rows, (x: Quality) => SameText(x.name, name) && x.active)
  }
}

/** ColorRepository: the listing filter, the sort parameter and `findByIds`. */
module ColorRepository {
  import opened Wrappers
  import opened Text
  import opened SortSpec
  import opened Entities
  import Tables
  import Pagination

  datatype ColorFilters = ColorFilters(q: Option<string>, active: Option<bool>, sort: Option<string>)

  const SortFields: seq<string> := ["name", "hexCode", "createdAt", "active"]

  /** applyFilters, as the condition a row must meet to be listed. */
  function ApplyFilters(c: Color, f: ColorFilters): (keep: bool)
    ensures !TruthyText(f.q) && f.active.None? ==> keep
    ensures keep && TruthyText(f.q) ==> Like(c.name, f.q.value) || Like(c.hexCode, f.q.value)
    ensures keep && f.active.Some? ==> c.active == f.active.value
    ensures f.active.None? ==> (keep <==> !TruthyText(f.q) || Like(c.name, f.q.value) || Like(c.hexCode, f.q.value))
    ensures !TruthyText(f.q) ==> (keep <==> f.active.None? || c.active == f.active.value)
  {
    (!TruthyText(f.q) || Like(c.name, f.q.value) || Like(c.hexCode, f.q.value)) &&
    (f.active.None? || c.active == f.active.value)
  }

  /** applySorting: a whitelisted `field:direction`, otherwise the newest first. */
  function ApplySorting(sort: Option<string>): (order: seq<OrderKey>)
    ensures |order| == 1 && order[0].column in SortFields
    ensures ParseSortSpec(sort, SortFields).None? ==> order == [OrderKey("createdAt", Desc)]
  {
    match ParseSortSpec(sort, SortFields)
    case Some(key) => [key]
    case None => [OrderKey("createdAt", Desc)]
  }

  /** Any whitelisted field with ASC or DESC, in any letter case, is the order used. */
  lemma ApplySortingAccepts(field: string, dir: string, d: Direction)
    requires field in SortFields && ToUpper(dir) == DirectionName(d) && ':' !in dir
    ensures ApplySorting(Some(field + ":" + dir)) == [OrderKey(field, d)]
  {
    assert ':' !in field;
    ParseSortSpecAccepts(field, dir, "", d, SortFields);
    assert field + ":" + dir + "" == field + ":" + dir;
  }

  /**
   * findWithFilters over `ordered`, the table's rows in the order ApplySorting names (the
   * database does the ordering): the matching rows, counted before the page is cut.
   */
  function FindWithFilters(ordered: seq<Color>, f: ColorFilters, page: Pagination.PageOptions)
    : (r: Result<Pagination.Paginated<Color>, string>)
    ensures r.Success? ==> r.value.meta.total == Tables.Count(ordered, c => ApplyFilters(c, f))
    ensures r.Success? ==> forall c :: c in r.value.data ==> c in ordered && ApplyFilters(c, f)
    ensures !(Pagination.Truthy(page.page) && Pagination.Truthy(page.limit)) ==>
              r.Success? && r.value.data == Tables.Filter(ordered, c => ApplyFilters(c, f))
    ensures Pagination.Truthy(page.page) && Pagination.Truthy(page.limit) && page.page.value >= 1 && page.limit.value >= 1 ==>
              r.Success? &&
              r.value.data == Pagination.PageOf(Tables.Filter(ordered, c => ApplyFilters(c, f)), page.page.value, page.limit.value)
  {
    var matching := Tables.Filter(ordered, c => ApplyFilters(c, f));
    var r := Pagination.ExecutePaginatedQuery(matching, page);
    assert r.Success? ==> forall i :: 0 <= i < |r.value.data| ==> r.value.data[i] in matching;
    r
  }

  /** findByIds: nothing for no ids, otherwise the existing colors with those ids, once each. */
  function FindByIds(rows: seq<Color>, ids: seq<Id>): (r: seq<Color>)
    ensures ids == [] ==> r == []
    ensures forall c :: c in r ==> c in rows && c.id in ids
    ensures |r| == |ids| <==> Tables.NoDuplicates(ids) && forall k :: k in ids ==> exists c :: c in rows && c.id == k
    ensures forall k :: k in ids && (exists c :: c in rows && c.id == k) ==> exists c :: c in r && c.id == k
  {
    if |ids| == 0 then [] else Tables.FindByIds(rows, (c: Color) => c.id, ids)
  }
}

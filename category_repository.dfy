/**
 * CategoryRepository: the listing (top-level categories unless children are asked for), the
 * sort parameter, and the lookups the categories and products services rely on.
 */
module CategoryRepository {
  import opened Wrappers
  import opened Text
  import opened SortSpec
  import opened Entities
  import Tables
  import Sorting
  import Pagination

  datatype CategoryFilters = CategoryFilters(
    q: Option<string>, active: Option<bool>, isDefault: Option<bool>,
    includeChildren: Option<bool>, sort: Option<string>)

  const SortFields: seq<string> := ["name", "default", "active", "createdAt", "updatedAt"]

  /** The order used when no valid sort is given: the default category first, then by name. */
  const DefaultOrder: seq<OrderKey> := [OrderKey("default", Desc), OrderKey("name", Asc)]

  /** applyFilters: `q` on the name only, and `active` and `default` when they are given. */
  function ApplyFilters(c: Category, f: CategoryFilters): (keep: bool)
    ensures !TruthyText(f.q) && f.active.None? && f.isDefault.None? ==> keep
    ensures keep && TruthyText(f.q) ==> Like(c.name, f.q.value)
    ensures keep && f.active.Some? ==> c.active == f.active.value
    ensures keep && f.isDefault.Some? ==> c.isDefault == f.isDefault.value
    ensures keep <==> (!TruthyText(f.q) || Like(c.name, f.q.value)) &&
                      (f.active.None? || c.active == f.active.value) &&
                      (f.isDefault.None? || c.isDefault == f.isDefault.value)
  {
    (!TruthyText(f.q) || Like(c.name, f.q.value)) &&
    (f.active.None? || c.active == f.active.value) &&
    (f.isDefault.None? || c.isDefault == f.isDefault.value)
  }

  /** The `parentId IS NULL` condition of findWithFilters, dropped when includeChildren is true. */
  function ListingCondition(c: Category, f: CategoryFilters): (keep: bool)
    ensures keep && !(f.includeChildren == Some(true)) ==> c.parentId.None?
    ensures f.includeChildren == Some(true) ==> (keep <==> ApplyFilters(c, f))
    ensures c.parentId.None? ==> (keep <==> ApplyFilters(c, f))
  {
    (f.includeChildren == Some(true) || c.parentId.None?) && ApplyFilters(c, f)
  }

  /** applySorting: a whitelisted `field:direction`, otherwise DefaultOrder. */
  function ApplySorting(sort: Option<string>): (order: seq<OrderKey>)
    ensures ParseSortSpec(sort, SortFields).Some? ==> |order| == 1 && order[0].column in SortFields
    ensures ParseSortSpec(sort, SortFields).None? ==> order == DefaultOrder
  {
    match ParseSortSpec(sort, SortFields)
    case Some(key) => [key]
    case None => DefaultOrder
  }

  /** Any whitelisted field with ASC or DESC, in any letter case, is the order used. */
  lemma ApplySortingAccepts(field: string, dir: string, d: Direction)
    requires field in SortFields && ToUpper(dir) == DirectionName(d) && ':' !in dir
    ensures ApplySorting(Some(field + ":" + dir)) == [OrderKey(field, d)]
  {
    assert ':' !in field;
    ParseSortSpecAccepts(field, dir, "", d, SortFields);
    assert field + ":" + dir + "" == field + ":" + dir;
  }

  /** A field outside the whitelist falls back to DefaultOrder whatever the direction. */
  lemma ApplySortingRejects(sort: string)
    requires Split(sort, ':')[0] !in SortFields
    ensures ApplySorting(Some(sort)) == DefaultOrder
  {
  }

  /** findWithFilters over the rows as the database orders them. */
  function FindWithFilters(ordered: seq<Category>, f: CategoryFilters, page: Pagination.PageOptions)
    : (r: Result<Pagination.Paginated<Category>, string>)
    ensures r.Success? ==> r.value.meta.total == Tables.Count(ordered, c => ListingCondition(c, f))
    ensures r.Success? ==> forall c :: c in r.value.data ==> c in ordered && ListingCondition(c, f)
    ensures r.Success? && !(f.includeChildren == Some(true)) ==>
              forall c :: c in r.value.data ==> c in ordered && c.parentId.None?
    ensures !(Pagination.Truthy(page.page) && Pagination.Truthy(page.limit)) ==>
              r.Success? && r.value.data == Tables.Filter(ordered, c => ListingCondition(c, f))
    ensures Pagination.Truthy(page.page) && Pagination.Truthy(page.limit) && page.page.value >= 1 && page.limit.value >= 1 ==>
              r.Success? &&
              r.value.data == Pagination.PageOf(Tables.Filter(ordered, c => ListingCondition(c, f)), page.page.value, page.limit.value)
  {
    var matching := Tables.Filter(ordered, c => ListingCondition(c, f));
    var r := Pagination.ExecutePaginatedQuery(matching, page);
    assert r.Success? ==> forall i :: 0 <= i < |r.value.data| ==> r.value.data[i] in matching;
    r
  }

  /** The collation key `ORDER BY name` sorts on. */
  function NameKey(c: Category): string {
    ToLower(c.name)
  }

  /** findChildrenByParentId: exactly the active children of `parentId`, sorted by name. */
  function FindChildrenByParentId(rows: seq<Category>, parentId: Id): (r: seq<Category>)
    ensures Sorting.SortedBy(r, NameKey)
    ensures forall c :: c in r ==> c in rows && c.parentId == Some(parentId) && c.active
    ensures forall c :: c in rows && c.parentId == Some(parentId) && c.active ==> c in r
    ensures multiset(r) == multiset(Tables.Filter(rows, (c: Category) => c.parentId == Some(parentId) && c.active))
  {
    var children := Tables.Filter(rows, (c: Category) => c.parentId == Some(parentId) && c.active);
    var r := Sorting.SortBy(children, NameKey);
    forall c | c in r ensures c in children {
      assert c in multiset(r);
    }
    forall c | c in children ensures c in r {
      assert c in multiset(children);
    }
    r
  }

  /** findByIds: nothing for no ids, otherwise the existing categories with those ids, once each. */
  function FindByIds(rows: seq<Category>, ids: seq<Id>): (r: seq<Category>)
    ensures ids == [] ==> r == []
    ensures forall c :: c in r ==> c in rows && c.id in ids
    ensures |r| == |ids| <==> Tables.NoDuplicates(ids) && forall k :: k in ids ==> exists c :: c in rows && c.id == k
    ensures forall k :: k in ids && (exists c :: c in rows && c.id == k) ==> exists c :: c in r && c.id == k
  {
    if |ids| == 0 then [] else Tables.FindByIds(rows, (c: Category) => c.id, ids)
  }

  /** findDefaultCategory: a category that is both the default and active. */
  function FindDefaultCategory(rows: seq<Category>): (r: Option<Category>)
    ensures r.Some? ==> r.value in rows && r.value.isDefault && r.value.active
    ensures r.None? <==> forall c :: c in rows ==> !(c.isDefault && c.active)
  {
    Tables.FindFirst(rows, (c: Category) => c.isDefault && c.active)
  }

  /** setAsDefault: clear every default flag, then set the one of `id`. */
  function SetAsDefault(rows: seq<Category>, id: Id): (r: seq<Category>)
    ensures |r| == |rows|
    ensures forall i :: 0 <= i < |rows| ==> r[i] == rows[i].(isDefault := rows[i].id == id)
  {
    var cleared := Tables.UpdateWhere(rows, (c: Category) => c.isDefault, (c: Category) => c.(isDefault := false));
    Tables.UpdateWhere(cleared, (c: Category) => c.id == id, (c: Category) => c.(isDefault := true))
  }

  /** After setAsDefault(id), the default categories are exactly the rows with that id. */
  lemma SetAsDefaultExactlyOne(rows: seq<Category>, id: Id)
    requires Tables.UniqueBy(rows, (c: Category) => c.id)
    ensures forall c :: c in SetAsDefault(rows, id) ==> (c.isDefault <==> c.id == id)
    ensures forall i, j :: 0 <= i < j < |rows| && SetAsDefault(rows, id)[i].isDefault ==> !SetAsDefault(rows, id)[j].isDefault
  {
    var r := SetAsDefault(rows, id);
    forall i, j | 0 <= i < j < |rows| && r[i].isDefault ensures !r[j].isDefault {
      assert rows[i].id == id;
    }
  }

  /** countByParentId: how many categories have `parentId` as their parent. */
  function CountByParentId(rows: seq<Category>, parentId: Id): (n: nat)
    ensures n == 0 <==> forall c :: c in rows ==> c.parentId != Some(parentId)
  {
    Tables.Count(rows, (c: Category) => c.parentId == Some(parentId))
  }
}

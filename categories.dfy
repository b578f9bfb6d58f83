/**
 * CategoriesService: the two-level category tree, names unique within a level, at most one
 * default category, and the guards on deletion. Names are looked up under the column's
 * case-insensitive collation (Text.SameText).
 */
module Categories {
  import opened Wrappers
  import opened Text
  import opened Entities
  import opened Errors
  import Tables
  import CategoryRepository

  /** Every parent exists and is itself top-level: the tree has at most two levels. */
  predicate TwoLevels(rows: seq<Category>) {
    forall i :: 0 <= i < |rows| && rows[i].parentId.Some? ==> IsTopLevelId(rows, rows[i].parentId.value)
  }

  predicate IsTopLevelId(rows: seq<Category>, id: Id) {
    exists j :: 0 <= j < |rows| && rows[j].id == id && rows[j].parentId.None?
  }

  predicate AtMostOneDefault(rows: seq<Category>) {
    forall i, j :: 0 <= i < j < |rows| ==> !(rows[i].isDefault && rows[j].isDefault)
  }

  /** No two categories with the same parent (or both top-level) share a name, in any letter case. */
  predicate NamesUniquePerLevel(rows: seq<Category>) {
    forall i, j :: 0 <= i < j < |rows| ==> !(SameText(rows[i].name, rows[j].name) && rows[i].parentId == rows[j].parentId)
  }

  predicate UniqueIds(rows: seq<Category>) {
    Tables.UniqueBy(rows, (c: Category) => c.id)
  }

  /** The same ids, names and parents row by row; only flags may differ. */
  predicate SameShape(a: seq<Category>, b: seq<Category>) {
    |a| == |b| && forall i :: 0 <= i < |a| ==> a[i].id == b[i].id && a[i].name == b[i].name && a[i].parentId == b[i].parentId
  }

  lemma SameShapeKeeps(a: seq<Category>, b: seq<Category>)
    requires SameShape(a, b)
    ensures UniqueIds(a) ==> UniqueIds(b)
    ensures TwoLevels(a) ==> TwoLevels(b)
    ensures NamesUniquePerLevel(a) ==> NamesUniquePerLevel(b)
  {
    if TwoLevels(a) {
      forall i | 0 <= i < |b| && b[i].parentId.Some? ensures IsTopLevelId(b, b[i].parentId.value) {
        var j :| 0 <= j < |a| && a[j].id == a[i].parentId.value && a[j].parentId.None?;
        assert b[j].id == b[i].parentId.value && b[j].parentId.None?;
      }
    }
  }

  /** `update({ default: true } [and id != except], { default: false })`. */
  function ClearDefaults(rows: seq<Category>, except: Option<Id>): (r: seq<Category>)
    ensures SameShape(rows, r)
    ensures forall i :: 0 <= i < |r| ==> r[i].isDefault == (rows[i].isDefault && Some(rows[i].id) == except)
    ensures forall i :: 0 <= i < |r| ==> r[i].active == rows[i].active && r[i].createdAt == rows[i].createdAt
  {
    Tables.UpdateWhere(rows, (c: Category) => c.isDefault && Some(c.id) != except, (c: Category) => c.(isDefault := false))
  }

  lemma AppendKeeps(rows: seq<Category>, c: Category)
    requires UniqueIds(rows) && TwoLevels(rows)
    requires forall x :: x in rows ==> x.id != c.id
    requires c.parentId.Some? ==> IsTopLevelId(rows, c.parentId.value)
    ensures UniqueIds(rows + [c]) && TwoLevels(rows + [c])
    ensures NamesUniquePerLevel(rows) && (forall x :: x in rows ==> !(SameText(x.name, c.name) && x.parentId == c.parentId)) ==>
              NamesUniquePerLevel(rows + [c])
    ensures AtMostOneDefault(rows) && (c.isDefault ==> forall x :: x in rows ==> !x.isDefault) ==> AtMostOneDefault(rows + [c])
  {
    var r := rows + [c];
    forall i, j | 0 <= i < j < |r| ensures r[i].id != r[j].id {
      if j == |rows| { assert r[i] in rows; }
    }
    forall i | 0 <= i < |r| && r[i].parentId.Some? ensures IsTopLevelId(r, r[i].parentId.value) {
      var j :| 0 <= j < |rows| && rows[j].id == r[i].parentId.value && rows[j].parentId.None?;
      assert r[j] == rows[j];
    }
    if NamesUniquePerLevel(rows) && (forall x :: x in rows ==> !(SameText(x.name, c.name) && x.parentId == c.parentId)) {
      forall i, j | 0 <= i < j < |r| ensures !(SameText(r[i].name, r[j].name) && r[i].parentId == r[j].parentId) {
        if j == |rows| { assert r[i] in rows; }
      }
    }
    if AtMostOneDefault(rows) && (c.isDefault ==> forall x :: x in rows ==> !x.isDefault) {
      forall i, j | 0 <= i < j < |r| ensures !(r[i].isDefault && r[j].isDefault) {
        if j == |rows| { assert r[i] in rows; }
      }
    }
  }

  /** What a category looks like in an answer: its fields, and its children one level down. */
  datatype CategoryDto = CategoryDto(
    id: Id, name: string, isDefault: bool, active: bool, parentId: Option<Id>, createdAt: Time,
    children: seq<CategoryDto>)

  /** mapToDto(c) without children: the fields, and an empty children list. */
  function LeafDto(c: Category): (d: CategoryDto)
    ensures d.children == []
    ensures d.id == c.id && d.name == c.name && d.parentId == c.parentId && d.isDefault == c.isDefault
    ensures d.active == c.active && d.createdAt == c.createdAt
  {
    CategoryDto(c.id, c.name, c.isDefault, c.active, c.parentId, c.createdAt, [])
  }

  /** mapToDto(c, children): always a children list, one entry per child, in order, itself childless. */
  function MapToDto(c: Category, children: seq<Category>): (d: CategoryDto)
    ensures d.id == c.id && d.name == c.name && d.parentId == c.parentId
    ensures d.isDefault == c.isDefault && d.active == c.active && d.createdAt == c.createdAt
    ensures |d.children| == |children|
    ensures forall i :: 0 <= i < |children| ==> d.children[i] == LeafDto(children[i]) && d.children[i].children == []
    ensures children == [] ==> d.children == []
  {
    CategoryDto(c.id, c.name, c.isDefault, c.active, c.parentId, c.createdAt,
                seq(|children|, i requires 0 <= i < |children| => LeafDto(children[i])))
  }

  /** The fields an update request may carry; `parentId` is `Some(None)` for an explicit null. */
  datatype CategoryUpdate = CategoryUpdate(
    name: Option<string>, parentId: Option<Option<Id>>, isDefault: Option<bool>, active: Option<bool>)

  /** `repository.update(id, dto)`: the given fields are written, the absent ones kept. */
  function ApplyUpdate(c: Category, u: CategoryUpdate): (r: Category)
    ensures r.id == c.id && r.createdAt == c.createdAt
    ensures r.name == (if u.name.Some? then u.name.value else c.name)
    ensures r.parentId == (if u.parentId.Some? then u.parentId.value else c.parentId)
    ensures r.isDefault == (if u.isDefault.Some? then u.isDefault.value else c.isDefault)
    ensures r.active == (if u.active.Some? then u.active.value else c.active)
  {
    c.(name := if u.name.Some? then u.name.value else c.name,
       parentId := if u.parentId.Some? then u.parentId.value else c.parentId,
       isDefault := if u.isDefault.Some? then u.isDefault.value else c.isDefault,
       active := if u.active.Some? then u.active.value else c.active)
  }

  function NameTakenMessage(name: string): string {
    "Category with name \"" + name + "\" already exists at this level"
  }

  /** The parent checks of update, in their order. */
  function ParentGuard(rows: seq<Category>, id: Id, u: CategoryUpdate): (r: Option<Exception>)
    ensures r.Some? ==> r.value.BadRequest?
    ensures u.parentId == Some(Some(id)) ==> r == Some(BadRequest("A category cannot be its own parent"))
    ensures r.None? && u.parentId.Some? && u.parentId.value.Some? ==>
              u.parentId.value.value != id && IsTopLevelId(rows, u.parentId.value.value) &&
              CategoryRepository.CountByParentId(rows, id) == 0
    ensures u.parentId.None? || u.parentId == Some(None) ==> r.None?
  {
    if u.parentId.None? then None
    else if u.parentId.value == Some(id) then Some(BadRequest("A category cannot be its own parent"))
    else if u.parentId.value.None? then None
    else
      var p := u.parentId.value.value;
      match Tables.FindFirst(rows, (c: Category) => c.id == p)
      case None => Some(BadRequest("Parent category not found"))
      case Some(parent) =>
        if parent.parentId.Some? then Some(BadRequest("Cannot set a subcategory as parent. Only 2 levels allowed."))
        else if CategoryRepository.CountByParentId(rows, id) > 0 then
          Some(BadRequest("Cannot convert a parent category into a child category. Remove children first."))
        else
          TopLevelWitness(rows, parent);
          None
  }

  /** A top-level row makes its id a top-level id. */
  lemma TopLevelWitness(rows: seq<Category>, parent: Category)
    requires parent in rows && parent.parentId.None?
    ensures IsTopLevelId(rows, parent.id)
  {
    var j :| 0 <= j < |rows| && rows[j] == parent;
  }

  /**
   * The parent checks pass exactly when no parent is given, the parent is cleared, or the new
   * parent is another category, top-level, and the category itself has no children.
   */
  lemma ParentGuardPasses(rows: seq<Category>, id: Id, u: CategoryUpdate)
    requires UniqueIds(rows)
    ensures ParentGuard(rows, id, u).None? <==>
              u.parentId.None? || u.parentId == Some(None) ||
              (u.parentId.value.value != id && IsTopLevelId(rows, u.parentId.value.value) &&
               CategoryRepository.CountByParentId(rows, id) == 0)
  {
    if u.parentId.Some? && u.parentId.value.Some? && u.parentId.value.value != id {
      var p := u.parentId.value.value;
      match Tables.FindFirst(rows, (c: Category) => c.id == p)
      case None =>
        forall j | 0 <= j < |rows| ensures rows[j].id != p {
          assert rows[j] in rows;
        }
      case Some(parent) =>
        ParentIsTheTopLevelOne(rows, parent);
    }
  }

  /** The level the category ends up on: the new parent when one is given, else the current one. */
  function TargetLevel(existing: Category, u: CategoryUpdate): Option<Id> {
    if u.parentId.Some? then u.parentId.value else existing.parentId
  }

  /**
   * The level condition of the name lookups as written. The lookup passes `parentId: … || null`
   * as a find option, and a `null` find option is dropped from the query, so for the top level
   * there is no level condition at all and a category of that name on any level is found.
   */
  predicate OnLookupLevel(c: Category, level: Option<Id>) {
    level.None? || c.parentId == level
  }

  /**
   * The name check of update as written: it runs only when a truthy name differs from the
   * current one, so moving a category to another level under its old name is not checked;
   * the lookup does not leave the category itself out, so a change of letter case alone
   * finds the category and is refused; and for the top level it looks at every level.
   */
  function NameGuardAsWritten(rows: seq<Category>, existing: Category, u: CategoryUpdate): (r: Option<Exception>)
    ensures r.Some? <==> TruthyText(u.name) && u.name.value != existing.name &&
                         exists c :: c in rows && SameText(c.name, u.name.value) && OnLookupLevel(c, TargetLevel(existing, u))
    ensures TargetLevel(existing, u).None? ==>
              (r.Some? <==> TruthyText(u.name) && u.name.value != existing.name &&
                            exists c :: c in rows && SameText(c.name, u.name.value))
    ensures r.Some? ==> r == Some(BadRequest(NameTakenMessage(u.name.value)))
  {
    if TruthyText(u.name) && u.name.value != existing.name then
      var level := TargetLevel(existing, u);
      if Tables.FindFirst(rows, (c: Category) => SameText(c.name, u.name.value) && OnLookupLevel(c, level)).Some?
      then Some(BadRequest(NameTakenMessage(u.name.value)))
      else None
    else None
  }

  /**
   * Renaming the top-level 'Shirts' to 'Tees', a name only a subcategory of 'Men' has, is
   * refused as written, because the top-level lookup looks at every level; the corrected
   * check lets it pass.
   */
  lemma NameGuardAsWrittenRefusesNameOfChild()
    ensures var rows := [Category("p", "Men", false, true, None, 0),
                         Category("x", "Tees", false, true, Some("p"), 0),
                         Category("y", "Shirts", false, true, None, 0)];
            var u := CategoryUpdate(Some("Tees"), None, None, None);
            && NameGuardAsWritten(rows, rows[2], u) == Some(BadRequest(NameTakenMessage("Tees")))
            && NameGuard(rows, rows[2], u).None?
  {
    var rows := [Category("p", "Men", false, true, None, 0),
                 Category("x", "Tees", false, true, Some("p"), 0),
                 Category("y", "Shirts", false, true, None, 0)];
    var u := CategoryUpdate(Some("Tees"), None, None, None);
    assert SameText(rows[1].name, "Tees");
    assert ToLower("Men") == "men" && ToLower("Tees") == "tees";
    assert !SameText(rows[0].name, "Tees");
  }

  /**
   * A child moved to the top level under a name a top-level category already has passes
   * the name check as written, and the level then holds the name twice.
   */
  lemma NameGuardAsWrittenMissesMove()
    ensures var rows := [Category("p", "Men", false, true, None, 0),
                         Category("x", "Tees", false, true, Some("p"), 0),
                         Category("y", "Tees", false, true, None, 0)];
            var u := CategoryUpdate(None, Some(None), None, None);
            && NamesUniquePerLevel(rows)
            && ParentGuard(rows, "x", u).None?
            && NameGuardAsWritten(rows, rows[1], u).None?
            && !NamesUniquePerLevel(Tables.UpdateWhere(rows, (c: Category) => c.id == "x", (c: Category) => ApplyUpdate(c, u)))
  {
    var rows := [Category("p", "Men", false, true, None, 0),
                 Category("x", "Tees", false, true, Some("p"), 0),
                 Category("y", "Tees", false, true, None, 0)];
    var u := CategoryUpdate(None, Some(None), None, None);
    var after := Tables.UpdateWhere(rows, (c: Category) => c.id == "x", (c: Category) => ApplyUpdate(c, u));
    assert after[1].name == after[2].name && after[1].parentId == after[2].parentId;
  }

  /**
   * Renaming 'Tees' to 'TEES' finds 'Tees' itself under the collation, so the name check as
   * written refuses it; the corrected check leaves the category itself out and lets it pass.
   */
  lemma NameGuardAsWrittenRefusesRecase()
    ensures var rows := [Category("x", "Tees", false, true, None, 0)];
            var u := CategoryUpdate(Some("TEES"), None, None, None);
            && NameGuardAsWritten(rows, rows[0], u) == Some(BadRequest(NameTakenMessage("TEES")))
            && NameGuard(rows, rows[0], u).None?
  {
    var rows := [Category("x", "Tees", false, true, None, 0)];
    assert ToLower("Tees") == "tees";
    assert ToLower("TEES") == "tees";
    assert SameText(rows[0].name, "TEES");
  }

  /**
   * The name check of update, corrected: whenever the name or the level changes, no other
   * category may have the resulting name, in any letter case, on the resulting level.
   */
  function NameGuard(rows: seq<Category>, existing: Category, u: CategoryUpdate): (r: Option<Exception>)
    ensures r.None? <==>
              (ApplyUpdate(existing, u).name == existing.name && ApplyUpdate(existing, u).parentId == existing.parentId) ||
              forall c :: c in rows && c.id != existing.id ==>
                !(SameText(c.name, ApplyUpdate(existing, u).name) && c.parentId == ApplyUpdate(existing, u).parentId)
    ensures r.Some? ==> r == Some(BadRequest(NameTakenMessage(ApplyUpdate(existing, u).name)))
  {
    var target := ApplyUpdate(existing, u);
    if (target.name != existing.name || target.parentId != existing.parentId) &&
       Tables.FindFirst(rows, (c: Category) => c.id != existing.id && SameText(c.name, target.name) && c.parentId == target.parentId).Some?
    then Some(BadRequest(NameTakenMessage(target.name)))
    else None
  }

  /** The corrected check keeps names unique per level through an update. */
  lemma NameGuardKeepsNamesUnique(rows: seq<Category>, existing: Category, u: CategoryUpdate)
    requires UniqueIds(rows) && NamesUniquePerLevel(rows) && existing in rows
    requires NameGuard(rows, existing, u).None?
    ensures NamesUniquePerLevel(Tables.UpdateWhere(rows, (c: Category) => c.id == existing.id, (c: Category) => ApplyUpdate(c, u)))
  {
    var r := Tables.UpdateWhere(rows, (c: Category) => c.id == existing.id, (c: Category) => ApplyUpdate(c, u));
    var k :| 0 <= k < |rows| && rows[k] == existing;
    forall i, j | 0 <= i < j < |r| ensures !(SameText(r[i].name, r[j].name) && r[i].parentId == r[j].parentId) {
      if rows[i].id == existing.id {
        assert i == k;
        assert rows[j] in rows;
      } else if rows[j].id == existing.id {
        assert j == k;
        assert rows[i] in rows;
      }
    }
  }

  /** ensureDefaultCategoryExists as written: 'General' is inserted without touching other default flags. */
  function EnsureDefaultAsWritten(rows: seq<Category>, newId: Id, now: Time): (r: seq<Category>)
    ensures CategoryRepository.FindDefaultCategory(r).Some?
    ensures |rows| <= |r| <= |rows| + 1 && r[..|rows|] == rows
  {
    if CategoryRepository.FindDefaultCategory(rows).Some? then rows
    else rows + [Category(newId, "General", true, true, None, now)]
  }

  /** A deactivated default is not found, so a second default category appears. */
  lemma EnsureDefaultAsWrittenMakesTwoDefaults()
    ensures var rows := [Category("c1", "Old", true, false, None, 0)];
            AtMostOneDefault(rows) && !AtMostOneDefault(EnsureDefaultAsWritten(rows, "c2", 0))
  {
    var rows := [Category("c1", "Old", true, false, None, 0)];
    assert CategoryRepository.FindDefaultCategory(rows).None? by {
      assert forall c :: c in rows ==> c == rows[0];
    }
    var after := EnsureDefaultAsWritten(rows, "c2", 0);
    assert after[0].isDefault && after[1].isDefault;
  }

  /**
   * ensureDefaultCategoryExists, corrected: when no active default exists, the default flag is
   * cleared everywhere first and 'General' is inserted as the default, active, top-level.
   */
  function EnsureDefault(rows: seq<Category>, newId: Id, now: Time): (r: Result<seq<Category>, Exception>)
    ensures CategoryRepository.FindDefaultCategory(rows).Some? ==> r == Success(rows)
    ensures r.Success? ==> CategoryRepository.FindDefaultCategory(r.value).Some?
    ensures r.Success? && AtMostOneDefault(rows) ==> AtMostOneDefault(r.value)
    ensures r.Failure? <==> CategoryRepository.FindDefaultCategory(rows).None? && exists c :: c in rows && c.id == newId
    ensures CategoryRepository.FindDefaultCategory(rows).None? && (forall c :: c in rows ==> c.id != newId) ==>
              r == Success(ClearDefaults(rows, None) + [Category(newId, "General", true, true, None, now)])
  {
    if CategoryRepository.FindDefaultCategory(rows).Some? then Success(rows)
    else if exists c :: c in rows && c.id == newId then Failure(DuplicateEntry)
    else
      var cleared := ClearDefaults(rows, None);
      var g := Category(newId, "General", true, true, None, now);
      var r := cleared + [g];
      assert g in r;
      forall i, j | 0 <= i < j < |r| ensures !(r[i].isDefault && r[j].isDefault) {
        assert !r[i].isDefault;
      }
      Success(r)
  }

  /** Running it again changes nothing: once an active default exists it is found. */
  lemma EnsureDefaultIdempotent(rows: seq<Category>, id1: Id, id2: Id, t1: Time, t2: Time)
    requires EnsureDefault(rows, id1, t1).Success?
    ensures EnsureDefault(EnsureDefault(rows, id1, t1).value, id2, t2) == EnsureDefault(rows, id1, t1)
  {
  }

  /** The table after a service call, and what the call answers. */
  datatype Outcome<T> = Outcome(rows: seq<Category>, result: Result<T, Exception>)

  /** The checks of create, in their order: the parent exists and is top-level, the name is free on its level. */
  function CreateGuard(rows: seq<Category>, name: string, parentId: Option<Id>): (r: Option<Exception>)
    ensures r.Some? ==> r.value.BadRequest?
    ensures parentId.None? ==> (r.None? <==> forall c :: c in rows ==> !(SameText(c.name, name) && c.parentId.None?))
    ensures parentId.None? && r.Some? ==> r == Some(BadRequest(NameTakenMessage(name)))
  {
    var parent := if parentId.Some? then Tables.FindFirst(rows, (c: Category) => c.id == parentId.value) else None;
    if parentId.Some? && parent.None? then
      Some(BadRequest("Parent category with id \"" + parentId.value + "\" not found"))
    else if parentId.Some? && parent.value.parentId.Some? then
      Some(BadRequest("Cannot create a subcategory of a subcategory. Only 2 levels allowed."))
    else if Tables.FindFirst(rows, (c: Category) => SameText(c.name, name) && c.parentId == parentId).Some? then
      Some(BadRequest(NameTakenMessage(name)))
    else None
  }

  /**
   * The checks of create as written: the parent checks as in CreateGuard, but the name lookup
   * for a new top-level category has no level condition (see OnLookupLevel), so a name that
   * any category has, on any level, is refused.
   */
  function CreateGuardAsWritten(rows: seq<Category>, name: string, parentId: Option<Id>): (r: Option<Exception>)
    ensures parentId.Some? ==> r == CreateGuard(rows, name, parentId)
    ensures parentId.None? ==> (r.Some? <==> exists c :: c in rows && SameText(c.name, name))
    ensures parentId.None? && r.Some? ==> r == Some(BadRequest(NameTakenMessage(name)))
  {
    var parent := if parentId.Some? then Tables.FindFirst(rows, (c: Category) => c.id == parentId.value) else None;
    if parentId.Some? && parent.None? then
      Some(BadRequest("Parent category with id \"" + parentId.value + "\" not found"))
    else if parentId.Some? && parent.value.parentId.Some? then
      Some(BadRequest("Cannot create a subcategory of a subcategory. Only 2 levels allowed."))
    else if Tables.FindFirst(rows, (c: Category) => SameText(c.name, name) && OnLookupLevel(c, parentId)).Some? then
      Some(BadRequest(NameTakenMessage(name)))
    else None
  }

  /**
   * Creating a top-level 'Tees' beside the subcategory 'Tees' of 'Men' is refused as written,
   * although no top-level category has the name; the corrected guard lets it pass.
   */
  lemma CreateGuardAsWrittenRefusesNameOfChild()
    ensures var rows := [Category("p", "Men", false, true, None, 0),
                         Category("x", "Tees", false, true, Some("p"), 0)];
            && CreateGuardAsWritten(rows, "Tees", None) == Some(BadRequest(NameTakenMessage("Tees")))
            && CreateGuard(rows, "Tees", None).None?
  {
    var rows := [Category("p", "Men", false, true, None, 0),
                 Category("x", "Tees", false, true, Some("p"), 0)];
    assert SameText(rows[1].name, "Tees");
    assert ToLower("Men") == "men" && ToLower("Tees") == "tees";
    assert !SameText(rows[0].name, "Tees");
  }

  /**
   * create: the guards; then a default clears the other defaults, and an id already taken
   * fails in the insert, after that clear.
   */
  function Creation(rows: seq<Category>, name: string, parentId: Option<Id>, isDefault: bool, active: bool,
                    newId: Id, now: Time): (o: Outcome<CategoryDto>)
    ensures CreateGuard(rows, name, parentId).Some? ==> o.rows == rows && o.result.Failure?
    ensures o.result.Success? ==> && |o.rows| == |rows| + 1
                                  && o.rows[|rows|] == Category(newId, name, isDefault, active, parentId, now)
                                  && o.result.value.id == newId && o.result.value.children == []
    ensures o.result.Failure? ==> o.result.error.BadRequest? || o.result.error == DuplicateEntry
  {
    match CreateGuard(rows, name, parentId)
    case Some(e) => Outcome(rows, Failure(e))
    case None =>
      var cleared := if isDefault then ClearDefaults(rows, None) else rows;
      var category := Category(newId, name, isDefault, active, parentId, now);
      if exists c :: c in rows && c.id == newId then Outcome(cleared, Failure(DuplicateEntry))
      else Outcome(cleared + [category], Success(MapToDto(category, [])))
  }

  /** create rejects only with BadRequest, and an unknown parent with a message naming its id. */
  lemma CreateGuardRejects(rows: seq<Category>, name: string, parentId: Option<Id>)
    ensures var g := CreateGuard(rows, name, parentId);
            && (g.Some? ==> g.value.BadRequest?)
            && (parentId.Some? && (forall c :: c in rows ==> c.id != parentId.value) ==>
                  g == Some(BadRequest("Parent category with id \"" + parentId.value + "\" not found")))
  {
  }

  /**
   * A create passes its guards exactly when the parent, if one is given, is a top-level
   * category and no category on the new one's level has its name in any letter case.
   */
  lemma CreateGuardPasses(rows: seq<Category>, name: string, parentId: Option<Id>)
    requires UniqueIds(rows)
    ensures CreateGuard(rows, name, parentId).None? <==>
              && (parentId.Some? ==> IsTopLevelId(rows, parentId.value))
              && forall c :: c in rows ==> !(SameText(c.name, name) && c.parentId == parentId)
  {
    if parentId.Some? {
      var parent := Tables.FindFirst(rows, (c: Category) => c.id == parentId.value);
      if parent.Some? {
        ParentIsTheTopLevelOne(rows, parent.value);
      } else {
        forall j | 0 <= j < |rows| ensures rows[j].id != parentId.value {
          assert rows[j] in rows;
        }
      }
    }
  }

  /** With unique ids, the category holding an id is top-level exactly when the id is a top-level one. */
  lemma ParentIsTheTopLevelOne(rows: seq<Category>, parent: Category)
    requires UniqueIds(rows) && parent in rows
    ensures parent.parentId.None? <==> IsTopLevelId(rows, parent.id)
  {
    var k :| 0 <= k < |rows| && rows[k] == parent;
    if IsTopLevelId(rows, parent.id) {
      var j :| 0 <= j < |rows| && rows[j].id == parent.id && rows[j].parentId.None?;
      assert j == k;
    }
  }

  /**
   * A rejected create changes nothing. One that passes the guards clears the other defaults
   * when the new category is the default, then appends it and answers it with no children;
   * an id already taken fails the insert with only the clear done.
   */
  lemma CreationWrites(rows: seq<Category>, name: string, parentId: Option<Id>, isDefault: bool, active: bool,
                       newId: Id, now: Time)
    ensures var out := Creation(rows, name, parentId, isDefault, active, newId, now);
            var cleared := if isDefault then ClearDefaults(rows, None) else rows;
            var c := Category(newId, name, isDefault, active, parentId, now);
            && (CreateGuard(rows, name, parentId).Some? ==> out == Outcome(rows, Failure(CreateGuard(rows, name, parentId).value)))
            && (CreateGuard(rows, name, parentId).None? && (exists x :: x in rows && x.id == newId) ==>
                  out == Outcome(cleared, Failure(DuplicateEntry)))
            && (CreateGuard(rows, name, parentId).None? && (forall x :: x in rows ==> x.id != newId) ==>
                  out == Outcome(cleared + [c], Success(MapToDto(c, []))))
  {
  }

  /** create keeps the table valid, and names unique per level when they were. */
  lemma CreationKeepsValid(rows: seq<Category>, name: string, parentId: Option<Id>, isDefault: bool, active: bool,
                           newId: Id, now: Time)
    requires UniqueIds(rows) && TwoLevels(rows) && AtMostOneDefault(rows)
    ensures var after := Creation(rows, name, parentId, isDefault, active, newId, now).rows;
            && UniqueIds(after) && TwoLevels(after) && AtMostOneDefault(after)
            && (NamesUniquePerLevel(rows) ==> NamesUniquePerLevel(after))
  {
    var out := Creation(rows, name, parentId, isDefault, active, newId, now);
    CreateGuardPasses(rows, name, parentId);
    CreationWrites(rows, name, parentId, isDefault, active, newId, now);
    if out.result.Success? {
      var c := Category(newId, name, isDefault, active, parentId, now);
      if parentId.Some? {
        match Tables.FindFirst(rows, (c: Category) => c.id == parentId.value)
        case None =>
        case Some(parent) => TopLevelWitness(rows, parent);
      }
      CreateKeepsValid(rows, c);
    } else if out.rows != rows {
      ClearKeepsValid(rows, None);
    }
  }

  function InUseMessage(name: string, used: nat): string {
    "Cannot delete category \"" + name + "\" because it is being used by " + NatToString(used) + " product(s). " +
    "Please remove this category from all products before deleting."
  }

  function HasChildrenMessage(name: string, children: nat): string {
    "Cannot delete category \"" + name + "\" because it has " + NatToString(children) + " subcategory(ies). " +
    "Please delete or reassign all subcategories first."
  }

  const OnlyDefaultMessage := "Cannot delete the default category when it is the only active category. " +
                              "Please create another category and set it as default first."

  /** remove: the guards in their order, then the delete. */
  function Removal(rows: seq<Category>, products: seq<Product>, id: Id): (o: Outcome<bool>)
    ensures o.result.Failure? ==> o.rows == rows
    ensures o.result.Failure? ==> o.result.error.BadRequest? || o.result.error == NotFound("Category not found")
    ensures o.result.Success? ==> o.result.value && forall c :: c in o.rows <==> c in rows && c.id != id
  {
    match Tables.FindFirst(rows, (c: Category) => c.id == id)
    case None => Outcome(rows, Failure(NotFound("Category not found")))
    case Some(category) =>
      var used := Tables.Count(products, (p: Product) => id in p.categoryIds);
      var children := CategoryRepository.CountByParentId(rows, id);
      if used > 0 then Outcome(rows, Failure(BadRequest(InUseMessage(category.name, used))))
      else if children > 0 then Outcome(rows, Failure(BadRequest(HasChildrenMessage(category.name, children))))
      else if category.isDefault && Tables.Count(rows, (c: Category) => c.active) <= 1 then
        Outcome(rows, Failure(BadRequest(OnlyDefaultMessage)))
      else Outcome(Tables.Filter(rows, (c: Category) => c.id != id), Success(true))
  }

  /**
   * remove fails with NotFound for an unknown id, and is rejected while products use the
   * category, while it has subcategories, or when it is the default and at most one category
   * is active; a rejection changes nothing, and a success deletes exactly that category.
   */
  lemma RemovalSpec(rows: seq<Category>, products: seq<Product>, id: Id)
    requires UniqueIds(rows)
    ensures var out := Removal(rows, products, id);
            && (Tables.FindFirst(rows, (c: Category) => c.id == id).None? ==> out.result == Failure(NotFound("Category not found")))
            && ((exists p :: p in products && id in p.categoryIds) ==> out.result.Failure?)
            && (CategoryRepository.CountByParentId(rows, id) > 0 ==> out.result.Failure?)
            && ((exists c :: c in rows && c.id == id && c.isDefault) && Tables.Count(rows, (c: Category) => c.active) <= 1 ==>
                  out.result.Failure?)
            && ((exists c :: c in rows && c.id == id) && (forall p :: p in products ==> id !in p.categoryIds) &&
                CategoryRepository.CountByParentId(rows, id) == 0 &&
                !((exists c :: c in rows && c.id == id && c.isDefault) && Tables.Count(rows, (c: Category) => c.active) <= 1) ==>
                  out.result == Success(true))
            && (out.result.Failure? ==> out.rows == rows && (out.result.error.NotFound? || out.result.error.BadRequest?))
            && (out.result.Success? ==>
                  && out.result.value && out.rows == Tables.Filter(rows, (c: Category) => c.id != id)
                  && (exists c :: c in rows && c.id == id) && forall c :: c in out.rows ==> c.id != id)
  {
    match Tables.FindFirst(rows, (c: Category) => c.id == id)
    case None =>
    case Some(category) =>
      UniqueIdsSameRow(rows, category);
  }

  /** remove keeps the table valid. */
  lemma RemovalKeepsValid(rows: seq<Category>, products: seq<Product>, id: Id)
    requires UniqueIds(rows) && TwoLevels(rows) && AtMostOneDefault(rows)
    ensures var after := Removal(rows, products, id).rows;
            UniqueIds(after) && TwoLevels(after) && AtMostOneDefault(after)
  {
    if Removal(rows, products, id).result.Success? {
      DeleteKeepsValid(rows, id);
    }
  }

  class CategoriesService {
    var categories: seq<Category>

    predicate Valid()
      reads this
    {
      UniqueIds(categories) && TwoLevels(categories) && AtMostOneDefault(categories)
    }

    constructor(rows: seq<Category>)
      requires UniqueIds(rows) && TwoLevels(rows) && AtMostOneDefault(rows)
      ensures categories == rows && Valid()
    {
      categories := rows;
    }

    /**
     * create: the parent, when given, must exist and be top-level; the name must be new on its
     * level; a new default clears every other default flag first. `parentId` is a UUID or
     * absent, as the request validation demands.
     */
    method Create(name: string, parentId: Option<Id>, isDefault: bool, active: bool, newId: Id, now: Time)
      returns (r: Result<CategoryDto, Exception>)
      requires Valid()
      requires parentId != Some("")
      modifies this
      ensures Valid()
      ensures Outcome(categories, r) == Creation(old(categories), name, parentId, isDefault, active, newId, now)
    {
      CreationKeepsValid(categories, name, parentId, isDefault, active, newId, now);
      var before := categories;
      if parentId.Some? {
        var parent := Tables.FindFirst(categories, (c: Category) => c.id == parentId.value);
        if parent.None? {
          return Failure(BadRequest("Parent category with id \"" + parentId.value + "\" not found"));
        }
        if parent.value.parentId.Some? {
          return Failure(BadRequest("Cannot create a subcategory of a subcategory. Only 2 levels allowed."));
        }
      }
      var existing := Tables.FindFirst(categories, (c: Category) => SameText(c.name, name) && c.parentId == parentId);
      if existing.Some? {
        return Failure(BadRequest(NameTakenMessage(name)));
      }
      if isDefault {
        categories := ClearDefaults(categories, None);
      }
      if exists c :: c in before && c.id == newId {
        return Failure(DuplicateEntry);
      }
      var category := Category(newId, name, isDefault, active, parentId, now);
      categories := categories + [category];
      return Success(MapToDto(category, []));
    }

    /**
     * update: NotFound for an unknown id; the parent guards; the name guard (corrected, see
     * NameGuardAsWritten); a default clears the other defaults; then the given fields are
     * written and the category is returned with all its children.
     */
    method Update(id: Id, u: CategoryUpdate) returns (r: Result<CategoryDto, Exception>)
      requires Valid()
      requires u.parentId != Some(Some(""))
      modifies this
      ensures Valid()
      ensures NamesUniquePerLevel(old(categories)) ==> NamesUniquePerLevel(categories)
      ensures Tables.FindFirst(old(categories), (c: Category) => c.id == id).None? ==> r == Failure(NotFound("Category not found"))
      ensures r.Failure? ==> categories == old(categories) && (r.error.NotFound? || r.error.BadRequest?)
      ensures u.parentId == Some(Some(id)) ==> r.Failure?
      ensures r.Success? <==> var found := Tables.FindFirst(old(categories), (c: Category) => c.id == id);
                              found.Some? && ParentGuard(old(categories), id, u).None? &&
                              NameGuard(old(categories), found.value, u).None?
      ensures r.Success? ==>
                && categories == UpdateState(old(categories), id, u)
                && r.value == MapToDto(ApplyUpdate(Tables.FindFirst(old(categories), (c: Category) => c.id == id).value, u),
                                       Tables.Filter(categories, (c: Category) => c.parentId == Some(id)))
    {
      var found := Tables.FindFirst(categories, (c: Category) => c.id == id);
      if found.None? {
        return Failure(NotFound("Category not found"));
      }
      var existing := found.value;
      var parentError := ParentGuard(categories, id, u);
      if parentError.Some? {
        return Failure(parentError.value);
      }
      var nameError := NameGuard(categories, existing, u);
      if nameError.Some? {
        return Failure(nameError.value);
      }
      UpdateKeepsValid(categories, id, existing, u);
      if u.isDefault == Some(true) {
        categories := ClearDefaults(categories, Some(id));
      }
      categories := Tables.UpdateWhere(categories, (c: Category) => c.id == id, (c: Category) => ApplyUpdate(c, u));
      return Success(MapToDto(ApplyUpdate(existing, u), Tables.Filter(categories, (c: Category) => c.parentId == Some(id))));
    }

    /**
     * remove: NotFound for an unknown id; rejected while products use the category, while it
     * has subcategories, or when it is the default and at most one category is active.
     */
    method Remove(id: Id, products: seq<Product>) returns (r: Result<bool, Exception>)
      requires Valid()
      modifies this
      ensures Valid()
      ensures Outcome(categories, r) == Removal(old(categories), products, id)
    {
      RemovalKeepsValid(categories, products, id);
      var found := Tables.FindFirst(categories, (c: Category) => c.id == id);
      if found.None? {
        return Failure(NotFound("Category not found"));
      }
      var category := found.value;
      var used := Tables.Count(products, (p: Product) => id in p.categoryIds);
      if used > 0 {
        return Failure(BadRequest(InUseMessage(category.name, used)));
      }
      var children := CategoryRepository.CountByParentId(categories, id);
      if children > 0 {
        return Failure(BadRequest(HasChildrenMessage(category.name, children)));
      }
      if category.isDefault {
        var totalActive := Tables.Count(categories, (c: Category) => c.active);
        if totalActive <= 1 {
          return Failure(BadRequest(OnlyDefaultMessage));
        }
      }
      categories := Tables.Filter(categories, (c: Category) => c.id != id);
      return Success(true);
    }

    /** ensureDefaultCategoryExists (corrected, see EnsureDefaultAsWritten). */
    method EnsureDefaultCategoryExists(newId: Id, now: Time) returns (error: Option<Exception>)
      requires Valid()
      modifies this
      ensures Valid()
      ensures var spec := EnsureDefault(old(categories), newId, now);
              if spec.Success? then categories == spec.value && error.None?
              else categories == old(categories) && error == Some(spec.error)
    {
      var spec := EnsureDefault(categories, newId, now);
      if spec.Failure? {
        return Some(spec.error);
      }
      if CategoryRepository.FindDefaultCategory(categories).None? {
        var cleared := ClearDefaults(categories, None);
        SameShapeKeeps(categories, cleared);
        var g := Category(newId, "General", true, true, None, now);
        AppendKeeps(cleared, g);
        categories := cleared + [g];
      }
      return None;
    }
  }

  /** Two rows with the id of a row in a table with unique ids are that row. */
  lemma UniqueIdsSameRow(rows: seq<Category>, c: Category)
    requires UniqueIds(rows) && c in rows
    ensures forall x :: x in rows && x.id == c.id ==> x == c
  {
  }

  /**
   * The table after update writes: with `default: true` the other defaults are cleared, then
   * the category's row takes the given fields. Other rows change in nothing but that flag.
   */
  function UpdateState(rows: seq<Category>, id: Id, u: CategoryUpdate): (r: seq<Category>)
    ensures |r| == |rows|
    ensures forall k :: 0 <= k < |rows| && rows[k].id == id ==> r[k] == ApplyUpdate(rows[k], u)
    ensures forall k :: 0 <= k < |rows| && rows[k].id != id ==>
              r[k] == rows[k].(isDefault := rows[k].isDefault && u.isDefault != Some(true))
  {
    var cleared := if u.isDefault == Some(true) then ClearDefaults(rows, Some(id)) else rows;
    Tables.UpdateWhere(cleared, (c: Category) => c.id == id, (c: Category) => ApplyUpdate(c, u))
  }

  /** Clearing default flags keeps the tree, the ids, the single default and the names per level. */
  lemma ClearKeepsValid(rows: seq<Category>, except: Option<Id>)
    requires UniqueIds(rows) && TwoLevels(rows) && AtMostOneDefault(rows)
    ensures var r := ClearDefaults(rows, except);
            UniqueIds(r) && TwoLevels(r) && AtMostOneDefault(r) && (NamesUniquePerLevel(rows) ==> NamesUniquePerLevel(r))
  {
    SameShapeKeeps(rows, ClearDefaults(rows, except));
  }

  /** The write of update keeps the tree two-level, the ids unique, the default single and names per level unique. */
  lemma UpdateKeepsValid(rows: seq<Category>, id: Id, existing: Category, u: CategoryUpdate)
    requires UniqueIds(rows) && TwoLevels(rows) && AtMostOneDefault(rows)
    requires existing in rows && existing.id == id
    requires ParentGuard(rows, id, u).None? && NameGuard(rows, existing, u).None?
    ensures var after := UpdateState(rows, id, u);
            UniqueIds(after) && TwoLevels(after) && AtMostOneDefault(after)
    ensures NamesUniquePerLevel(rows) ==> NamesUniquePerLevel(UpdateState(rows, id, u))
  {
    var after := UpdateState(rows, id, u);
    assert forall k :: 0 <= k < |rows| ==> after[k].id == rows[k].id;
    UpdateKeepsTwoLevels(rows, id, u);
    forall i, j | 0 <= i < j < |after| ensures !(after[i].isDefault && after[j].isDefault) {
      assert rows[i].id != rows[j].id;
    }
    if NamesUniquePerLevel(rows) {
      UpdateKeepsNames(rows, id, existing, u);
    }
  }

  lemma UpdateKeepsTwoLevels(rows: seq<Category>, id: Id, u: CategoryUpdate)
    requires UniqueIds(rows) && TwoLevels(rows)
    requires ParentGuard(rows, id, u).None?
    ensures TwoLevels(UpdateState(rows, id, u))
  {
    var after := UpdateState(rows, id, u);
    forall i | 0 <= i < |after| && after[i].parentId.Some? ensures IsTopLevelId(after, after[i].parentId.value) {
      var p := after[i].parentId.value;
      var j :| 0 <= j < |rows| && rows[j].id == p && rows[j].parentId.None?;
      if rows[i].id != id && u.parentId.Some? && u.parentId.value.Some? {
        assert rows[i] in rows;
      }
      assert after[j].id == p && after[j].parentId.None?;
    }
  }

  lemma UpdateKeepsNames(rows: seq<Category>, id: Id, existing: Category, u: CategoryUpdate)
    requires UniqueIds(rows) && NamesUniquePerLevel(rows)
    requires existing in rows && existing.id == id
    requires NameGuard(rows, existing, u).None?
    ensures NamesUniquePerLevel(UpdateState(rows, id, u))
  {
    var r := Tables.UpdateWhere(rows, (c: Category) => c.id == existing.id, (c: Category) => ApplyUpdate(c, u));
    NameGuardKeepsNamesUnique(rows, existing, u);
    var after := UpdateState(rows, id, u);
    assert SameShape(r, after) by {
      forall k | 0 <= k < |rows| ensures r[k].id == after[k].id && r[k].name == after[k].name && r[k].parentId == after[k].parentId {
        if rows[k].id == id {
          assert r[k] == ApplyUpdate(rows[k], u) == after[k];
        } else {
          assert r[k] == rows[k];
        }
      }
    }
    SameShapeKeeps(r, after);
  }

  /** The writes of create keep the tree two-level, the ids unique, the default single and names per level unique. */
  lemma CreateKeepsValid(rows: seq<Category>, c: Category)
    requires UniqueIds(rows) && TwoLevels(rows) && AtMostOneDefault(rows)
    requires forall x :: x in rows ==> x.id != c.id && !(SameText(x.name, c.name) && x.parentId == c.parentId)
    requires c.parentId.Some? ==> IsTopLevelId(rows, c.parentId.value)
    ensures var after := (if c.isDefault then ClearDefaults(rows, None) else rows) + [c];
            UniqueIds(after) && TwoLevels(after) && AtMostOneDefault(after) &&
            (NamesUniquePerLevel(rows) ==> NamesUniquePerLevel(after))
  {
    var cleared := if c.isDefault then ClearDefaults(rows, None) else rows;
    SameShapeKeeps(rows, cleared);
    forall x | x in cleared ensures x.id != c.id && !(SameText(x.name, c.name) && x.parentId == c.parentId) {
      var k :| 0 <= k < |cleared| && cleared[k] == x;
      assert rows[k] in rows;
    }
    if c.parentId.Some? {
      var j :| 0 <= j < |rows| && rows[j].id == c.parentId.value && rows[j].parentId.None?;
      assert cleared[j].id == c.parentId.value && cleared[j].parentId.None?;
    }
    if c.isDefault {
      ClearKeepsValid(rows, None);
      assert forall x :: x in cleared ==> !x.isDefault;
    }
    AppendKeeps(cleared, c);
  }

  /** Two rows with different ids that are not both the default. */
  predicate Apart(a: Category, b: Category) {
    a.id != b.id && !(a.isDefault && b.isDefault)
  }

  /** Deleting a category without children keeps the tree two-level, ids unique and the default single. */
  lemma DeleteKeepsValid(rows: seq<Category>, id: Id)
    requires UniqueIds(rows) && TwoLevels(rows) && AtMostOneDefault(rows)
    requires CategoryRepository.CountByParentId(rows, id) == 0
    ensures var r := Tables.Filter(rows, (c: Category) => c.id != id);
            UniqueIds(r) && TwoLevels(r) && AtMostOneDefault(r)
  {
    var r := Tables.Filter(rows, (c: Category) => c.id != id);
    assert Tables.Pairwise(rows, Apart) by {
      forall i, j | 0 <= i < j < |rows| ensures Apart(rows[i], rows[j]) {
      }
    }
    Tables.FilterKeepsPairwise(rows, (c: Category) => c.id != id, Apart);
    forall i, j | 0 <= i < j < |r| ensures r[i].id != r[j].id && !(r[i].isDefault && r[j].isDefault) {
      assert Apart(r[i], r[j]);
    }
    forall i | 0 <= i < |r| && r[i].parentId.Some? ensures IsTopLevelId(r, r[i].parentId.value) {
      KeptParentKept(rows, id, r, r[i]);
    }
  }

  /** The parent of a kept row is kept too, since the deleted category has no children. */
  lemma KeptParentKept(rows: seq<Category>, id: Id, r: seq<Category>, c: Category)
    requires TwoLevels(rows)
    requires forall x :: x in rows ==> x.parentId != Some(id)
    requires forall x :: x in r ==> x in rows
    requires forall x :: x in rows && x.id != id ==> x in r
    requires c in r && c.parentId.Some?
    ensures IsTopLevelId(r, c.parentId.value)
  {
    var k :| 0 <= k < |rows| && rows[k] == c;
    var j :| 0 <= j < |rows| && rows[j].id == c.parentId.value && rows[j].parentId.None?;
    assert rows[j] in r;
    var m :| 0 <= m < |r| && r[m] == rows[j];
  }
}

/**
 * QualitiesService: creation, update, deletion and seeding of the product qualities. The
 * `qualities` table has a unique `name` column, so a write that would repeat a name (or an
 * id) fails at the database with `DuplicateEntry` and changes nothing. Names are compared
 * under the column's case-insensitive collation (Text.SameText), by the unique index and by
 * every lookup alike; products reference a quality by a foreign key without a delete rule.
 */
module Qualities {
  import opened Wrappers
  import opened Text
  import opened Entities
  import opened Errors
  import Tables
  import QualityRepository

  /** The unique constraints of the table: the primary key and the name. */
  predicate UniqueRows(rows: seq<Quality>) {
    Tables.Pairwise(rows, QualitiesApart)
  }

  /** Two rows never share an id or a name. */
  predicate QualitiesApart(a: Quality, b: Quality) {
    a.id != b.id && !SameText(a.name, b.name)
  }

  /** A row with this id and name can be inserted without breaking a unique constraint. */
  predicate Insertable(rows: seq<Quality>, id: Id, name: string) {
    forall x :: x in rows ==> x.id != id && !SameText(x.name, name)
  }

  /** No row other than `id`'s has this name. */
  predicate NameFreeFor(rows: seq<Quality>, id: Id, name: string) {
    forall x :: x in rows && x.id != id ==> !SameText(x.name, name)
  }

  lemma AppendKeepsUnique(rows: seq<Quality>, q: Quality)
    requires UniqueRows(rows) && Insertable(rows, q.id, q.name)
    ensures UniqueRows(rows + [q])
  {
    var r := rows + [q];
    forall i, j | 0 <= i < j < |r| ensures QualitiesApart(r[i], r[j]) {
      if j == |rows| { assert r[i] in rows; } else { assert QualitiesApart(rows[i], rows[j]); }
    }
  }

  function AlreadyExists(name: string): string {
    "Quality with name \"" + name + "\" already exists"
  }

  /** One of the qualities the shop starts with. */
  datatype DefaultQuality = DefaultQuality(name: string, description: string)

  const DefaultQualities: seq<DefaultQuality> := [
    DefaultQuality("premium", "Calidad premium con materiales de alta gama"),
    DefaultQuality("intermedia", "Calidad intermedia con buen balance precio-calidad"),
    DefaultQuality("basica", "Calidad básica accesible para todos")
  ]

  /** The table after seeding, and the error that stopped seeding early, if one did. */
  datatype SeedOutcome = SeedOutcome(rows: seq<Quality>, error: Option<Exception>)

  /** Some row, active or not, already has this name. */
  predicate NameTaken(rows: seq<Quality>, name: string) {
    exists x :: x in rows && SameText(x.name, name)
  }

  /**
   * One round of the seeding loop as written: a default is skipped only when an ACTIVE row
   * has its name, so a deactivated default is inserted again and the unique name stops it.
   */
  function SeedStepAsWritten(rows: seq<Quality>, d: DefaultQuality, id: Id, now: Time): (r: Result<seq<Quality>, Exception>)
    ensures QualityRepository.FindByName(rows, d.name).Some? ==> r == Success(rows)
    ensures QualityRepository.FindByName(rows, d.name).None? && NameTaken(rows, d.name) ==> r == Failure(DuplicateEntry)
  {
    if QualityRepository.FindByName(rows, d.name).Some? then Success(rows)
    else if !Insertable(rows, id, d.name) then Failure(DuplicateEntry)
    else Success(rows + [Quality(id, d.name, Some(d.description), true, now)])
  }

  /** With 'premium' deactivated, the first round fails and the other defaults are never reached. */
  lemma SeedStopsAtDeactivatedDefault()
    ensures var rows := [Quality("q1", "premium", None, false, 0)];
            SeedStepAsWritten(rows, DefaultQualities[0], "q2", 0) == Failure(DuplicateEntry)
  {
    var rows := [Quality("q1", "premium", None, false, 0)];
    assert rows[0] in rows;
  }

  /**
   * One round of the seeding loop: a default whose name the table already has, on an active
   * or an inactive row, is skipped; otherwise it is inserted, active, with the fresh id.
   */
  function SeedStep(rows: seq<Quality>, d: DefaultQuality, id: Id, now: Time): (r: Result<seq<Quality>, Exception>)
    ensures NameTaken(rows, d.name) ==> r == Success(rows)
    ensures r.Success? ==> rows <= r.value && NameTaken(r.value, d.name)
    ensures r.Failure? <==> !NameTaken(rows, d.name) && exists x :: x in rows && x.id == id
    ensures r.Failure? ==> r.error == DuplicateEntry
  {
    if NameTaken(rows, d.name) then Success(rows)
    else if !Insertable(rows, id, d.name) then Failure(DuplicateEntry)
    else
      var q := Quality(id, d.name, Some(d.description), true, now);
      assert q in rows + [q];
      Success(rows + [q])
  }

  /** seedDefaultQualities from the `i`-th default on; the `i`-th insert uses `uuid(i)`. */
  function SeedFrom(rows: seq<Quality>, defaults: seq<DefaultQuality>, i: nat, uuid: nat -> Id, now: Time): (r: SeedOutcome)
    requires i <= |defaults|
    ensures rows <= r.rows
    decreases |defaults| - i
  {
    if i == |defaults| then SeedOutcome(rows, None)
    else match SeedStep(rows, defaults[i], uuid(i), now)
      case Failure(e) => SeedOutcome(rows, Some(e))
      case Success(next) => SeedFrom(next, defaults, i + 1, uuid, now)
  }

  /** Rows are only ever added, so a name the table has stays taken. */
  lemma NameTakenInExtension(rows: seq<Quality>, more: seq<Quality>, name: string)
    requires rows <= more && NameTaken(rows, name)
    ensures NameTaken(more, name)
  {
    var x :| x in rows && SameText(x.name, name);
    assert x in more;
  }

  /** A seeding run that completes leaves a quality under every default name from `i` on. */
  lemma {:induction false} SeedEstablishes(rows: seq<Quality>, defaults: seq<DefaultQuality>, i: nat, uuid: nat -> Id, now: Time)
    requires i <= |defaults|
    requires SeedFrom(rows, defaults, i, uuid, now).error.None?
    ensures forall k :: i <= k < |defaults| ==> NameTaken(SeedFrom(rows, defaults, i, uuid, now).rows, defaults[k].name)
    decreases |defaults| - i
  {
    if i < |defaults| {
      var next := SeedStep(rows, defaults[i], uuid(i), now).value;
      SeedEstablishes(next, defaults, i + 1, uuid, now);
      NameTakenInExtension(next, SeedFrom(next, defaults, i + 1, uuid, now).rows, defaults[i].name);
    }
  }

  /** Where the table already has every default name, seeding changes nothing. */
  lemma {:induction false} SeedNoOpWhenPresent(rows: seq<Quality>, defaults: seq<DefaultQuality>, i: nat, uuid: nat -> Id, now: Time)
    requires i <= |defaults|
    requires forall k :: i <= k < |defaults| ==> NameTaken(rows, defaults[k].name)
    ensures SeedFrom(rows, defaults, i, uuid, now) == SeedOutcome(rows, None)
    decreases |defaults| - i
  {
    if i < |defaults| {
      SeedNoOpWhenPresent(rows, defaults, i + 1, uuid, now);
    }
  }

  /** Seeding twice is seeding once, whatever ids and time the second run is given. */
  lemma SeedIdempotent(rows: seq<Quality>, uuid: nat -> Id, uuid2: nat -> Id, now: Time, now2: Time)
    requires SeedFrom(rows, DefaultQualities, 0, uuid, now).error.None?
    ensures var once := SeedFrom(rows, DefaultQualities, 0, uuid, now).rows;
            SeedFrom(once, DefaultQualities, 0, uuid2, now2) == SeedOutcome(once, None)
  {
    var once := SeedFrom(rows, DefaultQualities, 0, uuid, now).rows;
    SeedEstablishes(rows, DefaultQualities, 0, uuid, now);
    SeedNoOpWhenPresent(once, DefaultQualities, 0, uuid2, now2);
  }

  /** With ids that are fresh, seeding never fails. */
  lemma {:induction false} SeedSucceedsWithFreshIds(rows: seq<Quality>, defaults: seq<DefaultQuality>, i: nat, uuid: nat -> Id, now: Time)
    requires i <= |defaults|
    requires forall k, x :: i <= k < |defaults| && x in rows ==> x.id != uuid(k)
    requires forall k, j :: i <= k < j < |defaults| ==> uuid(k) != uuid(j)
    ensures SeedFrom(rows, defaults, i, uuid, now).error.None?
    decreases |defaults| - i
  {
    if i < |defaults| {
      var next := SeedStep(rows, defaults[i], uuid(i), now).value;
      assert forall x :: x in next ==> x in rows || x.id == uuid(i);
      SeedSucceedsWithFreshIds(next, defaults, i + 1, uuid, now);
    }
  }

  /** Seeding keeps the unique constraints: it inserts only names and ids the table lacks. */
  lemma {:induction false} SeedKeepsUnique(rows: seq<Quality>, defaults: seq<DefaultQuality>, i: nat, uuid: nat -> Id, now: Time)
    requires i <= |defaults| && UniqueRows(rows)
    ensures UniqueRows(SeedFrom(rows, defaults, i, uuid, now).rows)
    decreases |defaults| - i
  {
    if i < |defaults| {
      var step := SeedStep(rows, defaults[i], uuid(i), now);
      if step.Success? {
        if !NameTaken(rows, defaults[i].name) {
          AppendKeepsUnique(rows, Quality(uuid(i), defaults[i].name, Some(defaults[i].description), true, now));
        }
        SeedKeepsUnique(step.value, defaults, i + 1, uuid, now);
      }
    }
  }

  /** The table after an update, with what it answered. */
  datatype UpdateOutcome = UpdateOutcome(rows: seq<Quality>, result: Result<Quality, Exception>)

  /** The fields update writes: the name lowercased, the description and the flag, each only when given. */
  function Edited(existing: Quality, name: Option<string>, description: Option<string>, active: Option<bool>): Quality {
    existing.(name := if name.Some? then ToLower(name.value) else existing.name,
              description := if description.Some? then description else existing.description,
              active := active.GetOr(existing.active))
  }

  /** Another active quality already has this name. */
  predicate NameInUse(rows: seq<Quality>, id: Id, name: string) {
    var c := QualityRepository.FindByName(rows, name);
    c.Some? && c.value.id != id
  }

  /**
   * update: NotFound for an unknown id; BadRequest for a new, truthy name another active
   * quality has; DuplicateEntry when the written name is another row's; otherwise the row with
   * that id is replaced by the edited one.
   */
  function Amendment(rows: seq<Quality>, id: Id, name: Option<string>, description: Option<string>,
                     active: Option<bool>): (o: UpdateOutcome)
    ensures |o.rows| == |rows|
    ensures o.result.Failure? ==> o.rows == rows
    ensures o.result.Success? ==> && o.result.value.id == id && o.result.value in o.rows
                                  && (TruthyText(name) ==> o.result.value.name == ToLower(name.value))
    ensures forall i :: 0 <= i < |rows| && rows[i].id != id ==> o.rows[i] == rows[i]
  {
    match Tables.FindFirst(rows, (x: Quality) => x.id == id)
    case None => UpdateOutcome(rows, Failure(NotFound("Quality not found")))
    case Some(existing) =>
      if TruthyText(name) && name.value != existing.name && NameInUse(rows, id, name.value) then
        UpdateOutcome(rows, Failure(BadRequest(AlreadyExists(name.value))))
      else
        var updated := Edited(existing, name, description, active);
        if !NameFreeFor(rows, id, updated.name) then UpdateOutcome(rows, Failure(DuplicateEntry))
        else UpdateOutcome(Tables.UpdateWhere(rows, (x: Quality) => x.id == id, (x: Quality) => updated), Success(updated))
  }

  /**
   * A failed update changes nothing: NotFound exactly for an unknown id, and otherwise the
   * name check's BadRequest or the unique name's DuplicateEntry.
   */
  lemma AmendmentFailures(rows: seq<Quality>, id: Id, name: Option<string>, description: Option<string>, active: Option<bool>)
    ensures var o := Amendment(rows, id, name, description, active);
            && (o.result.Failure? ==> o.rows == rows)
            && (o.result == Failure(NotFound("Quality not found")) <==> forall x :: x in rows ==> x.id != id)
            && (o.result.Failure? && (exists x :: x in rows && x.id == id) ==>
                  o.result.error == DuplicateEntry || (name.Some? && o.result.error == BadRequest(AlreadyExists(name.value))))
  {
  }

  /**
   * A successful update answers the stored row with that id, with the given name lowercased
   * and the given description and flag written over it, and that row alone is replaced.
   */
  lemma AmendmentWrites(rows: seq<Quality>, id: Id, name: Option<string>, description: Option<string>, active: Option<bool>)
    ensures var o := Amendment(rows, id, name, description, active);
            o.result.Success? ==>
              var before := Tables.FindFirst(rows, (x: Quality) => x.id == id).value;
              && before in rows && before.id == id
              && o.result.value.id == id && o.result.value.createdAt == before.createdAt
              && o.result.value.name == (if name.Some? then ToLower(name.value) else before.name)
              && o.result.value.description == (if description.Some? then description else before.description)
              && o.result.value.active == (if active.Some? then active.value else before.active)
              && o.rows == Tables.UpdateWhere(rows, (x: Quality) => x.id == id, (x: Quality) => o.result.value)
  {
  }

  /**
   * A successful update to a new, truthy name leaves no other active quality with that name:
   * the only active row that had it is the one updated.
   */
  lemma AmendmentNameFree(rows: seq<Quality>, id: Id, name: Option<string>, description: Option<string>, active: Option<bool>)
    requires UniqueRows(rows)
    ensures var o := Amendment(rows, id, name, description, active);
            o.result.Success? && TruthyText(name) && name.value != Tables.FindFirst(rows, (x: Quality) => x.id == id).value.name ==>
              forall x :: x in rows && SameText(x.name, name.value) && x.active ==> x.id == id
  {
    var o := Amendment(rows, id, name, description, active);
    if o.result.Success? && TruthyText(name) && name.value != Tables.FindFirst(rows, (x: Quality) => x.id == id).value.name {
      var c := QualityRepository.FindByName(rows, name.value);
      if c.Some? {
        forall x | x in rows && SameText(x.name, name.value) && x.active ensures x.id == id {
          var i :| 0 <= i < |rows| && rows[i] == x;
          var j :| 0 <= j < |rows| && rows[j] == c.value;
          SameNameSameRow(rows, i, j);
        }
      }
    }
  }

  /** Names being unique, two rows with one name are one row. */
  lemma SameNameSameRow(rows: seq<Quality>, i: nat, j: nat)
    requires UniqueRows(rows) && i < |rows| && j < |rows| && SameText(rows[i].name, rows[j].name)
    ensures i == j
  {
  }

  /** Update keeps the unique constraints. */
  lemma AmendmentKeepsUnique(rows: seq<Quality>, id: Id, name: Option<string>, description: Option<string>, active: Option<bool>)
    requires UniqueRows(rows)
    ensures UniqueRows(Amendment(rows, id, name, description, active).rows)
  {
    match Tables.FindFirst(rows, (x: Quality) => x.id == id)
    case None =>
    case Some(existing) =>
      var updated := Edited(existing, name, description, active);
      if NameFreeFor(rows, id, updated.name) {
        ReplaceKeepsUnique(rows, id, updated);
      }
  }

  class QualitiesService {
    var qualities: seq<Quality>

    predicate Valid()
      reads this
    {
      UniqueRows(qualities)
    }

    constructor(rows: seq<Quality>)
      requires UniqueRows(rows)
      ensures qualities == rows && Valid()
    {
      qualities := rows;
    }

    /**
     * create: a name an active quality already has, in any letter case, is rejected; the
     * stored name is lowercased and `active` defaults to true.
     */
    method Create(name: string, description: Option<string>, active: Option<bool>, newId: Id, now: Time)
      returns (r: Result<Quality, Exception>)
      requires Valid()
      modifies this
      ensures Valid()
      ensures QualityRepository.FindByName(old(qualities), name).Some? ==>
                r == Failure(BadRequest(AlreadyExists(name))) && qualities == old(qualities)
      ensures QualityRepository.FindByName(old(qualities), name).None? && !Insertable(old(qualities), newId, ToLower(name)) ==>
                r == Failure(DuplicateEntry) && qualities == old(qualities)
      ensures QualityRepository.FindByName(old(qualities), name).None? && Insertable(old(qualities), newId, ToLower(name)) ==>
                r == Success(Quality(newId, ToLower(name), description, active.GetOr(true), now)) &&
                qualities == old(qualities) + [r.value]
    {
      var existing := QualityRepository.FindByName(qualities, name);
      if existing.Some? {
        return Failure(BadRequest(AlreadyExists(name)));
      }
      var quality := Quality(newId, ToLower(name), description, active.GetOr(true), now);
      if !Insertable(qualities, quality.id, quality.name) {
        return Failure(DuplicateEntry);
      }
      AppendKeepsUnique(qualities, quality);
      qualities := qualities + [quality];
      return Success(quality);
    }

    /**
     * update: an unknown id is NotFound; a new, truthy name that another active quality has is
     * rejected; then only the given fields are written, the name lowercased.
     */
    method Update(id: Id, name: Option<string>, description: Option<string>, active: Option<bool>)
      returns (r: Result<Quality, Exception>)
      requires Valid()
      modifies this
      ensures Valid()
      ensures UpdateOutcome(qualities, r) == Amendment(old(qualities), id, name, description, active)
    {
      var found := Tables.FindFirst(qualities, (x: Quality) => x.id == id);
      if found.None? {
        return Failure(NotFound("Quality not found"));
      }
      var existing := found.value;
      if TruthyText(name) && name.value != existing.name {
        var conflicting := QualityRepository.FindByName(qualities, name.value);
        if conflicting.Some? && conflicting.value.id != id {
          return Failure(BadRequest(AlreadyExists(name.value)));
        }
      }
      var updated := Edit(existing, name, description, active);
      if !NameFreeFor(qualities, id, updated.name) {
        return Failure(DuplicateEntry);
      }
      ReplaceKeepsUnique(qualities, id, updated);
      qualities := Tables.UpdateWhere(qualities, (x: Quality) => x.id == id, (x: Quality) => updated);
      return Success(updated);
    }

    /** The field writes of update, one given field at a time. */
    static method Edit(existing: Quality, name: Option<string>, description: Option<string>, active: Option<bool>)
      returns (updated: Quality)
      ensures updated == Edited(existing, name, description, active)
    {
      updated := existing;
      if name.Some? {
        updated := updated.(name := ToLower(name.value));
      }
      if description.Some? {
        updated := updated.(description := description);
      }
      if active.Some? {
        updated := updated.(active := active.value);
      }
    }

    /**
     * remove: false for an unknown id; otherwise the row is deleted and the answer is true,
     * unless a product still references the quality: the foreign key then refuses the delete.
     */
    method Remove(id: Id, products: seq<Product>) returns (r: Result<bool, Exception>)
      requires Valid()
      modifies this
      ensures Valid()
      ensures r == Success(false) <==> forall x :: x in old(qualities) ==> x.id != id
      ensures r == Success(true) <==> (exists x :: x in old(qualities) && x.id == id) &&
                                      forall p :: p in products ==> p.qualityId != id
      ensures r.Failure? ==> r == Failure(RowIsReferenced) && qualities == old(qualities)
      ensures r.Success? ==> qualities == Tables.Filter(old(qualities), (x: Quality) => x.id != id)
      ensures r.Success? ==> forall x :: x in qualities ==> x.id != id
    {
      var found := Tables.FindFirst(qualities, (x: Quality) => x.id == id);
      if found.None? {
        NothingToFilter(qualities, id);
        return Success(false);
      }
      if exists p :: p in products && p.qualityId == id {
        return Failure(RowIsReferenced);
      }
      Tables.FilterKeepsPairwise(qualities, (x: Quality) => x.id != id, QualitiesApart);
      qualities := Tables.Filter(qualities, (x: Quality) => x.id != id);
      return Success(true);
    }

    /**
     * seedDefaultQualities: the loop over the three defaults, stopping at the first error. A
     * default is looked for among all rows, not only the active ones (see SeedStepAsWritten).
     */
    method Seed(uuid: nat -> Id, now: Time) returns (error: Option<Exception>)
      requires Valid()
      modifies this
      ensures Valid()
      ensures SeedFrom(old(qualities), DefaultQualities, 0, uuid, now) == SeedOutcome(qualities, error)
      ensures error.None? ==> forall d :: d in DefaultQualities ==> NameTaken(qualities, d.name)
    {
      var i := 0;
      while i < |DefaultQualities|
        invariant 0 <= i <= |DefaultQualities|
        invariant UniqueRows(qualities)
        invariant SeedFrom(old(qualities), DefaultQualities, 0, uuid, now) == SeedFrom(qualities, DefaultQualities, i, uuid, now)
        decreases |DefaultQualities| - i
      {
        var d := DefaultQualities[i];
        if !NameTaken(qualities, d.name) {
          var quality := Quality(uuid(i), d.name, Some(d.description), true, now);
          if !Insertable(qualities, quality.id, quality.name) {
            return Some(DuplicateEntry);
          }
          AppendKeepsUnique(qualities, quality);
          qualities := qualities + [quality];
        }
        i := i + 1;
      }
      SeedEstablishes(old(qualities), DefaultQualities, 0, uuid, now);
      forall d | d in DefaultQualities
        ensures NameTaken(qualities, d.name)
      {
        var k :| 0 <= k < |DefaultQualities| && DefaultQualities[k] == d;
      }
      return None;
    }
  }

  lemma ReplaceKeepsUnique(rows: seq<Quality>, id: Id, q: Quality)
    requires UniqueRows(rows) && q.id == id && NameFreeFor(rows, id, q.name)
    ensures UniqueRows(Tables.UpdateWhere(rows, (x: Quality) => x.id == id, (x: Quality) => q))
  {
    var r := Tables.UpdateWhere(rows, (x: Quality) => x.id == id, (x: Quality) => q);
    forall i, j | 0 <= i < j < |r| ensures QualitiesApart(r[i], r[j]) {
      assert rows[i] in rows && rows[j] in rows;
      assert QualitiesApart(rows[i], rows[j]);
    }
  }

  lemma NothingToFilter(rows: seq<Quality>, id: Id)
    requires forall x :: x in rows ==> x.id != id
    ensures Tables.Filter(rows, (x: Quality) => x.id != id) == rows
    decreases |rows|
  {
    if |rows| > 0 {
      NothingToFilter(rows[1..], id);
      assert [rows[0]] + rows[1..] == rows;
    }
  }
}

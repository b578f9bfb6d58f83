/**
 * ProductService: creating, updating, cloning and deleting products, the merge of a product's
 * colour variants on update, the auto-activation rule, and the edits of one variant's image
 * list. The products table is a field of the service; categories, qualities and colors are
 * read through parameters. What the service asks of the cart service is returned as a list of
 * `CartEffect` requests, and the Cloudinary removals as the public ids destroyed.
 */
module Products {
  import opened Wrappers
  import opened Text
  import opened Errors
  import opened Entities
  import Tables
  import ProductRepository
  import CategoryRepository
  import QualityRepository
  import ColorRepository
  import ImageUpload

  // ---------------------------------------------------------------------------------------
  // parseCategoryIds and validateAndGetCategories

  /** The categories field: comma-separated text, or the list the DTO transform made of it. */
  datatype CategoriesInput = CommaSeparated(text: string) | IdList(ids: seq<Id>)

  /** `parts.map(id => id.trim())`. */
  function TrimAll(parts: seq<string>): (r: seq<string>)
    ensures |r| == |parts| && forall i :: 0 <= i < |parts| ==> r[i] == Trim(parts[i])
  {
    seq(|parts|, i requires 0 <= i < |parts| => Trim(parts[i]))
  }

  predicate NonEmpty(id: string) {
    |id| > 0
  }

  /** A piece as parseCategoryIds leaves it: not empty, no comma, nothing to trim at either end. */
  predicate CleanId(id: string) {
    |id| > 0 && ',' !in id && !IsSpace(id[0]) && !IsSpace(id[|id| - 1])
  }

  /**
   * parseCategoryIds: nothing for absent or empty text, a list as given, and otherwise the
   * comma-separated pieces trimmed, the empty ones dropped.
   */
  function ParseCategoryIds(input: Option<CategoriesInput>): (ids: seq<Id>)
    ensures input.None? || input == Some(CommaSeparated("")) ==> ids == []
    ensures input.Some? && input.value.IdList? ==> ids == input.value.ids
    ensures input.Some? && input.value.CommaSeparated? ==> forall id :: id in ids ==> CleanId(id)
  {
    match input
    case None => []
    case Some(IdList(xs)) => xs
    case Some(CommaSeparated(s)) =>
      if s == "" then []
      else
        var pieces := TrimAll(Split(s, ','));
        var ids := Tables.Filter(pieces, NonEmpty);
        forall id | id in ids ensures CleanId(id) {
          var k :| 0 <= k < |pieces| && pieces[k] == id;
          TrimmedPiece(Split(s, ',')[k]);
        }
        ids
  }

  /** A trimmed comma-free piece has no comma and nothing left to trim. */
  lemma TrimmedPiece(piece: string)
    requires ',' !in piece
    ensures ',' !in Trim(piece)
    ensures Trim(piece) != "" ==> !IsSpace(Trim(piece)[0]) && !IsSpace(Trim(piece)[|Trim(piece)| - 1])
  {
    var r := Trim(piece);
    var k :| 0 <= k <= |piece| && OccursAt(piece, r, k);
    forall i | 0 <= i < |r| ensures r[i] != ',' {
      assert r[i] == piece[k + i];
    }
  }

  /** Text that neither starts nor ends with whitespace is its own trim. */
  lemma TrimOfClean(s: string)
    requires s == "" || (!IsSpace(s[0]) && !IsSpace(s[|s| - 1]))
    ensures Trim(s) == s
  {
  }

  /** Every row kept: filtering by a predicate all rows meet gives the rows back. */
  lemma {:induction false} FilterKeepsAll<R>(rows: seq<R>, p: R -> bool)
    requires forall i :: 0 <= i < |rows| ==> p(rows[i])
    ensures Tables.Filter(rows, p) == rows
  {
    if |rows| > 0 {
      FilterKeepsAll(rows[1..], p);
      assert [rows[0]] + rows[1..] == rows;
    }
  }

  /** Comma-free pieces joined with ',' split back into the same pieces. */
  lemma {:induction false} SplitJoinCommas(ids: seq<string>)
    requires |ids| > 0 && forall i :: 0 <= i < |ids| ==> ',' !in ids[i]
    ensures Split(Join(ids, ","), ',') == ids
  {
    if |ids| == 1 {
      SplitNoSeparator(ids[0], ',');
    } else {
      SplitJoinCommas(ids[1..]);
      assert Join(ids, ",") == ids[0] + [','] + Join(ids[1..], ",");
      SplitAtSeparator(ids[0], ',', Join(ids[1..], ","));
      assert [ids[0]] + ids[1..] == ids;
    }
  }

  /** Clean ids written out comma-separated parse back into exactly those ids. */
  lemma ParseCategoryIdsRoundTrip(ids: seq<Id>)
    requires |ids| > 0 && forall i :: 0 <= i < |ids| ==> CleanId(ids[i])
    ensures ParseCategoryIds(Some(CommaSeparated(Join(ids, ",")))) == ids
  {
    var s := Join(ids, ",");
    JoinOfCleanIsNotEmpty(ids);
    SplitJoinCommas(ids);
    TrimAllClean(ids);
    FilterKeepsAll(ids, NonEmpty);
  }

  /** Joining at least one non-empty id gives non-empty text. */
  lemma JoinOfCleanIsNotEmpty(ids: seq<Id>)
    requires |ids| > 0 && |ids[0]| > 0
    ensures Join(ids, ",") != ""
  {
    if |ids| > 1 {
      assert Join(ids, ",") == ids[0] + "," + Join(ids[1..], ",");
    }
  }

  /** Trimming clean ids changes none of them. */
  lemma TrimAllClean(ids: seq<Id>)
    requires forall i :: 0 <= i < |ids| ==> CleanId(ids[i])
    ensures TrimAll(ids) == ids
  {
    forall i | 0 <= i < |ids| ensures TrimAll(ids)[i] == ids[i] {
      TrimOfClean(ids[i]);
    }
  }

  /** The ids of the rows, in order. */
  function CategoryIds(rows: seq<Category>): (ids: seq<Id>)
    ensures |ids| == |rows| && forall i :: 0 <= i < |rows| ==> ids[i] == rows[i].id
  {
    seq(|rows|, i requires 0 <= i < |rows| => rows[i].id)
  }

  /**
   * validateAndGetCategories: no ids means the default category, which must exist; otherwise
   * every id must be found, once each, or the ids not found are reported.
   */
  function ValidateCategories(rows: seq<Category>, ids: seq<Id>): (r: Result<seq<Id>, Exception>)
    ensures r.Failure? ==> r.error.BadRequest?
    ensures ids == [] ==> (r.Success? <==> CategoryRepository.FindDefaultCategory(rows).Some?)
    ensures ids != [] ==> (r.Success? <==>
              Tables.NoDuplicates(ids) && forall k :: k in ids ==> exists c :: c in rows && c.id == k)
    ensures r.Success? ==> forall k :: k in r.value ==> exists c :: c in rows && c.id == k
  {
    if ids == [] then
      match CategoryRepository.FindDefaultCategory(rows)
      case None => Failure(BadRequest("No categories provided and no default category found"))
      case Some(c) => Success([c.id])
    else
      var found := CategoryRepository.FindByIds(rows, ids);
      if |found| != |ids| then
        Failure(BadRequest("Invalid category IDs: " + Join(Missing(ids, CategoryIds(found)), ", ")))
      else
        FoundCategoriesExist(rows, found);
        Success(CategoryIds(found))
  }

  /** The ids not among those found, in the order asked. */
  function Missing(ids: seq<Id>, foundIds: seq<Id>): seq<Id> {
    Tables.Filter(ids, (id: Id) => id !in foundIds)
  }

  /** The ids of categories taken from the table are ids of the table. */
  lemma FoundCategoriesExist(rows: seq<Category>, found: seq<Category>)
    requires forall c :: c in found ==> c in rows
    ensures forall k :: k in CategoryIds(found) ==> exists c :: c in rows && c.id == k
  {
    forall k | k in CategoryIds(found) ensures exists c :: c in rows && c.id == k {
      var i :| 0 <= i < |found| && CategoryIds(found)[i] == k;
      assert found[i] in found;
    }
  }

  // ---------------------------------------------------------------------------------------
  // Variables: the merge on update and the auto-activation rule

  /** A variable as a client sends it; the id is optional, and update ignores the images. */
  datatype VariableInput = VariableInput(variantId: Option<Id>, colorId: Id, images: seq<string>)

  /** The variant ids, in order. */
  function VariantIds(vs: seq<Variable>): (ids: seq<Id>)
    ensures |ids| == |vs| && forall i :: 0 <= i < |vs| ==> ids[i] == vs[i].variantId
  {
    seq(|vs|, i requires 0 <= i < |vs| => vs[i].variantId)
  }

  /** No two variants share an id. */
  predicate DistinctVariantIds(vs: seq<Variable>) {
    forall i, j :: 0 <= i < j < |vs| ==> vs[i].variantId != vs[j].variantId
  }

  /**
   * `new Map(vs.map(v => [v.variantId, v])).get(id)`: the map constructor keeps the last entry
   * of a repeated key.
   */
  function LookupVariant(vs: seq<Variable>, id: Id): (r: Option<Variable>)
    ensures r.Some? ==> r.value in vs && r.value.variantId == id
    ensures r.None? <==> forall v :: v in vs ==> v.variantId != id
  {
    if |vs| == 0 then None
    else if vs[|vs| - 1].variantId == id then Some(vs[|vs| - 1])
    else
      assert forall v :: v in vs ==> v in vs[..|vs| - 1] || v == vs[|vs| - 1];
      LookupVariant(vs[..|vs| - 1], id)
  }

  /** With distinct ids the lookup finds the one variant with that id. */
  lemma LookupDistinct(vs: seq<Variable>, k: nat)
    requires k < |vs| && DistinctVariantIds(vs)
    ensures LookupVariant(vs, vs[k].variantId) == Some(vs[k])
  {
    var r := LookupVariant(vs, vs[k].variantId);
    var j :| 0 <= j < |vs| && vs[j] == r.value;
  }

  /** An incoming entry names an existing variant: its id is non-empty and the map has it. */
  predicate Known(existing: seq<Variable>, incoming: VariableInput) {
    TruthyText(incoming.variantId) && LookupVariant(existing, incoming.variantId.value).Some?
  }

  /** Some existing variant has this one's id and images. */
  predicate KeepsExisting(existing: seq<Variable>, v: Variable) {
    exists e :: e in existing && e.variantId == v.variantId && e.images == v.images
  }

  /** One entry of the merge: a known variant keeps its id and images, a new one starts bare. */
  function MergeOne(existing: seq<Variable>, incoming: VariableInput, freshId: Id): (v: Variable)
    ensures v.colorId == incoming.colorId
    ensures Known(existing, incoming) ==>
              v.variantId == incoming.variantId.value &&
              KeepsExisting(existing, v)
    ensures !Known(existing, incoming) ==> v == Variable(freshId, incoming.colorId, [])
  {
    if Known(existing, incoming) then
      var e := LookupVariant(existing, incoming.variantId.value).value;
      Variable(e.variantId, incoming.colorId, e.images)
    else
      Variable(freshId, incoming.colorId, [])
  }

  /**
   * The variable merge of update: one variant per incoming entry, in the incoming order. An
   * entry naming an existing variant keeps that variant's id and images and takes the new
   * colour; any other entry gets the fresh id `uuid(i)` and no images. Variants not named are
   * not carried over.
   */
  function MergeVariables(existing: seq<Variable>, incoming: seq<VariableInput>, uuid: nat -> Id): (merged: seq<Variable>)
    ensures |merged| == |incoming|
    ensures forall i :: 0 <= i < |incoming| ==> merged[i].colorId == incoming[i].colorId
    ensures forall i :: 0 <= i < |incoming| && Known(existing, incoming[i]) ==>
              merged[i].variantId == incoming[i].variantId.value &&
              KeepsExisting(existing, merged[i])
    ensures forall i :: 0 <= i < |incoming| && !Known(existing, incoming[i]) ==>
              merged[i] == Variable(uuid(i), incoming[i].colorId, [])
  {
    var merged := seq(|incoming|, i requires 0 <= i < |incoming| => MergeOne(existing, incoming[i], uuid(i)));
    forall i | 0 <= i < |incoming| ensures merged[i] == MergeOne(existing, incoming[i], uuid(i)) {
    }
    merged
  }

  /** Some incoming entry names the existing variant `id`. */
  predicate Listed(existing: seq<Variable>, incoming: seq<VariableInput>, id: Id) {
    exists i :: 0 <= i < |incoming| && Known(existing, incoming[i]) && incoming[i].variantId.value == id
  }

  /**
   * With fresh ids that are not ids of existing variants, an existing variant survives the merge
   * exactly when an incoming entry names it.
   */
  lemma MergeKeepsExactlyListed(existing: seq<Variable>, incoming: seq<VariableInput>, uuid: nat -> Id, id: Id)
    requires id in VariantIds(existing)
    requires forall i :: 0 <= i < |incoming| ==> uuid(i) !in VariantIds(existing)
    ensures id in VariantIds(MergeVariables(existing, incoming, uuid)) <==> Listed(existing, incoming, id)
  {
    var merged := MergeVariables(existing, incoming, uuid);
    if id in VariantIds(merged) {
      var i :| 0 <= i < |merged| && merged[i].variantId == id;
      assert Known(existing, incoming[i]);
    }
    if Listed(existing, incoming, id) {
      var i :| 0 <= i < |incoming| && Known(existing, incoming[i]) && incoming[i].variantId.value == id;
      assert VariantIds(merged)[i] == id;
    }
  }

  /** The form resubmitted as it is: merging a product's own variants into it changes nothing. */
  function AsInput(vs: seq<Variable>): (incoming: seq<VariableInput>)
    ensures |incoming| == |vs|
    ensures forall i :: 0 <= i < |vs| ==> incoming[i] == VariableInput(Some(vs[i].variantId), vs[i].colorId, vs[i].images)
  {
    seq(|vs|, i requires 0 <= i < |vs| => VariableInput(Some(vs[i].variantId), vs[i].colorId, vs[i].images))
  }

  /** Variants with distinct non-empty ids, resubmitted unchanged, merge into themselves. */
  lemma MergeResubmitted(vs: seq<Variable>, uuid: nat -> Id)
    requires DistinctVariantIds(vs)
    requires forall i :: 0 <= i < |vs| ==> vs[i].variantId != ""
    ensures MergeVariables(vs, AsInput(vs), uuid) == vs
  {
    var merged := MergeVariables(vs, AsInput(vs), uuid);
    forall i | 0 <= i < |vs| ensures merged[i] == vs[i] {
      LookupDistinct(vs, i);
      assert Known(vs, AsInput(vs)[i]);
    }
  }

  /** Every variant has at least one image. */
  predicate AllHaveImages(vs: seq<Variable>) {
    forall i :: 0 <= i < |vs| ==> |vs[i].images| > 0
  }

  /** The auto-activation rule: active exactly when there are variants and each has an image. */
  predicate ShouldBeActive(variables: Option<seq<Variable>>): (r: bool)
    ensures r ==> variables.Some? && variables.value != [] && forall v :: v in variables.value ==> v.images != []
    ensures variables.Some? && variables.value != [] && (forall v :: v in variables.value ==> v.images != []) ==> r
  {
    variables.Some? && |variables.value| > 0 && AllHaveImages(variables.value)
  }

  /** The check update makes before setting active to true. */
  function ActivationGuard(variables: Option<seq<Variable>>): (r: Option<Exception>)
    ensures r.None? <==> ShouldBeActive(variables)
    ensures r.Some? ==> r.value.BadRequest?
  {
    if variables.None? || |variables.value| == 0 then
      Some(BadRequest("Cannot set product as active: product must have at least one variant"))
    else if !AllHaveImages(variables.value) then
      Some(BadRequest("Cannot set product as active: all variants must have at least one image"))
    else None
  }

  // ---------------------------------------------------------------------------------------
  // The image list of one variant

  /** The variables with variant `i`'s images replaced. */
  function WithImages(vs: seq<Variable>, i: nat, images: seq<string>): (r: seq<Variable>)
    requires i < |vs|
    ensures |r| == |vs| && r[i] == vs[i].(images := images)
    ensures forall j :: 0 <= j < |vs| && j != i ==> r[j] == vs[j]
  {
    vs[i := vs[i].(images := images)]
  }

  /** `xs.filter((_, index) => index !== j)`: every element but the one at `j`, in order. */
  function FilterOutIndex(xs: seq<string>, j: int): (r: seq<string>)
    ensures 0 <= j < |xs| ==> r == xs[..j] + xs[j + 1..]
    ensures !(0 <= j < |xs|) ==> r == xs
  {
    if |xs| == 0 then []
    else
      var n := |xs| - 1;
      var init := FilterOutIndex(xs[..n], j);
      if j == n then
        assert xs[j + 1..] == [];
        init
      else
        assert xs == xs[..n] + [xs[n]];
        if 0 <= j < n then
          assert xs[..n][..j] == xs[..j];
          assert xs[..n][j + 1..] + [xs[n]] == xs[j + 1..];
          init + [xs[n]]
        else
          init + [xs[n]]
  }

  /** Removing the image at a valid index leaves one image fewer and the others in their order. */
  lemma DeleteKeepsOrder(xs: seq<string>, j: int)
    requires 0 <= j < |xs|
    ensures |FilterOutIndex(xs, j)| == |xs| - 1
    ensures forall i :: 0 <= i < j ==> FilterOutIndex(xs, j)[i] == xs[i]
    ensures forall i :: j <= i < |xs| - 1 ==> FilterOutIndex(xs, j)[i] == xs[i + 1]
    ensures multiset(FilterOutIndex(xs, j)) + multiset{xs[j]} == multiset(xs)
  {
    assert xs == xs[..j] + [xs[j]] + xs[j + 1..];
  }

  /** All images of all variants, variant by variant: what remove collects before deleting. */
  function CollectImages(vs: seq<Variable>): (all: seq<string>)
    ensures forall u :: u in all <==> exists i :: 0 <= i < |vs| && u in vs[i].images
  {
    if |vs| == 0 then []
    else
      var init := CollectImages(vs[..|vs| - 1]);
      var r := init + vs[|vs| - 1].images;
      forall u | u in r ensures exists i :: 0 <= i < |vs| && u in vs[i].images {
        if u in init {
          var i :| 0 <= i < |vs| - 1 && u in vs[..|vs| - 1][i].images;
          assert vs[i] == vs[..|vs| - 1][i];
        }
      }
      forall u | (exists i :: 0 <= i < |vs| && u in vs[i].images) ensures u in r {
        var i :| 0 <= i < |vs| && u in vs[i].images;
        if i < |vs| - 1 {
          assert vs[..|vs| - 1][i] == vs[i];
        }
      }
      r
  }

  // ---------------------------------------------------------------------------------------
  // The table and the requests to other services

  /** A change of cart lines the product service asks of the cart service. */
  datatype CartEffect =
    | SyncPrice(productId: Id, price: Cents)          // updateCartItemsByProductPrice
    | DropVariantLines(productId: Id, variantId: Id)  // removeCartItemsByVariant
    | DropProductLines(productId: Id)                 // removeCartItemsByProduct

  /** The products table after an operation, and what the operation answered. */
  datatype ProductOutcome<T> = ProductOutcome(products: seq<Product>, result: Result<T, Exception>)

  predicate UniqueIds(products: seq<Product>) {
    forall i, j :: 0 <= i < j < |products| ==> products[i].id != products[j].id
  }

  /** A rewrite that keeps every row's id keeps the ids unique. */
  lemma SameIdsKeepUnique(a: seq<Product>, b: seq<Product>)
    requires UniqueIds(a) && |a| == |b| && forall i :: 0 <= i < |a| ==> b[i].id == a[i].id
    ensures UniqueIds(b)
  {
  }

  /** The product stored with new variables and the active flag the rule gives them. */
  function Stored(p: Product, vs: seq<Variable>): Product {
    p.(variables := Some(vs), active := ShouldBeActive(Some(vs)))
  }

  /** `update(id, { variables })` followed by checkAndUpdateActiveStatus(id). */
  function SaveVariables(products: seq<Product>, id: Id, vs: seq<Variable>): (r: seq<Product>)
    ensures |r| == |products|
    ensures forall i :: 0 <= i < |products| ==> r[i] == if products[i].id == id then Stored(products[i], vs) else products[i]
  {
    Tables.UpdateWhere(products, (p: Product) => p.id == id, (p: Product) => Stored(p, vs))
  }

  /** `update(id, { variables })` alone, as reorder does. */
  function SetVariables(products: seq<Product>, id: Id, vs: seq<Variable>): (r: seq<Product>)
    ensures |r| == |products|
    ensures forall i :: 0 <= i < |products| ==> r[i] == if products[i].id == id then products[i].(variables := Some(vs)) else products[i]
  {
    Tables.UpdateWhere(products, (p: Product) => p.id == id, (p: Product) => p.(variables := Some(vs)))
  }

  /** checkAndUpdateActiveStatus as a table update: the product's flag set by the rule. */
  function SyncActive(products: seq<Product>, id: Id): (r: seq<Product>)
    ensures |r| == |products|
    ensures forall i :: 0 <= i < |products| ==> r[i] == if products[i].id == id then products[i].(active := ShouldBeActive(products[i].variables)) else products[i]
  {
    Tables.UpdateWhere(products, (p: Product) => p.id == id, (p: Product) => p.(active := ShouldBeActive(p.variables)))
  }

  /** When the flag already follows the rule, syncing it changes nothing. */
  lemma SyncActiveNoChange(products: seq<Product>, id: Id)
    requires forall p :: p in products && p.id == id ==> p.active == ShouldBeActive(p.variables)
    ensures SyncActive(products, id) == products
  {
    var r := SyncActive(products, id);
    forall i | 0 <= i < |products| ensures r[i] == products[i] {
      assert products[i] in products;
    }
  }

  /** Writing the variables and then syncing the flag is the one write of `SaveVariables`. */
  lemma SaveIsSetThenSync(products: seq<Product>, id: Id, vs: seq<Variable>)
    ensures SyncActive(SetVariables(products, id, vs), id) == SaveVariables(products, id, vs)
  {
  }

  // ---------------------------------------------------------------------------------------
  // The guards of the variant-image endpoints

  /** The product, then `!variables || variantIndex >= variables.length`; a negative index passes. */
  function VariantAt(products: seq<Product>, productId: Id, variantIndex: int): (r: Result<Product, Exception>)
    ensures r.Success? ==> (r.value in products && r.value.id == productId &&
                            r.value.variables.Some? && variantIndex < |r.value.variables.value|)
    ensures r == Failure(Other("Product not found")) <==> forall p :: p in products ==> p.id != productId
    ensures r.Failure? ==> r.error in {Other("Product not found"), Other("Variant not found")}
  {
    match ProductRepository.FindById(products, productId)
    case None => Failure(Other("Product not found"))
    case Some(p) =>
      if p.variables.None? || variantIndex >= |p.variables.value| then Failure(Other("Variant not found"))
      else Success(p)
  }

  /**
   * uploadVariantImages: the uploaded URLs after the variant's images, then the flag. A
   * negative index reads a property of `undefined` once the files are uploaded.
   */
  function Upload(products: seq<Product>, productId: Id, variantIndex: int, uploaded: seq<string>): (o: ProductOutcome<Product>)
    ensures |o.products| == |products|
    ensures o.result.Failure? ==> o.products == products
    ensures o.result.Success? ==> o.result.value.id == productId
    ensures forall i :: 0 <= i < |products| && products[i].id != productId ==> o.products[i] == products[i]
    ensures o.result.Success? ==>
              var before := ProductRepository.FindById(products, productId);
              && 0 <= variantIndex && before.Some? && before.value.variables.Some?
              && variantIndex < |before.value.variables.value|
              && o.result.value.variables == Some(WithImages(before.value.variables.value, variantIndex,
                                                             before.value.variables.value[variantIndex].images + uploaded))
  {
    match VariantAt(products, productId, variantIndex)
    case Failure(e) => ProductOutcome(products, Failure(e))
    case Success(p) =>
      if variantIndex < 0 then ProductOutcome(products, Failure(TypeError))
      else
        var vs := WithImages(p.variables.value, variantIndex, p.variables.value[variantIndex].images + uploaded);
        ProductOutcome(SaveVariables(products, productId, vs), Success(Stored(p, vs)))
  }

  /** replaceVariantImages: the uploaded URLs in place of the variant's images, then the flag. */
  function Replace(products: seq<Product>, productId: Id, variantIndex: int, uploaded: seq<string>): (o: ProductOutcome<Product>)
    ensures |o.products| == |products|
    ensures o.result.Failure? ==> o.products == products
    ensures o.result.Success? ==> o.result.value.id == productId
    ensures forall i :: 0 <= i < |products| && products[i].id != productId ==> o.products[i] == products[i]
    ensures o.result.Success? ==>
              && 0 <= variantIndex && o.result.value.variables.Some? && variantIndex < |o.result.value.variables.value|
              && o.result.value.variables.value[variantIndex].images == uploaded
  {
    match VariantAt(products, productId, variantIndex)
    case Failure(e) => ProductOutcome(products, Failure(e))
    case Success(p) =>
      if variantIndex < 0 then ProductOutcome(products, Failure(TypeError))
      else
        var vs := WithImages(p.variables.value, variantIndex, uploaded);
        ProductOutcome(SaveVariables(products, productId, vs), Success(Stored(p, vs)))
  }

  /**
   * deleteVariantImage: 'Image not found' for an index past the end; otherwise every image but
   * the one at the index, then the flag. A negative image index removes nothing.
   */
  function DeleteImage(products: seq<Product>, productId: Id, variantIndex: int, imageIndex: int): (o: ProductOutcome<Product>)
    ensures |o.products| == |products|
    ensures o.result.Failure? ==> o.products == products
    ensures o.result.Success? ==> o.result.value.id == productId
    ensures forall i :: 0 <= i < |products| && products[i].id != productId ==> o.products[i] == products[i]
    ensures o.result == Failure(Other("Image not found")) ==> ProductRepository.FindById(products, productId).Some?
  {
    match VariantAt(products, productId, variantIndex)
    case Failure(e) => ProductOutcome(products, Failure(e))
    case Success(p) =>
      if variantIndex < 0 then ProductOutcome(products, Failure(TypeError))
      else
        var images := p.variables.value[variantIndex].images;
        if imageIndex >= |images| then ProductOutcome(products, Failure(Other("Image not found")))
        else
          var vs := WithImages(p.variables.value, variantIndex, FilterOutIndex(images, imageIndex));
          ProductOutcome(SaveVariables(products, productId, vs), Success(Stored(p, vs)))
  }

  /**
   * reorderVariantImages: the given list becomes the variant's images, with no check of the
   * flag. A negative index sets a property the JSON column does not keep, so nothing changes.
   */
  function Reorder(products: seq<Product>, productId: Id, variantIndex: int, newOrder: seq<string>): (o: ProductOutcome<Product>)
    ensures |o.products| == |products|
    ensures o.result.Failure? ==> o.products == products
    ensures o.result.Success? ==> o.result.value.id == productId
    ensures forall i :: 0 <= i < |products| && products[i].id != productId ==> o.products[i] == products[i]
    ensures o.result.Success? && variantIndex >= 0 ==>
              && o.result.value.variables.Some? && variantIndex < |o.result.value.variables.value|
              && o.result.value.variables.value[variantIndex].images == newOrder
  {
    match VariantAt(products, productId, variantIndex)
    case Failure(e) => ProductOutcome(products, Failure(e))
    case Success(p) =>
      if variantIndex < 0 then ProductOutcome(products, Success(p))
      else
        var vs := WithImages(p.variables.value, variantIndex, newOrder);
        ProductOutcome(SetVariables(products, productId, vs), Success(p.(variables := Some(vs))))
  }

  /** The public id deleteVariantImage destroys, when the URL yields a non-empty one. */
  function DeletedPublicId(images: seq<string>, imageIndex: int, pathnameOf: string -> Option<string>): (id: Option<string>)
    ensures id.Some? ==> (0 <= imageIndex < |images| && id.value != "" &&
                          ImageUpload.ExtractPublicIdFromUrl(images[imageIndex], pathnameOf) == id)
  {
    if 0 <= imageIndex < |images| then
      var id := ImageUpload.ExtractPublicIdFromUrl(images[imageIndex], pathnameOf);
      if TruthyText(id) then id else None
    else None
  }

  /**
   * The image endpoints on a product at position `k`: a failure changes nothing; a success
   * rewrites that product alone, with the flag given by the rule (except after a reorder, which
   * keeps the flag).
   */
  lemma UploadSpec(products: seq<Product>, k: nat, variantIndex: int, uploaded: seq<string>)
    requires UniqueIds(products) && k < |products|
    ensures var o := Upload(products, products[k].id, variantIndex, uploaded);
      var p := products[k];
      (o.result.Success? <==> p.variables.Some? && 0 <= variantIndex < |p.variables.value|) &&
      (o.result.Failure? ==> o.products == products) &&
      (o.result.Success? ==>
        |o.products| == |products| &&
        (forall j :: 0 <= j < |products| && j != k ==> o.products[j] == products[j]) &&
        o.products[k].variables.Some? &&
        |o.products[k].variables.value| == |p.variables.value| &&
        o.products[k].variables.value[variantIndex].images == p.variables.value[variantIndex].images + uploaded &&
        (forall i :: 0 <= i < |p.variables.value| && i != variantIndex ==> o.products[k].variables.value[i] == p.variables.value[i]) &&
        o.products[k].active == ShouldBeActive(o.products[k].variables) &&
        o.result.value == o.products[k])
  {
    FoundAt(products, k);
  }

  /** The lookup by id finds the product at its position when ids are unique. */
  lemma FoundAt(products: seq<Product>, k: nat)
    requires UniqueIds(products) && k < |products|
    ensures ProductRepository.FindById(products, products[k].id) == Some(products[k])
    ensures forall j :: 0 <= j < |products| && j != k ==> products[j].id != products[k].id
  {
    var r := ProductRepository.FindById(products, products[k].id);
    var j :| 0 <= j < |products| && products[j] == r.value;
    forall j' | 0 <= j' < |products| && j' != k ensures products[j'].id != products[k].id {
      if j' < k { assert products[j'].id != products[k].id; }
      if k < j' { assert products[k].id != products[j'].id; }
    }
  }

  lemma ReplaceSpec(products: seq<Product>, k: nat, variantIndex: int, uploaded: seq<string>)
    requires UniqueIds(products) && k < |products|
    ensures var o := Replace(products, products[k].id, variantIndex, uploaded);
      var p := products[k];
      (o.result.Success? <==> p.variables.Some? && 0 <= variantIndex < |p.variables.value|) &&
      (o.result.Failure? ==> o.products == products) &&
      (o.result.Success? ==>
        |o.products| == |products| &&
        (forall j :: 0 <= j < |products| && j != k ==> o.products[j] == products[j]) &&
        o.products[k].variables == Some(WithImages(p.variables.value, variantIndex, uploaded)) &&
        (o.products[k].active <==> |uploaded| > 0 && AllHaveImagesBut(p.variables.value, variantIndex)))
  {
    FoundAt(products, k);
    var p := products[k];
    var o := Replace(products, p.id, variantIndex, uploaded);
    if o.result.Success? {
      var vs := WithImages(p.variables.value, variantIndex, uploaded);
      assert o.products[k] == Stored(p, vs);
      if AllHaveImages(vs) {
        assert |uploaded| > 0 by { assert |vs[variantIndex].images| > 0; }
        assert AllHaveImagesBut(p.variables.value, variantIndex) by {
          forall i | 0 <= i < |vs| && i != variantIndex ensures |p.variables.value[i].images| > 0 {
            assert vs[i] == p.variables.value[i];
          }
        }
      }
      if |uploaded| > 0 && AllHaveImagesBut(p.variables.value, variantIndex) {
        forall i | 0 <= i < |vs| ensures |vs[i].images| > 0 {
          if i != variantIndex { assert vs[i] == p.variables.value[i]; }
        }
      }
    }
  }

  /** Every variant but the one at `skip` has an image. */
  predicate AllHaveImagesBut(vs: seq<Variable>, skip: nat) {
    forall i :: 0 <= i < |vs| && i != skip ==> |vs[i].images| > 0
  }

  lemma DeleteImageSpec(products: seq<Product>, k: nat, variantIndex: int, imageIndex: int)
    requires UniqueIds(products) && k < |products|
    ensures var o := DeleteImage(products, products[k].id, variantIndex, imageIndex);
      var p := products[k];
      (o.result.Failure? ==> o.products == products) &&
      (p.variables.Some? && 0 <= variantIndex < |p.variables.value| ==>
        (o.result.Success? <==> imageIndex < |p.variables.value[variantIndex].images|)) &&
      (o.result.Success? ==>
        var before := p.variables.value[variantIndex].images;
        |o.products| == |products| &&
        (forall j :: 0 <= j < |products| && j != k ==> o.products[j] == products[j]) &&
        o.products[k].variables.Some? &&
        (0 <= imageIndex ==> o.products[k].variables.value[variantIndex].images == before[..imageIndex] + before[imageIndex + 1..]) &&
        (imageIndex < 0 ==> o.products[k].variables.value[variantIndex].images == before) &&
        o.products[k].active == ShouldBeActive(o.products[k].variables))
  {
    FoundAt(products, k);
  }

  lemma ReorderSpec(products: seq<Product>, k: nat, variantIndex: int, newOrder: seq<string>)
    requires UniqueIds(products) && k < |products|
    ensures var o := Reorder(products, products[k].id, variantIndex, newOrder);
      var p := products[k];
      (o.result.Success? <==> p.variables.Some? && variantIndex < |p.variables.value|) &&
      (o.result.Failure? || variantIndex < 0 ==> o.products == products) &&
      (o.result.Success? && 0 <= variantIndex ==>
        (forall j :: 0 <= j < |products| && j != k ==> o.products[j] == products[j]) &&
        o.products[k] == p.(variables := Some(WithImages(p.variables.value, variantIndex, newOrder))))
  {
    FoundAt(products, k);
  }

  /** A reorder to an empty list leaves an active product active with an image-less variant. */
  lemma ReorderCanEmptyAnActiveProduct()
    ensures var vs := [Variable("v1", "red", ["a.jpg"])];
      var p := Product("p1", "Tee", 1000, true, [], "q1", Some(vs), 0);
      var o := Reorder([p], "p1", 0, []);
      o.result.Success? && o.products[0].active && !ShouldBeActive(o.products[0].variables)
  {
    var vs := [Variable("v1", "red", ["a.jpg"])];
    var p := Product("p1", "Tee", 1000, true, [], "q1", Some(vs), 0);
    FoundAt([p], 0);
    var o := Reorder([p], "p1", 0, []);
    assert o.products[0].variables.value[0].images == [];
  }

  // ---------------------------------------------------------------------------------------
  // create, update, clone

  datatype CreateProductDto = CreateProductDto(
    name: string, description: Option<string>, price: Cents, categories: Option<CategoriesInput>,
    qualityId: Id, variables: Option<seq<VariableInput>>)

  /** `variables?.map(v => ({ ...v, variantId: uuid }))`: each variable under a fresh id. */
  function WithFreshIds(vs: seq<VariableInput>, uuid: nat -> Id): (r: seq<Variable>)
    ensures |r| == |vs|
    ensures forall i :: 0 <= i < |vs| ==> r[i] == Variable(uuid(i), vs[i].colorId, vs[i].images)
  {
    seq(|vs|, i requires 0 <= i < |vs| => Variable(uuid(i), vs[i].colorId, vs[i].images))
  }

  /**
   * The row create saves. The description is handed to `repository.create`, which keeps only
   * the entity's columns; the products table has none for it, so it is not stored.
   */
  function NewProduct(dto: CreateProductDto, categoryIds: seq<Id>, uuid: nat -> Id, newId: Id, now: Time): Product {
    Product(newId, dto.name, dto.price, false, categoryIds, dto.qualityId,
            if dto.variables.Some? then Some(WithFreshIds(dto.variables.value, uuid)) else None, now)
  }

  /** create: the categories, then the quality (only an active one counts), then the save. */
  function Create(products: seq<Product>, dto: CreateProductDto, categories: seq<Category>,
                  qualities: seq<Quality>, uuid: nat -> Id, newId: Id, now: Time): (o: ProductOutcome<Product>)
    ensures o.result.Failure? ==> o.products == products
    ensures o.result.Success? ==> && o.products == products + [o.result.value]
                                  && o.result.value.id == newId && !o.result.value.active
                                  && o.result.value.qualityId == dto.qualityId
  {
    match ValidateCategories(categories, ParseCategoryIds(dto.categories))
    case Failure(e) => ProductOutcome(products, Failure(e))
    case Success(categoryIds) =>
      if QualityRepository.FindById(qualities, dto.qualityId).None? then
        ProductOutcome(products, Failure(BadRequest("Quality with ID " + dto.qualityId + " not found")))
      else if exists p :: p in products && p.id == newId then ProductOutcome(products, Failure(DuplicateEntry))
      else
        var p := NewProduct(dto, categoryIds, uuid, newId, now);
        ProductOutcome(products + [p], Success(p))
  }

  /**
   * A created product starts inactive, in its validated categories, with each variable under
   * the fresh id `uuid(i)` and its own colour and images; a failure saves nothing. It
   * succeeds exactly when the categories validate, the quality is active and the id is new.
   */
  lemma CreateSpec(products: seq<Product>, dto: CreateProductDto, categories: seq<Category>,
                   qualities: seq<Quality>, uuid: nat -> Id, newId: Id, now: Time)
    ensures var o := Create(products, dto, categories, qualities, uuid, newId, now);
      (o.result.Success? <==> ValidateCategories(categories, ParseCategoryIds(dto.categories)).Success? &&
                              QualityRepository.FindById(qualities, dto.qualityId).Some? &&
                              forall p :: p in products ==> p.id != newId) &&
      (o.result.Failure? ==> o.products == products && (o.result.error.BadRequest? || o.result.error == DuplicateEntry)) &&
      (o.result.Success? ==>
        var p := o.result.value;
        o.products == products + [p] && !p.active && p.id == newId && p.name == dto.name &&
        ValidateCategories(categories, ParseCategoryIds(dto.categories)) == Success(p.categoryIds) &&
        (exists q :: q in qualities && q.id == p.qualityId && q.active) &&
        (dto.variables.None? ==> p.variables.None?) &&
        (dto.variables.Some? ==> (p.variables.Some? && |p.variables.value| == |dto.variables.value| &&
           forall i :: 0 <= i < |dto.variables.value| ==>
             p.variables.value[i].variantId == uuid(i) &&
             p.variables.value[i].colorId == dto.variables.value[i].colorId &&
             p.variables.value[i].images == dto.variables.value[i].images)))
  {
  }

  datatype UpdateProductDto = UpdateProductDto(
    name: Option<string>, description: Option<string>, price: Option<Cents>,
    categories: Option<CategoriesInput>, qualityId: Option<Id>, active: Option<bool>,
    variables: Option<seq<VariableInput>>)

  /** What the guards of update settled: the new categories, if given, and the merged variables. */
  datatype UpdatePlan = UpdatePlan(categoryIds: Option<seq<Id>>, merged: seq<Variable>)

  /** `variables.map(v => v.colorId)`. */
  function ColorIdsOf(vs: seq<VariableInput>): (ids: seq<Id>)
    ensures |ids| == |vs| && forall i :: 0 <= i < |vs| ==> ids[i] == vs[i].colorId
  {
    seq(|vs|, i requires 0 <= i < |vs| => vs[i].colorId)
  }

  /** `xs.filter((x, i) => xs.indexOf(x) !== i)`: each element that already occurred, in order. */
  function Repeats(xs: seq<Id>): (r: seq<Id>)
    ensures r == [] <==> Tables.NoDuplicates(xs)
    ensures forall x :: x in r ==> x in xs
  {
    if |xs| == 0 then []
    else
      var init := xs[..|xs| - 1];
      var last := xs[|xs| - 1];
      var rest := Repeats(init);
      assert xs == init + [last];
      if last in init then
        assert !Tables.NoDuplicates(xs) by {
          var k :| 0 <= k < |init| && init[k] == last;
          assert xs[k] == xs[|xs| - 1];
        }
        rest + [last]
      else
        assert Tables.NoDuplicates(init) ==> Tables.NoDuplicates(xs) by {
          if Tables.NoDuplicates(init) {
            forall i, j | 0 <= i < j < |xs| ensures xs[i] != xs[j] {
              if j == |xs| - 1 { assert xs[i] in init; }
            }
          }
        }
        assert Tables.NoDuplicates(xs) ==> Tables.NoDuplicates(init);
        rest
  }

  /** The colour checks of update: no colour twice, and every colour found. */
  function CheckColors(colors: seq<Color>, incoming: seq<VariableInput>): (r: Option<Exception>)
    ensures r.Some? ==> r.value.BadRequest?
    ensures r.None? <==> (Tables.NoDuplicates(ColorIdsOf(incoming)) &&
                          forall i :: 0 <= i < |incoming| ==> exists c :: c in colors && c.id == incoming[i].colorId)
  {
    var colorIds := ColorIdsOf(incoming);
    var repeats := Repeats(colorIds);
    if repeats != [] then
      Some(BadRequest("Duplicate colorIds found in variables: " + Join(repeats, ", ")))
    else
      var unique := Tables.Distinct(colorIds);
      var found := ColorRepository.FindByIds(colors, unique);
      ColorsFound(colors, incoming);
      if |found| != |unique| then
        Some(BadRequest("Colors not found: " + Join(Missing(unique, ColorIdsFound(found)), ", ")))
      else
        None
  }

  /** The ids of colours, in order. */
  function ColorIdsFound(found: seq<Color>): (ids: seq<Id>)
    ensures |ids| == |found| && forall i :: 0 <= i < |found| ==> ids[i] == found[i].id
  {
    seq(|found|, i requires 0 <= i < |found| => found[i].id)
  }

  /** Every distinct colour id of the variables is found exactly when every variable's colour exists. */
  lemma ColorsFound(colors: seq<Color>, incoming: seq<VariableInput>)
    ensures var unique := Tables.Distinct(ColorIdsOf(incoming));
            |ColorRepository.FindByIds(colors, unique)| == |unique| <==>
              forall i :: 0 <= i < |incoming| ==> exists c :: c in colors && c.id == incoming[i].colorId
  {
    var colorIds := ColorIdsOf(incoming);
    var unique := Tables.Distinct(colorIds);
    assert forall i :: 0 <= i < |incoming| ==> colorIds[i] in unique;
  }

  /**
   * The guards of update, in their order: the categories when given, the quality when a
   * non-empty id is given, the colours when variables are given, and the activation check
   * when active is set to true (on the merged variables if given, else on the stored ones).
   */
  function PlanUpdate(existing: Product, dto: UpdateProductDto, categories: seq<Category>,
                      qualities: seq<Quality>, colors: seq<Color>, uuid: nat -> Id): (r: Result<UpdatePlan, Exception>)
    ensures r.Failure? ==> r.error.BadRequest?
  {
    var cats := if dto.categories.Some? then Some(ValidateCategories(categories, ParseCategoryIds(dto.categories))) else None;
    if cats.Some? && cats.value.Failure? then Failure(cats.value.error)
    else if TruthyText(dto.qualityId) && QualityRepository.FindById(qualities, dto.qualityId.value).None? then
      Failure(BadRequest("Quality with ID " + dto.qualityId.value + " not found"))
    else if dto.variables.Some? && CheckColors(colors, dto.variables.value).Some? then
      Failure(CheckColors(colors, dto.variables.value).value)
    else
      var merged := if dto.variables.Some? then MergeVariables(existing.variables.GetOr([]), dto.variables.value, uuid)
                    else existing.variables.GetOr([]);
      var toCheck := if dto.variables.Some? then Some(merged) else existing.variables;
      if dto.active == Some(true) && ActivationGuard(toCheck).Some? then Failure(ActivationGuard(toCheck).value)
      else Success(UpdatePlan(if cats.Some? then Some(cats.value.value) else None, merged))
  }

  /** An update whose variables repeat a colour or name a colour not found is refused. */
  lemma UpdateRefusesBadColors(existing: Product, dto: UpdateProductDto, categories: seq<Category>,
                               qualities: seq<Quality>, colors: seq<Color>, uuid: nat -> Id)
    requires dto.variables.Some?
    requires !Tables.NoDuplicates(ColorIdsOf(dto.variables.value)) ||
             exists i :: 0 <= i < |dto.variables.value| && forall c :: c in colors ==> c.id != dto.variables.value[i].colorId
    ensures PlanUpdate(existing, dto, categories, qualities, colors, uuid).Failure?
  {
    assert CheckColors(colors, dto.variables.value).Some?;
  }

  /**
   * When the guards pass, the plan carries the validated categories if given and the merge of
   * the given variables into the stored ones; and a request to set active passed the check.
   */
  lemma PlanUpdateSpec(existing: Product, dto: UpdateProductDto, categories: seq<Category>,
                       qualities: seq<Quality>, colors: seq<Color>, uuid: nat -> Id)
    requires PlanUpdate(existing, dto, categories, qualities, colors, uuid).Success?
    ensures var plan := PlanUpdate(existing, dto, categories, qualities, colors, uuid).value;
      (dto.categories.Some? ==> (plan.categoryIds.Some? &&
         ValidateCategories(categories, ParseCategoryIds(dto.categories)) == Success(plan.categoryIds.value))) &&
      (dto.categories.None? ==> plan.categoryIds.None?) &&
      (TruthyText(dto.qualityId) ==> exists q :: q in qualities && q.id == dto.qualityId.value && q.active) &&
      (dto.variables.Some? ==> (CheckColors(colors, dto.variables.value).None? &&
         plan.merged == MergeVariables(existing.variables.GetOr([]), dto.variables.value, uuid))) &&
      (dto.active == Some(true) ==> ShouldBeActive(if dto.variables.Some? then Some(plan.merged) else existing.variables))
  {
  }

  /** The row after `update(id, updateData)` with the given fields only, and the category save. */
  function Written(p: Product, dto: UpdateProductDto, plan: UpdatePlan): Product {
    p.(name := dto.name.GetOr(p.name),
       price := dto.price.GetOr(p.price), qualityId := dto.qualityId.GetOr(p.qualityId),
       active := dto.active.GetOr(p.active),
       variables := if dto.variables.Some? then Some(plan.merged) else p.variables,
       categoryIds := plan.categoryIds.GetOr(p.categoryIds))
  }

  /** The written row, with the flag re-derived when variables were given. */
  function Updated(p: Product, dto: UpdateProductDto, plan: UpdatePlan): Product {
    var w := Written(p, dto, plan);
    if dto.variables.Some? then w.(active := ShouldBeActive(w.variables)) else w
  }

  function WriteUpdate(products: seq<Product>, id: Id, dto: UpdateProductDto, plan: UpdatePlan): (r: seq<Product>)
    ensures |r| == |products|
    ensures forall i :: 0 <= i < |products| ==> r[i] == if products[i].id == id then Written(products[i], dto, plan) else products[i]
  {
    Tables.UpdateWhere(products, (p: Product) => p.id == id, (p: Product) => Written(p, dto, plan))
  }

  /** Requests to drop the cart lines of each old variant id that is not kept, in order. */
  function DropRequests(productId: Id, ids: seq<Id>, kept: seq<Id>): (effects: seq<CartEffect>)
    ensures forall x :: DropVariantLines(productId, x) in effects <==> x in ids && x !in kept
    ensures forall e :: e in effects ==> e.DropVariantLines? && e.productId == productId
  {
    if |ids| == 0 then []
    else
      var init := DropRequests(productId, ids[..|ids| - 1], kept);
      var last := ids[|ids| - 1];
      assert ids == ids[..|ids| - 1] + [last];
      if last in kept then init else init + [DropVariantLines(productId, last)]
  }

  /**
   * What update asks of the cart service: the price sync whenever a price is given (a decimal
   * column loads as text, so it never equals the number given), then the removals for the
   * variants the merge dropped.
   */
  function UpdateEffects(existing: Product, dto: UpdateProductDto, merged: seq<Variable>): seq<CartEffect> {
    (if dto.price.Some? then [SyncPrice(existing.id, dto.price.value)] else []) +
    (if dto.variables.Some? then
       DropRequests(existing.id, Tables.Distinct(VariantIds(existing.variables.GetOr([]))), VariantIds(merged))
     else [])
  }

  /** The cart requests of update: none unless the product exists and the guards pass. */
  function UpdateRequests(products: seq<Product>, id: Id, dto: UpdateProductDto, categories: seq<Category>,
                          qualities: seq<Quality>, colors: seq<Color>, uuid: nat -> Id): seq<CartEffect>
  {
    match ProductRepository.FindById(products, id)
    case None => []
    case Some(p) =>
      match PlanUpdate(p, dto, categories, qualities, colors, uuid)
      case Failure(_) => []
      case Success(plan) => if dto.description.Some? then [] else UpdateEffects(p, dto, plan.merged)
  }

  /** The loop of update over the old variant ids, asking to drop the lines of each one gone. */
  method DropRemovedVariants(productId: Id, existingVariantIds: seq<Id>, newVariantIds: seq<Id>)
    returns (effects: seq<CartEffect>)
    ensures effects == DropRequests(productId, existingVariantIds, newVariantIds)
  {
    effects := [];
    var i := 0;
    while i < |existingVariantIds|
      invariant 0 <= i <= |existingVariantIds|
      invariant effects == DropRequests(productId, existingVariantIds[..i], newVariantIds)
    {
      assert existingVariantIds[..i + 1][..i] == existingVariantIds[..i];
      if existingVariantIds[i] !in newVariantIds {
        effects := effects + [DropVariantLines(productId, existingVariantIds[i])];
      }
      i := i + 1;
    }
    assert existingVariantIds[..i] == existingVariantIds;
  }

  /**
   * update as a whole: null for an unknown id, the first guard that fails, or the new row.
   * A given description reaches `repository.update`, which refuses a property without a
   * column before writing anything.
   */
  function Update(products: seq<Product>, id: Id, dto: UpdateProductDto, categories: seq<Category>,
                  qualities: seq<Quality>, colors: seq<Color>, uuid: nat -> Id): (o: ProductOutcome<Option<Product>>)
    ensures |o.products| == |products|
    ensures o.result == Success(None) <==> forall q :: q in products ==> q.id != id
    ensures o.result.Failure? || o.result == Success(None) ==> o.products == products
    ensures forall i :: 0 <= i < |products| && products[i].id != id ==> o.products[i] == products[i]
  {
    match ProductRepository.FindById(products, id)
    case None => ProductOutcome(products, Success(None))
    case Some(p) =>
      match PlanUpdate(p, dto, categories, qualities, colors, uuid)
      case Failure(e) => ProductOutcome(products, Failure(e))
      case Success(plan) =>
        if dto.description.Some? then ProductOutcome(products, Failure(EntityPropertyNotFound))
        else
        var written := WriteUpdate(products, id, dto, plan);
        var after := if dto.variables.Some? then SyncActive(written, id) else written;
        ProductOutcome(after, Success(Some(Updated(p, dto, plan))))
  }

  /**
   * update on the product at position `k`: it fails when a guard fails, with a BadRequest,
   * or, past the guards, when a description is given; a failure changes nothing; a success
   * rewrites that row alone, into `Updated` of the plan the guards settled.
   */
  lemma UpdateSpec(products: seq<Product>, k: nat, dto: UpdateProductDto, categories: seq<Category>,
                   qualities: seq<Quality>, colors: seq<Color>, uuid: nat -> Id)
    requires UniqueIds(products) && k < |products|
    ensures var o := Update(products, products[k].id, dto, categories, qualities, colors, uuid);
      var plan := PlanUpdate(products[k], dto, categories, qualities, colors, uuid);
      (o.result.Failure? <==> plan.Failure? || dto.description.Some?) &&
      (o.result.Failure? ==> o.products == products) &&
      (plan.Failure? ==> o.result.error.BadRequest?) &&
      (plan.Success? && dto.description.Some? ==> o.result == Failure(EntityPropertyNotFound)) &&
      (o.result.Success? ==>
        |o.products| == |products| &&
        o.result.value == Some(Updated(products[k], dto, plan.value)) &&
        o.products[k] == Updated(products[k], dto, plan.value) &&
        (forall j :: 0 <= j < |products| && j != k ==> o.products[j] == products[j]))
  {
    FoundAt(products, k);
  }

  /**
   * The updated row: the given fields written and the others kept; with variables given, the
   * merged variables and the flag the rule gives them, whatever `active` said; without, the
   * stored variables and the given flag. A request to activate that passes the guards leaves
   * an active product whose variants all have images.
   */
  lemma UpdatedSpec(p: Product, dto: UpdateProductDto, categories: seq<Category>,
                    qualities: seq<Quality>, colors: seq<Color>, uuid: nat -> Id)
    requires PlanUpdate(p, dto, categories, qualities, colors, uuid).Success?
    ensures var u := Updated(p, dto, PlanUpdate(p, dto, categories, qualities, colors, uuid).value);
      u.id == p.id && u.createdAt == p.createdAt &&
      u.name == dto.name.GetOr(p.name) &&
      u.price == dto.price.GetOr(p.price) && u.qualityId == dto.qualityId.GetOr(p.qualityId) &&
      (dto.variables.Some? ==> (u.variables == Some(MergeVariables(p.variables.GetOr([]), dto.variables.value, uuid)) &&
                                u.active == ShouldBeActive(u.variables))) &&
      (dto.variables.None? ==> (u.variables == p.variables && u.active == dto.active.GetOr(p.active))) &&
      (dto.active == Some(true) ==> (u.active && ShouldBeActive(u.variables)))
  {
    PlanUpdateSpec(p, dto, categories, qualities, colors, uuid);
  }

  /**
   * With fresh ids that are not old variant ids, update asks to drop the cart lines of an old
   * variant exactly when no incoming entry names it.
   */
  lemma UpdateDropsUnlistedVariants(existing: Product, dto: UpdateProductDto, uuid: nat -> Id, id: Id)
    requires dto.variables.Some?
    requires id in VariantIds(existing.variables.GetOr([]))
    requires forall i :: 0 <= i < |dto.variables.value| ==> uuid(i) !in VariantIds(existing.variables.GetOr([]))
    ensures var merged := MergeVariables(existing.variables.GetOr([]), dto.variables.value, uuid);
      DropVariantLines(existing.id, id) in UpdateEffects(existing, dto, merged) <==>
      !Listed(existing.variables.GetOr([]), dto.variables.value, id)
  {
    MergeKeepsExactlyListed(existing.variables.GetOr([]), dto.variables.value, uuid, id);
  }

  /** cloneProduct: the guards, and the quality the clone gets. */
  function CloneQuality(original: Product, qualityId: Option<Id>, qualities: seq<Quality>): (r: Result<Id, Exception>)
    ensures r.Success? && r.value != original.qualityId ==>
              qualityId == Some(r.value) && exists q :: q in qualities && q.id == r.value && q.active
    ensures r.Failure? <==> (TruthyText(qualityId) && qualityId.value != original.qualityId &&
                             QualityRepository.FindById(qualities, qualityId.value).None?)
  {
    if TruthyText(qualityId) && qualityId.value != original.qualityId then
      if QualityRepository.FindById(qualities, qualityId.value).None? then
        Failure(BadRequest("Quality with ID " + qualityId.value + " not found"))
      else Success(qualityId.value)
    else Success(original.qualityId)
  }

  /** The clone's variables: fresh ids, the same colours, copies of the images; [] for none. */
  function CloneVariables(vs: Option<seq<Variable>>, uuid: nat -> Id): (r: seq<Variable>)
    ensures vs.None? ==> r == []
    ensures vs.Some? ==> |r| == |vs.value| && forall i :: 0 <= i < |vs.value| ==>
              r[i] == Variable(uuid(i), vs.value[i].colorId, vs.value[i].images)
  {
    match vs
    case None => []
    case Some(xs) => seq(|xs|, i requires 0 <= i < |xs| => Variable(uuid(i), xs[i].colorId, xs[i].images))
  }

  function Clone(products: seq<Product>, id: Id, qualityId: Option<Id>, qualities: seq<Quality>,
                 uuid: nat -> Id, newId: Id, now: Time): (o: ProductOutcome<Product>)
    ensures o.result.Failure? ==> o.products == products
    ensures o.result.Success? ==> && o.products == products + [o.result.value]
                                  && o.result.value.id == newId && o.result.value.active
  {
    match ProductRepository.FindById(products, id)
    case None => ProductOutcome(products, Failure(NotFound("Product with ID " + id + " not found")))
    case Some(original) =>
      if !original.active then ProductOutcome(products, Failure(BadRequest("Cannot clone inactive product")))
      else
        match CloneQuality(original, qualityId, qualities)
        case Failure(e) => ProductOutcome(products, Failure(e))
        case Success(target) =>
          if exists p :: p in products && p.id == newId then ProductOutcome(products, Failure(DuplicateEntry))
          else
            var c := Product(newId, original.name, original.price, original.active,
                             original.categoryIds, target, Some(CloneVariables(original.variables, uuid)), now);
            ProductOutcome(products + [c], Success(c))
  }

  /**
   * Only an active product is cloned; the clone is active, has the same name, price and
   * categories, and one variant per original variant under a fresh id with the same colour
   * and images; a failure saves nothing. It succeeds exactly when the product exists and is
   * active, the quality asked for (if another) is active, and the new id is free.
   */
  lemma CloneSpec(products: seq<Product>, id: Id, qualityId: Option<Id>, qualities: seq<Quality>,
                  uuid: nat -> Id, newId: Id, now: Time)
    ensures var o := Clone(products, id, qualityId, qualities, uuid, newId, now);
      var found := ProductRepository.FindById(products, id);
      (o.result.Success? <==> found.Some? && found.value.active &&
                              CloneQuality(found.value, qualityId, qualities).Success? &&
                              forall p :: p in products ==> p.id != newId) &&
      (o.result.Failure? ==> o.products == products) &&
      ((forall p :: p in products ==> p.id != id) ==> o.result == Failure(NotFound("Product with ID " + id + " not found"))) &&
      (o.result.Success? ==>
        var c := o.result.value;
        var original := ProductRepository.FindById(products, id).value;
        o.products == products + [c] && original.active && c.active && c.id == newId &&
        c.name == original.name && c.price == original.price &&
        c.categoryIds == original.categoryIds &&
        (c.qualityId == original.qualityId || (qualityId == Some(c.qualityId) && exists q :: q in qualities && q.id == c.qualityId && q.active)) &&
        c.variables.Some? && |c.variables.value| == |original.variables.GetOr([])| &&
        forall i :: 0 <= i < |c.variables.value| ==>
          c.variables.value[i].variantId == uuid(i) &&
          c.variables.value[i].colorId == original.variables.value[i].colorId &&
          c.variables.value[i].images == original.variables.value[i].images)
  {
  }

  // ---------------------------------------------------------------------------------------
  // The service

  class ProductService {
    var products: seq<Product>

    predicate Valid()
      reads this
    {
      UniqueIds(products)
    }

    constructor(products0: seq<Product>)
      requires UniqueIds(products0)
      ensures products == products0 && Valid()
    {
      products := products0;
    }

    /**
     * checkAndUpdateActiveStatus: the flag set by the rule; `wrote` tells whether the row was
     * written, which happens only when the flag changes.
     */
    method CheckAndUpdateActiveStatus(productId: Id) returns (wrote: bool)
      requires Valid()
      modifies this
      ensures Valid()
      ensures products == SyncActive(old(products), productId)
      ensures wrote <==> exists p :: p in old(products) && p.id == productId && p.active != ShouldBeActive(p.variables)
    {
      var product := ProductRepository.FindById(products, productId);
      if product.None? {
        SyncActiveNoChange(products, productId);
        return false;
      }
      var p := product.value;
      var k :| 0 <= k < |products| && products[k] == p;
      FoundAt(products, k);
      var shouldBeActive := ShouldBeActive(p.variables);
      if p.active != shouldBeActive {
        products := SyncActive(products, productId);
        wrote := true;
      } else {
        forall q | q in products && q.id == productId ensures q.active == ShouldBeActive(q.variables) {
          var j :| 0 <= j < |products| && products[j] == q;
        }
        SyncActiveNoChange(products, productId);
        wrote := false;
      }
    }

    /** create. */
    method CreateProduct(dto: CreateProductDto, categories: seq<Category>, qualities: seq<Quality>,
                         uuid: nat -> Id, newId: Id, now: Time) returns (r: Result<Product, Exception>)
      requires Valid()
      modifies this
      ensures Valid()
      ensures ProductOutcome(products, r) == Create(old(products), dto, categories, qualities, uuid, newId, now)
    {
      var categoryIds := ValidateCategories(categories, ParseCategoryIds(dto.categories));
      if categoryIds.Failure? {
        return Failure(categoryIds.error);
      }
      if QualityRepository.FindById(qualities, dto.qualityId).None? {
        return Failure(BadRequest("Quality with ID " + dto.qualityId + " not found"));
      }
      var variablesWithIds: Option<seq<Variable>> := None;
      if dto.variables.Some? {
        variablesWithIds := Some(WithFreshIds(dto.variables.value, uuid));
      }
      var product := Product(newId, dto.name, dto.price, false,
                             categoryIds.value, dto.qualityId, variablesWithIds, now);
      if exists p :: p in products && p.id == newId {
        return Failure(DuplicateEntry);
      }
      products := products + [product];
      return Success(product);
    }

    /**
     * update: the guards, the write of the given fields, the flag when variables were given,
     * and the cart requests: the price sync, then a removal for each old variant id, taken
     * once each in order, that the merged variables no longer have.
     */
    method UpdateProduct(id: Id, dto: UpdateProductDto, categories: seq<Category>, qualities: seq<Quality>,
                         colors: seq<Color>, uuid: nat -> Id)
      returns (r: Result<Option<Product>, Exception>, effects: seq<CartEffect>)
      requires Valid()
      modifies this
      ensures Valid()
      ensures ProductOutcome(products, r) == Update(old(products), id, dto, categories, qualities, colors, uuid)
      ensures effects == UpdateRequests(old(products), id, dto, categories, qualities, colors, uuid)
    {
      effects := [];
      var existing := ProductRepository.FindById(products, id);
      if existing.None? {
        return Success(None), [];
      }
      var p := existing.value;
      var plan := PlanUpdate(p, dto, categories, qualities, colors, uuid);
      if plan.Failure? {
        return Failure(plan.error), [];
      }
      if dto.description.Some? {
        return Failure(EntityPropertyNotFound), [];
      }
      var k :| 0 <= k < |products| && products[k] == p;
      FoundAt(products, k);
      products := WriteUpdate(products, id, dto, plan.value);
      SameIdsKeepUnique(old(products), products);
      if dto.variables.Some? {
        var _ := CheckAndUpdateActiveStatus(id);
      }
      if dto.price.Some? {
        effects := [SyncPrice(id, dto.price.value)];
      }
      if dto.variables.Some? {
        var existingVariantIds := Tables.Distinct(VariantIds(p.variables.GetOr([])));
        var dropped := DropRemovedVariants(id, existingVariantIds, VariantIds(plan.value.merged));
        effects := effects + dropped;
      }
      r := Success(Some(Updated(p, dto, plan.value)));
    }

    /**
     * remove: false for an unknown id; otherwise the images of all variants are collected,
     * the row is deleted, the cart lines of the product are dropped and the collected images
     * are destroyed.
     */
    method Remove(id: Id, pathnameOf: string -> Option<string>)
      returns (deleted: bool, effects: seq<CartEffect>, destroyed: seq<string>)
      requires Valid()
      modifies this
      ensures Valid()
      ensures deleted <==> exists p :: p in old(products) && p.id == id
      ensures !deleted ==> products == old(products) && effects == [] && destroyed == []
      ensures deleted ==>
        products == Tables.Filter(old(products), (p: Product) => p.id != id) &&
        effects == [DropProductLines(id)] &&
        destroyed == ImageUpload.RemoveMultiple(
          CollectImages(ProductRepository.FindById(old(products), id).value.variables.GetOr([])), pathnameOf)
    {
      var product := ProductRepository.FindById(products, id);
      if product.None? {
        return false, [], [];
      }
      var vs := product.value.variables.GetOr([]);
      var allImages: seq<string> := [];
      var i := 0;
      while i < |vs|
        invariant 0 <= i <= |vs|
        invariant allImages == CollectImages(vs[..i])
      {
        assert vs[..i + 1][..i] == vs[..i];
        allImages := allImages + vs[i].images;
        i := i + 1;
      }
      assert vs[..i] == vs;
      FilterKeepsUnique(products, id);
      products := Tables.Filter(products, (p: Product) => p.id != id);
      deleted := true;
      effects := [DropProductLines(id)];
      destroyed := [];
      if |allImages| > 0 {
        destroyed := ImageUpload.RemoveMultiple(allImages, pathnameOf);
      }
    }

    /** cloneProduct. */
    method CloneProduct(id: Id, qualityId: Option<Id>, qualities: seq<Quality>, uuid: nat -> Id, newId: Id, now: Time)
      returns (r: Result<Product, Exception>)
      requires Valid()
      modifies this
      ensures Valid()
      ensures ProductOutcome(products, r) == Clone(old(products), id, qualityId, qualities, uuid, newId, now)
    {
      var original := ProductRepository.FindById(products, id);
      if original.None? {
        return Failure(NotFound("Product with ID " + id + " not found"));
      }
      if !original.value.active {
        return Failure(BadRequest("Cannot clone inactive product"));
      }
      var target := CloneQuality(original.value, qualityId, qualities);
      if target.Failure? {
        return Failure(target.error);
      }
      var clonedVariables := CloneVariables(original.value.variables, uuid);
      var c := Product(newId, original.value.name, original.value.price,
                       original.value.active, original.value.categoryIds, target.value, Some(clonedVariables), now);
      if exists p :: p in products && p.id == newId {
        return Failure(DuplicateEntry);
      }
      products := products + [c];
      return Success(c);
    }

    /** uploadVariantImages; `uploaded` are the URLs Cloudinary gave the files. */
    method UploadVariantImages(productId: Id, variantIndex: int, uploaded: seq<string>)
      returns (r: Result<Product, Exception>)
      requires Valid()
      modifies this
      ensures Valid()
      ensures ProductOutcome(products, r) == Upload(old(products), productId, variantIndex, uploaded)
    {
      var product := VariantAt(products, productId, variantIndex);
      if product.Failure? {
        return Failure(product.error);
      }
      if variantIndex < 0 {
        return Failure(TypeError);
      }
      var p := product.value;
      var vs := p.variables.value;
      var updatedVariables := WithImages(vs, variantIndex, vs[variantIndex].images + uploaded);
      SaveVariablesKeepsUnique(products, productId, updatedVariables);
      products := SetVariables(products, productId, updatedVariables);
      var _ := CheckAndUpdateActiveStatus(productId);
      SaveIsSetThenSync(old(products), productId, updatedVariables);
      return Success(Stored(p, updatedVariables));
    }

    /** replaceVariantImages; `destroyed` are the public ids of the old images removed. */
    method ReplaceVariantImages(productId: Id, variantIndex: int, uploaded: seq<string>, pathnameOf: string -> Option<string>)
      returns (r: Result<Product, Exception>, destroyed: seq<string>)
      requires Valid()
      modifies this
      ensures Valid()
      ensures ProductOutcome(products, r) == Replace(old(products), productId, variantIndex, uploaded)
      ensures r.Success? ==> destroyed == ImageUpload.RemoveMultiple(
                VariantAt(old(products), productId, variantIndex).value.variables.value[variantIndex].images, pathnameOf)
      ensures r.Failure? ==> destroyed == []
    {
      destroyed := [];
      var product := VariantAt(products, productId, variantIndex);
      if product.Failure? {
        return Failure(product.error), [];
      }
      if variantIndex < 0 {
        return Failure(TypeError), [];
      }
      var p := product.value;
      var vs := p.variables.value;
      var oldImages := vs[variantIndex].images;
      var updatedVariables := WithImages(vs, variantIndex, uploaded);
      SaveVariablesKeepsUnique(products, productId, updatedVariables);
      products := SetVariables(products, productId, updatedVariables);
      if |oldImages| > 0 {
        destroyed := ImageUpload.RemoveMultiple(oldImages, pathnameOf);
      }
      var _ := CheckAndUpdateActiveStatus(productId);
      SaveIsSetThenSync(old(products), productId, updatedVariables);
      return Success(Stored(p, updatedVariables)), destroyed;
    }

    /** deleteVariantImage; `destroyed` is the public id removed from Cloudinary, if any. */
    method DeleteVariantImage(productId: Id, variantIndex: int, imageIndex: int, pathnameOf: string -> Option<string>)
      returns (r: Result<Product, Exception>, destroyed: Option<string>)
      requires Valid()
      modifies this
      ensures Valid()
      ensures ProductOutcome(products, r) == DeleteImage(old(products), productId, variantIndex, imageIndex)
      ensures r.Success? ==> destroyed == DeletedPublicId(
                VariantAt(old(products), productId, variantIndex).value.variables.value[variantIndex].images, imageIndex, pathnameOf)
      ensures r.Failure? ==> destroyed.None?
    {
      var product := VariantAt(products, productId, variantIndex);
      if product.Failure? {
        return Failure(product.error), None;
      }
      if variantIndex < 0 {
        return Failure(TypeError), None;
      }
      var p := product.value;
      var vs := p.variables.value;
      var images := vs[variantIndex].images;
      if imageIndex >= |images| {
        return Failure(Other("Image not found")), None;
      }
      var updatedVariables := WithImages(vs, variantIndex, FilterOutIndex(images, imageIndex));
      SaveVariablesKeepsUnique(products, productId, updatedVariables);
      products := SetVariables(products, productId, updatedVariables);
      destroyed := DeletedPublicId(images, imageIndex, pathnameOf);
      var _ := CheckAndUpdateActiveStatus(productId);
      SaveIsSetThenSync(old(products), productId, updatedVariables);
      return Success(Stored(p, updatedVariables)), destroyed;
    }

    /** reorderVariantImages. */
    method ReorderVariantImages(productId: Id, variantIndex: int, newOrder: seq<string>)
      returns (r: Result<Product, Exception>)
      requires Valid()
      modifies this
      ensures Valid()
      ensures ProductOutcome(products, r) == Reorder(old(products), productId, variantIndex, newOrder)
    {
      var product := VariantAt(products, productId, variantIndex);
      if product.Failure? {
        return Failure(product.error);
      }
      var p := product.value;
      if variantIndex < 0 {
        return Success(p);
      }
      var updatedVariables := WithImages(p.variables.value, variantIndex, newOrder);
      SaveVariablesKeepsUnique(products, productId, updatedVariables);
      products := SetVariables(products, productId, updatedVariables);
      return Success(p.(variables := Some(updatedVariables)));
    }
  }

  /** Writing a product's variables keeps the ids unique. */
  lemma SaveVariablesKeepsUnique(products: seq<Product>, id: Id, vs: seq<Variable>)
    requires UniqueIds(products)
    ensures UniqueIds(SetVariables(products, id, vs))
  {
    SameIdsKeepUnique(products, SetVariables(products, id, vs));
  }

  /** Deleting by id keeps the ids unique. */
  lemma FilterKeepsUnique(products: seq<Product>, id: Id)
    requires UniqueIds(products)
    ensures UniqueIds(Tables.Filter(products, (p: Product) => p.id != id))
  {
    var rel := (a: Product, b: Product) => a.id != b.id;
    assert Tables.Pairwise(products, rel);
    Tables.FilterKeepsPairwise(products, (p: Product) => p.id != id, rel);
  }

  /** Every public id remove destroys is that of an image of one of the product's variants. */
  lemma RemoveDestroysOnlyItsImages(vs: seq<Variable>, pathnameOf: string -> Option<string>, id: string)
    requires id in ImageUpload.RemoveMultiple(CollectImages(vs), pathnameOf)
    ensures exists i, u :: 0 <= i < |vs| && u in vs[i].images && ImageUpload.ExtractPublicIdFromUrl(u, pathnameOf) == Some(id)
  {
    ImageUpload.RemoveMultipleIds(CollectImages(vs), pathnameOf);
    var u :| u in CollectImages(vs) && ImageUpload.ExtractPublicIdFromUrl(u, pathnameOf) == Some(id);
    var i :| 0 <= i < |vs| && u in vs[i].images;
  }
}

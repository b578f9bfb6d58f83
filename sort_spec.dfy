/** The `field:direction` sort parameter shared by the category, quality and color listings. */
module SortSpec {
  import opened Wrappers
  import opened Text

  datatype Direction = Asc | Desc

  /** One `ORDER BY` term: a column and its direction. */
  datatype OrderKey = OrderKey(column: string, direction: Direction)

  function DirectionName(d: Direction): string {
    match d
    case Asc => "ASC"
    case Desc => "DESC"
  }

  /**
   * `const [field, direction] = sort.split(':')`, then the whitelist test on `field` and on
   * `direction?.toUpperCase()`. A missing or empty `sort` yields nothing, and so does a spec
   * without ':' (its direction is `undefined`). Pieces after a second ':' are ignored.
   */
  function ParseSortSpec(sort: Option<string>, validFields: seq<string>): (r: Option<OrderKey>)
    ensures r.Some? ==> r.value.column in validFields && sort.Some?
    ensures r.Some? ==> |Split(sort.value, ':')| >= 2 && ToUpper(Split(sort.value, ':')[1]) == DirectionName(r.value.direction)
    ensures sort.Some? && Split(sort.value, ':')[0] !in validFields ==> r.None?
    ensures sort.Some? && |Split(sort.value, ':')| < 2 ==> r.None?
  {
    if sort.None? || sort.value == "" then None
    else
      var parts := Split(sort.value, ':');
      var field := parts[0];
      if field in validFields && |parts| >= 2 then
        var dir := ToUpper(parts[1]);
        if dir == "ASC" then Some(OrderKey(field, Asc))
        else if dir == "DESC" then Some(OrderKey(field, Desc))
        else None
      else None
  }

  /**
   * A whitelisted field followed by ':' and a direction written in any letter case is
   * accepted, and gives back that field and direction; whatever follows a further ':' is ignored.
   */
  lemma ParseSortSpecAccepts(field: string, dir: string, rest: string, d: Direction, validFields: seq<string>)
    requires field in validFields && ':' !in field && ':' !in dir
    requires ToUpper(dir) == DirectionName(d)
    requires rest == "" || rest[0] == ':'
    ensures ParseSortSpec(Some(field + ":" + dir + rest), validFields) == Some(OrderKey(field, d))
  {
    var s := field + ":" + dir + rest;
    assert s == field + [':'] + (dir + rest);
    SplitAtSeparator(field, ':', dir + rest);
    var tail := Split(dir + rest, ':');
    assert Split(s, ':') == [field] + tail;
    PrefixPiece(dir, rest, ':');
  }

  /** The first piece of `a + b` starts with `a` when `a` has no separator; it is `a` when `b` starts with one. */
  lemma {:induction false} PrefixPiece(a: string, b: string, sep: char)
    requires sep !in a
    requires b == "" || b[0] == sep
    ensures Split(a + b, sep)[0] == a
    decreases |a|
  {
    if |a| == 0 {
      assert a + b == b;
      if |b| > 0 { assert b[0] == sep; }
    } else {
      assert (a + b)[1..] == a[1..] + b;
      assert sep !in a[1..];
      PrefixPiece(a[1..], b, sep);
      assert [a[0]] + a[1..] == a;
    }
  }
}

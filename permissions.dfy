/**
 * A user's permission codes (internal/data/permissions.go): the `Include`
 * membership test and the row-by-row building of the list in `GetAllForUser`,
 * with the SQL query and the row scanning given as inputs.
 */
module Permissions {
  import opened Wrappers

  type Permissions = seq<string>

  /** `slices.Index`: the first position holding `code`, or -1 when there is none. */
  function Index(p: Permissions, code: string): (i: int)
    ensures -1 <= i < |p|
    ensures i >= 0 ==> p[i] == code && forall j :: 0 <= j < i ==> p[j] != code
    ensures i == -1 ==> forall j :: 0 <= j < |p| ==> p[j] != code
  {
    if p == [] then -1
    else if p[0] == code then 0
    else
      var k := Index(p[1..], code);
      if k == -1 then -1 else k + 1
  }

  /** `Permissions.Include` (`slices.Contains`): some entry equals `code`. A nil list includes nothing. */
  function Include(p: Permissions, code: string): (b: bool)
    ensures b <==> exists i :: 0 <= i < |p| && p[i] == code
    ensures p == [] ==> !b
  {
    Index(p, code) >= 0
  }

  /**
   * Appending a code to the list keeps the earlier codes in place and in
   * order, and afterwards the list includes the new code and every code it
   * included before.
   */
  lemma AppendIncludes(p: Permissions, code: string)
    ensures (p + [code])[..|p|] == p
    ensures Include(p + [code], code)
    ensures forall c :: Include(p, c) ==> Include(p + [code], c)
  {
    var q := p + [code];
    assert q[|p|] == code;
    forall c | Include(p, c)
      ensures Include(q, c)
    {
      var i := Index(p, c);
      assert q[i] == c;
    }
  }

  /** One row of the query result: a scanned permission code, or the scan's error. */
  datatype Row = Scanned(code: string) | ScanFailed(error: string)

  /**
   * The shape of `GetAllForUser` (permissions.go:22-57) without the SQL:
   * `query` is what `QueryContext` returned and `rowsError` what `rows.Err()`
   * reports after the last row. The first error met is returned; otherwise the
   * result holds every scanned code, in row order.
   */
  method GetAllForUser(query: Result<seq<Row>, string>, rowsError: Option<string>) returns (r: Result<Permissions, string>)
    ensures query.Failure? ==> r == Failure(query.error)
    ensures query.Success? ==> forall i ::
      (0 <= i < |query.value| && query.value[i].ScanFailed? && forall j :: 0 <= j < i ==> query.value[j].Scanned?)
      ==> r == Failure(query.value[i].error)
    ensures query.Success? && (forall i :: 0 <= i < |query.value| ==> query.value[i].Scanned?) ==>
      (rowsError.Some? ==> r == Failure(rowsError.value)) && (rowsError.None? ==> r.Success?)
    ensures r.Success? ==>
      && query.Success? && rowsError.None?
      && |r.value| == |query.value|
      && forall i :: 0 <= i < |query.value| ==>
           query.value[i].Scanned? && r.value[i] == query.value[i].code && Include(r.value, query.value[i].code)
  {
    if query.Failure? {
      return Failure(query.error);
    }
    var rows := query.value;
    var permissions: Permissions := [];
    var i := 0;
    while i < |rows|
      invariant 0 <= i <= |rows|
      invariant forall j :: 0 <= j < i ==> rows[j].Scanned?
      invariant |permissions| == i
      invariant forall j :: 0 <= j < i ==> permissions[j] == rows[j].code
    {
      match rows[i]
      case ScanFailed(e) =>
        return Failure(e);
      case Scanned(code) =>
        AppendIncludes(permissions, code);
        permissions := permissions + [code];
      i := i + 1;
    }
    if rowsError.Some? {
      return Failure(rowsError.value);
    }
    forall j | 0 <= j < |rows|
      ensures Include(permissions, rows[j].code)
    {
      assert permissions[j] == rows[j].code;
    }
    return Success(permissions);
  }
}

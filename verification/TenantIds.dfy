/** Tenant id canonicalization and validation. */
module TenantIds {
  import opened Wrappers
  import opened Text

  datatype TenantIdError = EmptyRegistry | EmptyTenantId | DuplicateTenantId(tenantId: string)

  function Canonical(tenantId: string): string {
    Trim(tenantId)
  }

  /** The scan of ids that are canonical already: the first one that is empty or a repeat decides the error. */
  function Scanned(ids: seq<string>): Result<seq<string>, TenantIdError> {
    if ids == [] then Ok([])
    else match Scanned(ids[..|ids| - 1])
         case Err(e) => Err(e)
         case Ok(before) =>
           var id := ids[|ids| - 1];
           if id == [] then Err(EmptyTenantId)
           else if id in before then Err(DuplicateTenantId(id))
           else Ok(before + [id])
  }

  function Validated(ids: seq<string>): Result<seq<string>, TenantIdError> {
    if ids == [] then Err(EmptyRegistry) else Scanned(TrimAll(ids))
  }

  function ValidatedAllowEmpty(ids: seq<string>): Result<seq<string>, TenantIdError> {
    if ids == [] then Ok([]) else Validated(ids)
  }

  lemma {:induction false} ScannedErrorStays(ids: seq<string>, i: nat)
    requires i <= |ids| && Scanned(ids[..i]).Err?
    ensures Scanned(ids) == Scanned(ids[..i])
    decreases |ids|
  {
    if i == |ids| {
      assert ids[..i] == ids;
    } else {
      assert ids[..|ids| - 1][..i] == ids[..i];
      ScannedErrorStays(ids[..|ids| - 1], i);
    }
  }

  lemma ScannedStep(ids: seq<string>, i: nat, before: seq<string>)
    requires i < |ids| && Scanned(ids[..i]) == Ok(before)
    ensures ids[i] == [] ==> Scanned(ids) == Err(EmptyTenantId)
    ensures ids[i] != [] && ids[i] in before ==> Scanned(ids) == Err(DuplicateTenantId(ids[i]))
    ensures ids[i] != [] && ids[i] !in before ==> Scanned(ids[..i + 1]) == Ok(before + [ids[i]])
  {
    assert ids[..i + 1][..i] == ids[..i];
    if ids[i] == [] || ids[i] in before {
      ScannedErrorStays(ids, i + 1);
    }
  }

  method ValidateTenantIds(ids: seq<string>) returns (r: Result<seq<string>, TenantIdError>)
    ensures r == Validated(ids)
  {
    if ids == [] {
      return Err(EmptyRegistry);
    }
    r := ScanIds(ids, TrimAll(ids));
  }

  /** The loop of `validate_tenant_ids`. */
  method ScanIds(ids: seq<string>, ghost trimmed: seq<string>) returns (r: Result<seq<string>, TenantIdError>)
    requires trimmed == TrimAll(ids)
    ensures r == Scanned(trimmed)
  {
    var seen: set<string> := {};
    var normalized: seq<string> := [];
    var i := 0;
    while i < |ids|
      invariant i <= |ids| == |trimmed|
      invariant Scanned(trimmed[..i]) == Ok(normalized)
      invariant forall id :: id in seen <==> id in normalized
    {
      var id := TrimmedId(ids, i);
      ScannedStep(trimmed, i, normalized);
      if id == [] {
        return Err(EmptyTenantId);
      }
      if id in seen {
        return Err(DuplicateTenantId(id));
      }
      seen := seen + {id};
      normalized := normalized + [id];
      i := i + 1;
    }
    assert trimmed[..i] == trimmed;
    r := Ok(normalized);
  }

  lemma AppendedIsFresh(before: seq<string>, id: string)
    ensures NoneEmpty(before + [id]) <==> NoneEmpty(before) && id != []
    ensures Distinct(before + [id]) <==> Distinct(before) && id !in before
  {
    var all := before + [id];
    assert all[|before|] == id;
    assert forall i :: 0 <= i < |before| ==> all[i] == before[i];
  }

  lemma {:induction false} ScannedExactly(ids: seq<string>)
    ensures Scanned(ids).Ok? <==> NoneEmpty(ids) && Distinct(ids)
    ensures Scanned(ids).Ok? ==> Scanned(ids).value == ids
  {
    if ids != [] {
      var n := |ids| - 1;
      ScannedExactly(ids[..n]);
      AppendedIsFresh(ids[..n], ids[n]);
      assert ids == ids[..n] + [ids[n]];
    }
  }

  /** Accepted exactly when there is an id, and the canonical ids are non-empty and distinct; the result is the
      canonical ids in their order. */
  lemma ValidatedExactly(ids: seq<string>)
    ensures Validated(ids).Ok? <==> ids != [] && NoneEmpty(TrimAll(ids)) && Distinct(TrimAll(ids))
    ensures Validated(ids).Ok? ==> Validated(ids).value == TrimAll(ids)
  {
    ScannedExactly(TrimAll(ids));
  }

  /** Id `i` is blank or repeats an earlier one once trimmed, and no id before it is or does. */
  ghost predicate FirstBad(ids: seq<string>, i: nat) {
    var t := TrimAll(ids);
    && i < |t| && (t[i] == [] || t[i] in t[..i])
    && NoneEmpty(t[..i]) && Distinct(t[..i])
  }

  /** Which error a refused list gets: no ids at all, or, at the first id that is blank or repeats an earlier one,
      blankness or the repeated id. */
  lemma ErrorsExactly(ids: seq<string>, i: nat)
    ensures ids == [] ==> Validated(ids) == Err(EmptyRegistry)
    ensures FirstBad(ids, i) && TrimAll(ids)[i] == [] ==> Validated(ids) == Err(EmptyTenantId)
    ensures FirstBad(ids, i) && TrimAll(ids)[i] != [] ==> Validated(ids) == Err(DuplicateTenantId(TrimAll(ids)[i]))
  {
    var t := TrimAll(ids);
    if FirstBad(ids, i) {
      ScannedExactly(t[..i]);
      ScannedStep(t, i, t[..i]);
    }
  }

  /** Validating validated ids again accepts them unchanged. */
  lemma ValidatedTwice(ids: seq<string>)
    requires Validated(ids).Ok?
    ensures Validated(Validated(ids).value) == Validated(ids)
    ensures TrimAll(Validated(ids).value) == Validated(ids).value
  {
    ValidatedExactly(ids);
    TrimAllIsIdempotent(ids);
    ValidatedExactly(TrimAll(ids));
  }

  method ValidateTenantIdsAllowEmpty(ids: seq<string>) returns (r: Result<seq<string>, TenantIdError>)
    ensures r == ValidatedAllowEmpty(ids)
  {
    if ids == [] {
      r := Ok([]);
    } else {
      r := ValidateTenantIds(ids);
    }
  }

  /** Ids that passed discovery are canonical already, and registry construction accepts them when there are any. */
  lemma AllowEmptyIsStable(ids: seq<string>)
    requires ValidatedAllowEmpty(ids).Ok?
    ensures var v := ValidatedAllowEmpty(ids).value;
            && v == TrimAll(ids)
            && (v != [] ==> Validated(v) == Ok(v))
            && TrimAll(v) == v
  {
    if ids != [] {
      ValidatedExactly(ids);
      ValidatedTwice(ids);
    }
  }
}

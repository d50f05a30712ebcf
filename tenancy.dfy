/**
 * Routing of a tenant to its vector table (common-mail-insights.ts, the
 * `tableName` entry of getPostgresConnectionOptions and DEFAULT_TENANT).
 */
module Tenancy {

  /** The untenanted table, DEFAULT_TENANT. */
  const DefaultTable: string := "_main"

  /**
   * The value handlers compute as `cds.env?.requires?.multitenancy && req.tenant`:
   * `undefined`, another falsy value (multitenancy switched off), or a tenant string.
   */
  datatype TenantArg = Undefined | NoTenant | Tenant(name: string)

  predicate IsTruthy(t: TenantArg) {
    t.Tenant? && t.name != ""
  }

  /** `s.replace(/-/g, "")` */
  function RemoveHyphens(s: string): (r: string)
    ensures '-' !in r
    ensures |r| <= |s|
    ensures forall c :: c in r ==> c in s
  {
    if s == [] then []
    else if s[0] == '-' then RemoveHyphens(s[1..])
    else [s[0]] + RemoveHyphens(s[1..])
  }

  /** Removing hyphens distributes over concatenation. */
  lemma {:induction false} RemoveHyphensAppend(a: string, b: string)
    ensures RemoveHyphens(a + b) == RemoveHyphens(a) + RemoveHyphens(b)
  {
    if a == [] {
      assert a + b == b;
    } else {
      assert (a + b)[1..] == a[1..] + b;
      RemoveHyphensAppend(a[1..], b);
    }
  }

  /** Only `-` is removed: a string without hyphens is left exactly as it is. */
  lemma {:induction false} RemoveHyphensKeepsOthers(s: string)
    requires '-' !in s
    ensures RemoveHyphens(s) == s
  {
    if s != [] {
      assert s[0] in s;
      assert forall c :: c in s[1..] ==> c in s;
      RemoveHyphensKeepsOthers(s[1..]);
    }
  }

  /** Every character other than `-` survives, in order: removing hyphens is a filter. */
  lemma {:induction false} RemoveHyphensOfChar(c: char)
    ensures RemoveHyphens([c]) == if c == '-' then [] else [c]
  {
    assert [c][1..] == [];
  }

  /** `tenant ? "_" + tenant.replace(/-/g, "") : DEFAULT_TENANT` */
  function TableName(t: TenantArg): (r: string)
    ensures |r| > 0 && r[0] == '_'
    ensures IsTruthy(t) ==> r == "_" + RemoveHyphens(t.name)
    ensures !IsTruthy(t) ==> r == DefaultTable
  {
    if IsTruthy(t) then "_" + RemoveHyphens(t.name) else DefaultTable
  }

  /** Distinct tenants share a table when they differ only in hyphens. */
  lemma TableNameCollision()
    ensures TableName(Tenant("a-b")) == TableName(Tenant("ab"))
    ensures TableName(Tenant("main")) == TableName(Undefined)
  {
    RemoveHyphensKeepsOthers("ab");
    RemoveHyphensKeepsOthers("main");
    assert "a-b" == "a" + "-b";
    RemoveHyphensAppend("a", "-b");
    RemoveHyphensKeepsOthers("a");
    assert "-b"[1..] == "b";
    RemoveHyphensKeepsOthers("b");
  }

  /**
   * The default parameter value `tenant: string = DEFAULT_TENANT` that
   * regenerateInsights, regenerateResponse and preparePotentialResponses
   * declare: JavaScript substitutes it for an `undefined` argument only.
   */
  function WithDefaultParameter(t: TenantArg): (r: TenantArg)
    ensures t.Undefined? ==> r == Tenant(DefaultTable)
    ensures !t.Undefined? ==> r == t
  {
    if t.Undefined? then Tenant(DefaultTable) else t
  }

  /**
   * As written: the retrieval-augmented drafting path reaches getVectorStore
   * through parameters that default to DEFAULT_TENANT, so the table name is
   * computed from the default value itself.
   */
  function RetrievalTableAsWritten(t: TenantArg): (r: string)
    ensures !t.Undefined? ==> r == TableName(t)
  {
    TableName(WithDefaultParameter(t))
  }

  /** With an undefined tenant the retrieval path queries "__main", which ingestion never fills. */
  lemma RetrievalTableMismatch()
    ensures RetrievalTableAsWritten(Undefined) == "__main"
    ensures TableName(Undefined) == "_main"
  {
    RemoveHyphensKeepsOthers(DefaultTable);
  }

  /**
   * Corrected: the retrieval path routes the tenant unchanged, as
   * getVectorStore(tenant) does for onAddMails, onGetMail and onDeleteMail.
   * It differs from the written path only for an undefined tenant.
   */
  function RetrievalTable(t: TenantArg): (r: string)
    ensures r == TableName(t)
    ensures !t.Undefined? ==> r == RetrievalTableAsWritten(t)
    ensures t.Undefined? ==> r == DefaultTable && r != RetrievalTableAsWritten(t)
  {
    TableName(t)
  }
}

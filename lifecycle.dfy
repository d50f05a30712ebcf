/**
 * The handlers that change or read the persisted state: the Mails entity
 * (a map from ID to record, the translation expanded under `translation`)
 * and the tenants' vector tables (maps from table name to rows).
 *
 * Handlers of common-mail-insights.ts: onAddMails, onGetMail, onDeleteMail,
 * regenerateResponse, translateResponse. Handlers of
 * mail-insights-service.ts: onRegenerateInsights, onRegenerateResponse,
 * onTranslateResponse, onFindMails, onSubmitResponse, onRevokeResponse.
 *
 * A CAP UPDATE writes the properties its data defines and leaves the others
 * as they are: writing `patch` over `old` is `old + patch`, and a property
 * that is `undefined` in the data is absent from `patch`.
 */
module MailLifecycle {
  import opened JsonValues
  import Tenancy
  import Retrieval
  import SuggestedActions
  import InsightPipeline

  /** translateResponse's chain: the response and the target language in, the parsed translation out. */
  type TranslateChain = (Option<Json>, Option<Json>) -> Option<Record>

  /** `UPDATE ... .set(patch)` on a record. */
  function Write(old_: Record, patch: Record): (r: Record)
    ensures forall k :: Get(r, k) == (if k in patch then Some(patch[k]) else Get(old_, k))
  {
    old_ + patch
  }

  /**
   * translateResponse: the chain's translation, or `{ responseBody: response || "" }`
   * when the chain rejects; it never rejects itself.
   */
  function TranslateResponse(response: Option<Json>, language: Option<Json>, chain: TranslateChain): (r: Record)
    ensures chain(response, language).None? ==> r.Keys == {"responseBody"} && r["responseBody"] == OrElse(response, JStr(""))
    ensures chain(response, language).Some? ==> r == chain(response, language).value
  {
    match chain(response, language)
    case Some(t) => t
    case None => map["responseBody" := OrElse(response, JStr(""))]
  }

  // ---------------------------------------------------------------------
  // Submitting and revoking a response
  // ---------------------------------------------------------------------

  /**
   * The body stored on submit: the response itself when `languageMatch` is
   * undefined or truthy, otherwise its translation into `languageNameDetermined`.
   */
  function StoredResponse(mail: Record, response: Json, chain: TranslateChain): Option<Json> {
    var languageMatch := Get(mail, "languageMatch");
    if languageMatch.None? || Truthy(languageMatch) then Some(response)
    else Get(TranslateResponse(Some(response), Get(mail, "languageNameDetermined"), chain), "responseBody")
  }

  /** `{ ...mail, responded: true, responseBody: translation, translation: { ...mail.translation, responseBody: response } }` */
  function SubmittedMail(mail: Record, response: Json, chain: TranslateChain): Record {
    SetProp(mail["responded" := JBool(true)], "responseBody", StoredResponse(mail, response, chain))
      ["translation" := JObj(ObjectAt(mail, "translation")["responseBody" := response])]
  }

  /**
   * What submitting leaves in the record: `responded` is true, the response
   * (untranslated when the languages match, without a chain call) or its
   * translation is the body, the working-language response is the
   * translation's body, and nothing else changes.
   */
  lemma SubmitSpec(mail: Record, response: Json, chain: TranslateChain, other: TranslateChain)
    ensures var s := Write(mail, SubmittedMail(mail, response, chain));
      && Get(s, "responded") == Some(JBool(true))
      && (Get(mail, "languageMatch").None? || Truthy(Get(mail, "languageMatch")) ==>
            Get(s, "responseBody") == Some(response) && s == Write(mail, SubmittedMail(mail, response, other)))
      && (Get(mail, "languageMatch").Some? && !Truthy(Get(mail, "languageMatch")) ==>
            var t := chain(Some(response), Get(mail, "languageNameDetermined"));
            && (t.None? ==> Get(s, "responseBody") == Some(OrElse(Some(response), JStr(""))))
            && (t.Some? && "responseBody" in t.value ==> Get(s, "responseBody") == Some(t.value["responseBody"]))
            && (t.Some? && "responseBody" !in t.value ==> Get(s, "responseBody") == Get(mail, "responseBody")))
      && Get(ObjectAt(s, "translation"), "responseBody") == Some(response)
      && (forall k :: k != "responseBody" ==> Get(ObjectAt(s, "translation"), k) == Get(ObjectAt(mail, "translation"), k))
      && (forall k :: k != "responded" && k != "responseBody" && k != "translation" ==> Get(s, k) == Get(mail, k))
  {
  }

  /** `UPDATE(Mails, id).with({ responded: false })` */
  function RevokedMail(mail: Record): Record {
    Write(mail, map["responded" := JBool(false)])
  }

  /** `SET metadata = metadata::jsonb || patch WHERE (metadata->'id')::jsonb ? id` for one row. */
  function PatchRow(row: Retrieval.Row, id: string, patch: Record): Retrieval.Row {
    if Retrieval.IsFocus(row, id) then row.(metadata := row.metadata + patch) else row
  }

  function PatchRows(rows: seq<Retrieval.Row>, id: string, patch: Record): (r: seq<Retrieval.Row>)
    ensures |r| == |rows|
    ensures forall i :: 0 <= i < |rows| ==> r[i].id == rows[i].id && r[i].pageContent == rows[i].pageContent
  {
    seq(|rows|, i requires 0 <= i < |rows| => PatchRow(rows[i], id, patch))
  }

  function PatchTable(tables: map<string, seq<Retrieval.Row>>, name: string, id: string, patch: Record): map<string, seq<Retrieval.Row>> {
    tables[name := PatchRows(InsightPipeline.Rows(tables, name), id, patch)]
  }

  /**
   * The rows for the mail get the patch's keys and keep their other metadata;
   * every other row is untouched.
   */
  lemma PatchRowsSpec(rows: seq<Retrieval.Row>, id: string, patch: Record)
    ensures var r := PatchRows(rows, id, patch);
      forall i :: 0 <= i < |rows| ==>
        && (Retrieval.IsFocus(rows[i], id) ==>
              (forall k :: k in patch ==> Get(r[i].metadata, k) == Some(patch[k]))
              && (forall k :: k !in patch ==> Get(r[i].metadata, k) == Get(rows[i].metadata, k)))
        && (!Retrieval.IsFocus(rows[i], id) ==> r[i] == rows[i])
  {
  }

  /** A later patch of the same rows wins, provided the patches leave `id` alone. */
  lemma PatchRowsTwice(rows: seq<Retrieval.Row>, id: string, p1: Record, p2: Record)
    requires "id" !in p1
    ensures PatchRows(PatchRows(rows, id, p1), id, p2) == PatchRows(rows, id, p1 + p2)
  {
    var a := PatchRows(PatchRows(rows, id, p1), id, p2);
    var b := PatchRows(rows, id, p1 + p2);
    forall i | 0 <= i < |rows| ensures a[i] == b[i] {
      PatchRowTwice(rows[i], id, p1, p2);
    }
  }

  lemma PatchRowTwice(row: Retrieval.Row, id: string, p1: Record, p2: Record)
    requires "id" !in p1
    ensures PatchRow(PatchRow(row, id, p1), id, p2) == PatchRow(row, id, p1 + p2)
  {
    var once := PatchRow(row, id, p1);
    assert Get(once.metadata, "id") == Get(row.metadata, "id");
    assert Retrieval.IsFocus(once, id) == Retrieval.IsFocus(row, id);
    if Retrieval.IsFocus(row, id) {
      assert row.metadata + p1 + p2 == row.metadata + (p1 + p2);
    }
  }

  /**
   * Submit followed by revoke: `responded` is false again, but the submitted
   * bodies stay.
   */
  lemma SubmitThenRevoke(mail: Record, response: Json, chain: TranslateChain)
    ensures var s := Write(mail, SubmittedMail(mail, response, chain));
      var v := RevokedMail(s);
      && Get(v, "responded") == Some(JBool(false))
      && Get(v, "responseBody") == Get(s, "responseBody")
      && Get(ObjectAt(v, "translation"), "responseBody") == Some(response)
  {
  }

  /**
   * Marking rows submitted and then unsubmitted is marking them unsubmitted;
   * it is no inverse: a row created with metadata `{ id }` alone now carries
   * `submitted: false`.
   */
  lemma SubmitThenRevokeRows(rows: seq<Retrieval.Row>, id: string, i: nat)
    requires i < |rows| && rows[i].metadata == map["id" := JStr(id)]
    ensures var after := PatchRows(PatchRows(rows, id, map["submitted" := JBool(true)]), id, map["submitted" := JBool(false)]);
      && after == PatchRows(rows, id, map["submitted" := JBool(false)])
      && after[i].metadata == map["id" := JStr(id), "submitted" := JBool(false)]
      && after[i].metadata != rows[i].metadata
  {
    PatchRowsTwice(rows, id, map["submitted" := JBool(true)], map["submitted" := JBool(false)]);
    assert map["submitted" := JBool(true)] + map["submitted" := JBool(false)] == map["submitted" := JBool(false)];
    assert Retrieval.IsFocus(rows[i], id);
    var after := PatchRows(rows, id, map["submitted" := JBool(false)]);
    assert after[i].metadata == rows[i].metadata + map["submitted" := JBool(false)];
    assert "submitted" in after[i].metadata;
  }

  // ---------------------------------------------------------------------
  // Deleting a mail
  // ---------------------------------------------------------------------

  /** `DELETE FROM t WHERE (metadata->'id')::jsonb ? id` */
  function DropRows(rows: seq<Retrieval.Row>, id: string): (r: seq<Retrieval.Row>)
    ensures forall row :: row in r <==> row in rows && !Retrieval.IsFocus(row, id)
    ensures |r| <= |rows|
  {
    if rows == [] then []
    else (if Retrieval.IsFocus(rows[0], id) then [] else [rows[0]]) + DropRows(rows[1..], id)
  }

  // ---------------------------------------------------------------------
  // Adding mails
  // ---------------------------------------------------------------------

  function IdString(mail: Record): string {
    if "ID" in mail && mail["ID"].JStr? then mail["ID"].s else ""
  }

  /** INSERT succeeds: every record has a string ID, none stored yet, no two alike. */
  predicate Insertable(batch: seq<Record>, store: map<string, Record>) {
    && (forall i :: 0 <= i < |batch| ==> AsString(Get(batch[i], "ID")).Some? && IdString(batch[i]) !in store)
    && (forall i, j :: 0 <= i < j < |batch| ==> IdString(batch[i]) != IdString(batch[j]))
  }

  function Inserted(store: map<string, Record>, batch: seq<Record>): map<string, Record>
    decreases |batch|
  {
    if batch == [] then store else Inserted(store[IdString(batch[0]) := batch[0]], batch[1..])
  }

  function BatchIds(batch: seq<Record>): set<string> {
    set i | 0 <= i < |batch| :: IdString(batch[i])
  }

  lemma BatchIdsTail(batch: seq<Record>)
    requires batch != []
    ensures BatchIds(batch) == {IdString(batch[0])} + BatchIds(batch[1..])
  {
    forall k | k in BatchIds(batch) ensures k in {IdString(batch[0])} + BatchIds(batch[1..]) {
      var i :| 0 <= i < |batch| && IdString(batch[i]) == k;
      if i > 0 {
        assert IdString(batch[1..][i - 1]) == k;
      }
    }
    forall k | k in BatchIds(batch[1..]) ensures k in BatchIds(batch) {
      var i :| 0 <= i < |batch[1..]| && IdString(batch[1..][i]) == k;
      assert IdString(batch[i + 1]) == k;
    }
  }

  /** The insert adds exactly the batch's IDs. */
  lemma {:induction false} InsertedKeys(store: map<string, Record>, batch: seq<Record>)
    ensures Inserted(store, batch).Keys == store.Keys + BatchIds(batch)
    decreases |batch|
  {
    if batch != [] {
      InsertedKeys(store[IdString(batch[0]) := batch[0]], batch[1..]);
      BatchIdsTail(batch);
    }
  }

  /** A stored record the batch does not name is untouched. */
  lemma {:induction false} InsertedOthers(store: map<string, Record>, batch: seq<Record>, k: string)
    requires k in store && k !in BatchIds(batch)
    ensures k in Inserted(store, batch) && Inserted(store, batch)[k] == store[k]
    decreases |batch|
  {
    if batch != [] {
      BatchIdsTail(batch);
      InsertedOthers(store[IdString(batch[0]) := batch[0]], batch[1..], k);
    }
  }

  /** With distinct IDs every record of the batch is stored under its own. */
  lemma {:induction false} InsertedAt(store: map<string, Record>, batch: seq<Record>, i: nat)
    requires forall a, b :: 0 <= a < b < |batch| ==> IdString(batch[a]) != IdString(batch[b])
    requires i < |batch|
    ensures IdString(batch[i]) in Inserted(store, batch) && Inserted(store, batch)[IdString(batch[i])] == batch[i]
    decreases |batch|
  {
    var s := store[IdString(batch[0]) := batch[0]];
    if i == 0 {
      assert IdString(batch[0]) !in BatchIds(batch[1..]) by {
        forall j | 0 <= j < |batch[1..]| ensures IdString(batch[1..][j]) != IdString(batch[0]) {
          assert batch[1..][j] == batch[j + 1];
        }
      }
      InsertedOthers(s, batch[1..], IdString(batch[0]));
    } else {
      forall a, b | 0 <= a < b < |batch[1..]| ensures IdString(batch[1..][a]) != IdString(batch[1..][b]) {
        assert batch[1..][a] == batch[a + 1] && batch[1..][b] == batch[b + 1];
      }
      InsertedAt(s, batch[1..], i - 1);
      assert batch[1..][i - 1] == batch[i];
    }
  }

  /** `{ pageContent: mail.body, metadata: { id: mail.ID } }` for every mail, with fresh primary keys. */
  function EmbeddingDocs(batch: seq<Record>, start: nat): (r: seq<Retrieval.Row>)
    ensures |r| == |batch|
    ensures forall i :: 0 <= i < |batch| ==>
      && r[i].id == start + i
      && r[i].pageContent == AsString(Get(batch[i], "body"))
      && r[i].metadata == map["id" := JStr(IdString(batch[i]))]
  {
    seq(|batch|, i requires 0 <= i < |batch| =>
      Retrieval.Row(start + i, AsString(Get(batch[i], "body")), map["id" := JStr(IdString(batch[i]))]))
  }

  /** Each new row is the focus row of its own mail and of no other, and starts unsubmitted. */
  lemma EmbeddingDocsFocus(batch: seq<Record>, start: nat, i: nat, id: string)
    requires i < |batch|
    ensures Retrieval.IsFocus(EmbeddingDocs(batch, start)[i], id) <==> id == IdString(batch[i])
    ensures !Retrieval.ContainsFilter(EmbeddingDocs(batch, start)[i].metadata, InsightPipeline.SubmittedFilter)
  {
    assert "submitted" in InsightPipeline.SubmittedFilter;
    assert "submitted" !in EmbeddingDocs(batch, start)[i].metadata;
  }

  /** An insert keeps every record filed under its own ID. */
  lemma InsertedKeyed(store: map<string, Record>, batch: seq<Record>)
    requires Retrieval.KeyedById(store) && Insertable(batch, store)
    ensures Retrieval.KeyedById(Inserted(store, batch))
  {
    InsertedKeys(store, batch);
    var r := Inserted(store, batch);
    forall k | k in r ensures Get(r[k], "ID") == Some(JStr(k)) {
      if k in BatchIds(batch) {
        var i :| 0 <= i < |batch| && IdString(batch[i]) == k;
        InsertedAt(store, batch, i);
        assert AsString(Get(batch[i], "ID")).Some?;
      } else {
        InsertedOthers(store, batch, k);
      }
    }
  }

  // ---------------------------------------------------------------------
  // The service state
  // ---------------------------------------------------------------------

  /** The columns onGetMail and onFindMails select for similar mails. */
  const SimilarColumns: set<string> :=
    {"ID", "subject", "body", "category", "sender", "responded", "responseBody", "translation"}

  /** onGetMail's result: `{ mail, closestMails }`. */
  datatype MailDetail = MailDetail(mail: Record, closestMails: seq<Retrieval.Similar>)

  class MailService {
    /** The Mails entity by ID. */
    var mails: map<string, Record>
    /** The vector tables by name. */
    var vectorTables: map<string, seq<Retrieval.Row>>
    /** The next primary key the vector store hands out. */
    var nextRow: nat

    predicate Valid()
      reads this
    {
      && Retrieval.KeyedById(mails)
      && forall name, row :: name in vectorTables && row in vectorTables[name] ==> row.id < nextRow
    }

    constructor ()
      ensures mails == map[] && vectorTables == map[] && nextRow == 0
      ensures Valid()
    {
      mails := map[];
      vectorTables := map[];
      nextRow := 0;
    }

    /** The state the retrieval-augmented drafting reads. */
    function StoreView(dist: (Retrieval.Row, Retrieval.Row) -> Option<real>): InsightPipeline.Store
      reads this
    {
      InsightPipeline.Store(vectorTables, mails, dist)
    }

    /**
     * onSubmitResponse. An unknown id makes `mail.languageMatch` throw before
     * any write; otherwise the record is updated and then the mail's rows in
     * the tenant's table are marked submitted.
     */
    method SubmitResponse(id: string, response: Json, tenant: Tenancy.TenantArg, chain: TranslateChain) returns (r: Outcome<bool>)
      requires Valid()
      modifies this
      ensures Valid()
      ensures id !in old(mails) ==> r == Thrown && mails == old(mails) && vectorTables == old(vectorTables)
      ensures id in old(mails) ==>
        && r == Ok(true)
        && mails == old(mails)[id := Write(old(mails)[id], SubmittedMail(old(mails)[id], response, chain))]
        && vectorTables == PatchTable(old(vectorTables), Tenancy.TableName(tenant), id, map["submitted" := JBool(true)])
      ensures nextRow == old(nextRow)
    {
      if id !in mails {
        return Thrown;
      }
      var mail := mails[id];
      var submittedMail := SubmittedMail(mail, response, chain);
      assert Get(Write(mail, submittedMail), "ID") == Get(mail, "ID");
      mails := mails[id := Write(mail, submittedMail)];
      PatchKeepsRowIds(vectorTables, Tenancy.TableName(tenant), id, map["submitted" := JBool(true)], nextRow);
      vectorTables := PatchTable(vectorTables, Tenancy.TableName(tenant), id, map["submitted" := JBool(true)]);
      return Ok(true);
    }

    /** onRevokeResponse: `responded := false`, and the rows are patched only when a record was updated. */
    method RevokeResponse(id: string, tenant: Tenancy.TenantArg) returns (success: bool)
      requires Valid()
      modifies this
      ensures Valid()
      ensures success <==> id in old(mails)
      ensures success ==>
        && mails == old(mails)[id := RevokedMail(old(mails)[id])]
        && vectorTables == PatchTable(old(vectorTables), Tenancy.TableName(tenant), id, map["submitted" := JBool(false)])
      ensures !success ==> mails == old(mails) && vectorTables == old(vectorTables)
      ensures nextRow == old(nextRow)
    {
      success := id in mails;
      if success {
        assert Get(RevokedMail(mails[id]), "ID") == Get(mails[id], "ID");
        mails := mails[id := RevokedMail(mails[id])];
        PatchKeepsRowIds(vectorTables, Tenancy.TableName(tenant), id, map["submitted" := JBool(false)], nextRow);
        vectorTables := PatchTable(vectorTables, Tenancy.TableName(tenant), id, map["submitted" := JBool(false)]);
      }
    }

    /** onDeleteMail: the record (if any) and every row of the mail in the tenant's table go. */
    method DeleteMail(id: string, tenant: Tenancy.TenantArg) returns (r: bool)
      requires Valid()
      modifies this
      ensures Valid()
      ensures r
      ensures mails == old(mails) - {id}
      ensures vectorTables == old(vectorTables)[Tenancy.TableName(tenant) :=
        DropRows(InsightPipeline.Rows(old(vectorTables), Tenancy.TableName(tenant)), id)]
      ensures nextRow == old(nextRow)
    {
      mails := mails - {id};
      var name := Tenancy.TableName(tenant);
      vectorTables := vectorTables[name := DropRows(InsightPipeline.Rows(vectorTables, name), id)];
      return true;
    }

    /**
     * regenerateResponse: a new draft for the mail's four prompt fields, its
     * translation into the working language when the mail is not in it, and
     * the action descriptions. It rejects when drafting rejects, when the mail
     * has no translation to update, or when an action cannot be described.
     */
    method RegenerateResponse(mail: Record, rag: bool, table: string, additionalInformation: Option<Json>,
                              dist: (Retrieval.Row, Retrieval.Row) -> Option<real>, c: InsightPipeline.Chains,
                              chain: TranslateChain, workingLanguage: Json, catalog: seq<Record>)
      returns (r: Outcome<Record>)
      ensures r.Ok? ==> Get(r.value, "ID") == Get(mail, "ID")
      ensures var draft := InsightPipeline.PreparePotentialResponses([DraftFields(mail)], rag, table, StoreView(dist), additionalInformation, c);
        var enriched := SuggestedActions.EnrichMail(mail, catalog);
        && (r.Ok? <==> draft.Some? && Get(mail, "translation").Some? && Get(mail, "translation").value.JObj? && enriched.Ok?)
        && (r.Ok? ==>
              var regenerated := Get(draft.value[0].payload, "responseBody");
              var translated := if Truthy(Get(mail, "languageMatch")) then regenerated
                                else Get(TranslateResponse(regenerated, Some(workingLanguage), chain), "responseBody");
              && Get(r.value, "responseBody") == regenerated
              && Get(r.value, "translation") == Some(JObj(SetProp(mail["translation"].fields, "responseBody", translated)))
              && Get(r.value, "suggestedActions") == Get(enriched.value, "suggestedActions")
              && forall k :: k != "responseBody" && k != "translation" && k != "suggestedActions" ==> Get(r.value, k) == Get(mail, k))
    {
      var drafts := InsightPipeline.PreparePotentialResponses([DraftFields(mail)], rag, table, StoreView(dist), additionalInformation, c);
      if drafts.None? {
        return Thrown;
      }
      var regenerated := Get(drafts.value[0].payload, "responseBody");
      if !("translation" in mail && mail["translation"].JObj?) {
        return Thrown;
      }
      var translation := mail["translation"].fields;
      if !Truthy(Get(mail, "languageMatch")) {
        translation := SetProp(translation, "responseBody", Get(TranslateResponse(regenerated, Some(workingLanguage), chain), "responseBody"));
      } else {
        translation := SetProp(translation, "responseBody", regenerated);
      }
      var enriched := SuggestedActions.EnrichMail(mail, catalog);
      if enriched.Thrown? {
        return Thrown;
      }
      r := Ok(SetProp(enriched.value, "responseBody", regenerated)["translation" := JObj(translation)]);
    }

    /**
     * onRegenerateResponse: `selectedMails` is passed where regenerateResponse
     * expects `rag`, so a truthy selection turns on the retrieval path. An
     * unknown id throws; on success the record is overwritten with the result.
     */
    method OnRegenerateResponse(id: string, selectedMails: Option<Json>, additionalInformation: Option<Json>,
                                tenant: Tenancy.TenantArg, dist: (Retrieval.Row, Retrieval.Row) -> Option<real>,
                                c: InsightPipeline.Chains, chain: TranslateChain, workingLanguage: Json, catalog: seq<Record>)
      returns (r: Outcome<bool>)
      requires Valid()
      modifies this
      ensures Valid()
      ensures vectorTables == old(vectorTables) && nextRow == old(nextRow)
      ensures id !in old(mails) ==> r == Thrown && mails == old(mails)
      ensures r.Thrown? ==> mails == old(mails)
      ensures r.Ok? ==> r == Ok(true) && id in old(mails) && id in mails && mails == old(mails)[id := mails[id]]
    {
      if id !in mails {
        return Thrown;
      }
      var mail := mails[id];
      var response := RegenerateResponse(mail, Truthy(selectedMails), Tenancy.RetrievalTable(tenant), additionalInformation,
                                         dist, c, chain, workingLanguage, catalog);
      if response.Thrown? {
        return Thrown;
      }
      UpdateMail(id, response.value);
      return Ok(true);
    }

    /** `UPDATE(Mails, id).set(patch)` on a stored mail, leaving its ID alone. */
    method UpdateMail(id: string, patch: Record)
      requires Valid() && id in mails
      requires Get(patch, "ID") == Get(mails[id], "ID")
      modifies this
      ensures Valid()
      ensures mails == old(mails)[id := Write(old(mails)[id], patch)]
      ensures vectorTables == old(vectorTables) && nextRow == old(nextRow)
    {
      KeyedUpdate(mails, id, Write(mails[id], patch));
      mails := mails[id := Write(mails[id], patch)];
    }

    /** onTranslateResponse: only the `responseBody` of the translation into the mail's language. */
    function OnTranslateResponse(id: string, response: Option<Json>, chain: TranslateChain): (r: Outcome<Option<Json>>)
      reads this
      ensures id !in mails <==> r.Thrown?
      ensures id in mails && chain(response, Get(mails[id], "languageNameDetermined")).None? ==>
        r == Ok(Some(OrElse(response, JStr(""))))
      ensures id in mails && chain(response, Get(mails[id], "languageNameDetermined")).Some? ==>
        r == Ok(Get(chain(response, Get(mails[id], "languageNameDetermined")).value, "responseBody"))
    {
      if id !in mails then Thrown
      else Ok(Get(TranslateResponse(response, Get(mails[id], "languageNameDetermined"), chain), "responseBody"))
    }

    /**
     * onGetMail: the mail with described actions, and its closest mails with
     * similarity; an unknown id throws at `mail.suggestedActions`.
     */
    method GetMail(id: string, tenant: Tenancy.TenantArg, dist: (Retrieval.Row, Retrieval.Row) -> Option<real>, catalog: seq<Record>)
      returns (r: Outcome<MailDetail>)
      requires Valid()
      ensures id !in mails ==> r == Thrown
      ensures var neighbours := Retrieval.Complete(Retrieval.ClosestQuery(InsightPipeline.Rows(vectorTables, Tenancy.TableName(tenant)), id, map[], 5, dist));
        id in mails ==>
          && (r.Ok? <==> SuggestedActions.EnrichMail(mails[id], catalog).Ok?)
          && (r.Ok? ==>
                && r.value.mail == SuggestedActions.EnrichMail(mails[id], catalog).value
                && Ok(r.value.closestMails) == Retrieval.WithSimilarity(neighbours, mails, SimilarColumns)
                && |r.value.closestMails| <= 5)
    {
      if id !in mails {
        return Thrown;
      }
      var mail := SuggestedActions.EnrichMail(mails[id], catalog);
      if mail.Thrown? {
        return Thrown;
      }
      var table := InsightPipeline.Rows(vectorTables, Tenancy.TableName(tenant));
      var closest := Retrieval.GetClosestMails(table, id, 5, map[], dist);
      Retrieval.WithSimilaritySpec(closest, mails, SimilarColumns);
      var similar := Retrieval.WithSimilarity(closest, mails, SimilarColumns);
      SimilarityBound(closest, mails);
      return Ok(MailDetail(mail.value, similar.value));
    }

    /**
     * onFindMails, given the search results (getFoundMail is not part of this
     * model): no mail query for an empty search, otherwise one entry per
     * fetched mail with similarity `1 - distance` of the first result naming it.
     */
    function FindMails(results: seq<Retrieval.Neighbour>): (r: Outcome<seq<Retrieval.Similar>>)
      reads this
      requires Valid()
      ensures results == [] ==> r == Ok([])
      ensures r.Ok?
      ensures forall i :: 0 <= i < |r.value| ==>
        var j := Retrieval.FirstWithId(results, Get(r.value[i].mail, "ID"));
        j < |results| && r.value[i].similarity == 1.0 - results[j].distance
    {
      Retrieval.WithSimilaritySpec(results, mails, SimilarColumns);
      Retrieval.WithSimilarity(results, mails, SimilarColumns)
    }

    /**
     * onAddMails, with the corrected table routing: regenerate the batch,
     * insert it, embed every body under its ID in the tenant's table, and
     * return the inserted mails with described actions. A rejected batch or a
     * failed insert changes nothing; a failed description comes after both.
     */
    method AddMails(input: seq<Record>, rag: Option<Json>, tenant: Tenancy.TenantArg, uuid: nat -> string,
                    dist: (Retrieval.Row, Retrieval.Row) -> Option<real>, c: InsightPipeline.Chains, catalog: seq<Record>)
      returns (r: Outcome<seq<Record>>)
      requires Valid()
      modifies this
      ensures Valid()
      ensures var args := InsightPipeline.RegenerateCall(rag, tenant);
        var batch := InsightPipeline.Regenerate(input, args.rag, args.table, uuid, InsightPipeline.Store(old(vectorTables), old(mails), dist), c);
        && (batch.None? || !Insertable(batch.value, old(mails)) ==>
              r.Thrown? && mails == old(mails) && vectorTables == old(vectorTables) && nextRow == old(nextRow))
        && (batch.Some? && Insertable(batch.value, old(mails)) ==>
              && mails == Inserted(old(mails), batch.value)
              && vectorTables == old(vectorTables)[Tenancy.TableName(tenant) :=
                   InsightPipeline.Rows(old(vectorTables), Tenancy.TableName(tenant)) + EmbeddingDocs(batch.value, old(nextRow))]
              && nextRow == old(nextRow) + |batch.value|
              && (r.Ok? <==> forall i :: 0 <= i < |batch.value| ==> SuggestedActions.EnrichMail(batch.value[i], catalog).Ok?)
              && (r.Ok? ==> |r.value| == |batch.value|)
              && (r.Ok? ==> forall i :: 0 <= i < |batch.value| ==> Ok(r.value[i]) == SuggestedActions.EnrichMail(batch.value[i], catalog)))
    {
      var args := InsightPipeline.RegenerateCall(rag, tenant);
      var batch := InsightPipeline.RegenerateInsights(input, args.rag, args.table, uuid, StoreView(dist), c);
      if batch.None? || !Insertable(batch.value, mails) {
        return Thrown;
      }
      InsertBatch(batch.value, tenant);
      r := EnrichInserted(batch.value, catalog);
    }

    /**
     * `INSERT.into(Mails).entries(batch)` followed by
     * `vectorStore.addDocuments(...)`: the records under their IDs, one new
     * row per mail in the tenant's ingest table.
     */
    method InsertBatch(records: seq<Record>, tenant: Tenancy.TenantArg)
      requires Valid() && Insertable(records, mails)
      modifies this
      ensures Valid()
      ensures mails == Inserted(old(mails), records)
      ensures vectorTables == old(vectorTables)[Tenancy.TableName(tenant) :=
        InsightPipeline.Rows(old(vectorTables), Tenancy.TableName(tenant)) + EmbeddingDocs(records, old(nextRow))]
      ensures nextRow == old(nextRow) + |records|
    {
      InsertedKeyed(mails, records);
      mails := Inserted(mails, records);
      var name := Tenancy.TableName(tenant);
      var docs := EmbeddingDocs(records, nextRow);
      AppendKeepsRowIds(vectorTables, name, docs, nextRow, |records|);
      vectorTables := vectorTables[name := InsightPipeline.Rows(vectorTables, name) + docs];
      nextRow := nextRow + |records|;
    }

    /**
     * onRegenerateInsights, with the corrected arguments: every stored mail,
     * in the order the database lists them, is regenerated and upserted. The
     * UPSERT runs in a transaction nobody awaits, so the handler answers true
     * once the batch is regenerated, and a failing UPSERT leaves the store as
     * it was.
     */
    method OnRegenerateInsights(order: seq<string>, rag: Option<Json>, tenant: Tenancy.TenantArg, uuid: nat -> string,
                                dist: (Retrieval.Row, Retrieval.Row) -> Option<real>, c: InsightPipeline.Chains)
      returns (r: Outcome<bool>)
      requires Valid()
      requires forall i :: 0 <= i < |order| ==> order[i] in mails
      requires forall k :: k in mails ==> k in order
      modifies this
      ensures Valid()
      ensures vectorTables == old(vectorTables) && nextRow == old(nextRow)
      ensures var args := InsightPipeline.RegenerateCall(rag, tenant);
        var listed := Listed(old(mails), order);
        var batch := InsightPipeline.Regenerate(listed, args.rag, args.table, uuid, InsightPipeline.Store(old(vectorTables), old(mails), dist), c);
        && (batch.None? ==> r == Thrown && mails == old(mails))
        && (batch.Some? ==> r == Ok(true) && mails == (if Upsertable(batch.value, old(mails)) then Upserted(old(mails), batch.value) else old(mails)))
    {
      var listed := Listed(mails, order);
      var args := InsightPipeline.RegenerateCall(rag, tenant);
      var batch := InsightPipeline.RegenerateInsights(listed, args.rag, args.table, uuid, StoreView(dist), c);
      if batch.None? {
        return Thrown;
      }
      UpsertBatch(batch.value);
      return Ok(true);
    }

    /**
     * `UPSERT.into(Mails).entries(batch)` in a transaction nobody awaits: all
     * of it when every record has a string ID, none of it otherwise.
     */
    method UpsertBatch(batch: seq<Record>)
      requires Valid()
      modifies this
      ensures Valid()
      ensures mails == (if Upsertable(batch, old(mails)) then Upserted(old(mails), batch) else old(mails))
      ensures vectorTables == old(vectorTables) && nextRow == old(nextRow)
    {
      if Upsertable(batch, mails) {
        UpsertedKeyed(mails, batch);
        mails := Upserted(mails, batch);
      }
    }
  }

  /**
   * onAddMails's last step: the inserted mails read back, each with its
   * actions described in place; the first mail whose actions cannot be
   * described makes the handler reject.
   */
  method EnrichInserted(records: seq<Record>, catalog: seq<Record>) returns (r: Outcome<seq<Record>>)
    ensures r.Ok? <==> forall i :: 0 <= i < |records| ==> SuggestedActions.EnrichMail(records[i], catalog).Ok?
    ensures r.Ok? ==> |r.value| == |records|
    ensures r.Ok? ==> forall i :: 0 <= i < |records| ==> Ok(r.value[i]) == SuggestedActions.EnrichMail(records[i], catalog)
  {
    var inserted := new Record[|records|](i requires 0 <= i < |records| => records[i]);
    assert inserted[..] == records;
    var ok := SuggestedActions.EnrichEach(inserted, catalog, false);
    if !ok {
      return Thrown;
    }
    assert forall i :: 0 <= i < |records| ==> Ok(inserted[i]) == SuggestedActions.EnrichMail(records[i], catalog);
    return Ok(inserted[..]);
  }

  /** onRegenerateResponse's prompt fields: `{ ID, body, senderEmailAddress, subject }` of the mail. */
  function DraftFields(mail: Record): (r: Record)
    ensures forall k :: Get(r, k) == (if k in {"ID", "body", "senderEmailAddress", "subject"} then Get(mail, k) else None)
  {
    map k | k in mail && k in {"ID", "body", "senderEmailAddress", "subject"} :: mail[k]
  }

  /** `SELECT.from(Mails)`: the stored records in the order the database lists their keys. */
  function Listed(store: map<string, Record>, order: seq<string>): (r: seq<Record>)
    requires forall i :: 0 <= i < |order| ==> order[i] in store
    ensures |r| == |order|
    ensures forall i :: 0 <= i < |order| ==> r[i] == store[order[i]]
  {
    seq(|order|, i requires 0 <= i < |order| => store[order[i]])
  }

  /** UPSERT succeeds: every record carries a string ID. */
  predicate Upsertable(batch: seq<Record>, store: map<string, Record>) {
    forall i :: 0 <= i < |batch| ==> AsString(Get(batch[i], "ID")).Some?
  }

  /** `UPSERT.into(Mails).entries(batch)`: insert or overwrite the given properties, in order. */
  function Upserted(store: map<string, Record>, batch: seq<Record>): map<string, Record>
    decreases |batch|
  {
    if batch == [] then store
    else
      var id := IdString(batch[0]);
      Upserted(store[id := Write(if id in store then store[id] else map[], batch[0])], batch[1..])
  }

  lemma {:induction false} UpsertedKeyed(store: map<string, Record>, batch: seq<Record>)
    requires Retrieval.KeyedById(store) && Upsertable(batch, store)
    ensures Retrieval.KeyedById(Upserted(store, batch))
    ensures forall k :: k in store ==> k in Upserted(store, batch)
    decreases |batch|
  {
    if batch != [] {
      var id := IdString(batch[0]);
      var s := store[id := Write(if id in store then store[id] else map[], batch[0])];
      assert Get(batch[0], "ID") == Some(JStr(id));
      assert Upsertable(batch[1..], s) by {
        forall i | 0 <= i < |batch[1..]| ensures AsString(Get(batch[1..][i], "ID")).Some? {
          assert batch[1..][i] == batch[i + 1];
        }
      }
      UpsertedKeyed(s, batch[1..]);
    }
  }

  lemma KeyedUpdate(store: map<string, Record>, id: string, mail: Record)
    requires Retrieval.KeyedById(store) && Get(mail, "ID") == Some(JStr(id))
    ensures Retrieval.KeyedById(store[id := mail])
  {
  }

  lemma PatchKeepsRowIds(tables: map<string, seq<Retrieval.Row>>, name: string, id: string, patch: Record, bound: nat)
    requires forall n, row :: n in tables && row in tables[n] ==> row.id < bound
    ensures var t := PatchTable(tables, name, id, patch);
      forall n, row :: n in t && row in t[n] ==> row.id < bound
  {
    var t := PatchTable(tables, name, id, patch);
    forall n: string, row: Retrieval.Row | n in t && row in t[n] ensures row.id < bound {
      if n == name {
        var rows := InsightPipeline.Rows(tables, name);
        var i :| 0 <= i < |t[n]| && t[n][i] == row;
        assert rows[i] in rows;
      }
    }
  }

  lemma AppendKeepsRowIds(tables: map<string, seq<Retrieval.Row>>, name: string, docs: seq<Retrieval.Row>, start: nat, count: nat)
    requires forall n, row :: n in tables && row in tables[n] ==> row.id < start
    requires forall row :: row in docs ==> row.id < start + count
    ensures var t := tables[name := InsightPipeline.Rows(tables, name) + docs];
      forall n, row :: n in t && row in t[n] ==> row.id < start + count
  {
  }

  lemma SimilarityBound(results: seq<Retrieval.Neighbour>, store: map<string, Record>)
    requires |results| <= 5
    requires Retrieval.WithSimilarity(results, store, SimilarColumns).Ok?
    ensures |Retrieval.WithSimilarity(results, store, SimilarColumns).value| <= 5
  {
    if |results| > 0 {
      var fetched := Retrieval.FetchByIds(store, Retrieval.MetadataIds(results), SimilarColumns, {});
      Retrieval.AttachSimilaritySpec(results, fetched);
    }
  }
}

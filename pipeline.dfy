/**
 * The insight pipeline of common-mail-insights.ts: regenerateInsights and
 * the branches it awaits together (extractGeneralInsights,
 * preparePotentialResponses, extractLanguageMatches), the merge by mail ID,
 * translateInsights with filterForTranslation, and the two call sites
 * (onAddMails, and onRegenerateInsights of mail-insights-service.ts).
 *
 * Every language-model chain is a parameter of type `... -> Option<...>`:
 * `None` is a chain call that rejects, and since the branches are awaited
 * with `Promise.all` one rejection rejects the whole batch.
 */
module InsightPipeline {
  import opened JsonValues
  import Tenancy
  import Retrieval
  import FixJson

  /** `{ mail, insights }`, `{ mail, response }` or `{ mail, languageMatch }`: one branch's result for one mail. */
  datatype Tagged = Tagged(mail: Record, payload: Record)

  /** IProcessedMail: a mail and its merged insights. */
  datatype Processed = Processed(mail: Record, insights: Record)

  /** ITranslatedMail */
  datatype Translated = Translated(mail: Record, insights: Record, translation: seq<Json>)

  /** The input variables of the response prompt: `{sender}\n{subject}\n{body}\n{additionalInformation}`. */
  datatype DraftRequest = DraftRequest(sender: Option<Json>, subject: Option<Json>, body: Option<Json>, additionalInformation: Json)

  /** The language-model chains, each with its parser. */
  datatype Chains = Chains(
    insights: (Option<Json>, Option<Json>) -> Option<Record>,                 // {subject}, {body}
    language: Option<Json> -> Option<Record>,                                 // {mail} := body
    draft: DraftRequest -> Option<Record>,                                    // plain response chain
    ragDraft: (DraftRequest, seq<Retrieval.Document>) -> Option<string>,      // stuff-documents chain, raw text
    parse: string -> Option<Record>,                                          // parser.parse
    translate: Record -> Option<Json>)                                        // {insights} := JSON of the record

  /** What the retrieval-augmented branch reads: the vector tables by name, the mails, pgvector's distance. */
  datatype Store = Store(vectorTables: map<string, seq<Retrieval.Row>>, mails: map<string, Record>,
                         dist: (Retrieval.Row, Retrieval.Row) -> Option<real>)

  function IdOf(mail: Record): Option<Json> {
    Get(mail, "ID")
  }

  /** The rows of a vector table; ensureTableInDatabase creates a missing table empty. */
  function Rows(tables: map<string, seq<Retrieval.Row>>, name: string): seq<Retrieval.Row> {
    if name in tables then tables[name] else []
  }

  /** `Promise.all`: every value when every call resolves, otherwise a rejection. */
  function All<T>(xs: seq<Option<T>>): (r: Option<seq<T>>)
    ensures r.Some? <==> forall i :: 0 <= i < |xs| ==> xs[i].Some?
    ensures r.Some? ==> |r.value| == |xs| && forall i :: 0 <= i < |xs| ==> xs[i] == Some(r.value[i])
  {
    if xs == [] then Some([])
    else if xs[0].None? then None
    else
      var t := All(xs[1..]);
      if t.None? then
        assert !(forall i :: 0 <= i < |xs| ==> xs[i].Some?) by {
          var k :| 0 <= k < |xs[1..]| && xs[1..][k].None?;
          assert xs[k + 1].None?;
        }
        None
      else
        assert forall i :: 1 <= i < |xs| ==> xs[i] == xs[1..][i - 1];
        Some([xs[0].value] + t.value)
  }

  // ---------------------------------------------------------------------
  // IDs: `mails.map(mail => ({ ...mail, ID: mail.ID || uuidv4() }))`
  // ---------------------------------------------------------------------

  /** How many of the mails have no truthy ID, i.e. how many times uuidv4 runs for them. */
  function Unassigned(mails: seq<Record>): (n: nat)
    ensures n <= |mails|
  {
    if mails == [] then 0
    else Unassigned(mails[..|mails| - 1]) + (if Truthy(IdOf(mails[|mails| - 1])) then 0 else 1)
  }

  /** `uuid(n)` is the value of the n-th uuidv4 call of the batch. */
  function AssignIds(mails: seq<Record>, uuid: nat -> string): (r: seq<Record>)
    ensures |r| == |mails|
  {
    seq(|mails|, i requires 0 <= i < |mails| =>
      mails[i]["ID" := if Truthy(IdOf(mails[i])) then IdOf(mails[i]).value else JStr(uuid(Unassigned(mails[..i])))])
  }

  /**
   * A mail with a truthy ID is kept as it is; a mail without one gets the next
   * generated ID and keeps every other property.
   */
  lemma AssignIdsSpec(mails: seq<Record>, uuid: nat -> string)
    ensures var r := AssignIds(mails, uuid);
      && (forall i :: 0 <= i < |mails| && Truthy(IdOf(mails[i])) ==> r[i] == mails[i])
      && (forall i :: 0 <= i < |mails| && !Truthy(IdOf(mails[i])) ==> IdOf(r[i]) == Some(JStr(uuid(Unassigned(mails[..i])))))
      && (forall i, k :: 0 <= i < |mails| && k != "ID" ==> Get(r[i], k) == Get(mails[i], k))
      && ((forall n :: uuid(n) != "") ==> forall i :: 0 <= i < |mails| ==> Truthy(IdOf(r[i])))
  {
    var r := AssignIds(mails, uuid);
    forall i | 0 <= i < |mails| && Truthy(IdOf(mails[i])) ensures r[i] == mails[i] {
      assert mails[i]["ID" := mails[i]["ID"]] == mails[i];
    }
  }

  lemma {:induction false} UnassignedGrows(mails: seq<Record>, i: nat, j: nat)
    requires i < j <= |mails| && !Truthy(IdOf(mails[i]))
    ensures Unassigned(mails[..i]) < Unassigned(mails[..j])
  {
    assert mails[..j][..j - 1] == mails[..j - 1];
    if j == i + 1 {
      assert mails[..j][j - 1] == mails[i];
    } else {
      UnassignedGrows(mails, i, j - 1);
    }
  }

  /** With a uuid source that never repeats, the generated IDs of one batch are pairwise distinct. */
  lemma AssignedIdsDistinct(mails: seq<Record>, uuid: nat -> string, i: nat, j: nat)
    requires forall a, b :: uuid(a) == uuid(b) ==> a == b
    requires i < j < |mails| && !Truthy(IdOf(mails[i])) && !Truthy(IdOf(mails[j]))
    ensures IdOf(AssignIds(mails, uuid)[i]) != IdOf(AssignIds(mails, uuid)[j])
  {
    UnassignedGrows(mails, i, j);
  }

  // ---------------------------------------------------------------------
  // The three branches
  // ---------------------------------------------------------------------

  function TagWith(mail: Record, p: Option<Record>): (r: Option<Tagged>)
    ensures r.Some? <==> p.Some?
    ensures r.Some? ==> r.value == Tagged(mail, p.value)
  {
    if p.Some? then Some(Tagged(mail, p.value)) else None
  }

  /** extractGeneralInsights: the insights chain on `{subject}\n{body}` for every mail. */
  function ExtractGeneralInsights(mails: seq<Record>, c: Chains): (r: Option<seq<Tagged>>)
    ensures r.Some? <==> forall i :: 0 <= i < |mails| ==> c.insights(Get(mails[i], "subject"), Get(mails[i], "body")).Some?
    ensures r.Some? ==> |r.value| == |mails| && forall i :: 0 <= i < |mails| ==>
      r.value[i] == Tagged(mails[i], c.insights(Get(mails[i], "subject"), Get(mails[i], "body")).value)
  {
    var calls := seq(|mails|, i requires 0 <= i < |mails| => TagWith(mails[i], c.insights(Get(mails[i], "subject"), Get(mails[i], "body"))));
    assert forall i :: 0 <= i < |mails| ==> calls[i] == TagWith(mails[i], c.insights(Get(mails[i], "subject"), Get(mails[i], "body")));
    All(calls)
  }

  /** extractLanguageMatches: the language chain on the body of every mail. */
  function ExtractLanguageMatches(mails: seq<Record>, c: Chains): (r: Option<seq<Tagged>>)
    ensures r.Some? <==> forall i :: 0 <= i < |mails| ==> c.language(Get(mails[i], "body")).Some?
    ensures r.Some? ==> |r.value| == |mails| && forall i :: 0 <= i < |mails| ==>
      r.value[i] == Tagged(mails[i], c.language(Get(mails[i], "body")).value)
  {
    var calls := seq(|mails|, i requires 0 <= i < |mails| => TagWith(mails[i], c.language(Get(mails[i], "body"))));
    assert forall i :: 0 <= i < |mails| ==> calls[i] == TagWith(mails[i], c.language(Get(mails[i], "body")));
    All(calls)
  }

  function RequestFor(mail: Record, additionalInformation: Option<Json>): DraftRequest {
    DraftRequest(Get(mail, "senderEmailAddress"), Get(mail, "subject"), Get(mail, "body"), OrElse(additionalInformation, JStr("")))
  }

  const SubmittedFilter: Record := map["submitted" := JBool(true)]

  /**
   * The documents the retrieval-augmented chain receives for a mail:
   * getClosestResponses of getClosestMails(mail.ID, 5, { submitted: true }, tenant).
   */
  function RagContext(mail: Record, table: seq<Retrieval.Row>, store: Store): seq<Retrieval.Document> {
    match AsString(IdOf(mail))
    case None => []
    case Some(id) => Retrieval.ClosestResponses(Retrieval.Complete(Retrieval.ClosestQuery(table, id, SubmittedFilter, 5, store.dist)), store.mails)
  }

  /** Is a row marked as belonging to a mail whose response was submitted? */
  predicate SubmittedRowOf(row: Retrieval.Row, s: string) {
    Get(row.metadata, "id") == Some(JStr(s)) && Retrieval.ContainsFilter(row.metadata, SubmittedFilter)
  }

  /**
   * The context holds at most five documents, each the stored response body
   * of a mail with a submitted row in the queried table, never carrying an
   * id; a table without submitted rows gives an empty context, and drafting
   * still goes ahead with it.
   */
  lemma RagContextSpec(mail: Record, table: seq<Retrieval.Row>, store: Store)
    ensures |RagContext(mail, table, store)| <= 5
    ensures forall d :: d in RagContext(mail, table, store) ==>
      && d.metadataId == None
      && exists s, row :: s in store.mails && row in table && SubmittedRowOf(row, s)
           && d.pageContent == Get(store.mails[s], "responseBody")
    ensures (forall row :: row in table ==> !Retrieval.ContainsFilter(row.metadata, SubmittedFilter)) ==>
      RagContext(mail, table, store) == []
  {
    var id := AsString(IdOf(mail));
    if id.Some? {
      var results := Retrieval.Complete(Retrieval.ClosestQuery(table, id.value, SubmittedFilter, 5, store.dist));
      Retrieval.NeighboursSpec(table, id.value, 5, SubmittedFilter, store.dist);
      Retrieval.ClosestResponsesSpec(results, store.mails);
      var ctx := RagContext(mail, table, store);
      forall d | d in ctx
        ensures exists s, row :: (s in store.mails && row in table && SubmittedRowOf(row, s)
          && d.pageContent == Get(store.mails[s], "responseBody"))
      {
        var s :| s in store.mails && Some(JStr(s)) in Retrieval.MetadataIds(results) && d.pageContent == Get(store.mails[s], "responseBody");
        var k :| 0 <= k < |results| && Retrieval.MetadataIds(results)[k] == Some(JStr(s));
        assert results[k] in results;
        assert SubmittedRowOf(results[k].doc, s);
      }
      if forall row :: row in table ==> !Retrieval.ContainsFilter(row.metadata, SubmittedFilter) {
        if results != [] {
          assert results[0] in results;
        }
      }
    }
  }

  /**
   * One mail of preparePotentialResponses: the plain chain, or with `rag` the
   * stuff-documents chain over the context and the parser applied to the
   * repaired text.
   */
  function DraftOne(mail: Record, rag: bool, table: seq<Retrieval.Row>, store: Store, additionalInformation: Option<Json>, c: Chains): (r: Option<Tagged>)
    ensures r.Some? ==> r.value.mail == mail
  {
    var request := RequestFor(mail, additionalInformation);
    if rag then
      match c.ragDraft(request, RagContext(mail, table, store))
      case None => None
      case Some(text) => TagWith(mail, c.parse(FixJson.FixJsonString(text)))
    else TagWith(mail, c.draft(request))
  }

  /**
   * preparePotentialResponses(mails, rag, tenant, additionalInformation);
   * `table` is the vector table its getClosestMails calls search.
   */
  function PreparePotentialResponses(mails: seq<Record>, rag: bool, table: string, store: Store,
                                     additionalInformation: Option<Json>, c: Chains): (r: Option<seq<Tagged>>)
    ensures r.Some? <==> forall i :: 0 <= i < |mails| ==>
      DraftOne(mails[i], rag, Rows(store.vectorTables, table), store, additionalInformation, c).Some?
    ensures r.Some? ==> |r.value| == |mails| && forall i :: 0 <= i < |mails| ==>
      r.value[i] == DraftOne(mails[i], rag, Rows(store.vectorTables, table), store, additionalInformation, c).value
  {
    var rows := Rows(store.vectorTables, table);
    var calls := seq(|mails|, i requires 0 <= i < |mails| => DraftOne(mails[i], rag, rows, store, additionalInformation, c));
    assert forall i :: 0 <= i < |mails| ==> calls[i] == DraftOne(mails[i], rag, rows, store, additionalInformation, c);
    All(calls)
  }

  // ---------------------------------------------------------------------
  // Merging by mail ID
  // ---------------------------------------------------------------------

  /** The index of `results.find(res => res.mail.ID === id)`, or |results|. */
  function FirstFor(results: seq<Tagged>, id: Option<Json>): (j: nat)
    ensures j <= |results|
    ensures forall i :: 0 <= i < j ==> IdOf(results[i].mail) != id
    ensures j < |results| ==> IdOf(results[j].mail) == id
  {
    if results == [] then 0
    else if IdOf(results[0].mail) == id then 0
    else 1 + FirstFor(results[1..], id)
  }

  /** `results.find(...)?.payload` */
  function Payload(results: seq<Tagged>, id: Option<Json>): Option<Record> {
    var j := FirstFor(results, id);
    if j < |results| then Some(results[j].payload) else None
  }

  /** `{ ...potentialResponse, ...languageMatch, ...generalInsight }` for one mail. */
  function MergedInsights(mail: Record, general: seq<Tagged>, responses: seq<Tagged>, languages: seq<Tagged>): Record {
    var id := IdOf(mail);
    Spread(Payload(responses, id)) + Spread(Payload(languages, id)) + Spread(Payload(general, id))
  }

  /** The general insights win over the language match, which wins over the response. */
  lemma MergePrecedence(mail: Record, general: seq<Tagged>, responses: seq<Tagged>, languages: seq<Tagged>, k: string)
    ensures var g, l, r := Spread(Payload(general, IdOf(mail))), Spread(Payload(languages, IdOf(mail))), Spread(Payload(responses, IdOf(mail)));
      var m := MergedInsights(mail, general, responses, languages);
      && (k in m <==> k in g || k in l || k in r)
      && (k in g ==> m[k] == g[k])
      && (k !in g && k in l ==> m[k] == l[k])
      && (k !in g && k !in l && k in r ==> m[k] == r[k])
  {
  }

  /** The first mail in the batch with the given ID. */
  function FirstWithId(mails: seq<Record>, id: Option<Json>): (j: nat)
    ensures j <= |mails|
    ensures forall i :: 0 <= i < j ==> IdOf(mails[i]) != id
    ensures j < |mails| ==> IdOf(mails[j]) == id
  {
    if mails == [] then 0
    else if IdOf(mails[0]) == id then 0
    else 1 + FirstWithId(mails[1..], id)
  }

  /**
   * A branch that answers every mail in order gives each mail the payload
   * computed for the first mail that shares its ID: its own when IDs are
   * distinct, another mail's when they are not.
   */
  lemma PayloadOfOwnBranch(results: seq<Tagged>, mails: seq<Record>, j: nat)
    requires |results| == |mails| && forall i :: 0 <= i < |mails| ==> results[i].mail == mails[i]
    requires j < |mails|
    ensures FirstWithId(mails, IdOf(mails[j])) <= j
    ensures Payload(results, IdOf(mails[j])) == Some(results[FirstWithId(mails, IdOf(mails[j]))].payload)
    ensures (forall i :: 0 <= i < |mails| && i != j ==> IdOf(mails[i]) != IdOf(mails[j])) ==>
      Payload(results, IdOf(mails[j])) == Some(results[j].payload)
  {
  }

  /** The merge as a value: every mail with its merged insights, in order. */
  function Merge(mails: seq<Record>, general: seq<Tagged>, responses: seq<Tagged>, languages: seq<Tagged>): (r: seq<Processed>)
    ensures |r| == |mails|
  {
    seq(|mails|, i requires 0 <= i < |mails| => Processed(mails[i], MergedInsights(mails[i], general, responses, languages)))
  }

  /** The `reduce` that pushes `{ mail, insights }` for every mail. */
  method MergeBranches(mails: seq<Record>, general: seq<Tagged>, responses: seq<Tagged>, languages: seq<Tagged>)
    returns (acc: seq<Processed>)
    ensures |acc| == |mails|
    ensures forall i :: 0 <= i < |mails| ==>
      acc[i].mail == mails[i] && acc[i].insights == MergedInsights(mails[i], general, responses, languages)
  {
    acc := [];
    for i := 0 to |mails|
      invariant |acc| == i
      invariant forall j :: 0 <= j < i ==>
        acc[j].mail == mails[j] && acc[j].insights == MergedInsights(mails[j], general, responses, languages)
    {
      var mail := mails[i];
      var generalInsight := Payload(general, IdOf(mail));
      var potentialResponse := Payload(responses, IdOf(mail));
      var languageMatch := Payload(languages, IdOf(mail));
      acc := acc + [Processed(mail, Spread(potentialResponse) + Spread(languageMatch) + Spread(generalInsight))];
    }
  }

  // ---------------------------------------------------------------------
  // Translation
  // ---------------------------------------------------------------------

  /** The properties filterForTranslation keeps (JSON.stringify drops the undefined ones). */
  const TranslationFields: set<string> :=
    {"subject", "body", "sender", "requestedServices", "customFields", "summary", "keyFacts", "myAdditionalAttributes", "responseBody"}

  function FilterForTranslation(r: Record): (p: Record)
    ensures forall k :: k in p <==> k in r && k in TranslationFields
    ensures forall k :: k in p ==> p[k] == r[k]
  {
    map k | k in r && k in TranslationFields :: r[k]
  }

  /**
   * The translation recorded without a chain call when the mail is already in
   * the working language: every translatable property but `customFields`,
   * `subject` and `body` read from the mail even when the insights carry them,
   * the others from the insights, and "" for each that is falsy.
   */
  function Passthrough(p: Processed): (t: Json)
    ensures t.JObj? && t.fields.Keys == TranslationFields - {"customFields"}
    ensures forall k :: k in {"subject", "body"} ==> t.fields[k] == OrElse(Get(p.mail, k), JStr(""))
    ensures forall k :: k in t.fields && k !in {"subject", "body"} ==> t.fields[k] == OrElse(Get(p.insights, k), JStr(""))
    ensures forall k :: k in t.fields ==> Truthy(Some(t.fields[k])) || t.fields[k] == JStr("")
  {
    JObj(map[
      "subject" := OrElse(Get(p.mail, "subject"), JStr("")),
      "body" := OrElse(Get(p.mail, "body"), JStr("")),
      "sender" := OrElse(Get(p.insights, "sender"), JStr("")),
      "summary" := OrElse(Get(p.insights, "summary"), JStr("")),
      "keyFacts" := OrElse(Get(p.insights, "keyFacts"), JStr("")),
      "myAdditionalAttributes" := OrElse(Get(p.insights, "myAdditionalAttributes"), JStr("")),
      "requestedServices" := OrElse(Get(p.insights, "requestedServices"), JStr("")),
      "responseBody" := OrElse(Get(p.insights, "responseBody"), JStr(""))])
  }

  /** The single translation of one processed mail. */
  function TranslateOne(p: Processed, translate: Record -> Option<Json>): Option<Json> {
    if !Truthy(Get(p.insights, "languageMatch")) then translate(FilterForTranslation(p.mail + p.insights))
    else Some(Passthrough(p))
  }

  /** A mail whose insights report a language match never reaches the translation chain. */
  lemma TranslatorUnusedWhenMatching(p: Processed, t1: Record -> Option<Json>, t2: Record -> Option<Json>)
    requires Truthy(Get(p.insights, "languageMatch"))
    ensures TranslateOne(p, t1) == TranslateOne(p, t2) == Some(Passthrough(p))
  {
  }

  /** The translation chain sees only the translatable properties, the insights' value winning over the mail's. */
  lemma TranslationRequestSpec(p: Processed, k: string)
    ensures var q := FilterForTranslation(p.mail + p.insights);
      && (k in q <==> k in TranslationFields && (k in p.mail || k in p.insights))
      && (k in q && k in p.insights ==> q[k] == p.insights[k])
      && (k in q && k !in p.insights ==> q[k] == p.mail[k])
  {
  }

  function TranslationOf(p: Processed, translate: Record -> Option<Json>): (r: Option<Translated>)
    ensures r.Some? <==> TranslateOne(p, translate).Some?
    ensures r.Some? ==> r.value == Translated(p.mail, p.insights, [TranslateOne(p, translate).value])
  {
    match TranslateOne(p, translate)
    case None => None
    case Some(t) => Some(Translated(p.mail, p.insights, [t]))
  }

  /** translateInsights: `{ ...mail, translation: [t] }` for every mail, all or nothing. */
  function TranslateInsights(ps: seq<Processed>, translate: Record -> Option<Json>): (r: Option<seq<Translated>>)
    ensures r.Some? <==> forall i :: 0 <= i < |ps| ==> TranslateOne(ps[i], translate).Some?
    ensures r.Some? ==> |r.value| == |ps| && forall i :: 0 <= i < |ps| ==>
      r.value[i] == Translated(ps[i].mail, ps[i].insights, [TranslateOne(ps[i], translate).value])
  {
    var calls := seq(|ps|, i requires 0 <= i < |ps| => TranslationOf(ps[i], translate));
    assert forall i :: 0 <= i < |ps| ==> calls[i] == TranslationOf(ps[i], translate);
    All(calls)
  }

  /** `{ ...mail.mail, ...mail.insights, translation: mail.translation }` */
  function Flatten(t: Translated): Record {
    t.mail + t.insights + map["translation" := JArr(t.translation)]
  }

  // ---------------------------------------------------------------------
  // regenerateInsights
  // ---------------------------------------------------------------------

  /** Some chain rejects for one mail of the batch. */
  predicate BranchFails(mail: Record, rag: bool, table: string, store: Store, c: Chains) {
    || c.insights(Get(mail, "subject"), Get(mail, "body")).None?
    || DraftOne(mail, rag, Rows(store.vectorTables, table), store, None, c).None?
    || c.language(Get(mail, "body")).None?
  }

  /** The three branches awaited together, then merged by ID; undefined when one of them rejects. */
  function Processing(withIds: seq<Record>, rag: bool, table: string, store: Store, c: Chains): (r: Option<seq<Processed>>)
    ensures r.Some? ==> |r.value| == |withIds| && forall i :: 0 <= i < |withIds| ==> r.value[i].mail == withIds[i]
  {
    var general := ExtractGeneralInsights(withIds, c);
    var responses := PreparePotentialResponses(withIds, rag, table, store, None, c);
    var languages := ExtractLanguageMatches(withIds, c);
    if general.None? || responses.None? || languages.None? then None
    else Some(Merge(withIds, general.value, responses.value, languages.value))
  }

  /** The branches reject exactly when some chain rejects for some mail. */
  lemma ProcessingFailure(withIds: seq<Record>, rag: bool, table: string, store: Store, c: Chains)
    ensures Processing(withIds, rag, table, store, c).None? <==>
      exists i :: 0 <= i < |withIds| && BranchFails(withIds[i], rag, table, store, c)
  {
    if Processing(withIds, rag, table, store, c).None? {
      if ExtractGeneralInsights(withIds, c).None? {
        var i :| 0 <= i < |withIds| && c.insights(Get(withIds[i], "subject"), Get(withIds[i], "body")).None?;
        assert BranchFails(withIds[i], rag, table, store, c);
      } else if ExtractLanguageMatches(withIds, c).None? {
        var i :| 0 <= i < |withIds| && c.language(Get(withIds[i], "body")).None?;
        assert BranchFails(withIds[i], rag, table, store, c);
      }
    }
  }

  /**
   * The insights a mail receives are the outputs of the three chains for the
   * first mail of the batch with the same ID, merged with the general
   * insights over the language match over the response; with distinct IDs
   * that first mail is the mail itself.
   */
  lemma ProcessingInsights(withIds: seq<Record>, rag: bool, table: string, store: Store, c: Chains, i: nat)
    requires Processing(withIds, rag, table, store, c).Some? && i < |withIds|
    ensures var f := FirstWithId(withIds, IdOf(withIds[i]));
      && f <= i
      && Processing(withIds, rag, table, store, c).value[i].insights ==
           DraftOne(withIds[f], rag, Rows(store.vectorTables, table), store, None, c).value.payload
           + c.language(Get(withIds[f], "body")).value
           + c.insights(Get(withIds[f], "subject"), Get(withIds[f], "body")).value
      && ((forall j :: 0 <= j < |withIds| && j != i ==> IdOf(withIds[j]) != IdOf(withIds[i])) ==> f == i)
  {
    var general := ExtractGeneralInsights(withIds, c).value;
    var responses := PreparePotentialResponses(withIds, rag, table, store, None, c).value;
    var languages := ExtractLanguageMatches(withIds, c).value;
    var rows := Rows(store.vectorTables, table);
    var ps := Processing(withIds, rag, table, store, c).value;
    assert ps == Merge(withIds, general, responses, languages);
    var id := IdOf(withIds[i]);
    assert ps[i].insights == Spread(Payload(responses, id)) + Spread(Payload(languages, id)) + Spread(Payload(general, id));
    var f := FirstWithId(withIds, id);
    PayloadOfOwnBranch(general, withIds, i);
    PayloadOfOwnBranch(responses, withIds, i);
    PayloadOfOwnBranch(languages, withIds, i);
    assert general[f].payload == c.insights(Get(withIds[f], "subject"), Get(withIds[f], "body")).value;
    assert languages[f].payload == c.language(Get(withIds[f], "body")).value;
    assert responses[f].payload == DraftOne(withIds[f], rag, rows, store, None, c).value.payload;
  }

  /** regenerateInsights(mails, attributes, rag, tenant) as a value; `table` is the table its retrieval searches. */
  function Regenerate(mails: seq<Record>, rag: bool, table: string, uuid: nat -> string, store: Store, c: Chains): Option<seq<Record>> {
    match Processing(AssignIds(mails, uuid), rag, table, store, c)
    case None => None
    case Some(ps) =>
      match TranslateInsights(ps, c.translate)
      case None => None
      case Some(ts) => Some(seq(|ts|, i requires 0 <= i < |ts| => Flatten(ts[i])))
  }

  /** The attribute extraction is commented out in the source, so `attributes` plays no part. */
  method RegenerateInsights(mails: seq<Record>, rag: bool, table: string, uuid: nat -> string, store: Store, c: Chains)
    returns (r: Option<seq<Record>>)
    ensures r == Regenerate(mails, rag, table, uuid, store, c)
    ensures r.Some? ==> |r.value| == |mails|
  {
    var withIds := AssignIds(mails, uuid);
    var general := ExtractGeneralInsights(withIds, c);
    var responses := PreparePotentialResponses(withIds, rag, table, store, None, c);
    var languages := ExtractLanguageMatches(withIds, c);
    if general.None? || responses.None? || languages.None? {
      return None;
    }
    var processed := MergeBranches(withIds, general.value, responses.value, languages.value);
    assert processed == Merge(withIds, general.value, responses.value, languages.value);
    var translated := TranslateInsights(processed, c.translate);
    if translated.None? {
      return None;
    }
    var ts := translated.value;
    r := Some(seq(|ts|, i requires 0 <= i < |ts| => Flatten(ts[i])));
  }

  /**
   * With the branches resolved, the batch fails exactly when the translation
   * chain rejects for some mail without a language match.
   */
  lemma RegenerateFailure(mails: seq<Record>, rag: bool, table: string, uuid: nat -> string, store: Store, c: Chains)
    ensures var ps := Processing(AssignIds(mails, uuid), rag, table, store, c);
      Regenerate(mails, rag, table, uuid, store, c).None? <==>
        || ps.None?
        || exists i :: 0 <= i < |ps.value| && !Truthy(Get(ps.value[i].insights, "languageMatch"))
             && c.translate(FilterForTranslation(ps.value[i].mail + ps.value[i].insights)).None?
  {
    var ps := Processing(AssignIds(mails, uuid), rag, table, store, c);
    if ps.Some? && TranslateInsights(ps.value, c.translate).None? {
      var i :| 0 <= i < |ps.value| && TranslateOne(ps.value[i], c.translate).None?;
    }
  }

  /**
   * On success: one record per input mail, in order. Each holds the mail's
   * properties overridden by its merged insights, and `translation` is a
   * one-element array: the passthrough translation when the insights report a
   * language match, otherwise what the translation chain returned for the
   * filtered record.
   */
  lemma RegenerateResult(mails: seq<Record>, rag: bool, table: string, uuid: nat -> string, store: Store, c: Chains)
    requires Regenerate(mails, rag, table, uuid, store, c).Some?
    ensures var ps := Processing(AssignIds(mails, uuid), rag, table, store, c);
      var out := Regenerate(mails, rag, table, uuid, store, c).value;
      && ps.Some?
      && |out| == |mails|
      && forall i :: 0 <= i < |mails| ==>
        && ps.value[i].mail == AssignIds(mails, uuid)[i]
        && (forall k :: k != "translation" ==>
              Get(out[i], k) == (if k in ps.value[i].insights then Some(ps.value[i].insights[k]) else Get(ps.value[i].mail, k)))
        && Get(out[i], "translation") == Some(JArr([
             if Truthy(Get(ps.value[i].insights, "languageMatch")) then Passthrough(ps.value[i])
             else c.translate(FilterForTranslation(ps.value[i].mail + ps.value[i].insights)).value]))
  {
    var ps := Processing(AssignIds(mails, uuid), rag, table, store, c).value;
    var out := Regenerate(mails, rag, table, uuid, store, c).value;
    RegenerateLength(mails, rag, table, uuid, store, c);
    forall i | 0 <= i < |mails|
      ensures forall k :: k != "translation" ==>
        Get(out[i], k) == (if k in ps[i].insights then Some(ps[i].insights[k]) else Get(ps[i].mail, k))
      ensures Get(out[i], "translation") == Some(JArr([TranslateOne(ps[i], c.translate).value]))
    {
      RegenerateAt(mails, rag, table, uuid, store, c, i);
      FlattenSpec(Translated(ps[i].mail, ps[i].insights, [TranslateOne(ps[i], c.translate).value]));
    }
  }

  lemma RegenerateLength(mails: seq<Record>, rag: bool, table: string, uuid: nat -> string, store: Store, c: Chains)
    requires Regenerate(mails, rag, table, uuid, store, c).Some?
    ensures var ps := Processing(AssignIds(mails, uuid), rag, table, store, c);
      && ps.Some?
      && |Regenerate(mails, rag, table, uuid, store, c).value| == |mails|
      && forall i :: 0 <= i < |mails| ==> ps.value[i].mail == AssignIds(mails, uuid)[i]
  {
  }

  lemma RegenerateAt(mails: seq<Record>, rag: bool, table: string, uuid: nat -> string, store: Store, c: Chains, i: nat)
    requires Regenerate(mails, rag, table, uuid, store, c).Some? && i < |mails|
    ensures var ps := Processing(AssignIds(mails, uuid), rag, table, store, c).value;
      && i < |ps| && i < |Regenerate(mails, rag, table, uuid, store, c).value|
      && TranslateOne(ps[i], c.translate).Some?
      && Regenerate(mails, rag, table, uuid, store, c).value[i]
           == Flatten(Translated(ps[i].mail, ps[i].insights, [TranslateOne(ps[i], c.translate).value]))
  {
    var ps := Processing(AssignIds(mails, uuid), rag, table, store, c).value;
    var ts := TranslateInsights(ps, c.translate).value;
    assert ts[i] == Translated(ps[i].mail, ps[i].insights, [TranslateOne(ps[i], c.translate).value]);
  }

  /** The flattened record: the translation under `translation`, the insights over the mail elsewhere. */
  lemma FlattenSpec(t: Translated)
    ensures Get(Flatten(t), "translation") == Some(JArr(t.translation))
    ensures forall k :: k != "translation" ==>
      Get(Flatten(t), k) == (if k in t.insights then Some(t.insights[k]) else Get(t.mail, k))
  {
  }

  /** The response branch's payload comes from the plain chain, or from the parser on the retrieval path. */
  lemma DraftPayloadFrom(mail: Record, rag: bool, table: seq<Retrieval.Row>, store: Store, info: Option<Json>, c: Chains)
    requires DraftOne(mail, rag, table, store, info, c).Some?
    ensures !rag ==> Some(DraftOne(mail, rag, table, store, info, c).value.payload) == c.draft(RequestFor(mail, info))
    ensures rag ==> exists t :: Some(DraftOne(mail, rag, table, store, info, c).value.payload) == c.parse(t)
  {
    if rag {
      var t := c.ragDraft(RequestFor(mail, info), RagContext(mail, table, store)).value;
      assert Some(DraftOne(mail, rag, table, store, info, c).value.payload) == c.parse(FixJson.FixJsonString(t));
    }
  }

  /**
   * When no chain output carries an `ID` property, every record keeps the ID
   * of its mail: the one it came with when truthy, else a generated one.
   */
  lemma RegenerateKeepsIds(mails: seq<Record>, rag: bool, table: string, uuid: nat -> string, store: Store, c: Chains)
    requires Regenerate(mails, rag, table, uuid, store, c).Some?
    requires forall a, b :: c.insights(a, b).Some? ==> "ID" !in c.insights(a, b).value
    requires forall a :: c.language(a).Some? ==> "ID" !in c.language(a).value
    requires forall q :: c.draft(q).Some? ==> "ID" !in c.draft(q).value
    requires forall t :: c.parse(t).Some? ==> "ID" !in c.parse(t).value
    ensures var out := Regenerate(mails, rag, table, uuid, store, c).value;
      forall i :: 0 <= i < |mails| ==>
        && (Truthy(IdOf(mails[i])) ==> IdOf(out[i]) == IdOf(mails[i]))
        && (!Truthy(IdOf(mails[i])) ==> IdOf(out[i]) == Some(JStr(uuid(Unassigned(mails[..i])))))
  {
    var withIds := AssignIds(mails, uuid);
    RegenerateResult(mails, rag, table, uuid, store, c);
    AssignIdsSpec(mails, uuid);
    var out := Regenerate(mails, rag, table, uuid, store, c).value;
    forall i | 0 <= i < |mails| ensures IdOf(out[i]) == IdOf(withIds[i]) {
      ProcessingAddsNoId(withIds, rag, table, store, c, i);
    }
  }

  lemma ProcessingAddsNoId(withIds: seq<Record>, rag: bool, table: string, store: Store, c: Chains, i: nat)
    requires Processing(withIds, rag, table, store, c).Some? && i < |withIds|
    requires forall a, b :: c.insights(a, b).Some? ==> "ID" !in c.insights(a, b).value
    requires forall a :: c.language(a).Some? ==> "ID" !in c.language(a).value
    requires forall q :: c.draft(q).Some? ==> "ID" !in c.draft(q).value
    requires forall t :: c.parse(t).Some? ==> "ID" !in c.parse(t).value
    ensures "ID" !in Processing(withIds, rag, table, store, c).value[i].insights
  {
    ProcessingInsights(withIds, rag, table, store, c, i);
    var f := FirstWithId(withIds, IdOf(withIds[i]));
    DraftPayloadFrom(withIds[f], rag, Rows(store.vectorTables, table), store, None, c);
  }

  // ---------------------------------------------------------------------
  // Call sites
  // ---------------------------------------------------------------------

  /**
   * What a call of regenerateInsights ends up with: the truthiness of its
   * `rag` parameter (default `false`) and the vector table its retrieval
   * searches.
   */
  datatype RegenerateArgs = RegenerateArgs(rag: bool, table: string)

  /**
   * onAddMails as written: `this.regenerateInsights(mails, attributes, rag, tenant)`;
   * the tenant reaches getClosestMails through default parameters.
   */
  function AddMailsCallAsWritten(rag: Option<Json>, tenant: Tenancy.TenantArg): (a: RegenerateArgs)
    ensures a.rag == Truthy(rag)
    ensures a.table == Tenancy.RetrievalTableAsWritten(tenant)
  {
    RegenerateArgs(Truthy(rag), Tenancy.TableName(Tenancy.WithDefaultParameter(tenant)))
  }

  /**
   * onRegenerateInsights as written: `this.regenerateInsights(mails, rag, tenant)`
   * binds `rag` to `attributes`, `tenant` to `rag`, and leaves `tenant` undefined.
   */
  function RegenerateInsightsCallAsWritten(rag: Option<Json>, tenant: Tenancy.TenantArg): RegenerateArgs {
    RegenerateArgs(Tenancy.IsTruthy(tenant), Tenancy.TableName(Tenancy.WithDefaultParameter(Tenancy.Undefined)))
  }

  /**
   * As written, the request's `rag` flag is ignored, drafting takes the
   * retrieval path exactly when a tenant is set, and it always searches the
   * table "__main", whatever the tenant.
   */
  lemma RegenerateInsightsCallIgnoresRag(rag1: Option<Json>, rag2: Option<Json>, tenant: Tenancy.TenantArg)
    ensures RegenerateInsightsCallAsWritten(rag1, tenant) == RegenerateInsightsCallAsWritten(rag2, tenant)
    ensures RegenerateInsightsCallAsWritten(rag1, tenant).rag == Tenancy.IsTruthy(tenant)
    ensures RegenerateInsightsCallAsWritten(rag1, tenant).table == "__main"
    ensures RegenerateInsightsCallAsWritten(Some(JBool(true)), Tenancy.Undefined) != RegenerateCall(Some(JBool(true)), Tenancy.Undefined)
  {
    Tenancy.RetrievalTableMismatch();
  }

  /**
   * Corrected call used by both handlers: the request's `rag` flag is
   * honoured, and retrieval searches the table the tenant's mails are
   * embedded into.
   */
  function RegenerateCall(rag: Option<Json>, tenant: Tenancy.TenantArg): (a: RegenerateArgs)
    ensures a.rag == Truthy(rag)
    ensures a.table == Tenancy.TableName(tenant)
    ensures !tenant.Undefined? ==> a == AddMailsCallAsWritten(rag, tenant)
  {
    RegenerateArgs(Truthy(rag), Tenancy.RetrievalTable(tenant))
  }
}

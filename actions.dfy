/**
 * The default-description enrichment of suggested actions
 * (common-mail-insights.ts: onAfterReadMails, onGetMail, onAddMails and
 * regenerateResponse). Each suggested action gets a `descr` property: the
 * `descr` of the first catalog action whose `value` equals the suggested
 * action's `value`, or "" when there is none or it is falsy. The catalog
 * (`actions` of default-values.ts) is a parameter.
 */
module SuggestedActions {
  import opened JsonValues

  /** The position of `actions.find(a => a.value === value)`, or |catalog| when nothing matches. */
  function FirstMatch(catalog: seq<Record>, value: Option<Json>): (j: nat)
    ensures j <= |catalog|
    ensures forall i :: 0 <= i < j ==> Get(catalog[i], "value") != value
    ensures j < |catalog| ==> Get(catalog[j], "value") == value
  {
    if catalog == [] then 0
    else if Get(catalog[0], "value") == value then 0
    else 1 + FirstMatch(catalog[1..], value)
  }

  /** `actions.find(...)?.descr || ""` */
  function DefaultDescr(catalog: seq<Record>, value: Option<Json>): (d: Json)
  {
    var j := FirstMatch(catalog, value);
    OrElse(if j < |catalog| then Get(catalog[j], "descr") else None, JStr(""))
  }

  /** The description is that of the first catalog entry with the same value, when truthy, else "". */
  lemma DefaultDescrFirstMatch(catalog: seq<Record>, value: Option<Json>, j: nat)
    requires j < |catalog| && Get(catalog[j], "value") == value
    requires forall i :: 0 <= i < j ==> Get(catalog[i], "value") != value
    ensures DefaultDescr(catalog, value) == OrElse(Get(catalog[j], "descr"), JStr(""))
  {
  }

  lemma DefaultDescrNoMatch(catalog: seq<Record>, value: Option<Json>)
    requires forall i :: 0 <= i < |catalog| ==> Get(catalog[i], "value") != value
    ensures DefaultDescr(catalog, value) == JStr("")
  {
  }

  /**
   * `{...suggestedAction, descr: ...}` for one element. Reading `.value` of
   * `null` throws once `find` calls its predicate, i.e. for a non-empty catalog.
   */
  function EnrichAction(sa: Json, catalog: seq<Record>): (r: Outcome<Json>)
    ensures sa.JObj? ==> r == Ok(JObj(sa.fields["descr" := DefaultDescr(catalog, Get(sa.fields, "value"))]))
    ensures sa.JNull? ==> (r.Thrown? <==> |catalog| > 0)
    ensures r.Ok? ==> r.value.JObj? && "descr" in r.value.fields
  {
    match sa
    case JObj(m) => Ok(JObj(m["descr" := DefaultDescr(catalog, Get(m, "value"))]))
    case JNull => if |catalog| > 0 then Thrown else Ok(JObj(map["descr" := JStr("")]))
    case _ => Ok(JObj(map["descr" := DefaultDescr(catalog, None)]))
  }

  /** `items.map(EnrichAction)`: the first element that throws ends the map. */
  function EnrichItems(items: seq<Json>, catalog: seq<Record>): (r: Outcome<seq<Json>>)
    ensures r.Ok? ==> |r.value| == |items|
    ensures r.Ok? ==> forall i :: 0 <= i < |items| ==> EnrichAction(items[i], catalog) == Ok(r.value[i])
    ensures r.Thrown? ==> exists i :: 0 <= i < |items| && EnrichAction(items[i], catalog).Thrown?
  {
    if items == [] then Ok([])
    else match EnrichAction(items[0], catalog)
      case Thrown => Thrown
      case Ok(head) =>
        match EnrichItems(items[1..], catalog)
        case Thrown => Thrown
        case Ok(tail) => Ok([head] + tail)
  }

  /** `v?.map(...)`: undefined for null or undefined, a TypeError for anything but an array. */
  function EnrichActions(v: Option<Json>, catalog: seq<Record>): (r: Outcome<Option<Json>>)
  {
    match v
    case None => Ok(None)
    case Some(JNull) => Ok(None)
    case Some(JArr(items)) =>
      (match EnrichItems(items, catalog)
       case Thrown => Thrown
       case Ok(items') => Ok(Some(JArr(items'))))
    case Some(_) => Thrown
  }

  /** `mail.suggestedActions = mail.suggestedActions?.map(...)` (onGetMail, onAddMails, regenerateResponse). */
  function EnrichMail(mail: Record, catalog: seq<Record>): (r: Outcome<Record>)
  {
    match EnrichActions(Get(mail, "suggestedActions"), catalog)
    case Thrown => Thrown
    case Ok(v) => Ok(SetProp(mail, "suggestedActions", v))
  }

  /** The same behind `if (mail.suggestedActions)` (onAfterReadMails). */
  function EnrichMailGuarded(mail: Record, catalog: seq<Record>): (r: Outcome<Record>)
  {
    if Truthy(Get(mail, "suggestedActions")) then EnrichMail(mail, catalog) else Ok(mail)
  }

  /**
   * Enrichment changes only `suggestedActions`: the array keeps its length and
   * order, every element keeps its other properties, and its `descr` is the
   * catalog default for its `value`.
   */
  lemma EnrichMailSpec(mail: Record, catalog: seq<Record>, items: seq<Json>)
    requires Get(mail, "suggestedActions") == Some(JArr(items))
    requires forall i :: 0 <= i < |items| ==> items[i].JObj?
    ensures EnrichMail(mail, catalog).Ok?
    ensures forall k :: k != "suggestedActions" ==> Get(EnrichMail(mail, catalog).value, k) == Get(mail, k)
    ensures var r := EnrichMail(mail, catalog).value;
      "suggestedActions" in r && r["suggestedActions"].JArr? && |r["suggestedActions"].items| == |items|
      && forall i :: 0 <= i < |items| ==>
        r["suggestedActions"].items[i].JObj?
        && var m, m' := items[i].fields, r["suggestedActions"].items[i].fields;
           m'["descr"] == DefaultDescr(catalog, Get(m, "value"))
           && forall k :: k != "descr" ==> Get(m', k) == Get(m, k)
  {
  }

  /** Missing, null or falsy actions: the guarded form leaves them, the unguarded form makes them undefined. */
  lemma GuardedFormKeepsNull(mail: Record, catalog: seq<Record>)
    requires Get(mail, "suggestedActions") == Some(JNull)
    ensures EnrichMailGuarded(mail, catalog) == Ok(mail)
    ensures EnrichMail(mail, catalog).Ok? && "suggestedActions" !in EnrichMail(mail, catalog).value
  {
  }

  lemma EnrichActionIdempotent(sa: Json, catalog: seq<Record>)
    requires EnrichAction(sa, catalog).Ok?
    ensures EnrichAction(EnrichAction(sa, catalog).value, catalog) == EnrichAction(sa, catalog)
  {
    var r := EnrichAction(sa, catalog).value;
    match sa
    case JObj(m) =>
      assert Get(r.fields, "value") == Get(m, "value");
      assert r.fields["descr" := DefaultDescr(catalog, Get(m, "value"))] == r.fields;
    case JNull =>
      assert |catalog| == 0 && r == JObj(map["descr" := JStr("")]);
      assert DefaultDescr(catalog, Get(r.fields, "value")) == JStr("");
      assert r.fields["descr" := JStr("")] == r.fields;
    case _ =>
      assert Get(r.fields, "value") == None;
      assert r.fields["descr" := DefaultDescr(catalog, None)] == r.fields;
  }

  lemma {:induction false} EnrichItemsIdempotent(items: seq<Json>, catalog: seq<Record>)
    requires EnrichItems(items, catalog).Ok?
    ensures EnrichItems(EnrichItems(items, catalog).value, catalog) == EnrichItems(items, catalog)
  {
    if items != [] {
      var r := EnrichItems(items, catalog).value;
      EnrichActionIdempotent(items[0], catalog);
      EnrichItemsIdempotent(items[1..], catalog);
      assert r == [r[0]] + r[1..];
      assert r[1..] == EnrichItems(items[1..], catalog).value;
    }
  }

  /** Enriching an already enriched mail changes nothing more. */
  lemma EnrichMailIdempotent(mail: Record, catalog: seq<Record>)
    requires EnrichMail(mail, catalog).Ok?
    ensures EnrichMail(EnrichMail(mail, catalog).value, catalog) == EnrichMail(mail, catalog)
  {
    var v := Get(mail, "suggestedActions");
    var r := EnrichMail(mail, catalog).value;
    if v.Some? && v.value.JArr? {
      EnrichItemsIdempotent(v.value.items, catalog);
    }
    assert SetProp(r, "suggestedActions", Get(r, "suggestedActions")) == r;
  }

  /**
   * `mails.forEach(mail => { ...enrich in place... })`. With `guarded` the
   * body first checks `if (mail.suggestedActions)` (onAfterReadMails);
   * without it the body runs for every mail (onAddMails). A throw stops the
   * loop: the mails before it are enriched, the rest are untouched.
   */
  method EnrichEach(mails: array<Record>, catalog: seq<Record>, guarded: bool) returns (ok: bool)
    modifies mails
    ensures ok ==> forall i :: 0 <= i < mails.Length ==>
      Ok(mails[i]) == (if guarded then EnrichMailGuarded(old(mails[i]), catalog) else EnrichMail(old(mails[i]), catalog))
    ensures !ok ==> exists j :: (0 <= j < mails.Length
      && (if guarded then EnrichMailGuarded(old(mails[j]), catalog) else EnrichMail(old(mails[j]), catalog)).Thrown?
      && (forall i :: 0 <= i < j ==>
            Ok(mails[i]) == (if guarded then EnrichMailGuarded(old(mails[i]), catalog) else EnrichMail(old(mails[i]), catalog)))
      && (forall i :: j <= i < mails.Length ==> mails[i] == old(mails[i])))
  {
    var n := 0;
    while n < mails.Length
      invariant 0 <= n <= mails.Length
      invariant forall i :: 0 <= i < n ==>
        Ok(mails[i]) == (if guarded then EnrichMailGuarded(old(mails[i]), catalog) else EnrichMail(old(mails[i]), catalog))
      invariant forall i :: n <= i < mails.Length ==> mails[i] == old(mails[i])
    {
      var r := if guarded then EnrichMailGuarded(mails[n], catalog) else EnrichMail(mails[n], catalog);
      if r.Thrown? {
        return false;
      }
      mails[n] := r.value;
      n := n + 1;
    }
    return true;
  }
}

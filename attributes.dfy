/**
 * isIAdditionalAttributeArray (common-mail-insights.ts): whether a value is
 * an array of additional-attribute definitions, each with a string `ID` and
 * an `attribute` object holding a string `attribute` and a string
 * `explanation`. `every` stops at the first element that fails, and reading
 * `attr.attribute.attribute` throws when `attr` or `attr.attribute` is null
 * or undefined.
 */
module AdditionalAttributes {
  import opened JsonValues

  /** Property read `v.key` on a value that is not null or undefined. */
  function Prop(v: Json, key: string): (r: Option<Json>)
    ensures v.JObj? ==> r == Get(v.fields, key)
    ensures !v.JObj? ==> r.None?
  {
    if v.JObj? then Get(v.fields, key) else None
  }

  predicate IsString(v: Option<Json>) {
    v.Some? && v.value.JStr?
  }

  /** Reading `attr.attribute.attribute` throws for this element. */
  predicate Throws(attr: Json) {
    attr.JNull? || Prop(attr, "attribute").None? || Prop(attr, "attribute") == Some(JNull)
  }

  /** The element has the IAdditionalAttribute shape the predicate tests. */
  predicate WellFormed(attr: Json) {
    && !Throws(attr)
    && IsString(Prop(Prop(attr, "attribute").value, "attribute"))
    && IsString(Prop(Prop(attr, "attribute").value, "explanation"))
    && IsString(Prop(attr, "ID"))
  }

  /** The callback of `every`, with `&&` evaluated left to right. */
  function CheckAttribute(attr: Json): (r: Outcome<bool>)
  {
    if attr.JNull? then Thrown
    else
      var a := Prop(attr, "attribute");
      if a.None? || a.value.JNull? then Thrown
      else if !IsString(Prop(a.value, "attribute")) then Ok(false)
      else if !IsString(Prop(a.value, "explanation")) then Ok(false)
      else Ok(IsString(Prop(attr, "ID")))
  }

  function Every(items: seq<Json>): (r: Outcome<bool>)
  {
    if items == [] then Ok(true)
    else match CheckAttribute(items[0])
      case Thrown => Thrown
      case Ok(b) => if b then Every(items[1..]) else Ok(false)
  }

  function IsAdditionalAttributeArray(v: Json): (r: Outcome<bool>)
  {
    if v.JArr? then Every(v.items) else Ok(false)
  }

  lemma CheckAttributeSpec(attr: Json)
    ensures CheckAttribute(attr).Thrown? <==> Throws(attr)
    ensures !Throws(attr) ==> CheckAttribute(attr) == Ok(WellFormed(attr))
  {
  }

  lemma {:induction false} EverySpec(items: seq<Json>)
    ensures Every(items) == Ok(true) <==> forall i :: 0 <= i < |items| ==> WellFormed(items[i])
    ensures Every(items).Thrown? <==>
      exists j :: 0 <= j < |items| && Throws(items[j]) && forall i :: 0 <= i < j ==> WellFormed(items[i])
  {
    if items != [] {
      CheckAttributeSpec(items[0]);
      EverySpec(items[1..]);
      if Every(items).Thrown? {
        if !Throws(items[0]) {
          var j :| 0 <= j < |items[1..]| && Throws(items[1..][j]) && forall i :: 0 <= i < j ==> WellFormed(items[1..][i]);
          assert Throws(items[j + 1]) && forall i :: 0 <= i < j + 1 ==> WellFormed(items[i]);
        }
      }
      if exists j :: 0 <= j < |items| && Throws(items[j]) && forall i :: 0 <= i < j ==> WellFormed(items[i]) {
        var j :| 0 <= j < |items| && Throws(items[j]) && forall i :: 0 <= i < j ==> WellFormed(items[i]);
        if j > 0 {
          assert Throws(items[1..][j - 1]) && forall i :: 0 <= i < j - 1 ==> WellFormed(items[1..][i]);
        }
      }
      if forall i :: 0 <= i < |items| ==> WellFormed(items[i]) {
        assert forall i :: 0 <= i < |items[1..]| ==> WellFormed(items[1..][i]);
      }
    }
  }

  /**
   * True exactly for an array whose every element is well formed; a throw
   * exactly when, in an array, an element whose `attribute` is missing or null
   * comes before any element that merely fails the test.
   */
  lemma IsAdditionalAttributeArraySpec(v: Json)
    ensures IsAdditionalAttributeArray(v) == Ok(true) <==>
      v.JArr? && forall i :: 0 <= i < |v.items| ==> WellFormed(v.items[i])
    ensures IsAdditionalAttributeArray(v).Thrown? <==>
      v.JArr? && exists j :: 0 <= j < |v.items| && Throws(v.items[j]) && forall i :: 0 <= i < j ==> WellFormed(v.items[i])
    ensures !v.JArr? ==> IsAdditionalAttributeArray(v) == Ok(false)
  {
    if v.JArr? {
      EverySpec(v.items);
    }
  }
}

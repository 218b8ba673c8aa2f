/**
 * The first steps of the submission handler: the form-id allow-list and the
 * choice among the record's three ways of handing over its fields.
 */
module FormGate {
  import opened Text
  import opened Php
  import opened FormFields

  /** What the allow-list filter returned: an array of ids, or any non-array value. */
  datatype AllowList = NotAnArray | Ids(ids: seq<Scalar>)

  /** The id the handler compares: the form setting `id`, or 0 when the record cannot report one. */
  function FormIdOf(setting: Option<Scalar>): Scalar
  {
    match setting
    case Some(v) => v
    case None => PInt(0)
  }

  /**
   * The allow-list gate: a non-array or empty list admits every form; otherwise the
   * form is admitted when its `strval` equals the `strval` of a listed id.
   */
  function FormAdmitted(formId: Scalar, allowed: AllowList): (admit: bool)
    ensures admit <==> allowed.NotAnArray? || allowed.ids == [] ||
                       exists i :: 0 <= i < |allowed.ids| && StrVal(allowed.ids[i]) == StrVal(formId)
  {
    match allowed
    case NotAnArray => true
    case Ids(ids) =>
      ids == [] ||
      var strs := seq(|ids|, i requires 0 <= i < |ids| => StrVal(ids[i]));
      assert forall i :: 0 <= i < |ids| ==> strs[i] == StrVal(ids[i]);
      StrVal(formId) in strs
  }

  function IntIds(ns: seq<int>): seq<Scalar>
  {
    seq(|ns|, i requires 0 <= i < |ns| => PInt(ns[i]))
  }

  /** With integer ids on both sides, the string comparison is exactly integer membership. */
  lemma IntIdsGate(n: int, ns: seq<int>)
    requires ns != []
    ensures FormAdmitted(PInt(n), Ids(IntIds(ns))) <==> n in ns
  {
    if n in ns {
      var i :| 0 <= i < |ns| && ns[i] == n;
      assert StrVal(IntIds(ns)[i]) == StrVal(PInt(n));
    }
    if FormAdmitted(PInt(n), Ids(IntIds(ns))) {
      var i :| 0 <= i < |ns| && StrVal(IntIds(ns)[i]) == StrVal(PInt(n));
      assert StrVal(IntIds(ns)[i]) == DecimalString(ns[i]);
      DecimalStringInjective(ns[i], n);
      assert ns[i] == n;
    }
  }

  /** An integer id and its decimal string are the same form; a zero-padded string is not. */
  lemma StringAndIntIdsMix()
    ensures FormAdmitted(PInt(42), Ids([PStr("42")]))
    ensures !FormAdmitted(PInt(42), Ids([PStr("042")]))
  {
    assert DigitChar(4) == '4' && DigitChar(2) == '2';
    assert NatString(42) == NatString(4) + [DigitChar(2)] == "42";
    assert StrVal(PStr("42")) == StrVal(PInt(42));
    assert [PStr("42")][0] == PStr("42");
  }

  /** One way of reading the fields off the record: missing method, an array, or a non-array value. */
  datatype Accessor = Missing | List(items: seq<Field>) | NonList(empty: bool)

  predicate EmptyAccessor(a: Accessor)
  {
    a.Missing? || (a.List? && a.items == []) || (a.NonList? && a.empty)
  }

  /**
   * `get('fields')`, then `get_formatted_data()`, then the `fields` property, each tried only
   * while the result so far is PHP-empty; the handler stops unless the outcome is a non-empty array.
   */
  function SubmittedFields(get: Accessor, formatted: Accessor, property: Accessor): (r: Option<seq<Field>>)
    ensures r.Some? ==> r.value != []
    ensures r.Some? <==> exists a :: a in [get, formatted, property] && a.List? && a.items != []
                                     && FirstNonEmpty(get, formatted, property) == a
    ensures r.Some? ==> r.value == FirstNonEmpty(get, formatted, property).items
  {
    var a := FirstNonEmpty(get, formatted, property);
    if a.List? && a.items != [] then Some(a.items) else None
  }

  /** The accessor whose result the handler keeps: the first one that is not PHP-empty, else the last. */
  function FirstNonEmpty(get: Accessor, formatted: Accessor, property: Accessor): (a: Accessor)
    ensures EmptyAccessor(a) <==> EmptyAccessor(get) && EmptyAccessor(formatted) && EmptyAccessor(property)
    ensures !EmptyAccessor(get) ==> a == get
    ensures EmptyAccessor(get) && !EmptyAccessor(formatted) ==> a == formatted
    ensures EmptyAccessor(get) && EmptyAccessor(formatted) ==> a == property
  {
    if !EmptyAccessor(get) then get
    else if !EmptyAccessor(formatted) then formatted
    else property
  }

  /** A later accessor is never consulted when an earlier one produced something non-empty, even a non-array. */
  lemma EarlierAccessorShadows(get: Accessor, formatted: Accessor, property: Accessor)
    requires get.NonList? && !get.empty
    ensures SubmittedFields(get, formatted, property) == None
  {
  }
}

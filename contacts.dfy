/**
 * The contact upsert: the contact object of the automation store, the
 * field-to-attribute mapping applied through its setters, and
 * `create_or_update_contact`. The contact factory and `save()`'s storage
 * belong to the host; `sanitize_text_field` is a parameter.
 */
module Contacts {
  import opened Text
  import opened Php
  import opened FormFields

  /** One entry of the field-mappings filter: attribute `attr` is fed by the fields matching `patterns`. */
  datatype Mapping = Mapping(attr: string, patterns: seq<string>)

  const DefaultMappings: seq<Mapping> := [
    Mapping("first_name", FirstNamePatterns),
    Mapping("last_name", ["last_name", "lastname", "lname", "surname"]),
    Mapping("phone", ["phone", "telephone", "mobile", "phone_number"])
  ]

  /** The filter returns a PHP array keyed by attribute, so no attribute appears twice. */
  predicate DistinctAttrs(ms: seq<Mapping>)
  {
    forall i, j :: 0 <= i < j < |ms| ==> ms[i].attr != ms[j].attr
  }

  function Lookup(props: map<string, string>, attr: string): Option<string>
  {
    if attr in props then Some(props[attr]) else None
  }

  /** What a getter returns: the stored value, or "" when the attribute was never set. */
  function GetOr(props: map<string, string>, attr: string): string
  {
    if attr in props then props[attr] else ""
  }

  /** A contact record whose attributes change through `set_<attr>` calls. */
  class Contact {
    var props: map<string, string>
    /** The attributes `attr` for which the object has a `set_<attr>` method. */
    const setters: set<string>
    /** How many times `save()` has been called. */
    var saves: nat

    constructor (props0: map<string, string>, setters0: set<string>)
      ensures props == props0 && setters == setters0 && saves == 0
    {
      props := props0;
      setters := setters0;
      saves := 0;
    }

    function Get(attr: string): string
      reads this
    {
      GetOr(props, attr)
    }

    /** `set_<attr>(value)`. */
    method Set(attr: string, value: string)
      modifies this
      ensures props == old(props)[attr := value] && saves == old(saves)
    {
      props := props[attr := value];
    }

    /** `save()`: persists the contact; its attributes stay as they are. */
    method Save()
      modifies this
      ensures props == old(props) && saves == old(saves) + 1
    {
      saves := saves + 1;
    }
  }

  /** The effect of one mapping: `set_<attr>` with the sanitised value, when a value was found and the setter exists. */
  function ApplyMapping(props: map<string, string>, setters: set<string>, fields: seq<Field>,
                        m: Mapping, sanitizeText: string -> string): (r: map<string, string>)
    ensures props.Keys <= r.Keys
    ensures forall a :: a != m.attr ==> Lookup(r, a) == Lookup(props, a)
    ensures r != props ==> m.attr in setters && ExtractFieldValue(fields, m.patterns).Some? &&
                           r == props[m.attr := sanitizeText(ExtractFieldValue(fields, m.patterns).value)]
    ensures m.attr in setters && ExtractFieldValue(fields, m.patterns).Some? ==>
              r == props[m.attr := sanitizeText(ExtractFieldValue(fields, m.patterns).value)]
  {
    match ExtractFieldValue(fields, m.patterns)
    case Some(v) => if !IsEmpty(v) && m.attr in setters then props[m.attr := sanitizeText(v)] else props
    case None => props
  }

  /** The attributes after the mappings have been applied in order. */
  function MappedProps(props: map<string, string>, setters: set<string>, fields: seq<Field>,
                       ms: seq<Mapping>, sanitizeText: string -> string): (r: map<string, string>)
    ensures props.Keys <= r.Keys
    ensures forall a :: a !in setters ==> Lookup(r, a) == Lookup(props, a)
    decreases |ms|
  {
    if ms == [] then props
    else ApplyMapping(MappedProps(props, setters, fields, ms[..|ms| - 1], sanitizeText),
                      setters, fields, ms[|ms| - 1], sanitizeText)
  }

  /** Whether some mapping for `attr` has a setter and finds a value, and which one. */
  function MappedValue(setters: set<string>, fields: seq<Field>, ms: seq<Mapping>,
                       attr: string, sanitizeText: string -> string): Option<string>
    decreases |ms|
  {
    if ms == [] then None
    else
      var m := ms[|ms| - 1];
      if m.attr == attr && attr in setters && ExtractFieldValue(fields, m.patterns).Some?
      then Some(sanitizeText(ExtractFieldValue(fields, m.patterns).value))
      else MappedValue(setters, fields, ms[..|ms| - 1], attr, sanitizeText)
  }

  /**
   * Attribute by attribute: an attribute with a setter and a found value takes the sanitised
   * value; every other attribute keeps what it had, including being absent.
   */
  lemma {:induction false} MappedPropsAt(props: map<string, string>, setters: set<string>, fields: seq<Field>,
                                         ms: seq<Mapping>, attr: string, sanitizeText: string -> string)
    ensures Lookup(MappedProps(props, setters, fields, ms, sanitizeText), attr) ==
            match MappedValue(setters, fields, ms, attr, sanitizeText)
            case Some(v) => Some(v)
            case None => Lookup(props, attr)
    decreases |ms|
  {
    if ms != [] {
      MappedPropsAt(props, setters, fields, ms[..|ms| - 1], attr, sanitizeText);
      var m := ms[|ms| - 1];
      var found := ExtractFieldValue(fields, m.patterns);
      ExtractFieldValueFirstMatch(fields, m.patterns);
    }
  }

  /** With distinct attributes, the value an attribute gets comes from its own mapping. */
  lemma {:induction false} MappedValueOfOwnMapping(setters: set<string>, fields: seq<Field>, ms: seq<Mapping>,
                                                   i: nat, sanitizeText: string -> string)
    requires DistinctAttrs(ms) && i < |ms|
    ensures MappedValue(setters, fields, ms, ms[i].attr, sanitizeText) ==
            if ms[i].attr in setters && ExtractFieldValue(fields, ms[i].patterns).Some?
            then Some(sanitizeText(ExtractFieldValue(fields, ms[i].patterns).value))
            else None
    decreases |ms|
  {
    var attr := ms[i].attr;
    if i < |ms| - 1 {
      var init := ms[..|ms| - 1];
      assert init[i] == ms[i];
      MappedValueOfOwnMapping(setters, fields, init, i, sanitizeText);
    } else {
      var init := ms[..|ms| - 1];
      NotMapped(setters, fields, init, attr, sanitizeText);
    }
  }

  /** An attribute that no mapping names keeps its value. */
  lemma {:induction false} NotMapped(setters: set<string>, fields: seq<Field>, ms: seq<Mapping>,
                                     attr: string, sanitizeText: string -> string)
    requires forall i :: 0 <= i < |ms| ==> ms[i].attr != attr
    ensures MappedValue(setters, fields, ms, attr, sanitizeText) == None
    decreases |ms|
  {
    if ms != [] {
      NotMapped(setters, fields, ms[..|ms| - 1], attr, sanitizeText);
    }
  }

  /**
   * `update_contact_fields`: for each mapping in order, look the value up and call
   * `set_<attr>` only when the value is non-empty and the setter exists.
   */
  method UpdateContactFields(contact: Contact, fields: seq<Field>, mappings: seq<Mapping>,
                             sanitizeText: string -> string)
    modifies contact
    ensures contact.props == MappedProps(old(contact.props), contact.setters, fields, mappings, sanitizeText)
    ensures contact.saves == old(contact.saves)
  {
    var i := 0;
    while i < |mappings|
      invariant 0 <= i <= |mappings|
      invariant contact.props == MappedProps(old(contact.props), contact.setters, fields, mappings[..i], sanitizeText)
      invariant contact.saves == old(contact.saves)
    {
      var m := mappings[i];
      var value := ExtractFieldValue(fields, m.patterns);
      if value.Some? && !IsEmpty(value.value) {
        if m.attr in contact.setters {
          contact.Set(m.attr, sanitizeText(value.value));
        }
      }
      assert mappings[..i + 1][..i] == mappings[..i];
      i := i + 1;
    }
    assert mappings[..i] == mappings;
  }

  /** The attributes after `create_or_update_contact` on a contact the factory returned. */
  function Upserted(props: map<string, string>, setters: set<string>, email: string, fields: seq<Field>,
                    ms: seq<Mapping>, sanitizeText: string -> string): (r: map<string, string>)
    ensures props.Keys <= r.Keys && "email" in r
    ensures forall a :: a != "email" && a !in setters ==> Lookup(r, a) == Lookup(props, a)
  {
    var withEmail := if IsEmpty(GetOr(props, "email")) then props["email" := email] else props;
    MappedProps(withEmail, setters, fields, ms, sanitizeText)
  }

  /** The user id handed to the contact factory: the logged-in user, else the user registered under the email, else 0. */
  function ResolveUserId(current: nat, byEmail: Option<nat>): (id: nat)
    ensures id != 0 <==> current != 0 || (byEmail.Some? && byEmail.value != 0)
    ensures current != 0 ==> id == current
    ensures current == 0 ==> id == (if byEmail.Some? then byEmail.value else 0)
  {
    if current == 0 && byEmail.Some? then byEmail.value else current
  }

  /**
   * `create_or_update_contact`. `found` is what the factory returned for
   * (ResolveUserId(..), email); null stands for a missing factory or a non-contact result.
   */
  method CreateOrUpdateContact(factoryAvailable: bool, found: Contact?, email: string, fields: seq<Field>,
                               mappings: seq<Mapping>, sanitizeText: string -> string)
    returns (contact: Contact?)
    modifies found
    ensures (!factoryAvailable || found == null) ==> contact == null
    ensures !factoryAvailable && found != null ==> found.props == old(found.props) && found.saves == old(found.saves)
    ensures factoryAvailable && found != null ==>
              contact == found && found.saves == old(found.saves) + 1 &&
              found.props == Upserted(old(found.props), found.setters, email, fields, mappings, sanitizeText)
  {
    if !factoryAvailable || found == null {
      return null;
    }
    if IsEmpty(found.Get("email")) {
      found.Set("email", email);
    }
    UpdateContactFields(found, fields, mappings, sanitizeText);
    found.Save();
    contact := found;
  }

  /** A stored non-empty email is never overwritten, as long as no mapping targets `email` itself. */
  lemma ExistingEmailKept(props: map<string, string>, setters: set<string>, email: string, fields: seq<Field>,
                          ms: seq<Mapping>, sanitizeText: string -> string)
    requires forall i :: 0 <= i < |ms| ==> ms[i].attr != "email"
    requires !IsEmpty(GetOr(props, "email"))
    ensures Lookup(Upserted(props, setters, email, fields, ms, sanitizeText), "email") == Lookup(props, "email")
  {
    MappedPropsAt(props, setters, fields, ms, "email", sanitizeText);
    NotMapped(setters, fields, ms, "email", sanitizeText);
  }

  /** A missing (PHP-empty) email is filled in with the submitted one. */
  lemma MissingEmailFilled(props: map<string, string>, setters: set<string>, email: string, fields: seq<Field>,
                           ms: seq<Mapping>, sanitizeText: string -> string)
    requires forall i :: 0 <= i < |ms| ==> ms[i].attr != "email"
    requires IsEmpty(GetOr(props, "email"))
    ensures Lookup(Upserted(props, setters, email, fields, ms, sanitizeText), "email") == Some(email)
  {
    MappedPropsAt(props["email" := email], setters, fields, ms, "email", sanitizeText);
    NotMapped(setters, fields, ms, "email", sanitizeText);
  }

  lemma DefaultMappingsShape()
    ensures DistinctAttrs(DefaultMappings)
    ensures forall i :: 0 <= i < |DefaultMappings| ==> DefaultMappings[i].attr != "email"
  {
  }

  /** Submitting the same form twice leaves the contact's attributes as one submission did. */
  lemma UpsertIdempotent(props: map<string, string>, setters: set<string>, email: string, fields: seq<Field>,
                         ms: seq<Mapping>, sanitizeText: string -> string)
    requires DistinctAttrs(ms) && !IsEmpty(email)
    ensures var once := Upserted(props, setters, email, fields, ms, sanitizeText);
            Upserted(once, setters, email, fields, ms, sanitizeText) == once
  {
    var once := Upserted(props, setters, email, fields, ms, sanitizeText);
    var twice := Upserted(once, setters, email, fields, ms, sanitizeText);
    var withEmail := if IsEmpty(GetOr(props, "email")) then props["email" := email] else props;
    var withEmail' := if IsEmpty(GetOr(once, "email")) then once["email" := email] else once;
    forall attr: string
      ensures Lookup(twice, attr) == Lookup(once, attr)
    {
      MappedPropsAt(withEmail, setters, fields, ms, attr, sanitizeText);
      MappedPropsAt(withEmail', setters, fields, ms, attr, sanitizeText);
      if attr == "email" && MappedValue(setters, fields, ms, attr, sanitizeText).None? {
        MappedPropsAt(withEmail, setters, fields, ms, "email", sanitizeText);
      }
    }
    assert forall attr :: attr in twice <==> attr in once by {
      forall attr: string ensures attr in twice <==> attr in once {
        assert Lookup(twice, attr) == Lookup(once, attr);
      }
    }
    assert twice.Keys == once.Keys;
    forall attr | attr in once ensures twice[attr] == once[attr] {
      assert Lookup(twice, attr) == Lookup(once, attr);
    }
  }
}

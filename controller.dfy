/**
 * The two server-side entry points: the Elementor submission hook and the AJAX
 * endpoint the browser script calls. Both are sequences of early returns around
 * the contact upsert and the cart linkage; writing the `_fk_contact_uid` cookie
 * and the JSON response transport belong to the host.
 */
module Controller {
  import opened Text
  import opened Php
  import opened FormFields
  import opened FormGate
  import opened Contacts
  import opened CartLink

  /** What the submitted form record offers: its `id` setting and its three ways of handing over the fields. */
  datatype Record = Record(formSetting: Option<Scalar>, get: Accessor, formatted: Accessor, property: Accessor)

  /** The site's filters and the host's sanitising and validating functions. */
  datatype Hooks = Hooks(allowed: AllowList, emailPatterns: seq<string>, mappings: seq<Mapping>,
                         isEmail: string -> bool, sanitizeEmail: string -> string, sanitizeText: string -> string)

  /**
   * The host state the linkage reads: whether the contact factory and the cart table
   * exist, the tracking-cookie sources, the time, the rows whose UPDATE fails, and
   * the live WooCommerce cart.
   */
  datatype Host = Host(factoryAvailable: bool, cartsAvailable: bool, helperCookie: Option<string>,
                       sessionCookie: Option<string>, now: string, failing: set<int>,
                       wooActive: bool, live: Option<LiveCart>)

  /** How a submission ended. */
  datatype Outcome = Skipped | NoContact(email: string) | Processed(email: string, linked: nat, createCart: bool)

  /** The fields the handler works on, once the gate has let the form through. */
  function FieldsOf(rec: Record): Option<seq<Field>>
  {
    SubmittedFields(rec.get, rec.formatted, rec.property)
  }

  /**
   * The email the submission handler goes on with: none when the gate refuses the form,
   * when no non-empty field array is found, when no field yields an email, or when the
   * sanitised email is PHP-empty or fails `is_email`.
   */
  function SubmissionEmail(rec: Record, hooks: Hooks): (e: Option<string>)
    ensures e.Some? ==> FormAdmitted(FormIdOf(rec.formSetting), hooks.allowed) && FieldsOf(rec).Some? &&
                        !IsEmpty(e.value) && hooks.isEmail(e.value)
  {
    if !FormAdmitted(FormIdOf(rec.formSetting), hooks.allowed) then None
    else match FieldsOf(rec)
      case None => None
      case Some(fields) =>
        match ExtractEmail(fields, hooks.emailPatterns, hooks.isEmail, hooks.sanitizeEmail)
        case None => None
        case Some(email) => if IsEmpty(email) || !hooks.isEmail(email) then None else Some(email)
  }

  /**
   * For an admitted form, the handler's email is the sanitised value of the first field whose
   * value passes `is_email`, provided that sanitised value itself is non-empty and passes again.
   */
  lemma SubmissionEmailIsFirstValid(rec: Record, hooks: Hooks, fields: seq<Field>)
    requires FormAdmitted(FormIdOf(rec.formSetting), hooks.allowed) && FieldsOf(rec) == Some(fields)
    ensures SubmissionEmail(rec, hooks) ==
            match FirstValidEmail(fields, hooks.isEmail, hooks.sanitizeEmail)
            case None => None
            case Some(e) => if IsEmpty(e) || !hooks.isEmail(e) then None else Some(e)
  {
    ExtractEmailIsFirstValid(fields, hooks.emailPatterns, hooks.isEmail, hooks.sanitizeEmail);
  }

  /** The number of carts linked: zero when the cart table is unavailable. */
  function LinkedFor(rows: seq<CartRow>, email: string, host: Host): nat
  {
    if host.cartsAvailable then
      var cookie := TrackingCookie(host.helperCookie, host.sessionCookie);
      LinkedCount(rows, Candidates(rows, email, cookie), host.failing)
    else 0
  }

  /** The cart table after the linkage: unchanged when the table is unavailable. */
  function TableAfter(rows: seq<CartRow>, email: string, host: Host): seq<CartRow>
  {
    if host.cartsAvailable then
      var cookie := TrackingCookie(host.helperCookie, host.sessionCookie);
      LinkedTable(rows, Candidates(rows, email, cookie), email, cookie, host.now, host.failing)
    else rows
  }

  /**
   * `handle_elementor_form_submission`. `found` is the contact the factory returns for this
   * email (null when it returns none). Every early return leaves the contact and the cart
   * table as they were; a processed submission upserts the contact, links the carts with
   * the tracking cookie, and decides whether a new cart is to be created.
   */
  method HandleFormSubmission(rec: Record, hooks: Hooks, host: Host, found: Contact?, table: CartTable)
    returns (outcome: Outcome)
    requires table.Valid()
    modifies found, table
    ensures table.Valid()
    ensures SubmissionEmail(rec, hooks).None? ==>
              outcome == Skipped && table.rows == old(table.rows) &&
              (found != null ==> found.props == old(found.props) && found.saves == old(found.saves))
    ensures SubmissionEmail(rec, hooks).Some? && (!host.factoryAvailable || found == null) ==>
              outcome == NoContact(SubmissionEmail(rec, hooks).value) && table.rows == old(table.rows) &&
              (found != null ==> found.props == old(found.props) && found.saves == old(found.saves))
    ensures SubmissionEmail(rec, hooks).Some? && host.factoryAvailable && found != null ==>
              var email := SubmissionEmail(rec, hooks).value;
              var linked := LinkedFor(old(table.rows), email, host);
              && found.props == Upserted(old(found.props), found.setters, email, FieldsOf(rec).value,
                                         hooks.mappings, hooks.sanitizeText)
              && found.saves == old(found.saves) + 1
              && table.rows == TableAfter(old(table.rows), email, host)
              && outcome == Processed(email, linked, ShouldCreateCart(linked, host.wooActive, host.live))
  {
    var formId := FormIdOf(rec.formSetting);
    if !FormAdmitted(formId, hooks.allowed) {
      return Skipped;
    }
    var fields := FieldsOf(rec);
    if fields.None? {
      return Skipped;
    }
    var extracted := ExtractEmail(fields.value, hooks.emailPatterns, hooks.isEmail, hooks.sanitizeEmail);
    if extracted.None? || IsEmpty(extracted.value) || !hooks.isEmail(extracted.value) {
      return Skipped;
    }
    var email := extracted.value;
    var contact := CreateOrUpdateContact(host.factoryAvailable, found, email, fields.value,
                                         hooks.mappings, hooks.sanitizeText);
    if contact == null {
      return NoContact(email);
    }
    var cookie := TrackingCookie(host.helperCookie, host.sessionCookie);
    var linked := table.LinkToAbandonedCarts(email, cookie, host.now, host.failing, host.cartsAvailable);
    outcome := Processed(email, linked, ShouldCreateCart(linked, host.wooActive, host.live));
  }

  /** The JSON reply of the AJAX endpoint: the error message, or the contact's uid on success. */
  datatype Reply = ReplyError(message: string) | ReplySuccess(uid: string)

  const BadNonce := "Invalid security token."
  const BadEmail := "Invalid email address."
  const NoContactMessage := "Failed to create contact."

  /** The posted `email` after `sanitize_email`, or "" when it was not posted. */
  function PostedEmail(posted: Option<string>, sanitizeEmail: string -> string): string
  {
    if posted.Some? then sanitizeEmail(posted.value) else ""
  }

  /**
   * `ajax_set_contact_cookie`. `nonceValid` is the outcome of the nonce check and
   * `contactUid` what the contact reports as its uid. A refused request changes nothing;
   * an accepted one upserts the contact with no form fields and links the carts.
   */
  method SetContactCookieEndpoint(nonceValid: bool, posted: Option<string>, hooks: Hooks, host: Host,
                                  found: Contact?, contactUid: string, table: CartTable)
    returns (reply: Reply)
    requires table.Valid()
    modifies found, table
    ensures table.Valid()
    ensures !nonceValid ==>
              reply == ReplyError(BadNonce) && table.rows == old(table.rows) &&
              (found != null ==> found.props == old(found.props) && found.saves == old(found.saves))
    ensures nonceValid && (IsEmpty(PostedEmail(posted, hooks.sanitizeEmail)) || !hooks.isEmail(PostedEmail(posted, hooks.sanitizeEmail))) ==>
              reply == ReplyError(BadEmail) && table.rows == old(table.rows) &&
              (found != null ==> found.props == old(found.props) && found.saves == old(found.saves))
    ensures nonceValid && !IsEmpty(PostedEmail(posted, hooks.sanitizeEmail)) && hooks.isEmail(PostedEmail(posted, hooks.sanitizeEmail)) ==>
              var email := PostedEmail(posted, hooks.sanitizeEmail);
              if host.factoryAvailable && found != null then
                && reply == ReplySuccess(contactUid)
                && found.props == Upserted(old(found.props), found.setters, email, [], hooks.mappings, hooks.sanitizeText)
                && found.saves == old(found.saves) + 1
                && table.rows == TableAfter(old(table.rows), email, host)
              else
                reply == ReplyError(NoContactMessage) && table.rows == old(table.rows) &&
                (found != null ==> found.props == old(found.props) && found.saves == old(found.saves))
  {
    if !nonceValid {
      return ReplyError(BadNonce);
    }
    var email := PostedEmail(posted, hooks.sanitizeEmail);
    if IsEmpty(email) || !hooks.isEmail(email) {
      return ReplyError(BadEmail);
    }
    var contact := CreateOrUpdateContact(host.factoryAvailable, found, email, [], hooks.mappings, hooks.sanitizeText);
    if contact == null {
      return ReplyError(NoContactMessage);
    }
    var cookie := TrackingCookie(host.helperCookie, host.sessionCookie);
    var _ := table.LinkToAbandonedCarts(email, cookie, host.now, host.failing, host.cartsAvailable);
    reply := ReplySuccess(contactUid);
  }

  /** With no form fields, the mappings find nothing: the attributes are left as they are. */
  lemma {:induction false} NoFieldsNoMapping(props: map<string, string>, setters: set<string>, ms: seq<Mapping>,
                                             sanitizeText: string -> string)
    ensures MappedProps(props, setters, [], ms, sanitizeText) == props
    decreases |ms|
  {
    if ms != [] {
      NoFieldsNoMapping(props, setters, ms[..|ms| - 1], sanitizeText);
    }
  }

  /** The AJAX upsert only fills a missing email; every other attribute keeps its value. */
  lemma AjaxUpsertOnlyFillsEmail(props: map<string, string>, setters: set<string>, email: string, ms: seq<Mapping>,
                                 sanitizeText: string -> string)
    ensures Upserted(props, setters, email, [], ms, sanitizeText) ==
            if IsEmpty(GetOr(props, "email")) then props["email" := email] else props
  {
    var withEmail := if IsEmpty(GetOr(props, "email")) then props["email" := email] else props;
    NoFieldsNoMapping(withEmail, setters, ms, sanitizeText);
  }
}

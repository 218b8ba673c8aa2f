# Elementor form to abandoned-cart linkage, modelled in Dafny

This project models the core of a WordPress plugin that connects Elementor Pro
form submissions to FunnelKit Automations contacts and WooCommerce abandoned
carts:

- **The server-side controller** (`includes/class-bwfan-elementor-cart-common.php`):
  - the form-id allow-list gate;
  - the choice among the form record's three field accessors;
  - `parse_field` and `extract_email_from_fields`;
  - the field-to-attribute mapping (`extract_field_value`, `update_contact_fields`);
  - the contact upsert in `create_or_update_contact`;
  - `link_to_abandoned_carts` over an in-memory table;
  - `get_tracking_cookie`, the create-cart decision, and the AJAX endpoint `ajax_set_contact_cookie`.
- **The browser fallback script** (`assets/js/frontend.js`):
  - `isValidEmail`, `getCookie` and the string `setCookie` writes;
  - `extractEmailFromForm`;
  - the guard in `setContactCookie` and the three event handlers.

Modules, one per file:

| file | module | content |
|---|---|---|
| text.dfy | `Text` | `Option`, prefix and substring tests (`strpos`, `indexOf`) |
| php.dfy | `Php` | PHP `empty()` on strings, ASCII `strtolower`, `strval` of scalars |
| form_fields.dfy | `FormFields` | field records, `parse_field`, email extraction, `extract_field_value` |
| form_gate.dfy | `FormGate` | allow-list gate, field accessor precedence |
| contacts.dfy | `Contacts` | the `Contact` class, mapping application, the upsert |
| cart_link.dfy | `CartLink` | the `CartTable` class, candidate selection, row updates, tracking cookie, create-cart decision |
| controller.dfy | `Controller` | the submission hook and the AJAX endpoint |
| cookies.dfy | `BrowserCookies` | `getCookie`, `setCookie` strings, `split`/`join` |
| frontend.dfy | `Frontend` | email regex, form extraction, event-handler guards |

Stateful parts are imperative Dafny:
- `parse_field` fills its record member by member.
- The contact is a class whose `props` map changes only through `Set` (the `set_<attr>` setters) and whose `Save` counts persists.
- The abandoned-cart table is a class holding `rows: seq<CartRow>`. `LinkToAbandonedCarts` selects the carts and hands them to `UpdateCarts`, whose loop updates the rows in place.

Each method is proved against a specification function (`Parsed`, `MappedProps`, `Upserted`, `LinkedTable`, `LinkedCount`). The properties the source promises are lemmas about those functions.

Host functions the code calls but does not define are parameters of the model:
- `is_email`, `sanitize_email` and `sanitize_text_field`;
- the contact factory's result;
- the outcome of the nonce check;
- the time;
- the set of rows whose `UPDATE` fails.

Notes on what the code does, as opposed to what its structure suggests:
- `extract_email_from_fields` checks the declared type, then the id/name patterns, then the bare value. Every one of these branches also requires `is_email` on the same value, so the result is simply the sanitised value of the first field whose value validates. A field declared `type=email` does not win over an earlier field holding a valid address, and the configured pattern list never changes the result (`ExtractEmailIsFirstValid`, `PatternsNeverMatter`, `TypedEmailFieldCanLose`). The model follows the code.
- `extract_field_value` scans fields first and patterns second. A "Last name" field placed before the "First name" field therefore supplies `first_name` through the generic pattern `name` (`FieldOrderBeatsPatternOrder`).
- The email backfill at the end of `link_to_abandoned_carts` runs only when `$carts` is empty. That case has already returned at line 468, so the block is unreachable. The method proves this with `assert false` in that branch. `BackfillFindsNothingNew` shows that the block would find nothing new even if it were reachable.
- The browser's `extractEmailFromForm` examines only the first input each selector picks. Whatever it returns is the value of the first typed email input or of the first input some fallback pattern selects (`ExtractedIsFirstCandidate`). So a valid address in a second input is skipped when every pattern that selects it selects an earlier input first (`LaterValidEmailIgnored`). It is still found through a pattern that selects it first (`LaterInputWinsThroughOtherPattern`).
- `create_or_update_contact` resolves a WordPress user id (`ResolveUserId`) and hands it, with the email, to the contact factory. The factory is not part of this model: its result is the `found` parameter, so the resolved id only documents the factory's argument.

## Model

| member | source | states |
|---|---|---|
| Php.Lower | includes/class-bwfan-elementor-cart-common.php:266-268 | `strtolower` yields an all-lower-case string of the same length |
| Php.LowerFixes | includes/class-bwfan-elementor-cart-common.php:266-268 | lower-casing leaves a string unchanged exactly when it is already lower case |
| Php.DecimalStringInjective | includes/class-bwfan-elementor-cart-common.php:142-143 | `strval` of integers is injective: equal decimal strings mean equal integers |
| Php.NatStringInjective | includes/class-bwfan-elementor-cart-common.php:142-143 | the digit string of a natural number determines the number |
| FormGate.FormAdmitted | includes/class-bwfan-elementor-cart-common.php:138-149 | a non-array or empty allow-list admits every form; otherwise a form is admitted exactly when `strval` of its id equals `strval` of some listed id |
| FormGate.IntIdsGate | includes/class-bwfan-elementor-cart-common.php:138-149 | with integer ids on both sides, admission is exactly integer membership, in both directions |
| FormGate.StringAndIntIdsMix | includes/class-bwfan-elementor-cart-common.php:142-145 | form id 42 is admitted by a listed "42" and refused by a listed "042" |
| FormGate.SubmittedFields | includes/class-bwfan-elementor-cart-common.php:151-171 | the handler goes on only with a non-empty array: the items of the first of `get('fields')`, `get_formatted_data()`, `->fields` that is not PHP-empty, and only when that result is an array |
| FormGate.FirstNonEmpty | includes/class-bwfan-elementor-cart-common.php:155-167 | the kept result is PHP-empty exactly when all three are; a non-empty `get('fields')` is kept; `get_formatted_data()` is kept when it is non-empty and `get('fields')` was empty; the property is kept when both earlier ones were empty |
| FormGate.EarlierAccessorShadows | includes/class-bwfan-elementor-cart-common.php:155-171 | a non-empty non-array from `get('fields')` stops the handler; the later accessors are never tried |
| FormFields.Parsed | includes/class-bwfan-elementor-cart-common.php:257-281 | id, name and type are lower case; array and object entries give the lower-cased id and type when set and "" otherwise, the lower-cased title when set, else the lower-cased name when set, else "", and the value unchanged; a string key with an email-valued string gives the lower-cased key as id and the string as value; any other entry gives the blank record |
| FormFields.ParseField | includes/class-bwfan-elementor-cart-common.php:257-281 | filling the blank record member by member yields exactly the normalised record |
| FormFields.ParseFieldIdempotent | includes/class-bwfan-elementor-cart-common.php:257-281 | normalising an already normalised record, given as an array entry, returns it unchanged |
| FormFields.PatternScan | includes/class-bwfan-elementor-cart-common.php:233-239 | the pattern loop returns the field's value exactly when its value validates and some pattern occurs in its id or name |
| FormFields.ExtractEmail | includes/class-bwfan-elementor-cart-common.php:209-248 | the extractor returns false exactly when no field value passes `is_email`; when the first field's value passes, its sanitised value is returned |
| FormFields.FirstValidEmailMeaning | includes/class-bwfan-elementor-cart-common.php:220-247 | the reference result is false exactly when no field value validates, and otherwise is the sanitised value of the first field whose value validates |
| FormFields.ExtractEmailIsFirstValid | includes/class-bwfan-elementor-cart-common.php:209-248 | `extract_email_from_fields` equals the first-valid-value reference for every field list and pattern list |
| FormFields.PatternsNeverMatter | includes/class-bwfan-elementor-cart-common.php:210-218 | any two pattern lists give the same extracted email |
| FormFields.TypedEmailFieldCanLose | includes/class-bwfan-elementor-cart-common.php:220-245 | an earlier plain-text field with a valid value beats a later `type=email` field |
| FormFields.ValueScan | includes/class-bwfan-elementor-cart-common.php:364-370 | one field yields its value exactly when the value is not PHP-empty and some pattern occurs in its lower-cased id or title |
| FormFields.ProbeOf | includes/class-bwfan-elementor-cart-common.php:360-362 | only array entries are read: a present id or title is read lower-cased, the value is copied, absent members read as ""; any other entry reads as all "" |
| FormFields.ExtractFieldValue | includes/class-bwfan-elementor-cart-common.php:358-374 | false exactly when no field qualifies; a returned value is never PHP-empty |
| FormFields.ExtractFieldValueFirstMatch | includes/class-bwfan-elementor-cart-common.php:358-374 | the result is false exactly when no field qualifies, and otherwise is the non-empty value of the first qualifying field |
| FormFields.ExtractFieldValueIgnoresName | includes/class-bwfan-elementor-cart-common.php:360-362 | entries that differ only in their `name` member give the same result |
| FormFields.FieldOrderBeatsPatternOrder | includes/class-bwfan-elementor-cart-common.php:331-337 | with the default first-name patterns, a "Last name" field listed first supplies the first name |
| Contacts.Contact.Set | includes/class-bwfan-elementor-cart-common.php:345-347 | a setter changes exactly one attribute and does not save |
| Contacts.Contact.Save | includes/class-bwfan-elementor-cart-common.php:319 | saving leaves the attributes as they are |
| Contacts.ApplyMapping | includes/class-bwfan-elementor-cart-common.php:338-347 | one mapping only adds or changes its own attribute, and it changes it to the sanitised value exactly when the setter exists and a value is found |
| Contacts.MappedProps | includes/class-bwfan-elementor-cart-common.php:337-349 | the mappings never remove an attribute, and never change one that has no setter |
| Contacts.MappedPropsAt | includes/class-bwfan-elementor-cart-common.php:337-349 | after the mappings, an attribute holds the sanitised value its mapping found, if any; every other attribute keeps its old value or stays absent |
| Contacts.MappedValueOfOwnMapping | includes/class-bwfan-elementor-cart-common.php:337-349 | with distinct attributes, an attribute's new value comes from its own mapping, and only when the setter exists and a value is found |
| Contacts.NotMapped | includes/class-bwfan-elementor-cart-common.php:337-349 | an attribute that no mapping names is never set |
| Contacts.UpdateContactFields | includes/class-bwfan-elementor-cart-common.php:330-349 | the loop leaves the contact's attributes equal to the mappings applied in order, and does not save |
| Contacts.ResolveUserId | includes/class-bwfan-elementor-cart-common.php:295-304 | the logged-in user wins; otherwise the user registered under the email if there is one; otherwise 0; the id is non-zero exactly when one of the two sources gives a non-zero id |
| Contacts.CreateOrUpdateContact | includes/class-bwfan-elementor-cart-common.php:290-322 | without a factory or a contact nothing changes and false is returned; otherwise the contact gets the email if its email is PHP-empty, then the mappings, then exactly one save |
| Contacts.Upserted | includes/class-bwfan-elementor-cart-common.php:311-319 | after the upsert the contact has an email attribute, keeps every attribute it had, and changes none other than `email` and those with setters |
| Contacts.ExistingEmailKept | includes/class-bwfan-elementor-cart-common.php:311-314 | when no mapping targets `email`, a stored non-empty email is never overwritten |
| Contacts.MissingEmailFilled | includes/class-bwfan-elementor-cart-common.php:311-314 | when no mapping targets `email`, a PHP-empty stored email is replaced by the submitted one |
| Contacts.DefaultMappingsShape | includes/class-bwfan-elementor-cart-common.php:331-335 | the default mappings name distinct attributes, none of them `email` |
| Contacts.UpsertIdempotent | includes/class-bwfan-elementor-cart-common.php:290-349 | upserting the same submission twice gives the same attributes as once |
| CartLink.Select | includes/class-bwfan-elementor-cart-common.php:440-466 | a SELECT returns, in increasing order, exactly the positions of the active rows matching its WHERE clause |
| CartLink.Candidates | includes/class-bwfan-elementor-cart-common.php:437-470 | the chosen positions are in range, increasing, and name active rows carrying the tracking cookie or the email |
| CartLink.ChosenRows | includes/class-bwfan-elementor-cart-common.php:437-470 | a row is chosen exactly when it is active and carries the tracking cookie, if any such row exists; otherwise exactly when it is active and carries the email |
| CartLink.CookiePreferredOverEmail | includes/class-bwfan-elementor-cart-common.php:439-456 | once the cookie finds a cart, no row is chosen for its email alone |
| CartLink.CartTable.LinkToAbandonedCarts | includes/class-bwfan-elementor-cart-common.php:416-536 | without the cart class or table nothing changes and 0 is returned; otherwise the table becomes the linked table of the chosen rows, the result is the number of successful updates, row ids stay unique, and the backfill branch is unreachable |
| CartLink.CartTable.UpdateCarts | includes/class-bwfan-elementor-cart-common.php:472-505 | the update loop leaves the table equal to the linked table of the chosen rows and returns the linked count |
| CartLink.UpdateFor | includes/class-bwfan-elementor-cart-common.php:476-489 | the UPDATE sets the email exactly when it differs, the cookie exactly when it is non-empty and differs, and always the time |
| CartLink.ApplyUpdate | includes/class-bwfan-elementor-cart-common.php:491-498 | an UPDATE keeps the row's id and status, sets the time, writes the email and cookie key it names, and leaves the columns it does not name as they were |
| CartLink.LinkedTable | includes/class-bwfan-elementor-cart-common.php:472-505 | linking keeps the table's length and every row's id and status |
| CartLink.LinkedRow | includes/class-bwfan-elementor-cart-common.php:476-505 | a chosen row whose update succeeds gets the email, the cookie when it is non-empty, and the new time, and keeps its id and status; every other row is unchanged |
| CartLink.LinkedCount | includes/class-bwfan-elementor-cart-common.php:471-505 | the count never exceeds the number of chosen rows |
| CartLink.CountWithoutFailures | includes/class-bwfan-elementor-cart-common.php:501-503 | when no update fails, every chosen cart is counted |
| CartLink.CountAllFailing | includes/class-bwfan-elementor-cart-common.php:501-503 | when every update fails, the count is 0 |
| CartLink.NothingChosen | includes/class-bwfan-elementor-cart-common.php:468-470 | with no chosen row the table is unchanged and the count is 0 |
| CartLink.BackfillFindsNothingNew | includes/class-bwfan-elementor-cart-common.php:507-533 | when the cookie query found nothing, no active cookie row without an email exists either |
| CartLink.RelinkChoosesSame | includes/class-bwfan-elementor-cart-common.php:437-505 | when no UPDATE failed, linking again with the same email and cookie chooses the same rows |
| CartLink.RelinkOnlyRefreshesTime | includes/class-bwfan-elementor-cart-common.php:476-505 | when no UPDATE failed in either linking, linking twice gives the table a single linking at the later time would give |
| CartLink.TrackingCookie | includes/class-bwfan-elementor-cart-common.php:634-650 | the helper's cookie if not PHP-empty, else the session's if not PHP-empty, else "" |
| CartLink.TrackingCookieUsable | includes/class-bwfan-elementor-cart-common.php:634-650 | the tracking cookie is "" or a non-empty value taken from one of its two sources |
| CartLink.ShouldCreateCart | includes/class-bwfan-elementor-cart-common.php:194-200 | a new cart is attempted exactly when nothing was linked, WooCommerce and its cart exist, and the cart has a positive item count and is not empty |
| CartLink.NoNewCartWhenLinked | includes/class-bwfan-elementor-cart-common.php:191-200 | when carts are found and their updates succeed, no new cart is attempted |
| CartLink.NewCartDespiteFoundWhenUpdatesFail | includes/class-bwfan-elementor-cart-common.php:191-200 | when every update fails, a new cart is attempted although carts were found |
| Controller.SubmissionEmail | includes/class-bwfan-elementor-cart-common.php:128-178 | an email is carried forward only for an admitted form with a non-empty field array, and only if it is non-empty and passes `is_email` after sanitising |
| Controller.SubmissionEmailIsFirstValid | includes/class-bwfan-elementor-cart-common.php:173-178 | for an admitted form, the handler's email is the sanitised first valid field value, if that still passes |
| Controller.HandleFormSubmission | includes/class-bwfan-elementor-cart-common.php:128-201 | every early return leaves the contact and the carts unchanged; otherwise the contact is upserted, the carts are linked with the tracking cookie, and the create-cart decision is taken on the linked count |
| Controller.SetContactCookieEndpoint | includes/class-bwfan-elementor-cart-common.php:681-712 | a bad nonce or a bad email is refused with its message and changes nothing; a missing contact is refused and changes nothing; otherwise the contact is upserted with no fields, the carts are linked, and the contact's uid is returned |
| Controller.NoFieldsNoMapping | includes/class-bwfan-elementor-cart-common.php:337-349 | with no form fields, the mappings change nothing |
| Controller.AjaxUpsertOnlyFillsEmail | includes/class-bwfan-elementor-cart-common.php:695 | the endpoint's upsert only fills a missing email |
| Frontend.IsValidEmailMatchesPattern | assets/js/frontend.js:62-65 | the recogniser accepts exactly the strings `/^[^\s@]+@[^\s@]+\.[^\s@]+$/` matches |
| Frontend.ValidEmailShape | assets/js/frontend.js:62-65 | an accepted address has exactly one '@', not in first position, and no whitespace |
| Frontend.EmailAccepted | assets/js/frontend.js:62-65 | "a@b.co" is accepted |
| Frontend.EmailsRejected | assets/js/frontend.js:62-65 | "a@b", "a@.co" and "a b@c.de" are rejected |
| Frontend.IsValidEmail | assets/js/frontend.js:62-65 | an accepted address has at least five characters and does not start with '@' |
| Frontend.First | assets/js/frontend.js:72-87 | `.first()` of a selection is the first input in document order the selector matches, or none when no input matches |
| Frontend.Candidate | assets/js/frontend.js:72-75 | `.first().val()` is null exactly when no input is selected, and otherwise the value of the first selected input |
| Frontend.Hit | assets/js/frontend.js:74-90 | a selector hits exactly when the first input it selects holds an acceptable address |
| Frontend.ScanPatterns | assets/js/frontend.js:84-92 | the fallback loop returns only acceptable addresses |
| Frontend.ScanPatternsAt | assets/js/frontend.js:84-92 | the loop returns the candidate of the first pattern whose candidate is acceptable |
| Frontend.ScanPatternsNone | assets/js/frontend.js:84-94 | the loop gives null exactly when no pattern's candidate is acceptable |
| Frontend.ExtractEmailFromForm | assets/js/frontend.js:70-95 | a returned address is always non-empty and valid |
| Frontend.ExtractEmailFromFormMeaning | assets/js/frontend.js:70-95 | an acceptable first typed email input wins; the result is null exactly when neither it nor any pattern's first match is acceptable |
| Frontend.ScanPatternsSource | assets/js/frontend.js:84-92 | a result of the fallback loop is the first input some pattern selects |
| Frontend.ExtractedIsFirstCandidate | assets/js/frontend.js:70-95 | a returned address is the value of the first typed email input or of the first input some fallback pattern selects |
| Frontend.LaterValidEmailIgnored | assets/js/frontend.js:82-90 | for two inputs with id `mail`, the first holding no address, the valid address in the second is not returned (an instance) |
| Frontend.LaterInputWinsThroughOtherPattern | assets/js/frontend.js:82-90 | a later input is returned when an earlier pattern (`email`) selects it first: an input named `billing_email` after an input with id `mail` |
| Frontend.ContactCookieRequest | assets/js/frontend.js:14-27 | a request is sent exactly for a present, non-empty, valid email, with the action, that email and the nonce |
| Frontend.OnSubmitSuccess | assets/js/frontend.js:102-111 | a request from the submit handler carries the cookie action, the nonce and an acceptable address |
| Frontend.SubmitRequestsExactlyWhenExtracted | assets/js/frontend.js:102-111 | the submit handler requests the cookie exactly when extraction found an address, and for that address |
| Frontend.OnPopupHide | assets/js/frontend.js:115-125 | a popup without a form sends nothing; a request carries the cookie action, the nonce and an acceptable address |
| Frontend.PopupWithOneForm | assets/js/frontend.js:115-125 | a popup with one form behaves as that form's submission |
| Frontend.OnEmailChange | assets/js/frontend.js:128-136 | a request is sent exactly for an acceptable value while `getCookie` finds no uid or an empty one, and it is the cookie request for that value |
| Frontend.EmailChangeSkipsKnownContact | assets/js/frontend.js:128-136 | a browser holding a non-empty `_fk_contact_uid` cookie sends nothing on an email change |
| Frontend.EmailChangeRequestsForNewVisitor | assets/js/frontend.js:128-136 | without that cookie, a request is sent exactly for an acceptable value |
| Frontend.CookieWrite | assets/js/frontend.js:28-31 | the success callback writes the cookie exactly for a successful reply with a non-empty uid |
| Frontend.CookieWriteReadsBack | assets/js/frontend.js:28-31 | `getCookie` applied to the string the callback assigns to `document.cookie` returns the uid the server sent (the browser's cookie list is covered by `GetCookieRendered`) |
| BrowserCookies.Split | assets/js/frontend.js:145 | `split(';')` gives at least one piece, and no piece contains the separator |
| BrowserCookies.SplitJoin | assets/js/frontend.js:145 | splitting undoes joining when no piece contains the separator |
| BrowserCookies.TrimLeadingSpaces | assets/js/frontend.js:148-150 | the stripped piece does not start with a space |
| BrowserCookies.TrimLeadingSpacesDropsSpaces | assets/js/frontend.js:148-150 | the loop removes a run of spaces at the front and keeps the rest of the piece as it was |
| BrowserCookies.FindCookieAt | assets/js/frontend.js:146-153 | the value is the rest of the first piece that starts with `name=` after its leading spaces |
| BrowserCookies.FindCookie | assets/js/frontend.js:146-155 | null exactly when no piece starts with `name=` after its leading spaces; a `name=` further inside a piece is not matched |
| BrowserCookies.GetCookie | assets/js/frontend.js:143-156 | null exactly when no piece of `document.cookie` starts with `name=` after its leading spaces; a value found holds no ';' |
| BrowserCookies.PieceStartsWith | assets/js/frontend.js:151 | with no '=' in either name, `n=v` starts with `name=` exactly when the names are equal |
| BrowserCookies.GetCookieRendered | assets/js/frontend.js:143-156 | reading a name back from a rendered cookie list gives the value of the first pair with that name, or null |
| BrowserCookies.SetCookieString | assets/js/frontend.js:49-57 | the written string starts with `name=` and the value, `''` standing for a missing value |
| BrowserCookies.SetCookieParses | assets/js/frontend.js:49-57 | the written string splits into the pair, the optional `expires`, `path=/` and `SameSite=Lax`, and `getCookie` on it returns the value written |

## Left out

- Host lifecycle: plugin bootstrap, hook registration, dependency checks and admin notices. These are WordPress glue with no logic of their own.
- `enqueue_scripts` and nonce creation: asset plumbing.
- `set_contact_uid_cookie` and all other cookie writing (`setcookie`, the helper's `set_cookie`, `headers_sent`, the 10-year expiry): these are I/O. The contact's uid is a parameter of the AJAX endpoint.
- `create_abandoned_cart_from_wc_cart` and `generate_tracking_cookie`: they call into the abandoned-cart class, the WooCommerce session and `wp_generate_password`, none of which is visible. The model stops at the decision to call them (`ShouldCreateCart`).
- `is_email`, `sanitize_email`, `sanitize_text_field`, `wp_verify_nonce`, `wp_unslash`, `get_user_by`, `get_current_user_id` and `bwf_get_contact`: these are foreign functions, so they are parameters or inputs.
- SQL: the table is a sequence of rows.
  - `ORDER BY last_modified DESC` is not modelled. The updates to distinct rows are independent and identical, so the order changes neither the table nor the count.
  - Column comparison is exact string equality, not the database collation.
  - A NULL email is read as "".
  - The `SHOW TABLES` check and the class checks are folded into one `available` flag.
  - `current_time` is the `now` parameter.
- Concurrency: a second request updating the same rows between the SELECT and the UPDATE is not modelled.
- The unused `$uid` read in `link_to_abandoned_carts` is not modelled.
- FormFields.ProbeOf: an object entry reaching `extract_field_value` raises an error in PHP (array access on an object). The model treats it as a field that matches nothing.
- FormFields.Parsed: for an object entry under a string key, the code calls `is_email` on the object before it reaches the object branch. WordPress's `is_email` starts with `strlen`, which throws a TypeError on an object under PHP 8, so the submission handler aborts. The model parses such an entry as an object under any key.
- FormFields.Parsed: the members of a field entry are strings in the model; non-string member values are not modelled.
- Php.StrVal: form ids are PHP scalars modelled as integers, strings, booleans and null; float ids are not modelled.
- Php.Lower: `strtolower` is ASCII-only, as in PHP 8.2 and later; older locale-dependent behaviour is not modelled.
- Controller.HandleFormSubmission: the uid cookie write and the new-cart creation are not performed. The method returns the create-cart decision instead.
- Controller.SetContactCookieEndpoint: `wp_send_json_*` ends the request; the model returns the reply instead.
- Controller.SetContactCookieEndpoint: the success reply carries only the uid. The `contact_id` and the success message it also holds are not modelled.
- Contacts.CreateOrUpdateContact: the contact factory is not modelled; its result for the resolved user id and the email is the `found` parameter.
- Frontend: jQuery event wiring, the 500 ms `setTimeout`, `$.ajax` transport, console logging and the error callback are left to the environment.
- Frontend: CSS selector matching is reduced to an ordered list of the form's `input` elements. `type="email"` is an exact comparison, and an absent attribute reads as "".
- BrowserCookies.SetCookieString: `Date` and `toUTCString()` are the `utcDate` parameter. `days` is an integer, whose only falsy value is 0.
- BrowserCookies.Rendered: the browser's own ordering of `document.cookie` and the replacement of a cookie by a later one with the same name are not modelled. `GetCookieRendered` takes any list of pairs.

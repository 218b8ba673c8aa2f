/**
 * Linking a contact's email and tracking cookie to abandoned-cart rows. The
 * cart table of the automation store is held in memory as a sequence of rows;
 * which UPDATE statements fail is a parameter, and so is the current time.
 */
module CartLink {
  import opened Text
  import opened Php

  /** One row of the abandoned-carts table, reduced to the columns the linker reads or writes. */
  datatype CartRow = CartRow(id: int, email: string, cookieKey: string, status: int, lastModified: string)

  /** Status 0 and 1 are the cart states the linker may touch. */
  predicate Active(r: CartRow)
  {
    r.status == 0 || r.status == 1
  }

  /** The WHERE clauses of the two SELECT statements. */
  datatype Criterion = ByCookie(cookie: string) | ByEmail(email: string)

  predicate Matches(r: CartRow, c: Criterion)
  {
    match c
    case ByCookie(k) => r.cookieKey == k && Active(r)
    case ByEmail(e) => r.email == e && Active(r)
  }

  /** Positions, from `from` on and in table order, of the rows a SELECT returns. */
  function Select(rows: seq<CartRow>, c: Criterion, from: nat): (r: seq<nat>)
    requires from <= |rows|
    ensures forall k :: 0 <= k < |r| ==> from <= r[k] < |rows| && Matches(rows[r[k]], c)
    ensures forall i :: from <= i < |rows| && Matches(rows[i], c) ==> i in r
    ensures forall k, l :: 0 <= k < l < |r| ==> r[k] < r[l]
    decreases |rows| - from
  {
    if from == |rows| then []
    else if Matches(rows[from], c) then [from] + Select(rows, c, from + 1)
    else Select(rows, c, from + 1)
  }

  /** Carts found by the tracking cookie when there is one and it finds any, otherwise carts found by email. */
  function Candidates(rows: seq<CartRow>, email: string, cookie: string): (r: seq<nat>)
    ensures forall k :: 0 <= k < |r| ==> r[k] < |rows| && Active(rows[r[k]]) &&
                                         (rows[r[k]].cookieKey == cookie || rows[r[k]].email == email)
    ensures forall k, l :: 0 <= k < l < |r| ==> r[k] < r[l]
  {
    var byCookie := if !IsEmpty(cookie) then Select(rows, ByCookie(cookie), 0) else [];
    if byCookie != [] then byCookie else Select(rows, ByEmail(email), 0)
  }

  /** The tracking cookie finds at least one active cart. */
  predicate CookieHit(rows: seq<CartRow>, cookie: string)
  {
    !IsEmpty(cookie) && exists i :: 0 <= i < |rows| && Matches(rows[i], ByCookie(cookie))
  }

  /** The columns an UPDATE sets; `lastModified` is always present, so the update is never empty. */
  datatype RowUpdate = RowUpdate(email: Option<string>, cookieKey: Option<string>, lastModified: string)

  /** Only the columns that differ are set; an empty cookie is never written. */
  function UpdateFor(cart: CartRow, email: string, cookie: string, now: string): (u: RowUpdate)
    ensures u.lastModified == now
    ensures u.email.Some? <==> cart.email != email
    ensures u.email.Some? ==> u.email.value == email
    ensures u.cookieKey.Some? <==> !IsEmpty(cookie) && cart.cookieKey != cookie
    ensures u.cookieKey.Some? ==> u.cookieKey.value == cookie
  {
    RowUpdate(if cart.email != email then Some(email) else None,
              if !IsEmpty(cookie) && cart.cookieKey != cookie then Some(cookie) else None,
              now)
  }

  /** The row after `UPDATE … SET <u> WHERE ID = row.id`: columns the update leaves out keep their value. */
  function ApplyUpdate(row: CartRow, u: RowUpdate): (r: CartRow)
    ensures r.id == row.id && r.status == row.status && r.lastModified == u.lastModified
    ensures u.email.None? ==> r.email == row.email
    ensures u.cookieKey.None? ==> r.cookieKey == row.cookieKey
    ensures u.email.Some? ==> r.email == u.email.value
    ensures u.cookieKey.Some? ==> r.cookieKey == u.cookieKey.value
  {
    row.(email := if u.email.Some? then u.email.value else row.email,
         cookieKey := if u.cookieKey.Some? then u.cookieKey.value else row.cookieKey,
         lastModified := u.lastModified)
  }

  function Refreshed(row: CartRow, email: string, cookie: string, now: string): CartRow
  {
    ApplyUpdate(row, UpdateFor(row, email, cookie, now))
  }

  /** The table after every chosen row whose UPDATE succeeds has been refreshed. */
  function LinkedTable(rows: seq<CartRow>, chosen: seq<nat>, email: string, cookie: string, now: string,
                       failing: set<int>): (r: seq<CartRow>)
    ensures |r| == |rows|
    ensures forall i :: 0 <= i < |rows| ==> r[i].id == rows[i].id && r[i].status == rows[i].status
  {
    seq(|rows|, i requires 0 <= i < |rows| =>
      if i in chosen && rows[i].id !in failing then Refreshed(rows[i], email, cookie, now) else rows[i])
  }

  /** How many chosen rows were updated without a database error (a position past the table updates nothing). */
  function LinkedCount(rows: seq<CartRow>, chosen: seq<nat>, failing: set<int>): (n: nat)
    ensures n <= |chosen|
    decreases |chosen|
  {
    if chosen == [] then 0
    else
      var pos := chosen[|chosen| - 1];
      LinkedCount(rows, chosen[..|chosen| - 1], failing) +
      (if pos < |rows| && rows[pos].id !in failing then 1 else 0)
  }

  /** Positions in range and strictly increasing, as every SELECT result is. */
  predicate Ordered(rows: seq<CartRow>, chosen: seq<nat>)
  {
    (forall k :: 0 <= k < |chosen| ==> chosen[k] < |rows|) &&
    (forall k, l :: 0 <= k < l < |chosen| ==> chosen[k] < chosen[l])
  }

  /**
   * One turn of the update loop: the next chosen row is still as it was read, and the table and
   * count after refreshing it (unless its UPDATE fails) are those of one more chosen row.
   */
  lemma LinkStep(snapshot: seq<CartRow>, carts: seq<nat>, k: nat, email: string, cookie: string, now: string,
                 failing: set<int>, rows: seq<CartRow>, linked: nat)
    requires Ordered(snapshot, carts) && k < |carts|
    requires rows == LinkedTable(snapshot, carts[..k], email, cookie, now, failing)
    requires linked == LinkedCount(snapshot, carts[..k], failing)
    ensures var pos := carts[k];
            var cart := snapshot[pos];
            && pos < |rows| && rows[pos] == cart
            && LinkedTable(snapshot, carts[..k + 1], email, cookie, now, failing) ==
               (if cart.id !in failing then rows[pos := ApplyUpdate(cart, UpdateFor(cart, email, cookie, now))] else rows)
            && LinkedCount(snapshot, carts[..k + 1], failing) == (if cart.id !in failing then linked + 1 else linked)
  {
    var pos := carts[k];
    var cart := snapshot[pos];
    assert carts[..k + 1] == carts[..k] + [pos];
    assert pos !in carts[..k];
    TableStep(snapshot, carts[..k], pos, email, cookie, now, failing);
    assert LinkedCount(snapshot, carts[..k + 1], failing) == (if cart.id !in failing then linked + 1 else linked) by {
      assert carts[..k + 1][..k] == carts[..k];
    }
  }

  /** Adding one position not yet chosen refreshes that row alone (unless its UPDATE fails). */
  lemma TableStep(snapshot: seq<CartRow>, done: seq<nat>, pos: nat, email: string, cookie: string, now: string,
                  failing: set<int>)
    requires pos < |snapshot| && pos !in done
    ensures var before := LinkedTable(snapshot, done, email, cookie, now, failing);
            var cart := snapshot[pos];
            && before[pos] == cart
            && LinkedTable(snapshot, done + [pos], email, cookie, now, failing) ==
               (if cart.id !in failing then before[pos := ApplyUpdate(cart, UpdateFor(cart, email, cookie, now))] else before)
  {
    var before := LinkedTable(snapshot, done, email, cookie, now, failing);
    var after := LinkedTable(snapshot, done + [pos], email, cookie, now, failing);
    var cart := snapshot[pos];
    var expected := if cart.id !in failing then before[pos := Refreshed(cart, email, cookie, now)] else before;
    forall i | 0 <= i < |snapshot|
      ensures after[i] == expected[i]
    {
      assert i in done + [pos] <==> i in done || i == pos;
    }
  }

  /** With no candidates the table is untouched and the count is 0. */
  lemma NothingChosen(rows: seq<CartRow>, email: string, cookie: string, now: string, failing: set<int>)
    ensures LinkedTable(rows, [], email, cookie, now, failing) == rows
    ensures LinkedCount(rows, [], failing) == 0
  {
    assert forall i :: 0 <= i < |rows| ==> LinkedTable(rows, [], email, cookie, now, failing)[i] == rows[i];
  }

  /** The cart table, updated in place by the linker. */
  class CartTable {
    var rows: seq<CartRow>

    /** ID is the table's primary key. */
    ghost predicate Valid()
      reads this
    {
      forall i, j :: 0 <= i < j < |rows| ==> rows[i].id != rows[j].id
    }

    constructor (rows0: seq<CartRow>)
      requires forall i, j :: 0 <= i < j < |rows0| ==> rows0[i].id != rows0[j].id
      ensures Valid() && rows == rows0
    {
      rows := rows0;
    }

    /**
     * The update loop of `link_to_abandoned_carts`: each chosen cart, in order, gets an UPDATE
     * of the columns that differ plus the time; the count is of the UPDATEs that succeed.
     */
    method UpdateCarts(carts: seq<nat>, email: string, cookie: string, now: string, failing: set<int>)
      returns (linked: nat)
      requires Ordered(rows, carts)
      modifies this
      ensures rows == LinkedTable(old(rows), carts, email, cookie, now, failing)
      ensures linked == LinkedCount(old(rows), carts, failing)
    {
      var snapshot := rows;
      linked := 0;
      var k := 0;
      NothingChosen(snapshot, email, cookie, now, failing);
      while k < |carts|
        invariant 0 <= k <= |carts|
        invariant rows == LinkedTable(snapshot, carts[..k], email, cookie, now, failing)
        invariant linked == LinkedCount(snapshot, carts[..k], failing)
      {
        var pos := carts[k];
        var cart := snapshot[pos];
        var update := UpdateFor(cart, email, cookie, now);
        LinkStep(snapshot, carts, k, email, cookie, now, failing, rows, linked);
        if cart.id !in failing {
          rows := rows[pos := ApplyUpdate(cart, update)];
          linked := linked + 1;
        }
        k := k + 1;
      }
      assert carts[..k] == carts;
    }

    /**
     * `link_to_abandoned_carts`. `available` is false when the cart class, its instance or the
     * table is missing; `failing` holds the IDs whose UPDATE returns an error.
     */
    method LinkToAbandonedCarts(email: string, cookie: string, now: string, failing: set<int>, available: bool)
      returns (linked: nat)
      requires Valid()
      modifies this
      ensures Valid()
      ensures !available ==> linked == 0 && rows == old(rows)
      ensures available ==>
                var chosen := Candidates(old(rows), email, cookie);
                rows == LinkedTable(old(rows), chosen, email, cookie, now, failing) &&
                linked == LinkedCount(old(rows), chosen, failing)
    {
      if !available {
        return 0;
      }
      var carts: seq<nat> := [];
      if !IsEmpty(cookie) {
        var cookieCarts := Select(rows, ByCookie(cookie), 0);
        if cookieCarts != [] {
          carts := cookieCarts;
        }
      }
      if carts == [] {
        var emailCarts := Select(rows, ByEmail(email), 0);
        if emailCarts != [] {
          carts := emailCarts;
        }
      }
      if carts == [] {
        NothingChosen(rows, email, cookie, now, failing);
        return 0;
      }
      assert carts == Candidates(rows, email, cookie);
      linked := UpdateCarts(carts, email, cookie, now, failing);
      // The email backfill for cookie-matched carts runs only when no cart was found,
      // and that case has already returned.
      if !IsEmpty(cookie) && carts == [] {
        assert false;
      }
    }
  }

  /** The candidates are the result of one SELECT: by cookie when the cookie finds a cart, else by email. */
  lemma CandidatesByCriterion(rows: seq<CartRow>, email: string, cookie: string)
    ensures Candidates(rows, email, cookie) ==
            Select(rows, if CookieHit(rows, cookie) then ByCookie(cookie) else ByEmail(email), 0)
  {
    var byCookie := Select(rows, ByCookie(cookie), 0);
    if CookieHit(rows, cookie) {
      var i :| 0 <= i < |rows| && Matches(rows[i], ByCookie(cookie));
      assert i in byCookie;
    } else if byCookie != [] {
      assert Matches(rows[byCookie[0]], ByCookie(cookie));
    }
  }

  /** The rows chosen are exactly the active rows carrying the cookie when it finds any, else the active rows carrying the email. */
  lemma ChosenRows(rows: seq<CartRow>, email: string, cookie: string)
    ensures forall i :: 0 <= i < |rows| ==>
              (i in Candidates(rows, email, cookie) <==>
               Matches(rows[i], if CookieHit(rows, cookie) then ByCookie(cookie) else ByEmail(email)))
  {
    CandidatesByCriterion(rows, email, cookie);
  }

  /** A cart found by the cookie is preferred: then no row is chosen for its email alone. */
  lemma CookiePreferredOverEmail(rows: seq<CartRow>, email: string, cookie: string, i: nat)
    requires i < |rows| && !IsEmpty(cookie) && Matches(rows[i], ByCookie(cookie))
    ensures forall k :: 0 <= k < |rows| && k in Candidates(rows, email, cookie) ==> rows[k].cookieKey == cookie
  {
    ChosenRows(rows, email, cookie);
  }

  /** What linking does to each row: chosen rows whose UPDATE succeeds get the email, the cookie if any, and the new time. */
  lemma LinkedRow(rows: seq<CartRow>, chosen: seq<nat>, email: string, cookie: string, now: string,
                  failing: set<int>, i: nat)
    requires i < |rows|
    ensures var r := LinkedTable(rows, chosen, email, cookie, now, failing)[i];
            if i in chosen && rows[i].id !in failing then
              && r.email == email
              && r.cookieKey == (if IsEmpty(cookie) then rows[i].cookieKey else cookie)
              && r.lastModified == now
              && r.id == rows[i].id && r.status == rows[i].status
            else r == rows[i]
  {
  }

  /** When no UPDATE fails, every chosen cart is counted. */
  lemma {:induction false} CountWithoutFailures(rows: seq<CartRow>, chosen: seq<nat>)
    requires forall k :: 0 <= k < |chosen| ==> chosen[k] < |rows|
    ensures LinkedCount(rows, chosen, {}) == |chosen|
    decreases |chosen|
  {
    if chosen != [] {
      CountWithoutFailures(rows, chosen[..|chosen| - 1]);
    }
  }

  /** When every chosen cart's UPDATE fails, the count is 0 although carts were found. */
  lemma {:induction false} CountAllFailing(rows: seq<CartRow>, chosen: seq<nat>, failing: set<int>)
    requires forall k :: 0 <= k < |chosen| ==> chosen[k] < |rows| && rows[chosen[k]].id in failing
    ensures LinkedCount(rows, chosen, failing) == 0
    decreases |chosen|
  {
    if chosen != [] {
      CountAllFailing(rows, chosen[..|chosen| - 1], failing);
    }
  }

  /**
   * The email backfill would be redundant even if it were reachable: a cookie-matched
   * active row with no email is already among the cookie candidates.
   */
  lemma BackfillFindsNothingNew(rows: seq<CartRow>, email: string, cookie: string)
    requires !IsEmpty(cookie) && Candidates(rows, email, cookie) == []
    ensures forall i :: 0 <= i < |rows| ==> !(rows[i].cookieKey == cookie && rows[i].email == "" && Active(rows[i]))
  {
  }

  /** Two SELECTs whose WHERE clauses agree row by row return the same positions. */
  lemma {:induction false} SelectAgree(rows: seq<CartRow>, c: Criterion, rows': seq<CartRow>, c': Criterion, from: nat)
    requires |rows| == |rows'| && from <= |rows|
    requires forall i :: from <= i < |rows| ==> (Matches(rows[i], c) <==> Matches(rows'[i], c'))
    ensures Select(rows, c, from) == Select(rows', c', from)
    decreases |rows| - from
  {
    if from < |rows| {
      SelectAgree(rows, c, rows', c', from + 1);
    }
  }

  /** Linking again with the same email and cookie chooses the same rows. */
  lemma RelinkChoosesSame(rows: seq<CartRow>, email: string, cookie: string, now: string)
    ensures var chosen := Candidates(rows, email, cookie);
            Candidates(LinkedTable(rows, chosen, email, cookie, now, {}), email, cookie) == chosen
  {
    var chosen := Candidates(rows, email, cookie);
    var after := LinkedTable(rows, chosen, email, cookie, now, {});
    var crit := if CookieHit(rows, cookie) then ByCookie(cookie) else ByEmail(email);
    CandidatesByCriterion(rows, email, cookie);
    ChosenRows(rows, email, cookie);
    if chosen == [] {
      assert after == rows by {
        assert forall i :: 0 <= i < |rows| ==> after[i] == rows[i];
      }
    } else if !IsEmpty(cookie) {
      assert forall i :: 0 <= i < |rows| ==> (Matches(rows[i], crit) <==> Matches(after[i], ByCookie(cookie)));
      SelectAgree(rows, crit, after, ByCookie(cookie), 0);
      assert Candidates(after, email, cookie) == Select(after, ByCookie(cookie), 0);
    } else {
      assert crit == ByEmail(email);
      assert forall i :: 0 <= i < |rows| ==> (Matches(rows[i], ByEmail(email)) <==> Matches(after[i], ByEmail(email)));
      SelectAgree(rows, ByEmail(email), after, ByEmail(email), 0);
      assert Candidates(after, email, cookie) == Select(after, ByEmail(email), 0);
    }
  }

  /** Linking twice in a row leaves the table as one linking at the later time would. */
  lemma RelinkOnlyRefreshesTime(rows: seq<CartRow>, email: string, cookie: string, now1: string, now2: string)
    ensures var chosen := Candidates(rows, email, cookie);
            var once := LinkedTable(rows, chosen, email, cookie, now1, {});
            LinkedTable(once, Candidates(once, email, cookie), email, cookie, now2, {}) ==
            LinkedTable(rows, chosen, email, cookie, now2, {})
  {
    RelinkChoosesSame(rows, email, cookie, now1);
  }

  /** `get_tracking_cookie`: the helper's `bwfan_visitor` cookie, else the session's, else "". None is a missing helper or session. */
  function TrackingCookie(helper: Option<string>, session: Option<string>): (c: string)
    ensures helper.Some? && !IsEmpty(helper.value) ==> c == helper.value
    ensures (helper.None? || IsEmpty(helper.value)) && session.Some? && !IsEmpty(session.value) ==> c == session.value
    ensures (helper.None? || IsEmpty(helper.value)) && (session.None? || IsEmpty(session.value)) ==> c == ""
  {
    if helper.Some? && !IsEmpty(helper.value) then helper.value
    else if session.Some? && !IsEmpty(session.value) then session.value
    else ""
  }

  /** The tracking cookie is either "" or a usable value taken from one of its two sources; never the PHP-empty "0". */
  lemma TrackingCookieUsable(helper: Option<string>, session: Option<string>)
    ensures var c := TrackingCookie(helper, session);
            (c == "" || !IsEmpty(c)) && (c != "" ==> helper == Some(c) || session == Some(c))
  {
  }

  /** The live shopping cart: its item count and whether it reports itself empty. */
  datatype LiveCart = LiveCart(itemCount: int, isEmpty: bool)

  /** A new abandoned cart is attempted only when nothing was linked and the live cart holds items. */
  function ShouldCreateCart(linked: nat, wooActive: bool, live: Option<LiveCart>): (create: bool)
    ensures create <==> linked == 0 && wooActive && live.Some? && live.value.itemCount > 0 && !live.value.isEmpty
  {
    if linked == 0 && wooActive && live.Some? then
      live.value.itemCount > 0 && !live.value.isEmpty
    else false
  }

  /** When some cart was found and its UPDATE succeeded, no new cart is created. */
  lemma NoNewCartWhenLinked(rows: seq<CartRow>, email: string, cookie: string, wooActive: bool, live: Option<LiveCart>)
    requires Candidates(rows, email, cookie) != []
    ensures !ShouldCreateCart(LinkedCount(rows, Candidates(rows, email, cookie), {}), wooActive, live)
  {
    CountWithoutFailures(rows, Candidates(rows, email, cookie));
  }

  /** When every UPDATE fails, a new cart is attempted even though existing carts were found. */
  lemma NewCartDespiteFoundWhenUpdatesFail(rows: seq<CartRow>, email: string, cookie: string, failing: set<int>,
                                           live: LiveCart)
    requires forall k :: 0 <= k < |Candidates(rows, email, cookie)| ==>
               rows[Candidates(rows, email, cookie)[k]].id in failing
    requires live.itemCount > 0 && !live.isEmpty
    ensures ShouldCreateCart(LinkedCount(rows, Candidates(rows, email, cookie), failing), true, Some(live))
  {
    CountAllFailing(rows, Candidates(rows, email, cookie), failing);
  }
}

/**
 * The `user_subscriptions` table of api.php and what is derived from it.
 * Dates are day numbers (days since the Unix epoch); a DATE column read as
 * a time means midnight at the start of that day, so `end_date > NOW()` is
 * `endDate * SecondsPerDay > now` with `now` in seconds.
 */
module Subscriptions {
  import opened Php
  import Config
  import Payments

  const SecondsPerDay: int := 86400

  /** `date('Y-m-d')`: the day number of the instant `now`. */
  function Today(now: int): (d: int)
    ensures d * SecondsPerDay <= now < (d + 1) * SecondsPerDay
  {
    now / SecondsPerDay
  }

  /** A row of `user_subscriptions`. Nullable columns are options. */
  datatype Subscription = Subscription(
    id: int,
    username: Option<string>,
    userUid: Option<string>,
    subscriptionType: Option<string>,
    startDate: int,
    endDate: int,
    isActive: bool,
    status: string,
    paymentId: Option<string>,
    transactionId: Option<string>,
    notes: Option<string>,
    updatedAt: Option<int>)

  /** `is_active` and an end date still ahead of `now`. */
  predicate Live(s: Subscription, now: int) {
    s.isActive && s.endDate * SecondsPerDay > now
  }

  predicate Owned(s: Subscription, username: string) {
    s.username == Some(username)
  }

  /** `SELECT id ... WHERE username = ? AND is_active = 1 AND end_date > NOW()` finds a row. */
  predicate HasLive(subs: seq<Subscription>, username: string, now: int) {
    exists i :: 0 <= i < |subs| && Owned(subs[i], username) && Live(subs[i], now)
  }

  // ---------------------------------------------------------------------
  // getSubscriptions
  // ---------------------------------------------------------------------

  /** The `active` count of `getSubscriptions`. */
  function CountLive(subs: seq<Subscription>, now: int): (n: nat)
    ensures n <= |subs|
    ensures n > 0 <==> exists i :: 0 <= i < |subs| && Live(subs[i], now)
  {
    if subs == [] then 0
    else
      var init := subs[..|subs| - 1];
      var n0 := CountLive(init, now);
      assert forall i :: 0 <= i < |init| ==> init[i] == subs[i];
      if Live(subs[|subs| - 1], now) then n0 + 1 else n0
  }

  /** Rows only ever leave the count as time passes; none enters it. */
  lemma {:induction false} CountLiveFalls(subs: seq<Subscription>, t1: int, t2: int)
    requires t1 <= t2
    ensures CountLive(subs, t2) <= CountLive(subs, t1)
  {
    if subs != [] {
      CountLiveFalls(subs[..|subs| - 1], t1, t2);
    }
  }

  // ---------------------------------------------------------------------
  // getSubscriptionStatus
  // ---------------------------------------------------------------------

  /** `WHERE username = ? AND is_active = 1`. */
  predicate ActiveOf(s: Subscription, username: string) {
    Owned(s, username) && s.isActive
  }

  /**
   * `... ORDER BY end_date DESC LIMIT 1`: an active row of the user with the
   * latest end date (the earliest such row among ties).
   */
  function Latest(subs: seq<Subscription>, username: string): (r: Option<Subscription>)
    ensures r.None? <==> forall i :: 0 <= i < |subs| ==> !ActiveOf(subs[i], username)
    ensures r.Some? ==> r.value in subs && ActiveOf(r.value, username)
    ensures r.Some? ==>
      forall i :: 0 <= i < |subs| && ActiveOf(subs[i], username) ==> subs[i].endDate <= r.value.endDate
  {
    if subs == [] then None
    else
      var last := subs[|subs| - 1];
      var best := Latest(subs[..|subs| - 1], username);
      if ActiveOf(last, username) && (best.None? || best.value.endDate < last.endDate)
      then Some(last)
      else best
  }

  /** The `subscription` object of the response, with the derived fields. */
  datatype Shown = Shown(row: Subscription, daysRemaining: int, isExpired: bool, status: string)

  datatype StatusReply = StatusReply(hasActiveSubscription: bool, subscription: Option<Shown>)

  /** `DateTime::diff(...)->days`: whole days between the end date and now, either way round. */
  function DaysBetween(endDate: int, now: int): (d: nat)
    ensures var gap := if endDate * SecondsPerDay >= now then endDate * SecondsPerDay - now
                       else now - endDate * SecondsPerDay;
      d * SecondsPerDay <= gap < (d + 1) * SecondsPerDay
  {
    var gap := endDate * SecondsPerDay - now;
    (if gap >= 0 then gap else -gap) / SecondsPerDay
  }

  /**
   * `getSubscriptionStatus`: reports a subscription exactly when the user
   * has an active row; it is current exactly when some active row of the
   * user ends after `now`. Since the query keeps only active rows, the
   * status is 'expired' or 'active', never 'inactive'. The row shown is the
   * user's latest-ending active row, and `daysRemaining` is the whole number
   * of days between its end date and now, in either direction: for an
   * expired row it counts the days SINCE expiry.
   */
  function StatusOf(subs: seq<Subscription>, username: string, now: int): (r: StatusReply)
    ensures r.subscription.None? <==> forall i :: 0 <= i < |subs| ==> !ActiveOf(subs[i], username)
    ensures r.hasActiveSubscription <==> HasLive(subs, username, now)
    ensures r.subscription.Some? ==>
      && Latest(subs, username).Some?
      && r.subscription.value.row == Latest(subs, username).value
      && r.subscription.value.isExpired == (r.subscription.value.row.endDate * SecondsPerDay <= now)
      && r.hasActiveSubscription == !r.subscription.value.isExpired
      && r.subscription.value.status == (if r.subscription.value.isExpired then "expired" else "active")
      && r.subscription.value.daysRemaining == DaysBetween(r.subscription.value.row.endDate, now)
      && r.subscription.value.daysRemaining >= 0
  {
    match Latest(subs, username)
    case None => StatusReply(false, None)
    case Some(s) =>
      var expired := s.endDate * SecondsPerDay <= now;
      var days := DaysBetween(s.endDate, now);
      var shown := Shown(s, if days > 0 then days else 0, expired,
                         if expired then "expired" else if s.isActive then "active" else "inactive");
      LatestDecidesLive(subs, username, now);
      StatusReply(!expired, Some(shown))
  }

  /**
   * For an expired subscription the reported `daysRemaining` is not 0 but
   * the whole number of days since the end date passed.
   */
  lemma ExpiredShowsDaysSince(subs: seq<Subscription>, username: string, now: int)
    requires StatusOf(subs, username, now).subscription.Some?
    requires StatusOf(subs, username, now).subscription.value.isExpired
    ensures var shown := StatusOf(subs, username, now).subscription.value;
      shown.daysRemaining == (now - shown.row.endDate * SecondsPerDay) / SecondsPerDay
  {
    var shown := StatusOf(subs, username, now).subscription.value;
    var gap := now - shown.row.endDate * SecondsPerDay;
    var d := shown.daysRemaining;
    assert d * SecondsPerDay <= gap < (d + 1) * SecondsPerDay;
    DivIsFloor(gap, d);
  }

  /** A row that ended at the start of day 1, read at the start of day 10, shows 9 days. */
  lemma ExpiredExample(s: Subscription)
    requires s.username == Some("alice") && s.isActive && s.endDate == 1
    ensures StatusOf([s], "alice", 10 * SecondsPerDay).subscription == Some(Shown(s, 9, true, "expired"))
    ensures !StatusOf([s], "alice", 10 * SecondsPerDay).hasActiveSubscription
  {
    assert Latest([s], "alice") == Some(s);
  }

  /** The quotient is the unique `d` with `d * 86400 <= gap < (d + 1) * 86400`. */
  lemma DivIsFloor(gap: int, d: int)
    requires d * SecondsPerDay <= gap < (d + 1) * SecondsPerDay
    ensures gap / SecondsPerDay == d
  {
  }

  /** The user's latest-ending active row is current exactly when any active row of theirs is. */
  lemma LatestDecidesLive(subs: seq<Subscription>, username: string, now: int)
    requires Latest(subs, username).Some?
    ensures Live(Latest(subs, username).value, now) <==> HasLive(subs, username, now)
  {
    var s := Latest(subs, username).value;
    if HasLive(subs, username, now) {
      var i :| 0 <= i < |subs| && Owned(subs[i], username) && Live(subs[i], now);
      assert ActiveOf(subs[i], username);
    }
    if Live(s, now) {
      var i :| 0 <= i < |subs| && subs[i] == s;
      assert Owned(subs[i], username) && Live(subs[i], now);
    }
  }

  // ---------------------------------------------------------------------
  // completeSubscriptionPayment, createTestSubscription,
  // createSubscriptionFromPayment
  // ---------------------------------------------------------------------

  /** The row `completeSubscriptionPayment` inserts when the user has no current subscription. */
  function PaidRow(id: int, username: string, userUid: string, paymentId: string, txId: string, today: int)
    : (s: Subscription)
    ensures s.isActive && s.status == "active" && s.subscriptionType == Some("monthly")
    ensures s.startDate == today && s.endDate == today + 30
    ensures s.username == Some(username) && s.userUid == Some(userUid)
    ensures s.paymentId == Some(paymentId) && s.transactionId == Some(txId)
  {
    Subscription(id, Some(username), Some(userUid), Some("monthly"), today, today + 30, true, "active",
                 Some(paymentId), Some(txId), None, None)
  }

  /** The row `createTestSubscription` inserts. */
  function TestRow(id: int, username: string, today: int): (s: Subscription)
    ensures s.isActive && s.status == "active" && s.subscriptionType == Some("monthly")
    ensures s.startDate == today && s.endDate == today + 30
    ensures s.username == Some(username) && s.userUid.None? && s.notes == Some("Test subscription")
  {
    Subscription(id, Some(username), None, Some("monthly"), today, today + 30, true, "active",
                 None, None, Some("Test subscription"), None)
  }

  /**
   * The row `createSubscriptionFromPayment` inserts for a completed
   * subscription payment; the user comes from the payment row (possibly NULL).
   */
  function FromPaymentRow(id: int, paymentId: string, p: Payments.Payment, today: int): (s: Subscription)
    ensures s.isActive && s.status == "active" && s.subscriptionType.None?
    ensures s.startDate == today && s.endDate == today + Config.SubscriptionDurationDays
    ensures s.username == p.username && s.userUid == p.userUid && s.paymentId == Some(paymentId)
  {
    Subscription(id, p.username, p.userUid, None, today, today + Config.SubscriptionDurationDays, true, "active",
                 Some(paymentId), None, None, None)
  }

  /** A freshly inserted 30-day row is live at the moment it is created. */
  lemma FreshRowLive(s: Subscription, now: int)
    requires s.isActive && s.endDate == Today(now) + 30
    ensures Live(s, now)
  {
  }

  /**
   * `UPDATE ... SET end_date = DATE_ADD(end_date, INTERVAL 30 DAY), payment_id
   * = ?, transaction_id = ? WHERE username = ? AND is_active = 1`: every
   * active row of the user, expired ones included, is pushed 30 days past
   * its own end date.
   */
  function Extended(s: Subscription, username: string, paymentId: string, txId: string): Subscription {
    if ActiveOf(s, username)
    then s.(endDate := s.endDate + 30, paymentId := Some(paymentId), transactionId := Some(txId))
    else s
  }

  function Extend(subs: seq<Subscription>, username: string, paymentId: string, txId: string)
    : (r: seq<Subscription>)
    ensures |r| == |subs|
    ensures forall i :: 0 <= i < |subs| ==> r[i].id == subs[i].id
    ensures forall i :: 0 <= i < |subs| && !ActiveOf(subs[i], username) ==> r[i] == subs[i]
    ensures forall i :: 0 <= i < |subs| && ActiveOf(subs[i], username) ==>
      ActiveOf(r[i], username) && r[i].endDate == subs[i].endDate + 30
  {
    seq(|subs|, i requires 0 <= i < |subs| => Extended(subs[i], username, paymentId, txId))
  }

  /** The table's auto-increment ids: no row is ever deleted, so row k has id k + 1. */
  predicate Numbered(subs: seq<Subscription>) {
    forall k :: 0 <= k < |subs| ==> subs[k].id == k + 1
  }

  /** Extending and inserting with the next id keep the ids consecutive. */
  lemma ExtendKeepsNumbered(subs: seq<Subscription>, username: string, paymentId: string, txId: string,
                            s: Subscription)
    requires Numbered(subs)
    ensures Numbered(Extend(subs, username, paymentId, txId))
    ensures s.id == |subs| + 1 ==> Numbered(subs + [s])
  {
    if s.id == |subs| + 1 {
      var all := subs + [s];
      forall k | 0 <= k < |all|
        ensures all[k].id == k + 1
      {
        if k < |subs| {
          assert all[k] == subs[k];
        }
      }
    }
  }

  /** The table after `completeSubscriptionPayment` (the id is the next auto-increment value). */
  function AfterPayment(subs: seq<Subscription>, username: string, userUid: string, paymentId: string,
                        txId: string, now: int): (r: seq<Subscription>)
    ensures HasLive(subs, username, now) ==> r == Extend(subs, username, paymentId, txId)
    ensures !HasLive(subs, username, now) ==>
      r == subs + [PaidRow(|subs| + 1, username, userUid, paymentId, txId, Today(now))]
  {
    if HasLive(subs, username, now) then Extend(subs, username, paymentId, txId)
    else subs + [PaidRow(|subs| + 1, username, userUid, paymentId, txId, Today(now))]
  }

  /**
   * Extension starts from each row's own end date, not from today: a row
   * that is live gets exactly 30 more days, and every other row of the
   * table is left as it was.
   */
  lemma ExtendMeaning(subs: seq<Subscription>, username: string, paymentId: string, txId: string, i: int)
    requires 0 <= i < |subs|
    ensures var r := Extend(subs, username, paymentId, txId);
      && (ActiveOf(subs[i], username) ==>
            r[i].endDate == subs[i].endDate + 30 && r[i].isActive && r[i].paymentId == Some(paymentId)
            && r[i].transactionId == Some(txId) && r[i].startDate == subs[i].startDate)
      && (!ActiveOf(subs[i], username) ==> r[i] == subs[i])
  {
  }

  /** After a completed subscription payment the user has a current subscription. */
  lemma {:induction false} PaymentLeavesLive(subs: seq<Subscription>, username: string, userUid: string,
                                             paymentId: string, txId: string, now: int)
    ensures HasLive(AfterPayment(subs, username, userUid, paymentId, txId, now), username, now)
  {
    var r := AfterPayment(subs, username, userUid, paymentId, txId, now);
    if HasLive(subs, username, now) {
      var i :| 0 <= i < |subs| && Owned(subs[i], username) && Live(subs[i], now);
      assert r[i] == Extended(subs[i], username, paymentId, txId);
      assert Owned(r[i], username) && Live(r[i], now);
    } else {
      var s := PaidRow(|subs| + 1, username, userUid, paymentId, txId, Today(now));
      FreshRowLive(s, now);
      assert r[|subs|] == s;
    }
  }

  /**
   * The extension also touches active rows that have already ended: one
   * that ended more than 30 days ago is extended and still not current.
   */
  lemma ExtendStaleRow(subs: seq<Subscription>, username: string, paymentId: string, txId: string,
                       now: int, i: int)
    requires 0 <= i < |subs| && ActiveOf(subs[i], username)
    requires (subs[i].endDate + 30) * SecondsPerDay <= now
    ensures var r := Extend(subs, username, paymentId, txId);
      r[i].paymentId == Some(paymentId) && !Live(r[i], now)
  {
  }

  // ---------------------------------------------------------------------
  // updateSubscription
  // ---------------------------------------------------------------------

  /** The fields `updateSubscription` sets when given (`isset`). */
  datatype Changes = Changes(isActive: Option<bool>, endDate: Option<int>, notes: Option<string>)

  predicate AnyChange(c: Changes) {
    c.isActive.Some? || c.endDate.Some? || c.notes.Some?
  }

  function Changed(s: Subscription, id: int, c: Changes, now: int): Subscription {
    if s.id == id && AnyChange(c)
    then s.(isActive := c.isActive.GetOr(s.isActive), endDate := c.endDate.GetOr(s.endDate),
            notes := if c.notes.Some? then c.notes else s.notes, updatedAt := Some(now))
    else s
  }

  /** `UPDATE user_subscriptions SET <given fields>, updated_at = NOW() WHERE id = ?`, when any field is given. */
  function Update(subs: seq<Subscription>, id: int, c: Changes, now: int): (r: seq<Subscription>)
    ensures |r| == |subs|
    ensures forall i :: 0 <= i < |subs| ==> r[i].id == subs[i].id && r[i].username == subs[i].username
    ensures forall i :: 0 <= i < |subs| && subs[i].id != id ==> r[i] == subs[i]
  {
    seq(|subs|, i requires 0 <= i < |subs| => Changed(subs[i], id, c, now))
  }

  /** A partial update changes no id. */
  lemma UpdateKeepsNumbered(subs: seq<Subscription>, id: int, c: Changes, now: int)
    requires Numbered(subs)
    ensures Numbered(Update(subs, id, c, now))
  {
  }

  /**
   * A partial update: with no field given nothing changes (not even
   * `updated_at`); otherwise only the row with that id changes, and only
   * in the given fields and `updated_at`.
   */
  lemma {:induction false} UpdateMeaning(subs: seq<Subscription>, id: int, c: Changes, now: int)
    ensures !AnyChange(c) ==> Update(subs, id, c, now) == subs
    ensures forall i :: 0 <= i < |subs| && subs[i].id != id ==> Update(subs, id, c, now)[i] == subs[i]
    ensures forall i :: 0 <= i < |subs| && subs[i].id == id && AnyChange(c) ==>
      var s, t := subs[i], Update(subs, id, c, now)[i];
      && t.isActive == (if c.isActive.Some? then c.isActive.value else s.isActive)
      && t.endDate == (if c.endDate.Some? then c.endDate.value else s.endDate)
      && t.notes == (if c.notes.Some? then c.notes else s.notes)
      && t.updatedAt == Some(now)
      && t.username == s.username && t.startDate == s.startDate && t.status == s.status
  {
    var r := Update(subs, id, c, now);
    if !AnyChange(c) {
      assert forall i :: 0 <= i < |subs| ==> r[i] == subs[i];
    }
  }
}

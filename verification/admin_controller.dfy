/** The admin endpoints (backend/controllers/admin.controller.js): approving a turf, deleting
    a user, and the analytics counts and revenue, as folds over the collections in the order
    the database returns them. */
module AdminController {
  import opened Js
  import opened Models
  import TurfController
  import BookingController

  // ---------------------------------------------------------------------------
  // approveTurf

  /** PUT /api/admin/turfs/:id/approve with body `{isApproved}`. A body without the flag
      unsets it, which every `isApproved: true` query reads as not approved (None here is
      that case). `turf.save()` runs the schema's validators on the whole document. */
  function ApproveTurf(st: Store, id: Id, isApproved: Option<bool>): (r: Reply)
  {
    if id !in st.turfs then Reply(NotFound("Turf not found"), st)
    else
      var t := st.turfs[id].(isApproved := isApproved == Some(true));
      if !TurfValid(t) then Reply(Thrown, st)
      else Reply(Ok, st.(turfs := st.turfs[id := t]))
  }

  /** An unknown turf is a 404 that writes nothing; on a valid turf the flag is set as asked
      and nothing else in the store changes. */
  lemma ApproveEffect(st: Store, id: Id, isApproved: Option<bool>)
    ensures id !in st.turfs ==> ApproveTurf(st, id, isApproved) == Reply(NotFound("Turf not found"), st)
    ensures id in st.turfs && TurfValid(st.turfs[id]) ==>
      ApproveTurf(st, id, isApproved) ==
        Reply(Ok, st.(turfs := st.turfs[id := st.turfs[id].(isApproved := isApproved == Some(true))]))
    ensures ApproveTurf(st, id, isApproved).outcome != Ok ==> ApproveTurf(st, id, isApproved).store == st
  {
    if id in st.turfs && TurfValid(st.turfs[id]) {
      var t := st.turfs[id];
      var t' := t.(isApproved := isApproved == Some(true));
      assert TurfValid(t') by {
        assert t'.name == t.name && t'.sportType == t.sportType && t'.location == t.location;
        assert t'.images == t.images && t'.rating == t.rating && t'.pricePerHour == t.pricePerHour;
      }
    }
  }

  /** Approval is what the public listing waits for: an active turf, once approved, is listed
      by the default query whose sport and price filters it passes, and once rejected it is
      not. */
  lemma ApprovalControlsListing(st: Store, id: Id, q: TurfController.TurfQuery, lo: Option<real>, hi: Option<real>)
    requires id in st.turfs && TurfValid(st.turfs[id]) && st.turfs[id].isActive
    requires q.includePending == ""
    requires TurfController.Listed(st.turfs[id].(isApproved := true), q, lo, hi)
    ensures TurfController.Listed(ApproveTurf(st, id, Some(true)).store.turfs[id], q, lo, hi)
    ensures !TurfController.Listed(ApproveTurf(st, id, Some(false)).store.turfs[id], q, lo, hi)
    ensures !TurfController.Listed(ApproveTurf(st, id, None).store.turfs[id], q, lo, hi)
  {
    ApproveEffect(st, id, Some(true));
    ApproveEffect(st, id, Some(false));
    ApproveEffect(st, id, None);
  }

  // ---------------------------------------------------------------------------
  // deleteUser

  /** DELETE /api/admin/users/:id: 404 for an unknown user, 400 for an admin; otherwise the
      user document alone is removed. */
  function DeleteUser(st: Store, id: Id): (r: Reply)
  {
    if id !in st.users then Reply(NotFound("User not found"), st)
    else if st.users[id] == Admin then Reply(BadRequest("Cannot delete admin user"), st)
    else Reply(Ok, st.(users := st.users - {id}))
  }

  /** The guards write nothing; a deletion removes exactly that user and leaves their turfs
      and bookings in place. */
  lemma DeleteUserEffect(st: Store, id: Id)
    ensures id !in st.users ==> DeleteUser(st, id) == Reply(NotFound("User not found"), st)
    ensures id in st.users && st.users[id] == Admin ==>
      DeleteUser(st, id) == Reply(BadRequest("Cannot delete admin user"), st)
    ensures DeleteUser(st, id).outcome == Ok <==> id in st.users && st.users[id] != Admin
    ensures DeleteUser(st, id).outcome == Ok ==>
      var r := DeleteUser(st, id).store;
      && r.users.Keys == st.users.Keys - {id}
      && (forall u :: u in r.users ==> r.users[u] == st.users[u])
      && r.turfs == st.turfs && r.slots == st.slots && r.bookings == st.bookings && r.nextId == st.nextId
  {
  }

  /** A deleted user's bookings stay behind, and reading one (as the turf's owner or an
      admin) now throws, because the booking's user can no longer be populated. */
  lemma DeletedUserBookingThrows(st: Store, id: Id, actor: Actor, b: Id)
    requires DeleteUser(st, id).outcome == Ok
    requires b in st.bookings && st.bookings[b].userId == id
    ensures b in DeleteUser(st, id).store.bookings
    ensures BookingController.GetBooking(DeleteUser(st, id).store, actor, b) == Thrown
  {
  }

  // ---------------------------------------------------------------------------
  // getAnalytics

  /** The documents of a collection in the order the database returns them: ascending id. */
  function InOrder<T>(m: map<Id, T>, n: nat): (r: seq<T>)
    ensures |r| <= n
    ensures forall x :: x in r ==> exists i :: i in m && i < n && m[i] == x
    ensures forall i :: i in m && i < n ==> m[i] in r
  {
    if n == 0 then []
    else
      var rest := InOrder(m, n - 1);
      if n - 1 in m then rest + [m[n - 1]] else rest
  }

  /** `countDocuments(filter)`. */
  function Count<T>(xs: seq<T>, p: T -> bool): (n: nat)
    ensures n <= |xs|
  {
    if xs == [] then 0 else Count(xs[..|xs| - 1], p) + (if p(xs[|xs| - 1]) then 1 else 0)
  }

  /** The `$sum` of totalAmount over the confirmed bookings. */
  function Revenue(bs: seq<Booking>): real
  {
    if bs == [] then 0.0
    else Revenue(bs[..|bs| - 1]) + (if bs[|bs| - 1].status == Confirmed then bs[|bs| - 1].totalAmount else 0.0)
  }

  /** How many bookings carry status s. */
  function StatusCount(bs: seq<Booking>, s: BookingStatus): nat
  {
    Count(bs, (b: Booking) => b.status == s)
  }

  /** The `$group` by status: one group per status that occurs, with its count. */
  function ByStatus(bs: seq<Booking>): (groups: map<BookingStatus, nat>)
  {
    var g0 := if StatusCount(bs, Pending) > 0 then map[Pending := StatusCount(bs, Pending)] else map[];
    var g1 := if StatusCount(bs, Confirmed) > 0 then g0[Confirmed := StatusCount(bs, Confirmed)] else g0;
    var g2 := if StatusCount(bs, Cancelled) > 0 then g1[Cancelled := StatusCount(bs, Cancelled)] else g1;
    if StatusCount(bs, Completed) > 0 then g2[Completed := StatusCount(bs, Completed)] else g2
  }

  /** The count a group reports, 0 for a status with no group. */
  function GroupCount(g: map<BookingStatus, nat>, s: BookingStatus): nat
  {
    if s in g then g[s] else 0
  }

  /** Each status has a group exactly when some booking carries it, and the group holds its
      count. */
  lemma ByStatusAt(bs: seq<Booking>, s: BookingStatus)
    ensures s in ByStatus(bs) <==> StatusCount(bs, s) > 0
    ensures GroupCount(ByStatus(bs), s) == StatusCount(bs, s)
  {
  }

  datatype TurfStats = TurfStats(total: nat, active: nat, pending: int)
  datatype BookingStats = BookingStats(total: nat, confirmed: nat, cancelled: nat,
                                       byStatus: map<BookingStatus, nat>)
  datatype Analytics = Analytics(users: nat, turfs: TurfStats, bookings: BookingStats, revenue: real)

  /** Lines 91-129 over the collections as they are returned. */
  function AnalyticsOf(users: nat, turfs: seq<Turf>, bookings: seq<Booking>): (a: Analytics)
  {
    var total := |turfs|;
    var active := Count(turfs, (t: Turf) => t.isActive && t.isApproved);
    Analytics(users,
              TurfStats(total, active, total - active),
              BookingStats(|bookings|, StatusCount(bookings, Confirmed),
                           StatusCount(bookings, Cancelled), ByStatus(bookings)),
              Revenue(bookings))
  }

  /** GET /api/admin/analytics. */
  function GetAnalytics(st: Store): Analytics
  {
    AnalyticsOf(|st.users|, InOrder(st.turfs, st.nextId), InOrder(st.bookings, st.nextId))
  }

  /** Counting p and counting its negation split the collection. */
  lemma {:induction false} CountSplit<T>(xs: seq<T>, p: T -> bool, q: T -> bool)
    requires forall x :: q(x) == !p(x)
    ensures Count(xs, p) + Count(xs, q) == |xs|
  {
    if xs != [] {
      CountSplit(xs[..|xs| - 1], p, q);
    }
  }

  /** Counts of disjoint predicates add up to the count of their union. */
  lemma {:induction false} CountUnion<T>(xs: seq<T>, p: T -> bool, q: T -> bool, pq: T -> bool)
    requires forall x :: !(p(x) && q(x)) && (pq(x) == (p(x) || q(x)))
    ensures Count(xs, p) + Count(xs, q) == Count(xs, pq)
  {
    if xs != [] {
      CountUnion(xs[..|xs| - 1], p, q, pq);
    }
  }

  /** "Active" counts the turfs that are both active and approved; "pending" is every other
      turf (an approved turf that was deactivated included), so it is never negative. */
  lemma TurfCounts(turfs: seq<Turf>, users: nat, bookings: seq<Booking>)
    ensures var a := AnalyticsOf(users, turfs, bookings);
      && a.turfs.total == |turfs|
      && a.turfs.pending >= 0
      && a.turfs.pending == Count(turfs, (t: Turf) => !(t.isActive && t.isApproved))
  {
    CountSplit(turfs, (t: Turf) => t.isActive && t.isApproved, (t: Turf) => !(t.isActive && t.isApproved));
  }

  /** The four status counts add up to the number of bookings. */
  lemma {:induction false} StatusCountsSum(bs: seq<Booking>)
    ensures StatusCount(bs, Pending) + StatusCount(bs, Confirmed)
          + StatusCount(bs, Cancelled) + StatusCount(bs, Completed) == |bs|
  {
    if bs != [] {
      StatusCountsSum(bs[..|bs| - 1]);
    }
  }

  /** The by-status groups hold a positive count for each status that occurs and add up to
      the booking total; confirmed plus cancelled never exceeds it. */
  lemma BookingCounts(users: nat, turfs: seq<Turf>, bs: seq<Booking>)
    ensures var a := AnalyticsOf(users, turfs, bs);
      && (forall s :: s in a.bookings.byStatus <==> StatusCount(bs, s) > 0)
      && a.bookings.confirmed + a.bookings.cancelled <= a.bookings.total
      && GroupCount(a.bookings.byStatus, Pending) + GroupCount(a.bookings.byStatus, Confirmed)
         + GroupCount(a.bookings.byStatus, Cancelled) + GroupCount(a.bookings.byStatus, Completed)
         == a.bookings.total
  {
    StatusCountsSum(bs);
    ByStatusAt(bs, Pending);
    ByStatusAt(bs, Confirmed);
    ByStatusAt(bs, Cancelled);
    ByStatusAt(bs, Completed);
    forall s ensures s in ByStatus(bs) <==> StatusCount(bs, s) > 0 {
      ByStatusAt(bs, s);
    }
  }

  /** Revenue adds up the confirmed bookings only: a booking of any other status adds
      nothing, with no confirmed booking it is 0, and it is not negative when no amount is. */
  lemma {:induction false} RevenueMeaning(bs: seq<Booking>)
    ensures StatusCount(bs, Confirmed) == 0 ==> Revenue(bs) == 0.0
    ensures (forall i :: 0 <= i < |bs| ==> bs[i].totalAmount >= 0.0) ==> Revenue(bs) >= 0.0
    ensures Revenue(bs) == Revenue(ConfirmedOnly(bs))
  {
    if bs != [] {
      var init := bs[..|bs| - 1];
      RevenueMeaning(init);
      assert forall i :: 0 <= i < |init| ==> init[i] == bs[i];
      var last := bs[|bs| - 1];
      if last.status == Confirmed {
        assert ConfirmedOnly(bs) == ConfirmedOnly(init) + [last];
        assert (ConfirmedOnly(init) + [last])[..|ConfirmedOnly(init) + [last]| - 1] == ConfirmedOnly(init);
      } else {
        assert ConfirmedOnly(bs) == ConfirmedOnly(init);
      }
    }
  }

  /** The confirmed bookings, in order. */
  function ConfirmedOnly(bs: seq<Booking>): (r: seq<Booking>)
    ensures forall i :: 0 <= i < |r| ==> r[i].status == Models.Confirmed
  {
    if bs == [] then []
    else ConfirmedOnly(bs[..|bs| - 1]) + (if bs[|bs| - 1].status == Models.Confirmed then [bs[|bs| - 1]] else [])
  }

  /** The ids of m below n. */
  function IdsBelow<T>(m: map<Id, T>, n: nat): set<Id>
  {
    set i | i in m && i < n
  }

  /** Listing the documents below n lists each of them once. */
  lemma {:induction false} InOrderSize<T>(m: map<Id, T>, n: nat)
    ensures |InOrder(m, n)| == |IdsBelow(m, n)|
  {
    if n == 0 {
      assert IdsBelow(m, n) == {};
    } else {
      InOrderSize(m, n - 1);
      IdsBelowStep(m, n);
    }
  }

  lemma IdsBelowStep<T>(m: map<Id, T>, n: nat)
    requires n > 0
    ensures n - 1 in m ==> |IdsBelow(m, n)| == |IdsBelow(m, n - 1)| + 1
    ensures n - 1 !in m ==> IdsBelow(m, n) == IdsBelow(m, n - 1)
  {
    if n - 1 in m {
      assert IdsBelow(m, n) == IdsBelow(m, n - 1) + {n - 1};
    }
  }

  /** The analytics of the store count every stored document exactly once. */
  lemma InOrderCounts<T>(m: map<Id, T>, n: nat)
    requires forall i :: i in m ==> i < n
    ensures |InOrder(m, n)| == |m.Keys|
  {
    InOrderSize(m, n);
    assert IdsBelow(m, n) == m.Keys;
  }

  /** On a store that keeps its invariant the totals are the sizes of the collections. */
  lemma AnalyticsTotals(st: Store)
    requires Inv(st)
    ensures GetAnalytics(st).users == |st.users|
    ensures GetAnalytics(st).turfs.total == |st.turfs.Keys|
    ensures GetAnalytics(st).bookings.total == |st.bookings.Keys|
  {
    InOrderCounts(st.turfs, st.nextId);
    InOrderCounts(st.bookings, st.nextId);
  }
}

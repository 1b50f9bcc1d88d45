/**
 * The collective-order queries (`CollectiveOrderRepository`) as functions over the stored
 * rows: pools that reached their minimum, pools near or past their payment deadline, the
 * administrator's work list and its priorities, pools ready for supplier payment, the total
 * value per supplier and the filtered search. A `NULL` column makes every comparison false;
 * `ORDER BY … ASC` puts `NULL` first.
 */
module CollectiveOrderRepository {
  import opened Common
  import opened Time
  import Lex
  import opened CollectiveOrders

  // ---------------------------------------------------------------------------------------------
  // Pools at their minimum

  /** The `WHERE` clause of `findOrdersReachedMinimum`. */
  predicate ReachedMinimum(t: Row)
  {
    t.currentValue >= t.minimumValue && t.status == Open
  }

  /** The query selects an OPEN pool exactly when the pool itself reports its minimum reached. */
  lemma ReachedMinimumIsEntityCheck(p: CollectiveOrder)
    ensures ReachedMinimum(p.AsRow()) <==> p.status == Open && p.IsMinimumReached()
  {
  }

  /** `findOrdersReachedMinimum`: OPEN pools at or above their minimum, earliest `minimumReachedAt` first. */
  function FindOrdersReachedMinimum(rows: seq<Row>): (r: seq<Row>)
    ensures forall k :: 0 <= k < |r| ==> ReachedMinimum(r[k])
    ensures forall x :: multiset(r)[x] == if ReachedMinimum(x) then multiset(rows)[x] else 0
    ensures forall i, j :: 0 <= i < j < |r| && r[j].minimumReachedAt.None? ==> r[i].minimumReachedAt.None?
    ensures forall i, j :: 0 <= i < j < |r| && r[i].minimumReachedAt.Some? && r[j].minimumReachedAt.Some? ==>
              !Before(r[j].minimumReachedAt.value, r[i].minimumReachedAt.value)
  {
    var r := Lex.Query(rows, ReachedMinimum, (t: Row) => NullsFirstKey(t.minimumReachedAt));
    forall i, j | 0 <= i < j < |r|
      ensures r[j].minimumReachedAt.None? ==> r[i].minimumReachedAt.None?
      ensures r[i].minimumReachedAt.Some? && r[j].minimumReachedAt.Some? ==>
                !Before(r[j].minimumReachedAt.value, r[i].minimumReachedAt.value)
    {
      NullsFirstOrder(r[i].minimumReachedAt, r[j].minimumReachedAt);
    }
    r
  }

  // ---------------------------------------------------------------------------------------------
  // Payment deadlines

  /** The `WHERE` clause of `findOverduePaymentOrders`. */
  predicate Overdue(t: Row, now: DateTime)
  {
    t.status == PaymentWindow && t.paymentDeadline.Some? && Before(t.paymentDeadline.value, now)
  }

  /** The `WHERE` clause of `findOrdersNearPaymentDeadline`: the deadline lies in [now, cutoff]. */
  predicate NearPaymentDeadline(t: Row, now: DateTime, cutoff: DateTime)
  {
    && t.status == PaymentWindow && t.paymentDeadline.Some?
    && !Before(t.paymentDeadline.value, now) && !After(t.paymentDeadline.value, cutoff)
  }

  /**
   * A pool in its payment window is overdue for the query exactly when the pool reports its
   * payment overdue, and an overdue pool is never also listed as near its deadline.
   */
  lemma OverdueIsEntityCheck(p: CollectiveOrder, now: DateTime, cutoff: DateTime)
    ensures Overdue(p.AsRow(), now) <==> p.status == PaymentWindow && p.IsPaymentOverdue(now)
    ensures !(Overdue(p.AsRow(), now) && NearPaymentDeadline(p.AsRow(), now, cutoff))
  {
  }

  /** `findOverduePaymentOrders`: pools past their payment deadline, earliest deadline first. */
  function FindOverduePaymentOrders(rows: seq<Row>, now: DateTime): (r: seq<Row>)
    ensures forall k :: 0 <= k < |r| ==> Overdue(r[k], now)
    ensures forall x :: multiset(r)[x] == if Overdue(x, now) then multiset(rows)[x] else 0
    ensures forall i, j :: 0 <= i < j < |r| && r[i].paymentDeadline.Some? && r[j].paymentDeadline.Some? ==>
              !Before(r[j].paymentDeadline.value, r[i].paymentDeadline.value)
  {
    var r := Lex.Query(rows, t => Overdue(t, now), (t: Row) => NullsFirstKey(t.paymentDeadline));
    forall i, j | 0 <= i < j < |r| && r[i].paymentDeadline.Some? && r[j].paymentDeadline.Some?
      ensures !Before(r[j].paymentDeadline.value, r[i].paymentDeadline.value)
    {
      NullsFirstOrder(r[i].paymentDeadline, r[j].paymentDeadline);
    }
    r
  }

  /** `findOrdersNearPaymentDeadline`: pools whose deadline lies in [now, cutoff], earliest deadline first. */
  function FindOrdersNearPaymentDeadline(rows: seq<Row>, now: DateTime, cutoff: DateTime): (r: seq<Row>)
    ensures forall k :: 0 <= k < |r| ==> NearPaymentDeadline(r[k], now, cutoff)
    ensures forall x :: multiset(r)[x] == if NearPaymentDeadline(x, now, cutoff) then multiset(rows)[x] else 0
    ensures forall i, j :: 0 <= i < j < |r| && r[i].paymentDeadline.Some? && r[j].paymentDeadline.Some? ==>
              !Before(r[j].paymentDeadline.value, r[i].paymentDeadline.value)
  {
    var r := Lex.Query(rows, t => NearPaymentDeadline(t, now, cutoff), (t: Row) => NullsFirstKey(t.paymentDeadline));
    forall i, j | 0 <= i < j < |r| && r[i].paymentDeadline.Some? && r[j].paymentDeadline.Some?
      ensures !Before(r[j].paymentDeadline.value, r[i].paymentDeadline.value)
    {
      NullsFirstOrder(r[i].paymentDeadline, r[j].paymentDeadline);
    }
    r
  }

  // ---------------------------------------------------------------------------------------------
  // The administrator's work list

  /** The `WHERE` clause of `findOrdersNeedingAdminAction`. */
  predicate NeedsAdminAction(t: Row, now: DateTime)
  {
    || ReachedMinimum(t)
    || (t.status == MinimumReached && t.paymentWindowOpenedAt.None?)
    || Overdue(t, now)
  }

  /** The `CASE` of the `ORDER BY`: 1 overdue, 2 OPEN at its minimum, 3 MINIMUM_REACHED, 4 otherwise. */
  function AdminPriority(t: Row, now: DateTime): int
  {
    if Overdue(t, now) then 1
    else if ReachedMinimum(t) then 2
    else if t.status == MinimumReached then 3
    else 4
  }

  /** Every pool on the work list has one of the three named priorities, and each priority names one kind of pool. */
  lemma AdminPriorityOfListed(t: Row, now: DateTime)
    requires NeedsAdminAction(t, now)
    ensures 1 <= AdminPriority(t, now) <= 3
    ensures AdminPriority(t, now) == 1 <==> Overdue(t, now)
    ensures AdminPriority(t, now) == 2 <==> ReachedMinimum(t)
    ensures AdminPriority(t, now) == 3 <==> t.status == MinimumReached
  {
  }

  function AdminKey(now: DateTime): Row -> seq<int>
  {
    (t: Row) => [AdminPriority(t, now)] + NullsFirstKey(t.createdAt)
  }

  /** `findOrdersNeedingAdminAction`: by priority, then oldest pool first. */
  function FindOrdersNeedingAdminAction(rows: seq<Row>, now: DateTime): (r: seq<Row>)
    ensures forall k :: 0 <= k < |r| ==> NeedsAdminAction(r[k], now)
    ensures forall x :: multiset(r)[x] == if NeedsAdminAction(x, now) then multiset(rows)[x] else 0
    ensures forall i, j :: 0 <= i < j < |r| ==> AdminPriority(r[i], now) <= AdminPriority(r[j], now)
    ensures forall i, j :: 0 <= i < j < |r| && AdminPriority(r[i], now) == AdminPriority(r[j], now) ==>
              (r[j].createdAt.None? ==> r[i].createdAt.None?)
              && (r[i].createdAt.Some? && r[j].createdAt.Some? ==> !Before(r[j].createdAt.value, r[i].createdAt.value))
  {
    var key := AdminKey(now);
    var r := Lex.Query(rows, t => NeedsAdminAction(t, now), key);
    forall i, j | 0 <= i < j < |r|
      ensures AdminPriority(r[i], now) <= AdminPriority(r[j], now)
      ensures AdminPriority(r[i], now) == AdminPriority(r[j], now) ==>
                (r[j].createdAt.None? ==> r[i].createdAt.None?)
                && (r[i].createdAt.Some? && r[j].createdAt.Some? ==> !Before(r[j].createdAt.value, r[i].createdAt.value))
    {
      var pi, pj := [AdminPriority(r[i], now)], [AdminPriority(r[j], now)];
      assert key(r[i]) == pi + NullsFirstKey(r[i].createdAt);
      assert key(r[j]) == pj + NullsFirstKey(r[j].createdAt);
      Lex.LeqConcat(pi, NullsFirstKey(r[i].createdAt), pj, NullsFirstKey(r[j].createdAt));
      if pi == pj {
        Lex.LessIsStrict(pi, pj);
        NullsFirstOrder(r[i].createdAt, r[j].createdAt);
      }
    }
    r
  }

  /** On the work list every overdue pool comes before every pool that is not overdue. */
  lemma OverdueFirst(rows: seq<Row>, now: DateTime, i: int, j: int)
    requires var r := FindOrdersNeedingAdminAction(rows, now); 0 <= i < j < |r| && Overdue(r[j], now)
    ensures Overdue(FindOrdersNeedingAdminAction(rows, now)[i], now)
  {
    var r := FindOrdersNeedingAdminAction(rows, now);
    AdminPriorityOfListed(r[i], now);
  }

  // ---------------------------------------------------------------------------------------------
  // Supplier payment

  /** The `WHERE` clause of `findOrdersReadyForSupplierPayment`. */
  predicate ReadyForSupplierPayment(t: Row)
  {
    t.status == PaymentWindow && t.supplierPaymentDate.None?
  }

  /** `findOrdersReadyForSupplierPayment`: unpaid pools in their payment window, earliest opened window first. */
  function FindOrdersReadyForSupplierPayment(rows: seq<Row>): (r: seq<Row>)
    ensures forall k :: 0 <= k < |r| ==> ReadyForSupplierPayment(r[k])
    ensures forall x :: multiset(r)[x] == if ReadyForSupplierPayment(x) then multiset(rows)[x] else 0
    ensures forall i, j :: 0 <= i < j < |r| && r[j].paymentWindowOpenedAt.None? ==> r[i].paymentWindowOpenedAt.None?
    ensures forall i, j :: 0 <= i < j < |r| && r[i].paymentWindowOpenedAt.Some? && r[j].paymentWindowOpenedAt.Some? ==>
              !Before(r[j].paymentWindowOpenedAt.value, r[i].paymentWindowOpenedAt.value)
  {
    var r := Lex.Query(rows, ReadyForSupplierPayment, (t: Row) => NullsFirstKey(t.paymentWindowOpenedAt));
    forall i, j | 0 <= i < j < |r|
      ensures r[j].paymentWindowOpenedAt.None? ==> r[i].paymentWindowOpenedAt.None?
      ensures r[i].paymentWindowOpenedAt.Some? && r[j].paymentWindowOpenedAt.Some? ==>
                !Before(r[j].paymentWindowOpenedAt.value, r[i].paymentWindowOpenedAt.value)
    {
      NullsFirstOrder(r[i].paymentWindowOpenedAt, r[j].paymentWindowOpenedAt);
    }
    r
  }

  // ---------------------------------------------------------------------------------------------
  // Total value per supplier

  /** The rows `getTotalValueBySupplier` adds up: the supplier's pools that are not CANCELLED. */
  function CountedFor(supplier: SupplierId): Row -> bool
  {
    (t: Row) => t.supplier == supplier && t.status != Cancelled
  }

  /** `SUM(co.currentValue)`: `NULL` when no row is summed. */
  function SumCurrentValues(rows: seq<Row>): (s: Option<int>)
    ensures s.None? <==> rows == []
  {
    if rows == [] then None
    else
      var rest := SumCurrentValues(rows[1..]);
      Some(rows[0].currentValue + (if rest.None? then 0 else rest.value))
  }

  /** `getTotalValueBySupplier`. */
  function TotalValueBySupplier(rows: seq<Row>, supplier: SupplierId): (s: Option<int>)
    ensures s.None? <==> forall k :: 0 <= k < |rows| ==> !CountedFor(supplier)(rows[k])
  {
    var counted := Lex.Filter(rows, CountedFor(supplier));
    assert counted == [] <==> forall k :: 0 <= k < |rows| ==> !CountedFor(supplier)(rows[k]) by {
      if counted == [] {
        forall k | 0 <= k < |rows| ensures !CountedFor(supplier)(rows[k]) {
          Lex.FilterCount(rows, CountedFor(supplier), rows[k]);
          assert rows[k] in multiset(rows);
        }
      } else {
        Lex.FilterCount(rows, CountedFor(supplier), counted[0]);
        assert counted[0] in multiset(counted);
        var k :| 0 <= k < |rows| && rows[k] == counted[0];
      }
    }
    SumCurrentValues(counted)
  }

  lemma {:induction false} SumCurrentValuesAppend(rows: seq<Row>, t: Row)
    ensures SumCurrentValues(rows + [t]) == Some((if rows == [] then 0 else SumCurrentValues(rows).value) + t.currentValue)
  {
    if rows != [] {
      assert (rows + [t])[1..] == rows[1..] + [t];
      SumCurrentValuesAppend(rows[1..], t);
    } else {
      assert rows + [t] == [t];
    }
  }

  /**
   * Storing one more pool adds its current value to its supplier's total unless it is
   * CANCELLED; the totals of the other suppliers do not change.
   */
  lemma TotalAfterAppend(rows: seq<Row>, t: Row, supplier: SupplierId)
    ensures var before := TotalValueBySupplier(rows, supplier);
            TotalValueBySupplier(rows + [t], supplier)
            == if t.supplier == supplier && t.status != Cancelled
               then Some((if before.None? then 0 else before.value) + t.currentValue)
               else before
  {
    var p := CountedFor(supplier);
    assert p(t) == (t.supplier == supplier && t.status != Cancelled);
    Lex.FilterAppend(rows, t, p);
    var counted := Lex.Filter(rows, p);
    if p(t) {
      SumCurrentValuesAppend(counted, t);
    } else {
      assert counted + [] == counted;
    }
  }

  // ---------------------------------------------------------------------------------------------
  // The administrator's search

  /** The parameters of `findWithFilters`; a missing one disables its condition. */
  datatype Filters = Filters(
    status: Option<Status>,
    supplierId: Option<SupplierId>,
    minValue: Option<int>,
    maxValue: Option<int>,
    startDate: Option<DateTime>,
    endDate: Option<DateTime>,
    hasTrackingCode: Option<bool>)

  /** The `WHERE` clause of `findWithFilters`. */
  predicate MatchesFilters(t: Row, f: Filters)
  {
    && (f.status.None? || t.status == f.status.value)
    && (f.supplierId.None? || t.supplier == f.supplierId.value)
    && (f.minValue.None? || t.currentValue >= f.minValue.value)
    && (f.maxValue.None? || t.currentValue <= f.maxValue.value)
    && (f.startDate.None? || (t.createdAt.Some? && !Before(t.createdAt.value, f.startDate.value)))
    && (f.endDate.None? || (t.createdAt.Some? && !After(t.createdAt.value, f.endDate.value)))
    && (f.hasTrackingCode.None?
        || (f.hasTrackingCode.value && t.trackingCode.Some?)
        || (!f.hasTrackingCode.value && t.trackingCode.None?))
  }

  /**
   * `findWithFilters`, before paging. The query has no `ORDER BY`; the model returns the
   * matching rows in the order they are stored.
   */
  function FindWithFilters(rows: seq<Row>, f: Filters): (r: seq<Row>)
    ensures forall k :: 0 <= k < |r| ==> MatchesFilters(r[k], f)
    ensures forall x :: multiset(r)[x] == if MatchesFilters(x, f) then multiset(rows)[x] else 0
  {
    var p := (t: Row) => MatchesFilters(t, f);
    var r := Lex.Filter(rows, p);
    forall x ensures multiset(r)[x] == if MatchesFilters(x, f) then multiset(rows)[x] else 0 {
      Lex.FilterCount(rows, p, x);
    }
    r
  }

  const NoFilters := Filters(None, None, None, None, None, None, None)

  /** g is f with some of its parameters dropped. */
  predicate Relaxes(g: Filters, f: Filters)
  {
    && (g.status.None? || g.status == f.status)
    && (g.supplierId.None? || g.supplierId == f.supplierId)
    && (g.minValue.None? || g.minValue == f.minValue)
    && (g.maxValue.None? || g.maxValue == f.maxValue)
    && (g.startDate.None? || g.startDate == f.startDate)
    && (g.endDate.None? || g.endDate == f.endDate)
    && (g.hasTrackingCode.None? || g.hasTrackingCode == f.hasTrackingCode)
  }

  /**
   * Without parameters every pool is returned, in the stored order the model keeps;
   * dropping parameters never loses a pool, and each pool is kept as often as it is
   * stored.
   */
  lemma FiltersOnlyNarrow(rows: seq<Row>, f: Filters, g: Filters)
    requires Relaxes(g, f)
    ensures FindWithFilters(rows, NoFilters) == rows
    ensures multiset(FindWithFilters(rows, f)) <= multiset(FindWithFilters(rows, g))
  {
    Lex.FilterAll(rows, t => MatchesFilters(t, NoFilters));
    forall x | true ensures multiset(FindWithFilters(rows, f))[x] <= multiset(FindWithFilters(rows, g))[x] {
      assert MatchesFilters(x, f) ==> MatchesFilters(x, g);
    }
  }

  /** Asking for pools with a tracking code and for pools without one splits the unfiltered result between the two. */
  lemma TrackingCodeSplits(rows: seq<Row>, f: Filters)
    requires f.hasTrackingCode.None?
    ensures multiset(FindWithFilters(rows, f.(hasTrackingCode := Some(true))))
            + multiset(FindWithFilters(rows, f.(hasTrackingCode := Some(false))))
            == multiset(FindWithFilters(rows, f))
  {
    var withCode, withoutCode := f.(hasTrackingCode := Some(true)), f.(hasTrackingCode := Some(false));
    var p := (t: Row) => MatchesFilters(t, withCode);
    var q := (t: Row) => MatchesFilters(t, withoutCode);
    var a := (t: Row) => MatchesFilters(t, f);
    var mp, mq, ma := multiset(Lex.Filter(rows, p)), multiset(Lex.Filter(rows, q)), multiset(Lex.Filter(rows, a));
    forall x | true ensures (mp + mq)[x] == ma[x] {
      Lex.FilterCount(rows, p, x);
      Lex.FilterCount(rows, q, x);
      Lex.FilterCount(rows, a, x);
      assert p(x) <==> a(x) && x.trackingCode.Some?;
      assert q(x) <==> a(x) && x.trackingCode.None?;
    }
    assert mp + mq == ma;
  }
}

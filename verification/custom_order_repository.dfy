/**
 * The custom-order queries (`CustomOrderRepository`) as functions over the stored rows: the
 * analysis queue, the confirmed orders waiting for a pool, the urgent count, the follow-up
 * list and the administrator's filtered search. A `NULL` column makes every comparison false;
 * `ORDER BY … ASC` puts `NULL` first.
 */
module CustomOrderRepository {
  import opened Common
  import opened Time
  import Lex
  import opened CustomOrders

  // ---------------------------------------------------------------------------------------------
  // The analysis queue

  /** The text "HIGH" sorts below the other three urgency names. */
  lemma HighNameIsLowest(u: Urgency)
    requires u != High
    ensures Lex.TextLess(StoredName(High), StoredName(u))
  {
    assert StoredName(High)[0] == 'H';
    assert StoredName(u)[0] in {'L', 'N', 'U'};
  }

  /** `ORDER BY co.urgency DESC, co.createdAt ASC` with the urgency stored as its name. */
  function UrgencyTextKey(t: Row): seq<int>
  {
    Lex.DescTextKey(StoredName(t.urgency)) + NullsFirstKey(t.createdAt)
  }

  /** The same order with the urgency compared by severity, most severe first. */
  function SeverityKey(t: Row): seq<int>
  {
    [-(Severity(t.urgency) as int)] + NullsFirstKey(t.createdAt)
  }

  /** Rows whose urgency is equal keep their `createdAt` order, `NULL` first. */
  predicate CreatedAtAscending(a: Row, b: Row)
  {
    (b.createdAt.None? ==> a.createdAt.None?)
    && (a.createdAt.Some? && b.createdAt.Some? ==> !Before(b.createdAt.value, a.createdAt.value))
  }

  /** The `WHERE` clause of `findPendingAnalysis`. */
  predicate AwaitingAnalysis(t: Row)
  {
    t.status == PendingAnalysis
  }

  /**
   * `findPendingAnalysis` as written: the orders awaiting analysis, their urgency names in
   * descending text order, oldest first among equal urgency.
   */
  function FindPendingAnalysis(rows: seq<Row>): (r: seq<Row>)
    ensures forall k :: 0 <= k < |r| ==> r[k].status == PendingAnalysis
    ensures forall x :: multiset(r)[x] == if x.status == PendingAnalysis then multiset(rows)[x] else 0
    ensures forall i, j :: 0 <= i < j < |r| ==> !Lex.TextLess(StoredName(r[i].urgency), StoredName(r[j].urgency))
    ensures forall i, j :: 0 <= i < j < |r| && r[i].urgency == r[j].urgency ==> CreatedAtAscending(r[i], r[j])
  {
    var r := Lex.Query(rows, AwaitingAnalysis, UrgencyTextKey);
    forall i, j | 0 <= i < j < |r|
      ensures !Lex.TextLess(StoredName(r[i].urgency), StoredName(r[j].urgency))
      ensures r[i].urgency == r[j].urgency ==> CreatedAtAscending(r[i], r[j])
    {
      Lex.DescTextKeyOrder(StoredName(r[i].urgency), StoredName(r[j].urgency),
                           NullsFirstKey(r[i].createdAt), NullsFirstKey(r[j].createdAt));
      if r[i].urgency == r[j].urgency {
        NullsFirstOrder(r[i].createdAt, r[j].createdAt);
      }
    }
    r
  }

  /**
   * The text order puts HIGH after every other level: in the analysis queue a HIGH order is
   * followed only by HIGH orders, so LOW and NORMAL orders are analysed before it.
   */
  lemma {:induction false} PendingAnalysisListsHighLast(rows: seq<Row>, i: int, j: int)
    requires var r := FindPendingAnalysis(rows); 0 <= i < j < |r| && r[i].urgency == High
    ensures FindPendingAnalysis(rows)[j].urgency == High
  {
    var r := FindPendingAnalysis(rows);
    if r[j].urgency != High {
      HighNameIsLowest(r[j].urgency);
      assert false;
    }
  }

  /** The analysis queue ordered by severity: URGENT, HIGH, NORMAL, LOW, oldest first among equals. */
  function FindPendingAnalysisBySeverity(rows: seq<Row>): (r: seq<Row>)
    ensures forall k :: 0 <= k < |r| ==> r[k].status == PendingAnalysis
    ensures forall x :: multiset(r)[x] == if x.status == PendingAnalysis then multiset(rows)[x] else 0
    ensures forall i, j :: 0 <= i < j < |r| ==> Severity(r[i].urgency) >= Severity(r[j].urgency)
    ensures forall i, j :: 0 <= i < j < |r| && r[i].urgency == r[j].urgency ==> CreatedAtAscending(r[i], r[j])
  {
    var r := Lex.Query(rows, AwaitingAnalysis, SeverityKey);
    forall i, j | 0 <= i < j < |r|
      ensures Severity(r[i].urgency) >= Severity(r[j].urgency)
      ensures r[i].urgency == r[j].urgency ==> CreatedAtAscending(r[i], r[j])
    {
      Lex.LeqConcat([-(Severity(r[i].urgency) as int)], NullsFirstKey(r[i].createdAt),
                    [-(Severity(r[j].urgency) as int)], NullsFirstKey(r[j].createdAt));
      if r[i].urgency == r[j].urgency {
        Lex.LessIsStrict([-(Severity(r[i].urgency) as int)], [-(Severity(r[j].urgency) as int)]);
        NullsFirstOrder(r[i].createdAt, r[j].createdAt);
      }
    }
    r
  }

  /** Ordered by severity, every urgent order (HIGH or URGENT) comes before every other one. */
  lemma UrgentFirstBySeverity(rows: seq<Row>, i: int, j: int)
    requires var r := FindPendingAnalysisBySeverity(rows); 0 <= i < j < |r| && IsUrgentLevel(r[j].urgency)
    ensures IsUrgentLevel(FindPendingAnalysisBySeverity(rows)[i].urgency)
  {
    var r := FindPendingAnalysisBySeverity(rows);
    UrgentIffSevere(r[i].urgency);
    UrgentIffSevere(r[j].urgency);
  }

  // ---------------------------------------------------------------------------------------------
  // Orders waiting for a pool

  /** The `WHERE` clause of `findConfirmedAwaitingCollectiveOrder`. */
  predicate AwaitingPool(t: Row)
  {
    t.status == Confirmed && t.collectiveOrder.None?
  }

  /** `findConfirmedAwaitingCollectiveOrder`: confirmed orders in no pool yet, earliest confirmation first. */
  function FindConfirmedAwaitingCollectiveOrder(rows: seq<Row>): (r: seq<Row>)
    ensures forall k :: 0 <= k < |r| ==> AwaitingPool(r[k])
    ensures forall x :: multiset(r)[x] == if AwaitingPool(x) then multiset(rows)[x] else 0
    ensures forall i, j :: 0 <= i < j < |r| && r[j].confirmedAt.None? ==> r[i].confirmedAt.None?
    ensures forall i, j :: 0 <= i < j < |r| && r[i].confirmedAt.Some? && r[j].confirmedAt.Some? ==>
              !Before(r[j].confirmedAt.value, r[i].confirmedAt.value)
  {
    var r := Lex.Query(rows, AwaitingPool, (t: Row) => NullsFirstKey(t.confirmedAt));
    forall i, j | 0 <= i < j < |r|
      ensures r[j].confirmedAt.None? ==> r[i].confirmedAt.None?
      ensures r[i].confirmedAt.Some? && r[j].confirmedAt.Some? ==> !Before(r[j].confirmedAt.value, r[i].confirmedAt.value)
    {
      NullsFirstOrder(r[i].confirmedAt, r[j].confirmedAt);
    }
    r
  }

  // ---------------------------------------------------------------------------------------------
  // The urgent count

  /** The `WHERE` clause of `countUrgentPendingOrders`: HIGH or URGENT, and neither delivered nor cancelled. */
  predicate UrgentPending(t: Row)
  {
    IsUrgentLevel(t.urgency) && t.status != Delivered && t.status != Cancelled
  }

  /** `countUrgentPendingOrders`. */
  function CountUrgentPendingOrders(rows: seq<Row>): nat
  {
    |Lex.Filter(rows, UrgentPending)|
  }

  /**
   * Storing one more order raises the count by one exactly when that order is urgent and
   * still open; the count never exceeds the number of orders.
   */
  lemma {:induction false} CountUrgentAfterAppend(rows: seq<Row>, t: Row)
    ensures CountUrgentPendingOrders(rows + [t]) == CountUrgentPendingOrders(rows) + (if UrgentPending(t) then 1 else 0)
    ensures CountUrgentPendingOrders(rows) <= |rows|
  {
    Lex.FilterAppend(rows, t, UrgentPending);
  }

  /** Delivering or cancelling an urgent order takes it out of the count. */
  lemma ClosingLeavesCount(rows: seq<Row>, k: int, status: Status)
    requires 0 <= k < |rows| && UrgentPending(rows[k]) && (status == Delivered || status == Cancelled)
    ensures CountUrgentPendingOrders(rows[k := rows[k].(status := status)]) + 1 == CountUrgentPendingOrders(rows)
  {
    var closed := rows[k := rows[k].(status := status)];
    assert rows == rows[..k] + [rows[k]] + rows[k + 1..];
    assert closed == rows[..k] + [closed[k]] + rows[k + 1..];
    FilterConcat(rows[..k] + [rows[k]], rows[k + 1..], UrgentPending);
    FilterConcat(rows[..k] + [closed[k]], rows[k + 1..], UrgentPending);
    Lex.FilterAppend(rows[..k], rows[k], UrgentPending);
    Lex.FilterAppend(rows[..k], closed[k], UrgentPending);
  }

  lemma {:induction false} FilterConcat<T>(a: seq<T>, b: seq<T>, p: T -> bool)
    ensures Lex.Filter(a + b, p) == Lex.Filter(a, p) + Lex.Filter(b, p)
  {
    if a == [] {
      assert a + b == b;
    } else {
      assert (a + b)[1..] == a[1..] + b;
      FilterConcat(a[1..], b, p);
    }
  }

  // ---------------------------------------------------------------------------------------------
  // Follow-up

  /** The `WHERE` clause of `findOldPendingAnalysis`. */
  predicate OldPendingAnalysis(t: Row, cutoff: DateTime)
  {
    t.status == PendingAnalysis && t.createdAt.Some? && Before(t.createdAt.value, cutoff)
  }

  /** The `WHERE` clause of `findOldPricedOrders`. */
  predicate OldPriced(t: Row, cutoff: DateTime)
  {
    t.status == Priced && t.analyzedAt.Some? && Before(t.analyzedAt.value, cutoff)
  }

  /** `findOldPendingAnalysis`: orders awaiting analysis created before the cutoff, oldest first. */
  function FindOldPendingAnalysis(rows: seq<Row>, cutoff: DateTime): (r: seq<Row>)
    ensures forall k :: 0 <= k < |r| ==> OldPendingAnalysis(r[k], cutoff)
    ensures forall x :: multiset(r)[x] == if OldPendingAnalysis(x, cutoff) then multiset(rows)[x] else 0
    ensures forall i, j :: 0 <= i < j < |r| && r[i].createdAt.Some? && r[j].createdAt.Some? ==> !Before(r[j].createdAt.value, r[i].createdAt.value)
  {
    var r := Lex.Query(rows, t => OldPendingAnalysis(t, cutoff), (t: Row) => NullsFirstKey(t.createdAt));
    forall i, j | 0 <= i < j < |r| && r[i].createdAt.Some? && r[j].createdAt.Some? ensures !Before(r[j].createdAt.value, r[i].createdAt.value) {
      NullsFirstOrder(r[i].createdAt, r[j].createdAt);
    }
    r
  }

  /** `findOldPricedOrders`: priced orders analysed before the cutoff, earliest analysis first. */
  function FindOldPricedOrders(rows: seq<Row>, cutoff: DateTime): (r: seq<Row>)
    ensures forall k :: 0 <= k < |r| ==> OldPriced(r[k], cutoff)
    ensures forall x :: multiset(r)[x] == if OldPriced(x, cutoff) then multiset(rows)[x] else 0
    ensures forall i, j :: 0 <= i < j < |r| && r[i].analyzedAt.Some? && r[j].analyzedAt.Some? ==> !Before(r[j].analyzedAt.value, r[i].analyzedAt.value)
  {
    var r := Lex.Query(rows, t => OldPriced(t, cutoff), (t: Row) => NullsFirstKey(t.analyzedAt));
    forall i, j | 0 <= i < j < |r| && r[i].analyzedAt.Some? && r[j].analyzedAt.Some? ensures !Before(r[j].analyzedAt.value, r[i].analyzedAt.value) {
      NullsFirstOrder(r[i].analyzedAt, r[j].analyzedAt);
    }
    r
  }

  /** The `WHERE` clause of `findOrdersNeedingFollowUp`. */
  predicate NeedsFollowUp(t: Row, urgentCutoff: DateTime, pricedCutoff: DateTime)
  {
    (t.status == PendingAnalysis && t.createdAt.Some? && Before(t.createdAt.value, urgentCutoff))
    || (t.status == Priced && t.analyzedAt.Some? && Before(t.analyzedAt.value, pricedCutoff))
  }

  /** `findOrdersNeedingFollowUp`, ordered like the analysis queue (urgency names descending, then oldest first). */
  function FindOrdersNeedingFollowUp(rows: seq<Row>, urgentCutoff: DateTime, pricedCutoff: DateTime): (r: seq<Row>)
    ensures forall k :: 0 <= k < |r| ==> NeedsFollowUp(r[k], urgentCutoff, pricedCutoff)
    ensures forall x :: multiset(r)[x] == if NeedsFollowUp(x, urgentCutoff, pricedCutoff) then multiset(rows)[x] else 0
    ensures forall i, j :: 0 <= i < j < |r| ==> !Lex.TextLess(StoredName(r[i].urgency), StoredName(r[j].urgency))
    ensures forall i, j :: 0 <= i < j < |r| && r[i].urgency == r[j].urgency ==> CreatedAtAscending(r[i], r[j])
  {
    var r := Lex.Query(rows, t => NeedsFollowUp(t, urgentCutoff, pricedCutoff), UrgencyTextKey);
    forall i, j | 0 <= i < j < |r|
      ensures !Lex.TextLess(StoredName(r[i].urgency), StoredName(r[j].urgency))
      ensures r[i].urgency == r[j].urgency ==> CreatedAtAscending(r[i], r[j])
    {
      Lex.DescTextKeyOrder(StoredName(r[i].urgency), StoredName(r[j].urgency),
                           NullsFirstKey(r[i].createdAt), NullsFirstKey(r[j].createdAt));
      if r[i].urgency == r[j].urgency {
        NullsFirstOrder(r[i].createdAt, r[j].createdAt);
      }
    }
    r
  }

  /**
   * The follow-up list holds exactly the old unanalysed orders and the old unconfirmed priced
   * orders, each as often as it is stored: the two lists never share an order.
   */
  lemma FollowUpIsOldPendingAndOldPriced(rows: seq<Row>, urgentCutoff: DateTime, pricedCutoff: DateTime)
    ensures forall x :: multiset(FindOrdersNeedingFollowUp(rows, urgentCutoff, pricedCutoff))[x]
                        == multiset(FindOldPendingAnalysis(rows, urgentCutoff))[x] + multiset(FindOldPricedOrders(rows, pricedCutoff))[x]
  {
  }

  // ---------------------------------------------------------------------------------------------
  // The administrator's search

  /** The parameters of `findWithFilters`; a missing one disables its condition. */
  datatype Filters = Filters(
    status: Option<Status>,
    supplierId: Option<SupplierId>,
    urgency: Option<Urgency>,
    category: Option<string>,
    minValue: Option<int>,
    maxValue: Option<int>,
    startDate: Option<DateTime>,
    endDate: Option<DateTime>,
    searchTerm: Option<string>)

  /** `LOWER(column) LIKE LOWER('%' || term || '%')`: a `NULL` column never matches. */
  predicate LikeIgnoringCase(column: Option<string>, term: string)
  {
    column.Some? && Contains(ToLower(column.value), ToLower(term))
  }

  /** The `WHERE` clause of `findWithFilters`; `fullName` gives the client's name, when the client has one. */
  predicate MatchesFilters(t: Row, f: Filters, fullName: map<ClientId, string>)
  {
    && (f.status.None? || t.status == f.status.value)
    && (f.supplierId.None? || t.supplier == f.supplierId)
    && (f.urgency.None? || t.urgency == f.urgency.value)
    && (f.category.None? || (t.category.Some? && ToLower(t.category.value) == ToLower(f.category.value)))
    && (f.minValue.None? || (t.finalPrice.Some? && t.finalPrice.value >= f.minValue.value))
    && (f.maxValue.None? || (t.finalPrice.Some? && t.finalPrice.value <= f.maxValue.value))
    && (f.startDate.None? || (t.createdAt.Some? && !Before(t.createdAt.value, f.startDate.value)))
    && (f.endDate.None? || (t.createdAt.Some? && !After(t.createdAt.value, f.endDate.value)))
    && (f.searchTerm.None?
        || LikeIgnoringCase(t.description, f.searchTerm.value)
        || LikeIgnoringCase(if t.client in fullName then Some(fullName[t.client]) else None, f.searchTerm.value)
        || LikeIgnoringCase(t.referenceCode, f.searchTerm.value))
  }

  /**
   * `findWithFilters`, before paging. The query has no `ORDER BY`; the model returns the
   * matching rows in the order they are stored.
   */
  function FindWithFilters(rows: seq<Row>, f: Filters, fullName: map<ClientId, string>): (r: seq<Row>)
    ensures forall k :: 0 <= k < |r| ==> MatchesFilters(r[k], f, fullName)
    ensures forall x :: multiset(r)[x] == if MatchesFilters(x, f, fullName) then multiset(rows)[x] else 0
  {
    var p := (t: Row) => MatchesFilters(t, f, fullName);
    var r := Lex.Filter(rows, p);
    forall x ensures multiset(r)[x] == if MatchesFilters(x, f, fullName) then multiset(rows)[x] else 0 {
      Lex.FilterCount(rows, p, x);
    }
    r
  }

  /** g is f with some of its parameters dropped. */
  predicate Relaxes(g: Filters, f: Filters)
  {
    && (g.status.None? || g.status == f.status)
    && (g.supplierId.None? || g.supplierId == f.supplierId)
    && (g.urgency.None? || g.urgency == f.urgency)
    && (g.category.None? || g.category == f.category)
    && (g.minValue.None? || g.minValue == f.minValue)
    && (g.maxValue.None? || g.maxValue == f.maxValue)
    && (g.startDate.None? || g.startDate == f.startDate)
    && (g.endDate.None? || g.endDate == f.endDate)
    && (g.searchTerm.None? || g.searchTerm == f.searchTerm)
  }

  const NoFilters := Filters(None, None, None, None, None, None, None, None, None)

  /**
   * Without parameters every order is returned, in the stored order the model keeps;
   * dropping parameters never loses an order, and each order is kept as often as it is
   * stored.
   */
  lemma FiltersOnlyNarrow(rows: seq<Row>, f: Filters, g: Filters, fullName: map<ClientId, string>)
    requires Relaxes(g, f)
    ensures FindWithFilters(rows, NoFilters, fullName) == rows
    ensures multiset(FindWithFilters(rows, f, fullName)) <= multiset(FindWithFilters(rows, g, fullName))
  {
    Lex.FilterAll(rows, t => MatchesFilters(t, NoFilters, fullName));
    forall x | true ensures multiset(FindWithFilters(rows, f, fullName))[x] <= multiset(FindWithFilters(rows, g, fullName))[x] {
      assert MatchesFilters(x, f, fullName) ==> MatchesFilters(x, g, fullName);
    }
  }

  /**
   * The value bounds read the final price only: an order not yet priced is never within a
   * bound, and the estimated price never decides whether an order is kept.
   */
  lemma ValueBoundsReadFinalPrice(t: Row, f: Filters, fullName: map<ClientId, string>, estimate: Option<int>)
    ensures (f.minValue.Some? || f.maxValue.Some?) && t.finalPrice.None? ==> !MatchesFilters(t, f, fullName)
    ensures MatchesFilters(t.(estimatedPrice := estimate), f, fullName) == MatchesFilters(t, f, fullName)
  {
  }
}

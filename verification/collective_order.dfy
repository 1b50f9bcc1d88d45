/**
 * A collective order (`CollectiveOrder`): a pool of confirmed custom orders for one supplier.
 * The pool sums its members' values, moves to MINIMUM_REACHED once the sum reaches the
 * supplier's minimum, and pushes each later stage (supplier paid, in transit, received,
 * delivered) into every member. Cancelling the pool detaches every member and sends it back
 * to CONFIRMED.
 */
module CollectiveOrders {
  import opened Common
  import opened Time
  import CustomOrders

  type CustomOrder = CustomOrders.CustomOrder

  /** `CollectiveOrderStatus`. */
  datatype Status =
    | Open | MinimumReached | PaymentWindow | SupplierPaid | InTransit
    | Received | Delivered | Closed | Cancelled

  /** The columns of a collective-order row (money in cents). */
  datatype Row = Row(
    id: PoolId,
    supplier: SupplierId,
    status: Status,
    minimumValue: int,
    currentValue: int,
    paymentDeadline: Option<DateTime>,
    supplierPaymentDate: Option<DateTime>,
    anticipatedAmount: int,
    totalReceived: int,
    profitMargin: int,
    observations: Option<string>,
    trackingCode: Option<string>,
    actualDeliveryDate: Option<DateTime>,
    createdAt: Option<DateTime>,
    closedAt: Option<DateTime>,
    minimumReachedAt: Option<DateTime>,
    paymentWindowOpenedAt: Option<DateTime>,
    shippedAt: Option<DateTime>,
    deliveredAt: Option<DateTime>,
    closedBy: Option<string>)

  /** `recalculateCurrentValue`: the sum of the members' total values. */
  function Sum(os: seq<CustomOrder>): int
    reads os
    decreases |os|
  {
    if os == [] then 0 else Sum(os[..|os| - 1]) + os[|os| - 1].GetTotalValue()
  }

  /** The sum changes only when some member's total value does. */
  twostate lemma {:induction false} SumOfSameValues(os: seq<CustomOrder>)
    requires forall k :: 0 <= k < |os| ==> os[k].GetTotalValue() == old(os[k].GetTotalValue())
    ensures Sum(os) == old(Sum(os))
    decreases |os|
  {
    if os != [] {
      SumOfSameValues(os[..|os| - 1]);
    }
  }

  /** The sum over a concatenation is the sum of the sums. */
  lemma {:induction false} SumConcat(a: seq<CustomOrder>, b: seq<CustomOrder>)
    ensures Sum(a + b) == Sum(a) + Sum(b)
    decreases |b|
  {
    if b == [] {
      assert a + b == a;
    } else {
      assert (a + b)[..|a + b| - 1] == a + b[..|b| - 1];
      assert (a + b)[|a + b| - 1] == b[|b| - 1];
      SumConcat(a, b[..|b| - 1]);
    }
  }

  /** Removing a member takes exactly its value off the sum; removing a non-member changes nothing. */
  lemma {:induction false} SumRemoveFirst(os: seq<CustomOrder>, o: CustomOrder)
    ensures Sum(RemoveFirst(os, o)) == Sum(os) - (if o in os then o.GetTotalValue() else 0)
  {
    if os != [] {
      assert os == [os[0]] + os[1..];
      SumConcat([os[0]], os[1..]);
      assert Sum([os[0]]) == os[0].GetTotalValue() by {
        assert [os[0]][..0] == [];
      }
      if os[0] != o {
        SumRemoveFirst(os[1..], o);
        SumConcat([os[0]], RemoveFirst(os[1..], o));
      }
    }
  }

  /** Members within the amount bounds give a sum that is never negative. */
  lemma {:induction false} SumNonNegative(os: seq<CustomOrder>)
    requires forall o :: o in os ==> CustomOrders.AmountsInBounds(o.AsRow())
    ensures Sum(os) >= 0
    decreases |os|
  {
    if os != [] {
      SumNonNegative(os[..|os| - 1]);
      CustomOrders.TotalValueNonNegative(os[|os| - 1].AsRow());
    }
  }

  /** The distinct clients among the orders. */
  function Clients(os: seq<CustomOrder>): set<ClientId>
  {
    set o | o in os :: o.client
  }

  /** There are never more distinct clients than orders, and at least one when there is an order. */
  lemma {:induction false} ClientsBound(os: seq<CustomOrder>)
    ensures |Clients(os)| <= |os|
    ensures os != [] ==> |Clients(os)| >= 1
  {
    if os != [] {
      var rest := os[1..];
      ClientsBound(rest);
      assert Clients(os) == Clients(rest) + {os[0].client} by {
        assert os == [os[0]] + rest;
      }
      assert os[0].client in Clients(os);
    }
  }

  /** The note `cancel` writes into the observations. */
  function CancelNote(observations: Option<string>, reason: Option<string>): (note: string)
    ensures EndsWith(note, "CANCELADO: " + TextOrNull(reason))
    ensures observations.Some? ==> StartsWith(note, observations.value + " | ")
  {
    (if observations.Some? then observations.value + " | " else "") + "CANCELADO: " + TextOrNull(reason)
  }

  class CollectiveOrder {
    const id: PoolId
    const supplier: SupplierId
    var status: Status
    var minimumValue: int
    var currentValue: int
    var paymentDeadline: Option<DateTime>
    var supplierPaymentDate: Option<DateTime>
    var anticipatedAmount: int
    var totalReceived: int
    var profitMargin: int
    var observations: Option<string>
    var trackingCode: Option<string>
    var actualDeliveryDate: Option<DateTime>
    var createdAt: Option<DateTime>
    var closedAt: Option<DateTime>
    var minimumReachedAt: Option<DateTime>
    var paymentWindowOpenedAt: Option<DateTime>
    var shippedAt: Option<DateTime>
    var deliveredAt: Option<DateTime>
    var closedBy: Option<string>
    var customOrders: seq<CustomOrder>

    /** The pool's current column values. */
    function AsRow(): Row
      reads this
    {
      Row(id, supplier, status, minimumValue, currentValue, paymentDeadline, supplierPaymentDate,
          anticipatedAmount, totalReceived, profitMargin, observations, trackingCode,
          actualDeliveryDate, createdAt, closedAt, minimumReachedAt, paymentWindowOpenedAt,
          shippedAt, deliveredAt, closedBy)
    }

    /** A new, empty, OPEN pool. */
    constructor (id: PoolId, supplier: SupplierId, minimumValue: int, paymentDeadline: DateTime)
      ensures customOrders == []
      ensures AsRow() == Row(id, supplier, Open, minimumValue, 0, Some(paymentDeadline), None, 0, 0, 0,
                             None, None, None, None, None, None, None, None, None, None)
    {
      this.id := id;
      this.supplier := supplier;
      status := Open;
      this.minimumValue := minimumValue;
      currentValue := 0;
      this.paymentDeadline := Some(paymentDeadline);
      supplierPaymentDate := None;
      anticipatedAmount := 0;
      totalReceived := 0;
      profitMargin := 0;
      observations := None;
      trackingCode := None;
      actualDeliveryDate := None;
      createdAt := None;
      closedAt := None;
      minimumReachedAt := None;
      paymentWindowOpenedAt := None;
      shippedAt := None;
      deliveredAt := None;
      closedBy := None;
      customOrders := [];
    }

    /** `isMinimumReached`. */
    predicate IsMinimumReached()
      reads this
    {
      currentValue >= minimumValue
    }

    /**
     * `addCustomOrder`: a CONFIRMED order joins an OPEN pool, the value is recomputed over all
     * members, and the pool reaches its minimum as soon as the sum allows. Nothing changes when
     * either guard fails.
     */
    method AddCustomOrder(o: CustomOrder, now: DateTime) returns (r: Outcome<Exception>)
      modifies this`customOrders, this`currentValue, this`status, this`minimumReachedAt
      modifies o`collectiveOrder, o`status
      ensures r.Pass? <==> old(status) == Open && old(o.status) == CustomOrders.Confirmed
      ensures r.Fail? ==> r.error == IllegalState && unchanged(this) && unchanged(o)
      ensures r.Pass? ==> customOrders == old(customOrders) + [o]
      ensures r.Pass? ==> o.collectiveOrder == Some(id) && o.status == CustomOrders.InCollective
      ensures r.Pass? ==> currentValue == old(Sum(customOrders + [o]))
      ensures r.Pass? && currentValue >= minimumValue ==> status == MinimumReached && minimumReachedAt == Some(now)
      ensures r.Pass? && currentValue < minimumValue ==> status == Open && minimumReachedAt == old(minimumReachedAt)
    {
      if status != Open {
        return Fail(IllegalState);
      }
      r := o.AddToCollectiveOrder(id);
      if r.Fail? {
        return;
      }
      customOrders := customOrders + [o];
      currentValue := Sum(customOrders);
      SumOfSameValues(customOrders);
      if IsMinimumReached() && status == Open {
        var reached := ReachMinimum(now);
      }
    }

    /**
     * `removeCustomOrder`: drops the first occurrence of the order, clears its pool reference
     * and recomputes the value over the remaining members; neither the pool's status nor the
     * member's status changes.
     */
    method RemoveCustomOrder(o: CustomOrder)
      modifies this`customOrders, this`currentValue, o`collectiveOrder
      ensures customOrders == RemoveFirst(old(customOrders), o)
      ensures o.collectiveOrder == None
      ensures currentValue == old(Sum(RemoveFirst(customOrders, o)))
      ensures customOrders == [] ==> currentValue == 0
    {
      var rest := RemoveFirst(customOrders, o);
      var value := Sum(rest);
      o.collectiveOrder := None;
      customOrders, currentValue := rest, value;
    }

    /** `reachMinimum`: checks only the value, not the status. */
    method ReachMinimum(now: DateTime) returns (r: Outcome<Exception>)
      modifies this`status, this`minimumReachedAt
      ensures r.Pass? <==> old(IsMinimumReached())
      ensures r.Pass? ==> status == MinimumReached && minimumReachedAt == Some(now)
      ensures r.Fail? ==> r.error == IllegalState && unchanged(this)
    {
      if !IsMinimumReached() {
        return Fail(IllegalState);
      }
      status, minimumReachedAt := MinimumReached, Some(now);
      return Pass;
    }

    /** `openPaymentWindow`: the one transition that checks the pool's status. */
    method OpenPaymentWindow(now: DateTime) returns (r: Outcome<Exception>)
      modifies this`status, this`paymentWindowOpenedAt
      ensures r.Pass? <==> old(status) == MinimumReached
      ensures r.Pass? ==> status == PaymentWindow && paymentWindowOpenedAt == Some(now)
      ensures r.Fail? ==> r.error == IllegalState && unchanged(this)
    {
      if status != MinimumReached {
        return Fail(IllegalState);
      }
      status, paymentWindowOpenedAt := PaymentWindow, Some(now);
      return Pass;
    }

    /** Gives every member the status s; nothing else about the members changes. */
    method SetMemberStatus(s: CustomOrders.Status)
      modifies customOrders`status
      ensures forall o :: o in customOrders ==> o.status == s
    {
      var i := 0;
      while i < |customOrders|
        invariant 0 <= i <= |customOrders|
        invariant forall j :: 0 <= j < i ==> customOrders[j].status == s
      {
        customOrders[i].status := s;
        i := i + 1;
      }
    }

    /** `paySupplier`: from any status; every member becomes SUPPLIER_PAID. */
    method PaySupplier(amount: int, now: DateTime)
      modifies this`anticipatedAmount, this`supplierPaymentDate, this`status, customOrders`status
      ensures anticipatedAmount == amount && supplierPaymentDate == Some(now) && status == SupplierPaid
      ensures forall o :: o in customOrders ==> o.status == CustomOrders.SupplierPaid
    {
      anticipatedAmount, supplierPaymentDate, status := amount, Some(now), SupplierPaid;
      SetMemberStatus(CustomOrders.SupplierPaid);
    }

    /** `markAsShipped`: from any status; every member becomes IN_TRANSIT. */
    method MarkAsShipped(trackingCode: Option<string>, now: DateTime)
      modifies this`trackingCode, this`shippedAt, this`status, customOrders`status
      ensures this.trackingCode == trackingCode && shippedAt == Some(now) && status == InTransit
      ensures forall o :: o in customOrders ==> o.status == CustomOrders.InTransit
    {
      this.trackingCode, shippedAt, status := trackingCode, Some(now), InTransit;
      SetMemberStatus(CustomOrders.InTransit);
    }

    /** `markAsReceived`: from any status; every member becomes RECEIVED. */
    method MarkAsReceived(now: DateTime)
      modifies this`status, this`actualDeliveryDate, customOrders`status
      ensures status == Received && actualDeliveryDate == Some(now)
      ensures forall o :: o in customOrders ==> o.status == CustomOrders.Received
    {
      status, actualDeliveryDate := Received, Some(now);
      SetMemberStatus(CustomOrders.Received);
    }

    /** `markAsDelivered`: from any status; the pool and every member are marked delivered at the given time. */
    method MarkAsDelivered(now: DateTime)
      modifies this`status, this`deliveredAt, customOrders`status, customOrders`deliveredAt
      ensures status == Delivered && deliveredAt == Some(now)
      ensures forall o :: o in customOrders ==> o.status == CustomOrders.Delivered && o.deliveredAt == Some(now)
    {
      status, deliveredAt := Delivered, Some(now);
      var i := 0;
      while i < |customOrders|
        invariant 0 <= i <= |customOrders|
        invariant status == Delivered && deliveredAt == Some(now)
        invariant forall j :: 0 <= j < i ==> customOrders[j].status == CustomOrders.Delivered && customOrders[j].deliveredAt == Some(now)
      {
        customOrders[i].MarkAsDelivered(now);
        i := i + 1;
      }
    }

    /**
     * `close`: from any status. The final profit margin is what was received less what was
     * paid in advance, computed only when both are positive.
     */
    method Close(adminId: Option<string>, now: DateTime)
      modifies this`status, this`closedAt, this`closedBy, this`profitMargin
      ensures status == Closed && closedAt == Some(now) && closedBy == adminId
      ensures profitMargin == if totalReceived > 0 && anticipatedAmount > 0
                              then totalReceived - anticipatedAmount
                              else old(profitMargin)
    {
      status, closedAt, closedBy := Closed, Some(now), adminId;
      if totalReceived > 0 && anticipatedAmount > 0 {
        profitMargin := totalReceived - anticipatedAmount;
      }
    }

    /** One step of `cancel`: the order leaves the pool and is CONFIRMED again. */
    method Release(o: CustomOrder)
      modifies this`customOrders, this`currentValue, o`collectiveOrder, o`status
      ensures customOrders == RemoveFirst(old(customOrders), o)
      ensures customOrders == [] ==> currentValue == 0
      ensures o.collectiveOrder == None && o.status == CustomOrders.Confirmed
    {
      RemoveCustomOrder(o);
      o.status := CustomOrders.Confirmed;
    }

    /**
     * `cancel`: from any status. Every member leaves the pool and is CONFIRMED again, the pool
     * ends up empty (its value recomputed to zero if it had members) and the reason is noted.
     */
    method Cancel(reason: Option<string>, now: DateTime)
      modifies this`status, this`closedAt, this`observations, this`customOrders, this`currentValue
      modifies customOrders`collectiveOrder, customOrders`status
      ensures status == Cancelled && closedAt == Some(now)
      ensures observations == Some(CancelNote(old(observations), reason))
      ensures customOrders == []
      ensures currentValue == if old(customOrders) == [] then old(currentValue) else 0
      ensures forall o :: o in old(customOrders) ==> o.status == CustomOrders.Confirmed && o.collectiveOrder == None
    {
      status, closedAt, observations := Cancelled, Some(now), Some(CancelNote(observations, reason));
      var members := customOrders;
      var i := 0;
      while i < |members|
        invariant 0 <= i <= |members|
        invariant customOrders == members[i..]
        invariant status == Cancelled && closedAt == Some(now)
        invariant observations == Some(CancelNote(old(observations), reason))
        invariant i == 0 ==> currentValue == old(currentValue)
        invariant 0 < i == |members| ==> currentValue == 0
        invariant forall j :: 0 <= j < i ==>
                    members[j].status == CustomOrders.Confirmed && members[j].collectiveOrder == None
      {
        Release(members[i]);
        assert members[i..] == [members[i]] + members[i + 1..];
        i := i + 1;
      }
    }

    /** `getRemainingAmount`: what is still missing to reach the minimum, never negative. */
    function GetRemainingAmount(): (r: int)
      reads this
      ensures r >= 0
      ensures r == 0 <==> IsMinimumReached()
      ensures r > 0 ==> currentValue + r == minimumValue
    {
      if minimumValue - currentValue > 0 then minimumValue - currentValue else 0
    }

    /** `getCompletionPercentage`, over the reals (the double rounding is not modelled). */
    function GetCompletionPercentage(): (p: real)
      reads this
      ensures p <= 100.0
      ensures minimumValue > 0 ==> (p == 100.0 <==> IsMinimumReached())
      ensures minimumValue > 0 && currentValue >= 0 ==> p >= 0.0
    {
      if minimumValue == 0 then 0.0
      else
        var ratio := (currentValue as real / minimumValue as real) * 100.0;
        if ratio <= 100.0 then ratio else 100.0
    }

    /** `getParticipantCount`: the number of distinct clients among the members. */
    function GetParticipantCount(): (n: int)
      reads this
      ensures 0 <= n <= |customOrders|
      ensures n == 0 <==> customOrders == []
    {
      ClientsBound(customOrders);
      |Clients(customOrders)|
    }

    /** `isPaymentDeadlineNear`: the deadline falls within the next 24 hours (or has passed). */
    predicate IsPaymentDeadlineNear(now: DateTime)
      reads this
    {
      paymentDeadline.Some? && Before(paymentDeadline.value, PlusHours(now, 24))
    }

    /** `isPaymentOverdue`. */
    predicate IsPaymentOverdue(now: DateTime)
      reads this
    {
      paymentDeadline.Some? && After(now, paymentDeadline.value)
    }
  }

  /** A pool whose payment deadline has passed is also reported as near its deadline. */
  lemma OverdueIsNear(p: CollectiveOrder, now: DateTime)
    requires p.IsPaymentOverdue(now)
    ensures p.IsPaymentDeadlineNear(now)
  {
    DayInHours(now);
    PlusDaysLater(now, 1);
    BeforeTransitive(p.paymentDeadline.value, now, PlusHours(now, 24));
  }

  /**
   * The threshold example: an empty pool with a minimum of 500.00 stays OPEN after a first
   * order of 200.00 and reaches its minimum when a second order of 2 × 150.00 brings it to 500.00.
   */
  method ThresholdExample(p: CollectiveOrder, a: CustomOrder, b: CustomOrder, now: DateTime)
    requires p.status == Open && p.customOrders == [] && p.minimumValue == 50000
    requires a != b && a.client != b.client
    requires a.status == CustomOrders.Confirmed && a.finalPrice == Some(20000) && a.quantity == Some(1)
    requires b.status == CustomOrders.Confirmed && b.finalPrice == Some(15000) && b.quantity == Some(2)
    modifies p, a, b
    ensures p.status == MinimumReached && p.currentValue == 50000 && p.customOrders == [a, b]
    ensures p.GetParticipantCount() == 2 && p.GetRemainingAmount() == 0
  {
    var addedA := p.AddCustomOrder(a, now);
    assert p.currentValue == 20000 by {
      assert [a][..0] == [];
    }
    assert p.status == Open;
    var addedB := p.AddCustomOrder(b, now);
    assert p.currentValue == 50000 by {
      assert [a, b][..1] == [a] && [a][..0] == [];
    }
    assert Clients(p.customOrders) == {a.client, b.client};
  }
}

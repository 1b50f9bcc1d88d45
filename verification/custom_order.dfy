/**
 * A client's custom order (`CustomOrder`): a request for one product, priced by an
 * administrator, confirmed by the client and then grouped with other orders of the same
 * supplier into a collective order. The entity's methods overwrite its status, price,
 * pool reference and timestamps in place.
 */
module CustomOrders {
  import opened Common
  import opened Time

  /** `CustomOrderStatus`. */
  datatype Status =
    | PendingAnalysis | Priced | Confirmed | InCollective | SupplierPaid
    | InTransit | Received | Delivered | Cancelled | Refunded

  /** `UrgencyLevel`, in declaration order. */
  datatype Urgency = Low | Normal | High | Urgent

  /** The position of an urgency level in its declaration, which is its order of severity. */
  function Severity(u: Urgency): nat
  {
    match u
    case Low => 0
    case Normal => 1
    case High => 2
    case Urgent => 3
  }

  /** The text stored in the urgency column (`@Enumerated(EnumType.STRING)`). */
  function StoredName(u: Urgency): string
  {
    match u
    case Low => "LOW"
    case Normal => "NORMAL"
    case High => "HIGH"
    case Urgent => "URGENT"
  }

  /** `isUrgent`: the two most severe levels. */
  predicate IsUrgentLevel(u: Urgency)
  {
    u == High || u == Urgent
  }

  lemma UrgentIffSevere(u: Urgency)
    ensures IsUrgentLevel(u) <==> Severity(u) >= Severity(High)
  {
  }

  /** The columns of a custom-order row that the modelled operations and queries read. */
  datatype Row = Row(
    client: ClientId,
    supplier: Option<SupplierId>,
    collectiveOrder: Option<PoolId>,
    referenceCode: Option<string>,
    description: Option<string>,
    category: Option<string>,
    alternativeColors: seq<string>,
    estimatedPrice: Option<int>,
    finalPrice: Option<int>,
    status: Status,
    urgency: Urgency,
    quantity: Option<int>,
    analyzedBy: Option<string>,
    cancellationReason: Option<string>,
    createdAt: Option<DateTime>,
    analyzedAt: Option<DateTime>,
    confirmedAt: Option<DateTime>,
    cancelledAt: Option<DateTime>,
    deliveredAt: Option<DateTime>)

  /** The bean-validation bounds on the amounts: quantity 1..10 and no negative price (in cents). */
  predicate AmountsInBounds(r: Row)
  {
    && r.quantity.Some? && 1 <= r.quantity.value <= 10
    && (r.estimatedPrice.None? || r.estimatedPrice.value >= 0)
    && (r.finalPrice.None? || r.finalPrice.value >= 0)
  }

  /** `getTotalValue`: final price times quantity, zero while either is unknown. */
  function TotalValue(finalPrice: Option<int>, quantity: Option<int>): (v: int)
    ensures finalPrice.None? || quantity.None? ==> v == 0
    ensures finalPrice.Some? && quantity == Some(1) ==> v == finalPrice.value
    ensures finalPrice.Some? && finalPrice.value >= 0 && quantity.Some? && 1 <= quantity.value <= 10
            ==> finalPrice.value <= v <= 10 * finalPrice.value
  {
    if finalPrice.None? || quantity.None? then 0 else finalPrice.value * quantity.value
  }

  /** An order within the bounds never has a negative total value. */
  lemma TotalValueNonNegative(r: Row)
    requires AmountsInBounds(r)
    ensures TotalValue(r.finalPrice, r.quantity) >= 0
  {
  }

  class CustomOrder {
    const client: ClientId
    var supplier: Option<SupplierId>
    var collectiveOrder: Option<PoolId>
    var referenceCode: Option<string>
    var description: Option<string>
    var category: Option<string>
    var alternativeColors: seq<string>
    var estimatedPrice: Option<int>
    var finalPrice: Option<int>
    var status: Status
    var urgency: Urgency
    var quantity: Option<int>
    var analyzedBy: Option<string>
    var cancellationReason: Option<string>
    var createdAt: Option<DateTime>
    var analyzedAt: Option<DateTime>
    var confirmedAt: Option<DateTime>
    var cancelledAt: Option<DateTime>
    var deliveredAt: Option<DateTime>

    /** The order's current column values. */
    function AsRow(): Row
      reads this
    {
      Row(client, supplier, collectiveOrder, referenceCode, description, category,
          alternativeColors, estimatedPrice, finalPrice, status, urgency, quantity,
          analyzedBy, cancellationReason, createdAt, analyzedAt, confirmedAt, cancelledAt, deliveredAt)
    }

    /** A new order as the client submits it: pending analysis, normal urgency, one unit. */
    constructor (client: ClientId, description: string, category: string, referenceCode: Option<string>, estimatedPrice: Option<int>)
      ensures AsRow() == Row(client, None, None, referenceCode, Some(description), Some(category),
                             [], estimatedPrice, None, PendingAnalysis, Normal, Some(1),
                             None, None, None, None, None, None, None)
    {
      this.client := client;
      supplier := None;
      collectiveOrder := None;
      this.referenceCode := referenceCode;
      this.description := Some(description);
      this.category := Some(category);
      alternativeColors := [];
      this.estimatedPrice := estimatedPrice;
      finalPrice := None;
      status := PendingAnalysis;
      urgency := Normal;
      quantity := Some(1);
      analyzedBy := None;
      cancellationReason := None;
      createdAt := None;
      analyzedAt := None;
      confirmedAt := None;
      cancelledAt := None;
      deliveredAt := None;
    }

    /** `addAlternativeColor`: appends the trimmed colour unless it is null or blank. */
    method AddAlternativeColor(color: Option<string>)
      modifies this`alternativeColors
      ensures alternativeColors == AddTrimmed(old(alternativeColors), color)
    {
      if color.Some? && !IsBlank(color.value) {
        alternativeColors := alternativeColors + [Trim(color.value)];
      }
    }

    /** `removeAlternativeColor`: removes the first equal entry, if any. */
    method RemoveAlternativeColor(color: string)
      modifies this`alternativeColors
      ensures alternativeColors == RemoveFirst(old(alternativeColors), color)
    {
      alternativeColors := RemoveFirst(alternativeColors, color);
    }

    /** `analyze`: records the administrator's price and supplier and moves to PRICED, from any status. */
    method Analyze(adminId: string, price: Option<int>, supplier: Option<SupplierId>, now: DateTime)
      modifies this`analyzedBy, this`finalPrice, this`supplier, this`status, this`analyzedAt
      ensures analyzedBy == Some(adminId) && finalPrice == price && this.supplier == supplier
      ensures status == Priced && analyzedAt == Some(now)
    {
      analyzedBy, finalPrice, this.supplier, status, analyzedAt := Some(adminId), price, supplier, Priced, Some(now);
    }

    /** `confirm`: only a PRICED order can be confirmed; otherwise nothing changes. */
    method Confirm(now: DateTime) returns (r: Outcome<Exception>)
      modifies this`status, this`confirmedAt
      ensures r.Pass? <==> old(status) == Priced
      ensures r.Pass? ==> status == Confirmed && confirmedAt == Some(now)
      ensures r.Fail? ==> r.error == IllegalState && unchanged(this)
    {
      if status != Priced {
        return Fail(IllegalState);
      }
      status, confirmedAt := Confirmed, Some(now);
      return Pass;
    }

    /** `cancel`: from any status; the price, supplier and pool reference stay as they were. */
    method Cancel(reason: Option<string>, now: DateTime)
      modifies this`status, this`cancellationReason, this`cancelledAt
      ensures status == Cancelled && cancellationReason == reason && cancelledAt == Some(now)
    {
      status, cancellationReason, cancelledAt := Cancelled, reason, Some(now);
    }

    /** `addToCollectiveOrder`: only a CONFIRMED order joins a pool; otherwise nothing changes. */
    method AddToCollectiveOrder(pool: PoolId) returns (r: Outcome<Exception>)
      modifies this`collectiveOrder, this`status
      ensures r.Pass? <==> old(status) == Confirmed
      ensures r.Pass? ==> collectiveOrder == Some(pool) && status == InCollective
      ensures r.Fail? ==> r.error == IllegalState && unchanged(this)
    {
      if status != Confirmed {
        return Fail(IllegalState);
      }
      collectiveOrder, status := Some(pool), InCollective;
      return Pass;
    }

    /** `markAsDelivered`: from any status. */
    method MarkAsDelivered(now: DateTime)
      modifies this`status, this`deliveredAt
      ensures status == Delivered && deliveredAt == Some(now)
    {
      status, deliveredAt := Delivered, Some(now);
    }

    /** `getTotalValue`. */
    function GetTotalValue(): int
      reads this
    {
      TotalValue(finalPrice, quantity)
    }

    /** `isUrgent`. */
    predicate IsUrgent()
      reads this
    {
      IsUrgentLevel(urgency)
    }

    /** `getDaysOld`: whole days since creation, 0 while the creation time is unset. */
    function GetDaysOld(now: DateTime): (d: int)
      reads this
      ensures createdAt.None? || createdAt == Some(now) ==> d == 0
    {
      if createdAt.None? then 0 else DaysBetweenSelf(now); DaysBetween(createdAt.value, now)
    }
  }
}

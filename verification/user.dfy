/**
 * A client account (`User`): its cached credit balance, which `addCredit` raises and
 * `subtractCredit` lowers without ever going below zero, its order statistics, its account
 * status and its list of delivery addresses.
 */
module Users {
  import opened Common
  import opened Time

  /** `UserStatus`. */
  datatype UserStatus = Active | Inactive | Suspended | Blocked | PendingVerification

  /** An address entity, by reference. */
  type AddressId = nat

  /** `isFrequentCustomer` needs at least this many orders. */
  const FREQUENT_ORDERS: int := 5

  /** `isVipCustomer` needs purchases of at least R$ 1000, in cents. */
  const VIP_SPENT: int := 100000

  /** `isInactiveCustomer` needs more than this many days since the last order. */
  const INACTIVE_DAYS: int := 90

  /** The balance after `addCredit(amount)`: only a positive amount is added. */
  function BalanceAfterAdd(balance: int, amount: Option<int>): (b: int)
    ensures b >= balance
    ensures b == balance <==> amount.None? || amount.value <= 0
  {
    if amount.Some? && amount.value > 0 then balance + amount.value else balance
  }

  /**
   * The balance after `subtractCredit(amount)`: a positive amount above the balance fails
   * with an IllegalArgumentException; any other positive amount is taken off, and a missing or
   * non-positive amount changes nothing.
   */
  function BalanceAfterSubtract(balance: int, amount: Option<int>): (r: Result<int, Exception>)
    ensures r.Failure? <==> amount.Some? && amount.value > 0 && balance < amount.value
    ensures r.Failure? ==> r.error == IllegalArgument
    ensures r.Success? ==> 0 <= balance - r.value && (balance >= 0 ==> r.value >= 0)
    ensures r.Success? && amount.Some? && amount.value > 0 ==> r.value + amount.value == balance
  {
    if amount.Some? && amount.value > 0 then
      var newBalance := balance - amount.value;
      if newBalance < 0 then Failure(IllegalArgument) else Success(newBalance)
    else
      Success(balance)
  }

  /** `hasSufficientCredit`: a missing amount is always covered. */
  predicate SufficientCredit(balance: int, amount: Option<int>)
  {
    amount.None? || balance >= amount.value
  }

  /** On a non-negative balance, `hasSufficientCredit` holds exactly when `subtractCredit` would succeed. */
  lemma SufficientIffSubtractSucceeds(balance: int, amount: Option<int>)
    requires balance >= 0
    ensures SufficientCredit(balance, amount) <==> BalanceAfterSubtract(balance, amount).Success?
  {
  }

  /** A call of `addCredit` or `subtractCredit`. */
  datatype CreditCall = AddCredit(addAmount: Option<int>) | SubtractCredit(subtractAmount: Option<int>)

  /** The balance after a series of calls; a failing subtraction leaves the balance as it was. */
  function BalanceAfterCalls(balance: int, calls: seq<CreditCall>): int
    decreases |calls|
  {
    if calls == [] then balance
    else
      var next := match calls[0]
        case AddCredit(a) => BalanceAfterAdd(balance, a)
        case SubtractCredit(a) =>
          var r := BalanceAfterSubtract(balance, a);
          if r.Success? then r.value else balance;
      BalanceAfterCalls(next, calls[1..])
  }

  /** The balance starts at zero and no series of credit calls ever makes it negative. */
  lemma {:induction false} BalanceNeverNegative(balance: int, calls: seq<CreditCall>)
    requires balance >= 0
    ensures BalanceAfterCalls(balance, calls) >= 0
    decreases |calls|
  {
    if calls != [] {
      var next := match calls[0]
        case AddCredit(a) => BalanceAfterAdd(balance, a)
        case SubtractCredit(a) =>
          var r := BalanceAfterSubtract(balance, a);
          if r.Success? then r.value else balance;
      assert next >= 0;
      BalanceNeverNegative(next, calls[1..]);
    }
  }

  /** Credits added and then subtracted in full restore the balance. */
  lemma AddThenSubtract(balance: int, amount: int)
    requires balance >= 0 && amount > 0
    ensures BalanceAfterCalls(balance, [AddCredit(Some(amount)), SubtractCredit(Some(amount))]) == balance
  {
    var calls := [AddCredit(Some(amount)), SubtractCredit(Some(amount))];
    assert calls[1..] == [SubtractCredit(Some(amount))];
    assert BalanceAfterCalls(balance, calls) == BalanceAfterCalls(balance + amount, calls[1..]);
    assert calls[1..][1..] == [];
    assert BalanceAfterCalls(balance + amount, calls[1..]) == BalanceAfterCalls(balance, []);
  }

  /** `getDaysSinceLastOrder`: `Long.MAX_VALUE` for a client who never ordered. */
  function DaysSinceLastOrder(lastOrderDate: Option<DateTime>, now: DateTime): (d: int)
    ensures lastOrderDate.None? ==> d == LONG_MAX
    ensures lastOrderDate == Some(now) ==> d == 0
  {
    if lastOrderDate.None? then LONG_MAX else DaysBetweenSelf(now); DaysBetween(lastOrderDate.value, now)
  }

  /** A client who never ordered is inactive; one who ordered n days ago is inactive exactly when n > 90. */
  lemma InactiveCustomer(now: DateTime, n: nat)
    ensures DaysSinceLastOrder(None, now) > INACTIVE_DAYS
    ensures DaysSinceLastOrder(Some(now), PlusDays(now, n)) > INACTIVE_DAYS <==> n > 90
  {
    DaysBetweenPlusDays(now, n);
  }

  class User {
    var status: UserStatus
    var creditBalance: int
    var lastAccess: Option<DateTime>
    var lastOrderDate: Option<DateTime>
    var totalOrders: Option<Int32>
    var totalSpent: Option<int>
    var addresses: seq<AddressId>

    /** A new account: active, no credit, no orders, no addresses. */
    constructor ()
      ensures status == Active && creditBalance == 0
      ensures lastAccess == None && lastOrderDate == None
      ensures totalOrders == Some(0) && totalSpent == Some(0) && addresses == []
    {
      status, creditBalance := Active, 0;
      lastAccess, lastOrderDate := None, None;
      totalOrders, totalSpent, addresses := Some(0), Some(0), [];
    }

    /** `isActive`. */
    predicate IsActive()
      reads this
    {
      status == Active
    }

    /** `activate`. */
    method Activate()
      modifies this`status
      ensures status == Active
    {
      status := Active;
    }

    /** `deactivate`. */
    method Deactivate()
      modifies this`status
      ensures status == Inactive
    {
      status := Inactive;
    }

    /** `suspend`. */
    method Suspend()
      modifies this`status
      ensures status == Suspended
    {
      status := Suspended;
    }

    /** `block`. */
    method Block()
      modifies this`status
      ensures status == Blocked
    {
      status := Blocked;
    }

    /** `updateLastAccess`. */
    method UpdateLastAccess(now: DateTime)
      modifies this`lastAccess
      ensures lastAccess == Some(now)
    {
      lastAccess := Some(now);
    }

    /** `addCredit`. */
    method AddCredit(amount: Option<int>)
      modifies this`creditBalance
      ensures creditBalance == BalanceAfterAdd(old(creditBalance), amount)
    {
      if amount.Some? && amount.value > 0 {
        creditBalance := creditBalance + amount.value;
      }
    }

    /** `subtractCredit`: on failure the balance stays as it was. */
    method SubtractCredit(amount: Option<int>) returns (r: Outcome<Exception>)
      modifies this`creditBalance
      ensures var after := BalanceAfterSubtract(old(creditBalance), amount);
              (r.Pass? <==> after.Success?) && (r.Pass? ==> creditBalance == after.value)
      ensures r.Fail? ==> r.error == IllegalArgument && unchanged(this)
      ensures old(creditBalance) >= 0 ==> (r.Pass? <==> old(HasSufficientCredit(amount)))
    {
      if amount.Some? && amount.value > 0 {
        var newBalance := creditBalance - amount.value;
        if newBalance < 0 {
          return Fail(IllegalArgument);
        }
        creditBalance := newBalance;
      }
      return Pass;
    }

    /** `hasSufficientCredit`. */
    predicate HasSufficientCredit(amount: Option<int>)
      reads this
    {
      SufficientCredit(creditBalance, amount)
    }

    /**
     * `updateOrderStats`: one more order (a missing count counts as 0, and the Java `int`
     * wraps around), the order date, and the value added to the total only when positive.
     */
    method UpdateOrderStats(orderValue: Option<int>, now: DateTime)
      modifies this`totalOrders, this`lastOrderDate, this`totalSpent
      ensures totalOrders == Some(Increment(if old(totalOrders).None? then 0 else old(totalOrders).value))
      ensures lastOrderDate == Some(now)
      ensures totalSpent == if orderValue.Some? && orderValue.value > 0
                            then Some((if old(totalSpent).None? then 0 else old(totalSpent).value) + orderValue.value)
                            else old(totalSpent)
      ensures old(IsVipCustomer()) ==> IsVipCustomer()
      ensures old(IsFrequentCustomer()) && old(totalOrders.value) as int < INT_MAX ==> IsFrequentCustomer()
    {
      var count: Int32 := if totalOrders.None? then 0 else totalOrders.value;
      totalOrders, lastOrderDate := Some(Increment(count)), Some(now);
      if orderValue.Some? && orderValue.value > 0 {
        totalSpent := Some((if totalSpent.None? then 0 else totalSpent.value) + orderValue.value);
      }
    }

    /** `isFrequentCustomer`. */
    predicate IsFrequentCustomer()
      reads this
    {
      totalOrders.Some? && totalOrders.value as int >= FREQUENT_ORDERS
    }

    /** `isVipCustomer`. */
    predicate IsVipCustomer()
      reads this
    {
      totalSpent.Some? && totalSpent.value >= VIP_SPENT
    }

    /** `getDaysSinceLastOrder`. */
    function GetDaysSinceLastOrder(now: DateTime): int
      reads this
    {
      DaysSinceLastOrder(lastOrderDate, now)
    }

    /** `isInactiveCustomer`. */
    predicate IsInactiveCustomer(now: DateTime)
      reads this
    {
      GetDaysSinceLastOrder(now) > INACTIVE_DAYS
    }

    /** `getPrimaryAddress`: the first address, or none when the list is empty. */
    function GetPrimaryAddress(): (a: Option<AddressId>)
      reads this
      ensures a.None? <==> addresses == []
      ensures a.Some? ==> a.value in addresses && a.value == addresses[0]
    {
      if addresses == [] then None else Some(addresses[0])
    }

    /** `addAddress`: a missing address is ignored; appending never changes the primary address. */
    method AddAddress(address: Option<AddressId>)
      modifies this`addresses
      ensures addresses == if address.Some? then old(addresses) + [address.value] else old(addresses)
      ensures old(addresses) != [] ==> GetPrimaryAddress() == old(GetPrimaryAddress())
      ensures old(addresses) == [] ==> GetPrimaryAddress() == address
    {
      if address.Some? {
        addresses := addresses + [address.value];
      }
    }

    /** `removeAddress`: the first equal address goes, if there is one. */
    method RemoveAddress(address: AddressId)
      modifies this`addresses
      ensures addresses == RemoveFirst(old(addresses), address)
      ensures old(addresses) != [] && old(addresses[0]) != address ==> GetPrimaryAddress() == old(GetPrimaryAddress())
    {
      addresses := RemoveFirst(addresses, address);
    }
  }
}

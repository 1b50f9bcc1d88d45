/**
 * A supplier (`Supplier`): its minimum order value, its administrative fee, the categories it
 * serves and its status. Money is in cents and the fee percentage in hundredths of a percent
 * (15.50 % is 1550); the fee arithmetic of `BigDecimal` is exact here, so it is stated on reals.
 */
module Suppliers {
  import opened Common

  /** `SupplierStatus`. */
  datatype SupplierStatus = Active | Inactive | Suspended | PendingVerification

  /** 100.00 %, in hundredths of a percent. */
  const FULL_FEE: int := 10000

  /**
   * `calculateValueWithFee`: the base value times (1 + fee / 100); the base comes back unchanged
   * when either the base or the fee is missing.
   */
  function ValueWithFee(baseValue: Option<int>, adminFeePercentage: Option<int>): (r: Option<real>)
    ensures r.None? <==> baseValue.None?
    ensures baseValue.Some? && (adminFeePercentage.None? || adminFeePercentage.value == 0) ==> r == Some(baseValue.value as real)
    ensures baseValue.Some? && baseValue.value >= 0 && adminFeePercentage.Some? && 0 <= adminFeePercentage.value <= FULL_FEE
            ==> baseValue.value as real <= r.value <= 2.0 * baseValue.value as real
  {
    if baseValue.None? || adminFeePercentage.None? then
      if baseValue.None? then None else Some(baseValue.value as real)
    else
      var base, fee := baseValue.value as real, adminFeePercentage.value as real;
      assert 0.0 <= base && 0.0 <= fee <= 10000.0 ==> base * fee / 10000.0 <= base by {
        if 0.0 <= base && 0.0 <= fee <= 10000.0 {
          assert base * fee <= base * 10000.0;
        }
      }
      Some(base * (fee / 10000.0 + 1.0))
  }

  /** A higher fee never gives a lower value on a non-negative base. */
  lemma ValueWithFeeMonotone(baseValue: int, fee1: int, fee2: int)
    requires baseValue >= 0 && fee1 <= fee2
    ensures ValueWithFee(Some(baseValue), Some(fee1)).value <= ValueWithFee(Some(baseValue), Some(fee2)).value
  {
    var base := baseValue as real;
    assert base * (fee1 as real / 10000.0) <= base * (fee2 as real / 10000.0);
  }

  /** `meetsMinimumOrder`: false when either value is missing. */
  predicate MeetsMinimum(orderValue: Option<int>, minimumOrderValue: Option<int>)
  {
    orderValue.Some? && minimumOrderValue.Some? && orderValue.value >= minimumOrderValue.value
  }

  /** A value that meets the minimum still does with a non-negative fee applied, and any larger value does too. */
  lemma MeetsMinimumUpward(orderValue: int, larger: int, minimumOrderValue: int, fee: int)
    requires MeetsMinimum(Some(orderValue), Some(minimumOrderValue)) && orderValue <= larger && 0 <= fee <= FULL_FEE
    requires minimumOrderValue >= 1
    ensures MeetsMinimum(Some(larger), Some(minimumOrderValue))
    ensures ValueWithFee(Some(orderValue), Some(fee)).value >= minimumOrderValue as real
  {
  }

  /** Removing the trimmed category just added restores the categories, up to their order. */
  lemma AddThenRemoveCategory(categories: seq<string>, category: string)
    requires !IsBlank(category)
    ensures multiset(RemoveFirst(AddTrimmed(categories, Some(category)), Trim(category))) == multiset(categories)
  {
    var added := AddTrimmed(categories, Some(category));
    assert multiset(added) == multiset(categories) + multiset{Trim(category)};
  }

  class Supplier {
    var name: string
    var minimumOrderValue: Option<int>
    var deliveryTimeDays: Option<int>
    var adminFeePercentage: Option<int>
    var categories: seq<string>
    var performanceRating: Option<int>
    var status: SupplierStatus

    /** The bean-validation bounds on the supplier's fields. */
    predicate FieldsInBounds()
      reads this
    {
      && minimumOrderValue.Some? && minimumOrderValue.value >= 1
      && deliveryTimeDays.Some? && 1 <= deliveryTimeDays.value <= 365
      && adminFeePercentage.Some? && 0 <= adminFeePercentage.value <= FULL_FEE
      && performanceRating.Some? && 1 <= performanceRating.value <= 5
    }

    /** A supplier with the required values, an empty category list, rating 5 and status ACTIVE. */
    constructor (name: string, minimumOrderValue: int, deliveryTimeDays: int, adminFeePercentage: int)
      ensures this.name == name && this.minimumOrderValue == Some(minimumOrderValue)
      ensures this.deliveryTimeDays == Some(deliveryTimeDays) && this.adminFeePercentage == Some(adminFeePercentage)
      ensures categories == [] && performanceRating == Some(5) && status == Active
      ensures minimumOrderValue >= 1 && 1 <= deliveryTimeDays <= 365 && 0 <= adminFeePercentage <= FULL_FEE ==> FieldsInBounds()
    {
      this.name, this.minimumOrderValue := name, Some(minimumOrderValue);
      this.deliveryTimeDays, this.adminFeePercentage := Some(deliveryTimeDays), Some(adminFeePercentage);
      categories, performanceRating, status := [], Some(5), Active;
    }

    /** `addCategory`: appends the trimmed category unless it is missing or blank; duplicates are kept. */
    method AddCategory(category: Option<string>)
      modifies this`categories
      ensures categories == AddTrimmed(old(categories), category)
    {
      if category.Some? && !IsBlank(category.value) {
        categories := categories + [Trim(category.value)];
      }
    }

    /** `removeCategory`: removes the first equal entry, without trimming. */
    method RemoveCategory(category: string)
      modifies this`categories
      ensures categories == RemoveFirst(old(categories), category)
    {
      categories := RemoveFirst(categories, category);
    }

    /** `isActive`. */
    predicate IsActive()
      reads this
    {
      status == Active
    }

    /** `activate`. */
    method Activate()
      modifies this`status
      ensures status == Active && IsActive()
    {
      status := Active;
    }

    /** `deactivate`. */
    method Deactivate()
      modifies this`status
      ensures status == Inactive && !IsActive()
    {
      status := Inactive;
    }

    /** `suspend`. */
    method Suspend()
      modifies this`status
      ensures status == Suspended && !IsActive()
    {
      status := Suspended;
    }

    /** `calculateValueWithFee`. */
    function CalculateValueWithFee(baseValue: Option<int>): Option<real>
      reads this
    {
      ValueWithFee(baseValue, adminFeePercentage)
    }

    /** `meetsMinimumOrder`. */
    predicate MeetsMinimumOrder(orderValue: Option<int>)
      reads this
    {
      MeetsMinimum(orderValue, minimumOrderValue)
    }
  }
}

/**
 * A credit entry of a client's ledger (`CreditTransaction`): refunds, bonuses and transfers
 * that the client may spend, and the debits that consume them. An entry's status moves
 * between ACTIVE, USED, EXPIRED and BLOCKED through `use`, `expire`, `block` and `activate`;
 * the static factories build new entries with their default expiry.
 */
module CreditTransactions {
  import opened Common
  import opened Time

  /** `TransactionType`, in declaration order. */
  datatype TransactionType =
    | Refund | CreditBonus | ReferralBonus | LoyaltyBonus | PromotionalCredit
    | Transfer | ExpirationDebit | UsageDebit

  /** `name()` of a transaction type. */
  function TypeName(t: TransactionType): string
  {
    match t
    case Refund => "REFUND"
    case CreditBonus => "CREDIT_BONUS"
    case ReferralBonus => "REFERRAL_BONUS"
    case LoyaltyBonus => "LOYALTY_BONUS"
    case PromotionalCredit => "PROMOTIONAL_CREDIT"
    case Transfer => "TRANSFER"
    case ExpirationDebit => "EXPIRATION_DEBIT"
    case UsageDebit => "USAGE_DEBIT"
  }

  /** `CreditStatus`. */
  datatype CreditStatus = Active | Used | Expired | Blocked | Pending

  /** `isBonus`: the three bonus types and the promotional credit. */
  predicate IsBonusType(t: TransactionType)
  {
    t == CreditBonus || t == ReferralBonus || t == LoyaltyBonus || t == PromotionalCredit
  }

  /** `isDebit`: the two debit types. */
  predicate IsDebitType(t: TransactionType)
  {
    t == ExpirationDebit || t == UsageDebit
  }

  /** The types whose name contains "BONUS", the test `createBonus` applies. */
  predicate HasBonusName(t: TransactionType)
  {
    Contains(TypeName(t), "BONUS")
  }

  /** A part whose first character does not start at any position where the part would fit is absent. */
  lemma Absent(s: string, part: string)
    requires part != [] && forall i :: 0 <= i <= |s| - |part| ==> s[i] != part[0]
    ensures !Contains(s, part)
  {
    ContainsIffOccurs(s, part);
    forall i | 0 <= i <= |s| - |part|
      ensures !OccursAt(s, part, i)
    {
      assert s[i..i + |part|][0] == s[i];
    }
  }

  /**
   * The bonus-name test accepts exactly CREDIT_BONUS, REFERRAL_BONUS and LOYALTY_BONUS; it
   * differs from `isBonus` only on PROMOTIONAL_CREDIT, and no debit type passes either test.
   */
  lemma BonusNameIffBonusType(t: TransactionType)
    ensures HasBonusName(t) <==> t == CreditBonus || t == ReferralBonus || t == LoyaltyBonus
    ensures HasBonusName(t) <==> IsBonusType(t) && t != PromotionalCredit
    ensures !(IsBonusType(t) && IsDebitType(t))
  {
    if t == CreditBonus || t == ReferralBonus || t == LoyaltyBonus {
      BonusName(t);
    } else {
      NoBonusName(t);
    }
  }

  /** "BONUS" occurs in the names of the three bonus types. */
  lemma BonusName(t: TransactionType)
    requires t == CreditBonus || t == ReferralBonus || t == LoyaltyBonus
    ensures HasBonusName(t)
  {
    var s := TypeName(t);
    var i := if t == CreditBonus then 7 else if t == ReferralBonus then 9 else 8;
    assert s[i..] == "BONUS";
    assert OccursAt(s, "BONUS", i);
    ContainsIffOccurs(s, "BONUS");
  }

  /** The other five names have no 'B' where "BONUS" could start. */
  lemma NoBonusName(t: TransactionType)
    requires t != CreditBonus && t != ReferralBonus && t != LoyaltyBonus
    ensures !HasBonusName(t)
  {
    var s := TypeName(t);
    assert forall i :: 0 <= i <= |s| - 5 ==> s[i] != 'B';
    Absent(s, "BONUS");
  }

  /** `isExpired`: the EXPIRED status, or an expiry instant that `now` is after. */
  predicate IsExpiredAt(status: CreditStatus, expiresAt: Option<DateTime>, now: DateTime)
  {
    status == Expired || (expiresAt.Some? && After(now, expiresAt.value))
  }

  /** An entry that is not EXPIRED is expired exactly when its expiry instant is strictly before now. */
  lemma ExpiredOnlyAfterExpiry(status: CreditStatus, expiry: DateTime, now: DateTime)
    requires status != Expired
    ensures IsExpiredAt(status, Some(expiry), now) <==> Before(expiry, now)
    ensures !IsExpiredAt(status, Some(expiry), expiry)
  {
    Trichotomy(expiry, expiry);
  }

  /** The columns of a credit entry (money in cents; the bonus percentage in hundredths). */
  datatype Row = Row(
    client: ClientId,
    transactionType: TransactionType,
    amount: int,
    description: string,
    referenceOrder: Option<PoolId>,
    createdAt: Option<DateTime>,
    expiresAt: Option<DateTime>,
    usedAt: Option<DateTime>,
    status: CreditStatus,
    balanceAfterTransaction: int,
    referenceCode: Option<string>,
    bonusPercentage: Option<int>,
    transferFromClient: Option<ClientId>,
    transferToClient: Option<ClientId>)

  /** The bean-validation bounds: a positive amount, a balance and a bonus percentage in range. */
  predicate AmountsInBounds(r: Row)
  {
    && r.amount >= 1
    && r.balanceAfterTransaction >= 0
    && (r.bonusPercentage.None? || 0 <= r.bonusPercentage.value <= 10000)
  }

  /** An ACTIVE entry with no other column set but the ones given; the creation time is set on save. */
  function NewEntry(client: ClientId, t: TransactionType, amount: int, description: string, newBalance: int): Row
  {
    Row(client, t, amount, description, None, None, None, None, Active, newBalance, None, None, None, None)
  }

  /** `createRefund`: an active refund that expires one year from now. */
  function CreateRefund(client: ClientId, amount: int, description: string, referenceOrder: Option<PoolId>,
                        newBalance: int, now: DateTime): (r: Row)
    ensures r.client == client && r.transactionType == Refund && r.status == Active
    ensures r.amount == amount && r.balanceAfterTransaction == newBalance && r.referenceOrder == referenceOrder
    ensures r.expiresAt.Some? && r.expiresAt.value == PlusMonths(now, 12)
    ensures !IsExpiredAt(r.status, r.expiresAt, now) && After(r.expiresAt.value, now)
  {
    PlusYearsLater(now, 1);
    PlusYearIsTwelveMonths(now);
    Trichotomy(now, PlusYears(now, 1));
    NewEntry(client, Refund, amount, description, newBalance).(referenceOrder := referenceOrder, expiresAt := Some(PlusYears(now, 1)))
  }

  /**
   * `createBonus`: a type whose name does not contain "BONUS" is rejected, which turns away
   * PROMOTIONAL_CREDIT although `isBonus` counts it; an accepted bonus expires six months from now.
   */
  function CreateBonus(client: ClientId, bonusType: TransactionType, amount: int, description: string,
                       bonusPercentage: Option<int>, newBalance: int, now: DateTime): (r: Result<Row, Exception>)
    ensures r.Success? <==> bonusType == CreditBonus || bonusType == ReferralBonus || bonusType == LoyaltyBonus
    ensures r.Failure? ==> r.error == IllegalArgument
    ensures r.Success? ==> IsBonusType(r.value.transactionType) && r.value.transactionType == bonusType
    ensures r.Success? ==> r.value.client == client && r.value.status == Active && r.value.amount == amount
    ensures r.Success? ==> r.value.bonusPercentage == bonusPercentage && r.value.balanceAfterTransaction == newBalance
    ensures r.Success? ==> r.value.expiresAt == Some(PlusMonths(now, 6)) && !IsExpiredAt(Active, r.value.expiresAt, now)
  {
    BonusNameIffBonusType(bonusType);
    if !HasBonusName(bonusType) then
      Failure(IllegalArgument)
    else
      PlusMonthsLater(now, 6);
      Trichotomy(now, PlusMonths(now, 6));
      Success(NewEntry(client, bonusType, amount, description, newBalance).(bonusPercentage := bonusPercentage, expiresAt := Some(PlusMonths(now, 6))))
  }

  /** PROMOTIONAL_CREDIT is a bonus to `isBonus` and yet `createBonus` refuses it. */
  lemma PromotionalCreditIsNoBonusToCreate(client: ClientId, amount: int, description: string,
                                           bonusPercentage: Option<int>, newBalance: int, now: DateTime)
    ensures IsBonusType(PromotionalCredit)
    ensures CreateBonus(client, PromotionalCredit, amount, description, bonusPercentage, newBalance, now).Failure?
  {
  }

  /** `createTransfer`: credited to the recipient, recording both ends, and never expiring. */
  function CreateTransfer(fromClient: ClientId, toClient: ClientId, amount: int, description: string, newBalance: int): (r: Row)
    ensures r.client == toClient && r.transferToClient == Some(toClient) && r.transferFromClient == Some(fromClient)
    ensures r.transactionType == Transfer && r.status == Active && r.amount == amount
    ensures r.balanceAfterTransaction == newBalance
    ensures forall now :: !IsExpiredAt(r.status, r.expiresAt, now)
  {
    NewEntry(toClient, Transfer, amount, description, newBalance).(transferFromClient := Some(fromClient), transferToClient := Some(toClient))
  }

  /**
   * `getDaysUntilExpiration`: `Long.MAX_VALUE` without an expiry, otherwise the whole days
   * from now until it, never below 0.
   */
  function DaysUntilExpiration(expiresAt: Option<DateTime>, now: DateTime): (d: int)
    ensures 0 <= d
    ensures expiresAt.None? ==> d == LONG_MAX
    ensures expiresAt == Some(now) ==> d == 0
  {
    if expiresAt.None? then LONG_MAX
    else
      DaysBetweenSelf(now);
      var days := DaysBetween(now, expiresAt.value);
      Max(0, days)
  }

  /** A credit expiring n whole days from now reports exactly n days left. */
  lemma DaysUntilPlusDays(now: DateTime, n: nat)
    ensures DaysUntilExpiration(Some(PlusDays(now, n)), now) == n
  {
    DaysBetweenPlusDays(now, n);
  }

  class CreditTransaction {
    var client: ClientId
    var transactionType: TransactionType
    var amount: int
    var description: string
    var referenceOrder: Option<PoolId>
    var createdAt: Option<DateTime>
    var expiresAt: Option<DateTime>
    var usedAt: Option<DateTime>
    var status: CreditStatus
    var balanceAfterTransaction: int
    var referenceCode: Option<string>
    var bonusPercentage: Option<int>
    var transferFromClient: Option<ClientId>
    var transferToClient: Option<ClientId>

    /** The entry's current column values. */
    function AsRow(): Row
      reads this
    {
      Row(client, transactionType, amount, description, referenceOrder, createdAt, expiresAt, usedAt,
          status, balanceAfterTransaction, referenceCode, bonusPercentage, transferFromClient, transferToClient)
    }

    /** An entry holding the given column values, as the factories' results are stored. */
    constructor (r: Row)
      ensures AsRow() == r
    {
      client, transactionType, amount, description := r.client, r.transactionType, r.amount, r.description;
      referenceOrder, createdAt, expiresAt, usedAt := r.referenceOrder, r.createdAt, r.expiresAt, r.usedAt;
      status, balanceAfterTransaction, referenceCode := r.status, r.balanceAfterTransaction, r.referenceCode;
      bonusPercentage, transferFromClient, transferToClient := r.bonusPercentage, r.transferFromClient, r.transferToClient;
    }

    /** `isActive`. */
    predicate IsActive()
      reads this
    {
      status == Active
    }

    /** `isExpired`, at the instant now. */
    predicate IsExpired(now: DateTime)
      reads this
    {
      IsExpiredAt(status, expiresAt, now)
    }

    /** `isNearExpiration`: an active entry whose expiry is before seven days from now. */
    predicate IsNearExpiration(now: DateTime)
      reads this
    {
      expiresAt.Some? && Before(expiresAt.value, PlusDays(now, 7)) && status == Active
    }

    /** `getDaysUntilExpiration`. */
    function GetDaysUntilExpiration(now: DateTime): int
      reads this
    {
      DaysUntilExpiration(expiresAt, now)
    }

    /** `use`: only an active, unexpired entry is spent; otherwise nothing changes. */
    method Use(now: DateTime) returns (r: Outcome<Exception>)
      modifies this`status, this`usedAt
      ensures r.Pass? <==> old(status) == Active && !(expiresAt.Some? && After(now, expiresAt.value))
      ensures r.Pass? ==> status == Used && usedAt == Some(now)
      ensures r.Fail? ==> r.error == IllegalState && unchanged(this)
    {
      if status != Active {
        return Fail(IllegalState);
      }
      if IsExpired(now) {
        return Fail(IllegalState);
      }
      status, usedAt := Used, Some(now);
      return Pass;
    }

    /** `expire`: a used entry cannot expire; from any other status the entry becomes EXPIRED. */
    method Expire() returns (r: Outcome<Exception>)
      modifies this`status
      ensures r.Pass? <==> old(status) != Used
      ensures r.Pass? ==> status == Expired
      ensures r.Fail? ==> r.error == IllegalState && unchanged(this)
    {
      if status == Used {
        return Fail(IllegalState);
      }
      status := Expired;
      return Pass;
    }

    /** `block`: from any status. */
    method Block()
      modifies this`status
      ensures status == Blocked
    {
      status := Blocked;
    }

    /**
     * `activate`: refused for an expired entry (status EXPIRED or past its expiry); from any
     * other status, USED and BLOCKED included, the entry becomes ACTIVE.
     */
    method Activate(now: DateTime) returns (r: Outcome<Exception>)
      modifies this`status
      ensures r.Pass? <==> old(status) != Expired && !(expiresAt.Some? && After(now, expiresAt.value))
      ensures r.Pass? ==> status == Active
      ensures r.Fail? ==> r.error == IllegalState && unchanged(this)
    {
      if IsExpired(now) {
        return Fail(IllegalState);
      }
      status := Active;
      return Pass;
    }
  }
}

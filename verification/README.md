# NossoCloset group-buying backend, modelled in Dafny

NossoCloset is a multi-vendor clothing shop whose backend pools clients' custom orders
(`CustomOrder`) into collective orders (`CollectiveOrder`) per supplier. A pool is paid to the
supplier once the members' total reaches its minimum, then shipped and delivered. Clients hold
store credit kept as a ledger of `CreditTransaction` entries, and suppliers publish catalogs
and catalog products. Images go to S3 and PDFs to Google Drive, through an upload service that
validates files and builds their storage paths.

This project models the domain layer and the pure parts of the services:

- **Entities** (`custom_order.dfy`, `collective_order.dfy`, `credit_transaction.dfy`,
  `user.dfy`, `supplier.dfy`, `catalog.dfy`, `catalog_product.dfy`). Each entity is a `class`
  whose methods update its fields in place, as the Java entities do. Frames are field by field,
  and each method's `ensures` gives the new state and its error path. A status transition that
  throws returns `Fail(IllegalState)` and changes nothing. A collective order holds its member
  orders as object references, and its loops push the new status into every member.
- **Repositories** (`custom_order_repository.dfy`, `collective_order_repository.dfy`,
  `credit_transaction_repository.dfy`). The JPQL queries are functions over the stored rows
  (`seq<Row>`, one `Row` per table row, given by each entity's `AsRow()`). A selection is a
  filter, and an `ORDER BY` is a stable sort on a key. NULL sorts as in MySQL and H2: lowest
  in ascending order, unless the query says `NULLS LAST`. Each query is proved to return exactly
  the matching rows, each as often as stored, in the stated order. A query without `ORDER BY`
  returns its rows in stored order, which is a choice of this model.
- **Upload services** (`file_upload_service.dfy`, `aws_s3_service.dfy`,
  `google_drive_service.dfy`, with the upload descriptor in `multipart_file.dfy`). These cover
  validators, categories, keys, URLs and generated file names. The uploads themselves are
  functions of what the clock, the UUID generator and the storage client gave them, passed in
  as `S3Call` and `DriveCall`. The bulk upload is a loop proved equal to a recursive
  specification.
- **Support modules.** `common.dfy` holds options, outcomes, Java `int` wrap-around, and the
  Java string and list operations the entities use (`trim`, case mapping, `replace`,
  `List.remove`). `time.dfy` holds `LocalDateTime` as a calendar value with day arithmetic, and
  `lex.dfy` holds lexicographic keys with the filter and stable sort.

Conventions:
- Money is an `int` count of cents, and a fee percentage an `int` count of hundredths of a percent.
- A Java `null` is `None`.
- `LocalDateTime.now()` is a parameter `now`.
- A thrown exception is the `Fail`/`Failure` case of an `Outcome` or `Result`, naming the exception class.

## Model

| member | source | states |
|---|---|---|
| Common.CountAfterIncrement | EcommerceMultiVendorNossoCloset/sourceCode/backend-spring/src/main/java/com/zosh/model/Catalog.java:160-166 | A null counter becomes 1; otherwise the 32-bit `Integer` counter goes up by one and wraps from `Integer.MAX_VALUE` to `Integer.MIN_VALUE`. |
| Common.Increment | EcommerceMultiVendorNossoCloset/sourceCode/backend-spring/src/main/java/com/zosh/model/User.java:200-207 | The Java `int` increment: the result is the one 32-bit value congruent to x + 1. |
| Common.AddTrimmed | EcommerceMultiVendorNossoCloset/sourceCode/backend-spring/src/main/java/com/zosh/model/Catalog.java:105-109 | A null or blank string leaves the list as it was; any other string is appended trimmed, and the appended entry is never empty. |
| Common.RemoveFirst | EcommerceMultiVendorNossoCloset/sourceCode/backend-spring/src/main/java/com/zosh/model/Catalog.java:111-113 | The result holds the list's elements less one copy of x; a list without x comes back unchanged. `Common.RemoveFirstAt` states that the copy removed is the first and that the order is kept. |
| Common.RemoveFirstAt | EcommerceMultiVendorNossoCloset/sourceCode/backend-spring/src/main/java/com/zosh/model/Catalog.java:111-113 | At the first index i that holds x, the result is the list without its element i: the first copy goes and the other elements keep their order. |
| Common.AddNormalized | EcommerceMultiVendorNossoCloset/sourceCode/backend-spring/src/main/java/com/zosh/model/Catalog.java:115-122 | A null or blank entry is ignored; any other entry is trimmed, case-mapped and appended only when the list does not already hold it. |
| Common.RemoveNormalized | EcommerceMultiVendorNossoCloset/sourceCode/backend-spring/src/main/java/com/zosh/model/Catalog.java:124-128 | Null changes nothing; otherwise one copy of the case-mapped, untrimmed entry is removed. |
| Common.AddNormalizedIdempotent | EcommerceMultiVendorNossoCloset/sourceCode/backend-spring/src/main/java/com/zosh/model/Catalog.java:115-122 | Adding the same tag twice leaves the list as one add does. |
| Common.AddNormalizedDistinct | EcommerceMultiVendorNossoCloset/sourceCode/backend-spring/src/main/java/com/zosh/model/Catalog.java:115-122 | On a list without duplicates, an add never creates one. |
| Common.AddNormalizedKeepsInvariant | EcommerceMultiVendorNossoCloset/sourceCode/backend-spring/src/main/java/com/zosh/model/CatalogProduct.java:171-193 | Every add keeps the list distinct, with each entry trimmed, non-blank and in the list's case. |
| Common.RemoveNormalizedKeepsInvariant | EcommerceMultiVendorNossoCloset/sourceCode/backend-spring/src/main/java/com/zosh/model/CatalogProduct.java:180-184 | Every remove keeps that same list invariant. |
| Common.AddThenRemoveNormalized | EcommerceMultiVendorNossoCloset/sourceCode/backend-spring/src/main/java/com/zosh/model/CatalogProduct.java:171-184 | Adding s and then removing its trimmed form restores the list, whenever s was not stored before. |
| Common.RemoveAfterAdd | EcommerceMultiVendorNossoCloset/sourceCode/backend-spring/src/main/java/com/zosh/model/Supplier.java:118-126 | Removing an element just appended to a list that did not hold it restores the list. |
| Common.RemoveFromDistinct | EcommerceMultiVendorNossoCloset/sourceCode/backend-spring/src/main/java/com/zosh/model/Catalog.java:124-128 | In a duplicate-free list, one removal takes out every occurrence, and the list stays duplicate-free. |
| Common.ReplaceNonAlphanumeric | EcommerceMultiVendorNossoCloset/sourceCode/backend-spring/src/main/java/com/zosh/service/FileUploadService.java:37-38 | Keeps the length; ASCII letters and digits stay, and every other character becomes '_'. |
| Common.ReplaceUnsafeFileNameChars | EcommerceMultiVendorNossoCloset/sourceCode/backend-spring/src/main/java/com/zosh/service/GoogleDriveService.java:256 | Keeps the length; letters, digits, '.', '_' and '-' stay, and every other character becomes '_'. |
| Common.DecimalString | EcommerceMultiVendorNossoCloset/sourceCode/backend-spring/src/main/java/com/zosh/service/FileUploadService.java:54 | The decimal text of a number is never empty; for a non-negative number it holds only digits. |
| Common.ContainsIffOccurs | EcommerceMultiVendorNossoCloset/sourceCode/backend-spring/src/main/java/com/zosh/service/AwsS3Service.java:213-217 | `String.contains` holds exactly when the part occurs at some position. |
| Common.ReplaceAbsent | EcommerceMultiVendorNossoCloset/sourceCode/backend-spring/src/main/java/com/zosh/service/AwsS3Service.java:213-217 | `String.replace` returns a string in which the target does not occur unchanged. |
| Common.ReplaceAcrossSeparator | EcommerceMultiVendorNossoCloset/sourceCode/backend-spring/src/main/java/com/zosh/service/AwsS3Service.java:205-207 | When the target does not contain the separator, replacing across the separator is the same as replacing on each side of it. |
| CustomOrders.UrgentIffSevere | EcommerceMultiVendorNossoCloset/sourceCode/backend-spring/src/main/java/com/zosh/model/CustomOrder.java:224-226 | An order is urgent exactly when its urgency is at least HIGH in severity, that is HIGH or URGENT. |
| CustomOrders.TotalValue | EcommerceMultiVendorNossoCloset/sourceCode/backend-spring/src/main/java/com/zosh/model/CustomOrder.java:214-219 | The value is 0 when the price or the quantity is null. One unit is worth its price. With quantity 1..10 and a non-negative price, the value lies between one and ten times the price. |
| CustomOrders.TotalValueNonNegative | EcommerceMultiVendorNossoCloset/sourceCode/backend-spring/src/main/java/com/zosh/model/CustomOrder.java:85-104 | An order whose fields meet their bounds (price ≥ 0, quantity 1..10) never has a negative total value. |
| CustomOrders.CustomOrder.constructor | EcommerceMultiVendorNossoCloset/sourceCode/backend-spring/src/main/java/com/zosh/model/CustomOrder.java:68-104 | A new order is PENDING_ANALYSIS, NORMAL urgency and quantity 1, with no colours, no final price, no supplier and no pool. |
| CustomOrders.CustomOrder.AddAlternativeColor | EcommerceMultiVendorNossoCloset/sourceCode/backend-spring/src/main/java/com/zosh/model/CustomOrder.java:146-150 | A null or blank colour leaves the list unchanged; any other colour is appended trimmed. |
| CustomOrders.CustomOrder.RemoveAlternativeColor | EcommerceMultiVendorNossoCloset/sourceCode/backend-spring/src/main/java/com/zosh/model/CustomOrder.java:152-154 | Exactly one copy of the colour is removed, when present. |
| CustomOrders.CustomOrder.Analyze | EcommerceMultiVendorNossoCloset/sourceCode/backend-spring/src/main/java/com/zosh/model/CustomOrder.java:176-182 | From any status, the order records the admin, price, supplier and analysis time, and becomes PRICED. |
| CustomOrders.CustomOrder.Confirm | EcommerceMultiVendorNossoCloset/sourceCode/backend-spring/src/main/java/com/zosh/model/CustomOrder.java:184-190 | It succeeds exactly from PRICED, giving CONFIRMED and `confirmedAt`. From any other status it throws IllegalStateException and nothing changes. |
| CustomOrders.CustomOrder.Cancel | EcommerceMultiVendorNossoCloset/sourceCode/backend-spring/src/main/java/com/zosh/model/CustomOrder.java:192-196 | The order becomes CANCELLED with the reason and time recorded. The pool reference, price and supplier are not in the frame, so they are untouched. |
| CustomOrders.CustomOrder.AddToCollectiveOrder | EcommerceMultiVendorNossoCloset/sourceCode/backend-spring/src/main/java/com/zosh/model/CustomOrder.java:198-204 | It succeeds exactly from CONFIRMED, setting the pool and IN_COLLECTIVE. From any other status it throws IllegalStateException and nothing changes. |
| CustomOrders.CustomOrder.MarkAsDelivered | EcommerceMultiVendorNossoCloset/sourceCode/backend-spring/src/main/java/com/zosh/model/CustomOrder.java:206-209 | From any status the order becomes DELIVERED at the given time. |
| CustomOrders.CustomOrder.GetDaysOld | EcommerceMultiVendorNossoCloset/sourceCode/backend-spring/src/main/java/com/zosh/model/CustomOrder.java:231-236 | The age is 0 while the creation time is unset and 0 on the day of creation. |
| CustomOrders.Severity | EcommerceMultiVendorNossoCloset/sourceCode/backend-spring/src/main/java/com/zosh/domain/UrgencyLevel.java:7-11 | No contract of its own: the urgency levels' declaration order, LOW 0 to URGENT 3. `CustomOrders.UrgentIffSevere` ties `isUrgent` to it. |
| CustomOrders.StoredName | EcommerceMultiVendorNossoCloset/sourceCode/backend-spring/src/main/java/com/zosh/model/CustomOrder.java:96-98 | No contract of its own: the enum name stored in the urgency column. `CustomOrderRepository.HighNameIsLowest` states how these names compare as text. |
| CustomOrders.IsUrgentLevel | EcommerceMultiVendorNossoCloset/sourceCode/backend-spring/src/main/java/com/zosh/model/CustomOrder.java:224-226 | No contract of its own: HIGH or URGENT. `CustomOrders.UrgentIffSevere` states that these are exactly the two most severe levels. |
| CustomOrders.CustomOrder.GetTotalValue | EcommerceMultiVendorNossoCloset/sourceCode/backend-spring/src/main/java/com/zosh/model/CustomOrder.java:214-219 | No contract of its own: `CustomOrders.TotalValue` of the order's price and quantity, whose contract states the null cases and bounds. |
| CustomOrders.CustomOrder.IsUrgent | EcommerceMultiVendorNossoCloset/sourceCode/backend-spring/src/main/java/com/zosh/model/CustomOrder.java:224-226 | No contract of its own: `CustomOrders.IsUrgentLevel` of the order's urgency. |
| CustomOrders.AmountsInBounds | EcommerceMultiVendorNossoCloset/sourceCode/backend-spring/src/main/java/com/zosh/model/CustomOrder.java:85-104 | No contract of its own: quantity 1..10 and no negative price. `CustomOrders.TotalValue` bounds the total for values within them. |
| CollectiveOrders.SumConcat | EcommerceMultiVendorNossoCloset/sourceCode/backend-spring/src/main/java/com/zosh/model/CollectiveOrder.java:236-240 | The recomputed value of a concatenation of members is the sum of the two parts' values. |
| CollectiveOrders.SumRemoveFirst | EcommerceMultiVendorNossoCloset/sourceCode/backend-spring/src/main/java/com/zosh/model/CollectiveOrder.java:149-153 | Removing a member takes exactly its total value off the sum; removing a non-member changes nothing. |
| CollectiveOrders.SumNonNegative | EcommerceMultiVendorNossoCloset/sourceCode/backend-spring/src/main/java/com/zosh/model/CollectiveOrder.java:236-240 | Members whose price and quantity meet their bounds give a sum that is never negative. |
| CollectiveOrders.SumOfSameValues | EcommerceMultiVendorNossoCloset/sourceCode/backend-spring/src/main/java/com/zosh/model/CollectiveOrder.java:236-240 | The sum over a member list changes only when some member's price or quantity changes; status and pool updates leave it alone. |
| CollectiveOrders.ClientsBound | EcommerceMultiVendorNossoCloset/sourceCode/backend-spring/src/main/java/com/zosh/model/CollectiveOrder.java:265-270 | There are never more distinct clients than members, and at least one when the pool has members. |
| CollectiveOrders.CancelNote | EcommerceMultiVendorNossoCloset/sourceCode/backend-spring/src/main/java/com/zosh/model/CollectiveOrder.java:227 | The note ends with "CANCELADO: " and the reason. Existing observations are kept in front, followed by " \| ". |
| CollectiveOrders.CollectiveOrder.constructor | EcommerceMultiVendorNossoCloset/sourceCode/backend-spring/src/main/java/com/zosh/model/CollectiveOrder.java:39-82 | A new pool is OPEN and empty, with value 0 and margin 0. |
| CollectiveOrders.CollectiveOrder.AddCustomOrder | EcommerceMultiVendorNossoCloset/sourceCode/backend-spring/src/main/java/com/zosh/model/CollectiveOrder.java:132-147 | It succeeds exactly when the pool is OPEN and the order CONFIRMED; otherwise it throws IllegalStateException and neither changes. On success the order is appended and becomes IN_COLLECTIVE with its pool set, and the value is the sum over all members. The pool reaches MINIMUM_REACHED exactly when that sum meets the minimum. |
| CollectiveOrders.CollectiveOrder.RemoveCustomOrder | EcommerceMultiVendorNossoCloset/sourceCode/backend-spring/src/main/java/com/zosh/model/CollectiveOrder.java:149-153 | One copy of the order leaves the list and its pool reference is cleared. The value is recomputed over the remaining members. Neither the pool's status nor the member's status is in the frame. |
| CollectiveOrders.CollectiveOrder.ReachMinimum | EcommerceMultiVendorNossoCloset/sourceCode/backend-spring/src/main/java/com/zosh/model/CollectiveOrder.java:155-162 | It succeeds exactly when the value meets the minimum, whatever the status, and then sets MINIMUM_REACHED and the time. Otherwise it throws and nothing changes. |
| CollectiveOrders.CollectiveOrder.OpenPaymentWindow | EcommerceMultiVendorNossoCloset/sourceCode/backend-spring/src/main/java/com/zosh/model/CollectiveOrder.java:164-171 | It succeeds exactly from MINIMUM_REACHED, giving PAYMENT_WINDOW and the opening time. Otherwise it throws and nothing changes. |
| CollectiveOrders.CollectiveOrder.SetMemberStatus | EcommerceMultiVendorNossoCloset/sourceCode/backend-spring/src/main/java/com/zosh/model/CollectiveOrder.java:178-181 | After the loop every member has the given status. Only the members' status fields are in the frame. |
| CollectiveOrders.CollectiveOrder.PaySupplier | EcommerceMultiVendorNossoCloset/sourceCode/backend-spring/src/main/java/com/zosh/model/CollectiveOrder.java:173-182 | From any status, the pool records the amount and date and becomes SUPPLIER_PAID, and every member becomes SUPPLIER_PAID. |
| CollectiveOrders.CollectiveOrder.MarkAsShipped | EcommerceMultiVendorNossoCloset/sourceCode/backend-spring/src/main/java/com/zosh/model/CollectiveOrder.java:184-193 | From any status, the pool records the tracking code and time and becomes IN_TRANSIT, and every member becomes IN_TRANSIT. |
| CollectiveOrders.CollectiveOrder.MarkAsReceived | EcommerceMultiVendorNossoCloset/sourceCode/backend-spring/src/main/java/com/zosh/model/CollectiveOrder.java:195-203 | From any status, the pool becomes RECEIVED with its delivery date, and every member becomes RECEIVED. |
| CollectiveOrders.CollectiveOrder.MarkAsDelivered | EcommerceMultiVendorNossoCloset/sourceCode/backend-spring/src/main/java/com/zosh/model/CollectiveOrder.java:205-213 | From any status, the pool becomes DELIVERED at the given time, and every member is marked delivered at that time. |
| CollectiveOrders.CollectiveOrder.Close | EcommerceMultiVendorNossoCloset/sourceCode/backend-spring/src/main/java/com/zosh/model/CollectiveOrder.java:215-222 | The pool becomes CLOSED with the admin and time recorded. The margin becomes received minus anticipated when both are positive, and otherwise keeps its old value. |
| CollectiveOrders.CollectiveOrder.Release | EcommerceMultiVendorNossoCloset/sourceCode/backend-spring/src/main/java/com/zosh/model/CollectiveOrder.java:229-232 | One order leaves the pool, has its pool reference cleared and is CONFIRMED again. |
| CollectiveOrders.CollectiveOrder.Cancel | EcommerceMultiVendorNossoCloset/sourceCode/backend-spring/src/main/java/com/zosh/model/CollectiveOrder.java:224-234 | The pool becomes CANCELLED with the cancellation note, and its member list ends up empty. Every former member is CONFIRMED with no pool. The value is 0 unless the pool had no members, in which case it is not recomputed. |
| CollectiveOrders.CollectiveOrder.GetRemainingAmount | EcommerceMultiVendorNossoCloset/sourceCode/backend-spring/src/main/java/com/zosh/model/CollectiveOrder.java:275-278 | The result is never negative, and it is 0 exactly when the minimum is reached. Otherwise value plus remainder equals the minimum. |
| CollectiveOrders.CollectiveOrder.GetCompletionPercentage | EcommerceMultiVendorNossoCloset/sourceCode/backend-spring/src/main/java/com/zosh/model/CollectiveOrder.java:251-260 | The result is at most 100. With a positive minimum, it is 100 exactly when the minimum is reached, and it is non-negative for a non-negative value. |
| CollectiveOrders.CollectiveOrder.GetParticipantCount | EcommerceMultiVendorNossoCloset/sourceCode/backend-spring/src/main/java/com/zosh/model/CollectiveOrder.java:265-270 | The result lies between 0 and the member count, and it is 0 exactly for an empty pool. |
| CollectiveOrders.OverdueIsNear | EcommerceMultiVendorNossoCloset/sourceCode/backend-spring/src/main/java/com/zosh/model/CollectiveOrder.java:283-301 | A pool whose payment deadline has passed also counts as near its deadline. |
| CollectiveOrders.ThresholdExample | EcommerceMultiVendorNossoCloset/sourceCode/backend-spring/src/main/java/com/zosh/model/CollectiveOrder.java:132-147 | A minimum of 500.00 stays OPEN after a 200.00 order. A second order of 2 × 150.00 brings the pool to MINIMUM_REACHED at 500.00, with two participants and nothing remaining. |
| CollectiveOrders.Sum | EcommerceMultiVendorNossoCloset/sourceCode/backend-spring/src/main/java/com/zosh/model/CollectiveOrder.java:236-240 | No contract of its own: the members' total values added up. `CollectiveOrders.SumConcat`, `SumRemoveFirst`, `SumNonNegative` and `SumOfSameValues` state its properties. |
| CollectiveOrders.Clients | EcommerceMultiVendorNossoCloset/sourceCode/backend-spring/src/main/java/com/zosh/model/CollectiveOrder.java:265-270 | No contract of its own: the set of the members' clients. `CollectiveOrders.ClientsBound` bounds its size. |
| CollectiveOrders.CollectiveOrder.IsMinimumReached | EcommerceMultiVendorNossoCloset/sourceCode/backend-spring/src/main/java/com/zosh/model/CollectiveOrder.java:123-125 | No contract of its own: the current value is at least the minimum. `AddCustomOrder`, `ReachMinimum`, `GetRemainingAmount` and `CollectiveOrderRepository.ReachedMinimumIsEntityCheck` state their results in its terms. |
| CollectiveOrders.CollectiveOrder.IsPaymentDeadlineNear | EcommerceMultiVendorNossoCloset/sourceCode/backend-spring/src/main/java/com/zosh/model/CollectiveOrder.java:283-290 | No contract of its own: a deadline before now plus 24 hours. `CollectiveOrders.OverdueIsNear` states that an overdue pool is near its deadline. |
| CollectiveOrders.CollectiveOrder.IsPaymentOverdue | EcommerceMultiVendorNossoCloset/sourceCode/backend-spring/src/main/java/com/zosh/model/CollectiveOrder.java:295-301 | No contract of its own: now is after the deadline. `CollectiveOrders.OverdueIsNear` and `CollectiveOrderRepository.OverdueIsEntityCheck` relate it to the deadline checks. |
| CreditTransactions.BonusNameIffBonusType | EcommerceMultiVendorNossoCloset/sourceCode/backend-spring/src/main/java/com/zosh/model/CreditTransaction.java:124-138 | A type name contains "BONUS" exactly for the three *_BONUS types. That differs from `isBonus` only on PROMOTIONAL_CREDIT, and no type is both a bonus and a debit. |
| CreditTransactions.ExpiredOnlyAfterExpiry | EcommerceMultiVendorNossoCloset/sourceCode/backend-spring/src/main/java/com/zosh/model/CreditTransaction.java:111-114 | An entry that is not EXPIRED is expired exactly when its expiry is strictly before now, so it is not yet expired at its expiry instant. |
| CreditTransactions.CreateRefund | EcommerceMultiVendorNossoCloset/sourceCode/backend-spring/src/main/java/com/zosh/model/CreditTransaction.java:200-215 | The result is an ACTIVE REFUND for the client with the given amount, balance and order. It expires twelve months from now and is not expired now. |
| CreditTransactions.CreateBonus | EcommerceMultiVendorNossoCloset/sourceCode/backend-spring/src/main/java/com/zosh/model/CreditTransaction.java:220-239 | It succeeds exactly for CREDIT_BONUS, REFERRAL_BONUS and LOYALTY_BONUS, and any other type throws IllegalArgumentException. The bonus is ACTIVE with the given amount, percentage and balance, and expires six months from now. |
| CreditTransactions.PromotionalCreditIsNoBonusToCreate | EcommerceMultiVendorNossoCloset/sourceCode/backend-spring/src/main/java/com/zosh/model/CreditTransaction.java:220-224 | PROMOTIONAL_CREDIT counts as a bonus to `isBonus`, yet `createBonus` refuses it. |
| CreditTransactions.CreateTransfer | EcommerceMultiVendorNossoCloset/sourceCode/backend-spring/src/main/java/com/zosh/model/CreditTransaction.java:244-259 | The result is an ACTIVE TRANSFER credited to the recipient, recording both ends. It never expires. |
| CreditTransactions.DaysUntilExpiration | EcommerceMultiVendorNossoCloset/sourceCode/backend-spring/src/main/java/com/zosh/model/CreditTransaction.java:188-195 | The result is never negative. It is `Long.MAX_VALUE` without an expiry and 0 at the expiry instant. |
| CreditTransactions.DaysUntilPlusDays | EcommerceMultiVendorNossoCloset/sourceCode/backend-spring/src/main/java/com/zosh/model/CreditTransaction.java:188-195 | A credit expiring n days from now has exactly n days left. |
| CreditTransactions.CreditTransaction.Use | EcommerceMultiVendorNossoCloset/sourceCode/backend-spring/src/main/java/com/zosh/model/CreditTransaction.java:140-151 | It succeeds exactly for an ACTIVE entry whose expiry has not passed, giving USED and `usedAt`. Otherwise it throws IllegalStateException and nothing changes. |
| CreditTransactions.CreditTransaction.Expire | EcommerceMultiVendorNossoCloset/sourceCode/backend-spring/src/main/java/com/zosh/model/CreditTransaction.java:153-159 | A USED entry throws and stays as it was; any other entry becomes EXPIRED. |
| CreditTransactions.CreditTransaction.Block | EcommerceMultiVendorNossoCloset/sourceCode/backend-spring/src/main/java/com/zosh/model/CreditTransaction.java:161-163 | From any status the entry becomes BLOCKED. |
| CreditTransactions.CreditTransaction.Activate | EcommerceMultiVendorNossoCloset/sourceCode/backend-spring/src/main/java/com/zosh/model/CreditTransaction.java:165-171 | An EXPIRED entry, or one past its expiry, throws and stays as it was. Any other entry becomes ACTIVE, USED and BLOCKED included. |
| CreditTransactions.IsBonusType | EcommerceMultiVendorNossoCloset/sourceCode/backend-spring/src/main/java/com/zosh/model/CreditTransaction.java:124-129 | No contract of its own: the three bonus types and PROMOTIONAL_CREDIT. `CreditTransactions.BonusNameIffBonusType` compares it with the name test of `createBonus`. |
| CreditTransactions.IsDebitType | EcommerceMultiVendorNossoCloset/sourceCode/backend-spring/src/main/java/com/zosh/model/CreditTransaction.java:135-138 | No contract of its own: the two debit types. `CreditTransactions.BonusNameIffBonusType` states that no type is both a bonus and a debit. |
| CreditTransactions.HasBonusName | EcommerceMultiVendorNossoCloset/sourceCode/backend-spring/src/main/java/com/zosh/model/CreditTransaction.java:222 | No contract of its own: the type's name contains "BONUS". `CreditTransactions.BonusNameIffBonusType` states which types these are. |
| CreditTransactions.IsExpiredAt | EcommerceMultiVendorNossoCloset/sourceCode/backend-spring/src/main/java/com/zosh/model/CreditTransaction.java:111-114 | No contract of its own: EXPIRED, or now after the expiry. `CreditTransactions.ExpiredOnlyAfterExpiry` states that the expiry instant itself is not expired. |
| CreditTransactions.CreditTransaction.IsActive | EcommerceMultiVendorNossoCloset/sourceCode/backend-spring/src/main/java/com/zosh/model/CreditTransaction.java:107-109 | No contract of its own: the status is ACTIVE. |
| CreditTransactions.CreditTransaction.IsExpired | EcommerceMultiVendorNossoCloset/sourceCode/backend-spring/src/main/java/com/zosh/model/CreditTransaction.java:111-114 | No contract of its own: `CreditTransactions.IsExpiredAt` of the entry's status and expiry. |
| CreditTransactions.CreditTransaction.IsNearExpiration | EcommerceMultiVendorNossoCloset/sourceCode/backend-spring/src/main/java/com/zosh/model/CreditTransaction.java:176-183 | No contract of its own: an ACTIVE entry whose expiry is before now plus seven days. |
| CreditTransactions.CreditTransaction.GetDaysUntilExpiration | EcommerceMultiVendorNossoCloset/sourceCode/backend-spring/src/main/java/com/zosh/model/CreditTransaction.java:188-195 | No contract of its own: `CreditTransactions.DaysUntilExpiration` of the entry's expiry, whose contract and `DaysUntilPlusDays` state the count. |
| CreditTransactions.TypeName | EcommerceMultiVendorNossoCloset/sourceCode/backend-spring/src/main/java/com/zosh/domain/TransactionType.java:7-15 | No contract of its own: the enum constant's name. `BonusName` and `NoBonusName` state which names contain "BONUS". |
| CreditTransactions.AmountsInBounds | EcommerceMultiVendorNossoCloset/sourceCode/backend-spring/src/main/java/com/zosh/model/CreditTransaction.java:41-88 | No contract of its own: the bean-validation bounds, a positive amount, a non-negative balance and a bonus percentage in 0..100%. `SumAmountsNonNegative` assumes them. |
| CreditTransactions.NewEntry | EcommerceMultiVendorNossoCloset/sourceCode/backend-spring/src/main/java/com/zosh/model/CreditTransaction.java:200-259 | No contract of its own: the fields every factory sets. `CreateRefund`, `CreateBonus` and `CreateTransfer` state their results. |
| Users.BalanceAfterAdd | EcommerceMultiVendorNossoCloset/sourceCode/backend-spring/src/main/java/com/zosh/model/User.java:168-172 | The balance never goes down, and it changes exactly when the amount is positive. |
| Users.BalanceAfterSubtract | EcommerceMultiVendorNossoCloset/sourceCode/backend-spring/src/main/java/com/zosh/model/User.java:177-185 | A positive amount above the balance fails with IllegalArgumentException. Any other positive amount is taken off exactly, and a null or non-positive amount changes nothing. A non-negative balance stays non-negative. |
| Users.SufficientIffSubtractSucceeds | EcommerceMultiVendorNossoCloset/sourceCode/backend-spring/src/main/java/com/zosh/model/User.java:190-195 | On a non-negative balance, `hasSufficientCredit` holds exactly when `subtractCredit` would succeed, null included. |
| Users.BalanceNeverNegative | EcommerceMultiVendorNossoCloset/sourceCode/backend-spring/src/main/java/com/zosh/model/User.java:73-75 | From a non-negative balance, no sequence of `addCredit` and `subtractCredit` calls makes the balance negative. |
| Users.AddThenSubtract | EcommerceMultiVendorNossoCloset/sourceCode/backend-spring/src/main/java/com/zosh/model/User.java:168-185 | Adding a positive amount and then subtracting it restores the balance. |
| Users.DaysSinceLastOrder | EcommerceMultiVendorNossoCloset/sourceCode/backend-spring/src/main/java/com/zosh/model/User.java:226-231 | `Long.MAX_VALUE` for a client who never ordered, and 0 on the day of the order. |
| Users.InactiveCustomer | EcommerceMultiVendorNossoCloset/sourceCode/backend-spring/src/main/java/com/zosh/model/User.java:236-238 | A client who never ordered is inactive; one whose last order was n days ago is inactive exactly when n > 90. |
| Users.User.constructor | EcommerceMultiVendorNossoCloset/sourceCode/backend-spring/src/main/java/com/zosh/model/User.java:71-110 | A new account is ACTIVE with credit 0, no orders, nothing spent and no addresses. |
| Users.User.Activate | EcommerceMultiVendorNossoCloset/sourceCode/backend-spring/src/main/java/com/zosh/model/User.java:145-147 | The status becomes ACTIVE. |
| Users.User.Deactivate | EcommerceMultiVendorNossoCloset/sourceCode/backend-spring/src/main/java/com/zosh/model/User.java:149-151 | The status becomes INACTIVE. |
| Users.User.Suspend | EcommerceMultiVendorNossoCloset/sourceCode/backend-spring/src/main/java/com/zosh/model/User.java:153-155 | The status becomes SUSPENDED. |
| Users.User.Block | EcommerceMultiVendorNossoCloset/sourceCode/backend-spring/src/main/java/com/zosh/model/User.java:157-159 | The status becomes BLOCKED. |
| Users.User.UpdateLastAccess | EcommerceMultiVendorNossoCloset/sourceCode/backend-spring/src/main/java/com/zosh/model/User.java:161-163 | The last access is now. |
| Users.User.AddCredit | EcommerceMultiVendorNossoCloset/sourceCode/backend-spring/src/main/java/com/zosh/model/User.java:168-172 | The balance becomes `BalanceAfterAdd` of the old balance. |
| Users.User.SubtractCredit | EcommerceMultiVendorNossoCloset/sourceCode/backend-spring/src/main/java/com/zosh/model/User.java:177-185 | The call succeeds exactly when `BalanceAfterSubtract` does, and the balance becomes its value. A failure throws IllegalArgumentException with the balance unchanged. On a non-negative balance it succeeds exactly when `hasSufficientCredit` held before. |
| Users.User.UpdateOrderStats | EcommerceMultiVendorNossoCloset/sourceCode/backend-spring/src/main/java/com/zosh/model/User.java:200-221 | The order count goes up by one, wrapping as a Java `int`, with a null count read as 0. The order date is now, and only a positive value is added to the total spent. A VIP stays VIP, and a frequent customer stays frequent below the `int` limit. |
| Users.User.GetPrimaryAddress | EcommerceMultiVendorNossoCloset/sourceCode/backend-spring/src/main/java/com/zosh/model/User.java:259-261 | None exactly for an empty list; otherwise the first address. |
| Users.User.AddAddress | EcommerceMultiVendorNossoCloset/sourceCode/backend-spring/src/main/java/com/zosh/model/User.java:243-247 | A null address is ignored and any other is appended. The primary address changes only when the list was empty. |
| Users.User.RemoveAddress | EcommerceMultiVendorNossoCloset/sourceCode/backend-spring/src/main/java/com/zosh/model/User.java:252-254 | One copy of the address is removed. The primary address is kept unless it is the one removed. |
| Users.SufficientCredit | EcommerceMultiVendorNossoCloset/sourceCode/backend-spring/src/main/java/com/zosh/model/User.java:190-195 | No contract of its own: a null amount, or a balance that covers it. `Users.SufficientIffSubtractSucceeds` states that it holds exactly when `subtractCredit` succeeds. |
| Users.User.IsActive | EcommerceMultiVendorNossoCloset/sourceCode/backend-spring/src/main/java/com/zosh/model/User.java:133-135 | No contract of its own: the status is ACTIVE. |
| Users.User.HasSufficientCredit | EcommerceMultiVendorNossoCloset/sourceCode/backend-spring/src/main/java/com/zosh/model/User.java:190-195 | No contract of its own: `Users.SufficientCredit` of the user's balance. `Users.User.SubtractCredit` succeeds exactly when it holds. |
| Users.User.IsFrequentCustomer | EcommerceMultiVendorNossoCloset/sourceCode/backend-spring/src/main/java/com/zosh/model/User.java:212-214 | No contract of its own: at least the threshold number of orders. `Users.User.UpdateOrderStats` keeps it while the order count is below the `int` limit. |
| Users.User.IsVipCustomer | EcommerceMultiVendorNossoCloset/sourceCode/backend-spring/src/main/java/com/zosh/model/User.java:219-221 | No contract of its own: at least the threshold spent. `Users.User.UpdateOrderStats` states that it is kept. |
| Users.User.GetDaysSinceLastOrder | EcommerceMultiVendorNossoCloset/sourceCode/backend-spring/src/main/java/com/zosh/model/User.java:226-231 | No contract of its own: `Users.DaysSinceLastOrder` of the last order date. |
| Users.User.IsInactiveCustomer | EcommerceMultiVendorNossoCloset/sourceCode/backend-spring/src/main/java/com/zosh/model/User.java:236-238 | No contract of its own: more than 90 days since the last order. `Users.InactiveCustomer` states the exact threshold. |
| Suppliers.ValueWithFee | EcommerceMultiVendorNossoCloset/sourceCode/backend-spring/src/main/java/com/zosh/model/Supplier.java:147-154 | A null base gives null. A null or zero fee gives the base. With a non-negative base and a fee of 0..100%, the result lies between the base and twice the base. |
| Suppliers.ValueWithFeeMonotone | EcommerceMultiVendorNossoCloset/sourceCode/backend-spring/src/main/java/com/zosh/model/Supplier.java:147-154 | On a non-negative base, a higher fee never gives a lower value. |
| Suppliers.MeetsMinimumUpward | EcommerceMultiVendorNossoCloset/sourceCode/backend-spring/src/main/java/com/zosh/model/Supplier.java:147-164 | A value that meets the minimum still meets it with a non-negative fee applied, and so does any larger value. |
| Suppliers.AddThenRemoveCategory | EcommerceMultiVendorNossoCloset/sourceCode/backend-spring/src/main/java/com/zosh/model/Supplier.java:118-126 | Removing the trimmed category just added restores the categories, up to order. |
| Suppliers.Supplier.constructor | EcommerceMultiVendorNossoCloset/sourceCode/backend-spring/src/main/java/com/zosh/model/Supplier.java:57-86 | A new supplier has the given values, no categories, rating 5 and status ACTIVE. Values within the declared bounds give a supplier whose fields meet them. |
| Suppliers.Supplier.AddCategory | EcommerceMultiVendorNossoCloset/sourceCode/backend-spring/src/main/java/com/zosh/model/Supplier.java:118-122 | A null or blank category is ignored; any other is appended trimmed, duplicates allowed. |
| Suppliers.Supplier.RemoveCategory | EcommerceMultiVendorNossoCloset/sourceCode/backend-spring/src/main/java/com/zosh/model/Supplier.java:124-126 | One copy of the untrimmed category is removed. |
| Suppliers.Supplier.Activate | EcommerceMultiVendorNossoCloset/sourceCode/backend-spring/src/main/java/com/zosh/model/Supplier.java:132-134 | The supplier becomes ACTIVE and `isActive` holds. |
| Suppliers.Supplier.Deactivate | EcommerceMultiVendorNossoCloset/sourceCode/backend-spring/src/main/java/com/zosh/model/Supplier.java:136-138 | The supplier becomes INACTIVE and `isActive` fails. |
| Suppliers.Supplier.Suspend | EcommerceMultiVendorNossoCloset/sourceCode/backend-spring/src/main/java/com/zosh/model/Supplier.java:140-142 | The supplier becomes SUSPENDED and `isActive` fails. |
| Suppliers.MeetsMinimum | EcommerceMultiVendorNossoCloset/sourceCode/backend-spring/src/main/java/com/zosh/model/Supplier.java:159-164 | No contract of its own: both values present and the order value at least the minimum. `Suppliers.MeetsMinimumUpward` states that it survives a fee and a larger value. |
| Suppliers.Supplier.IsActive | EcommerceMultiVendorNossoCloset/sourceCode/backend-spring/src/main/java/com/zosh/model/Supplier.java:128-130 | No contract of its own: the status is ACTIVE. `Activate`, `Deactivate` and `Suspend` state it afterwards. |
| Suppliers.Supplier.CalculateValueWithFee | EcommerceMultiVendorNossoCloset/sourceCode/backend-spring/src/main/java/com/zosh/model/Supplier.java:147-154 | No contract of its own: `Suppliers.ValueWithFee` of the supplier's fee, whose contract and `ValueWithFeeMonotone` state the result. |
| Suppliers.Supplier.MeetsMinimumOrder | EcommerceMultiVendorNossoCloset/sourceCode/backend-spring/src/main/java/com/zosh/model/Supplier.java:159-164 | No contract of its own: `Suppliers.MeetsMinimum` with the supplier's minimum. |
| Suppliers.Supplier.FieldsInBounds | EcommerceMultiVendorNossoCloset/sourceCode/backend-spring/src/main/java/com/zosh/model/Supplier.java:57-81 | No contract of its own: the bean-validation bounds on minimum, delivery time, fee and rating. `Suppliers.Supplier.constructor` establishes them from values in range. |
| Catalogs.ValidAtEnds | EcommerceMultiVendorNossoCloset/sourceCode/backend-spring/src/main/java/com/zosh/model/Catalog.java:134-146 | Both ends of a non-empty validity window are instants of validity exactly for an ACTIVE catalog, so the bounds are inclusive. |
| Catalogs.ValidAtIsConvex | EcommerceMultiVendorNossoCloset/sourceCode/backend-spring/src/main/java/com/zosh/model/Catalog.java:134-146 | A catalog valid at two instants is valid at every instant between them. |
| Catalogs.ImageGivesContent | EcommerceMultiVendorNossoCloset/sourceCode/backend-spring/src/main/java/com/zosh/model/Catalog.java:171-174 | Adding a non-blank image URL always gives a catalog content, and no add ever takes it away. |
| Catalogs.Catalog.constructor | EcommerceMultiVendorNossoCloset/sourceCode/backend-spring/src/main/java/com/zosh/model/Catalog.java:54-83 | A new catalog is an ACTIVE PDF, with no file, images or tags and both counters at 0. |
| Catalogs.Catalog.AddImageUrl | EcommerceMultiVendorNossoCloset/sourceCode/backend-spring/src/main/java/com/zosh/model/Catalog.java:105-109 | The URL is appended trimmed unless it is null or blank, and a non-blank URL gives the catalog content. |
| Catalogs.Catalog.RemoveImageUrl | EcommerceMultiVendorNossoCloset/sourceCode/backend-spring/src/main/java/com/zosh/model/Catalog.java:111-113 | One copy of the untrimmed URL is removed. |
| Catalogs.Catalog.AddTag | EcommerceMultiVendorNossoCloset/sourceCode/backend-spring/src/main/java/com/zosh/model/Catalog.java:115-122 | After any non-blank tag, its trimmed lower-case form is in the list. The list stays duplicate-free, trimmed and lower-case. |
| Catalogs.Catalog.RemoveTag | EcommerceMultiVendorNossoCloset/sourceCode/backend-spring/src/main/java/com/zosh/model/Catalog.java:124-128 | On a normalised list the lower-case tag is gone afterwards and the list stays normalised. A null tag is a no-op. |
| Catalogs.Catalog.Activate | EcommerceMultiVendorNossoCloset/sourceCode/backend-spring/src/main/java/com/zosh/model/Catalog.java:148-150 | The catalog becomes ACTIVE. |
| Catalogs.Catalog.Deactivate | EcommerceMultiVendorNossoCloset/sourceCode/backend-spring/src/main/java/com/zosh/model/Catalog.java:152-154 | The catalog becomes INACTIVE and is valid at no instant. |
| Catalogs.Catalog.Expire | EcommerceMultiVendorNossoCloset/sourceCode/backend-spring/src/main/java/com/zosh/model/Catalog.java:156-158 | The catalog becomes EXPIRED and is valid at no instant. |
| Catalogs.Catalog.IncrementViewCount | EcommerceMultiVendorNossoCloset/sourceCode/backend-spring/src/main/java/com/zosh/model/Catalog.java:160-162 | The view counter goes up by one from its value, or from 0 when null. |
| Catalogs.Catalog.IncrementDownloadCount | EcommerceMultiVendorNossoCloset/sourceCode/backend-spring/src/main/java/com/zosh/model/Catalog.java:164-166 | The download counter goes up by one from its value, or from 0 when null. |
| Catalogs.ValidAt | EcommerceMultiVendorNossoCloset/sourceCode/backend-spring/src/main/java/com/zosh/model/Catalog.java:134-146 | No contract of its own: inside the optional window, and ACTIVE. `Catalogs.ValidAtEnds` and `ValidAtIsConvex` state its shape. |
| Catalogs.HasContentOf | EcommerceMultiVendorNossoCloset/sourceCode/backend-spring/src/main/java/com/zosh/model/Catalog.java:171-174 | No contract of its own: a non-blank file URL or at least one image. `Catalogs.ImageGivesContent` states that an image gives content. |
| Catalogs.Catalog.IsActive | EcommerceMultiVendorNossoCloset/sourceCode/backend-spring/src/main/java/com/zosh/model/Catalog.java:130-132 | No contract of its own: the status is ACTIVE. `Catalogs.Catalog.Activate` states it afterwards. |
| Catalogs.Catalog.IsValid | EcommerceMultiVendorNossoCloset/sourceCode/backend-spring/src/main/java/com/zosh/model/Catalog.java:134-146 | No contract of its own: `Catalogs.ValidAt` of the catalog's window and status. `Deactivate` and `Expire` state that it then fails at every instant. |
| Catalogs.Catalog.HasContent | EcommerceMultiVendorNossoCloset/sourceCode/backend-spring/src/main/java/com/zosh/model/Catalog.java:171-174 | No contract of its own: `Catalogs.HasContentOf` of the catalog. `Catalogs.Catalog.AddImageUrl` states that a non-blank URL gives content. |
| CatalogProducts.OnlyTrimmedFound | EcommerceMultiVendorNossoCloset/sourceCode/backend-spring/src/main/java/com/zosh/model/CatalogProduct.java:316-331 | On a normalised list, a lookup can succeed only for a string with nothing to trim, because `hasColor` and `hasSize` do not trim. |
| CatalogProducts.HasAfterAdd | EcommerceMultiVendorNossoCloset/sourceCode/backend-spring/src/main/java/com/zosh/model/CatalogProduct.java:171-193 | After adding a non-blank s, the trimmed s is always found. s itself is found exactly when it has nothing to trim. |
| CatalogProducts.CountAfterDecrement | EcommerceMultiVendorNossoCloset/sourceCode/backend-spring/src/main/java/com/zosh/model/CatalogProduct.java:248-250 | The result is never negative and a null count gives 0. A positive count goes down by one and any other count gives 0, except `Integer.MIN_VALUE`, which wraps to `Integer.MAX_VALUE`. |
| CatalogProducts.FavoriteThenUnfavorite | EcommerceMultiVendorNossoCloset/sourceCode/backend-spring/src/main/java/com/zosh/model/CatalogProduct.java:244-250 | A favourite added and then withdrawn restores an ordinary count, with null read as 0. |
| CatalogProducts.InvertedWindowNeverActive | EcommerceMultiVendorNossoCloset/sourceCode/backend-spring/src/main/java/com/zosh/model/CatalogProduct.java:259-275 | A promotion whose end comes before its start is never active. |
| CatalogProducts.PromotionActiveAtEnds | EcommerceMultiVendorNossoCloset/sourceCode/backend-spring/src/main/java/com/zosh/model/CatalogProduct.java:259-275 | A promotion below the selling price is active at its first instant and, when it has one, at its last. |
| CatalogProducts.EffectivePrice | EcommerceMultiVendorNossoCloset/sourceCode/backend-spring/src/main/java/com/zosh/model/CatalogProduct.java:280-282 | The result never exceeds the selling price, and it is below it exactly while a promotion is active. Any other result is the promotional price. |
| CatalogProducts.ShortDescription | EcommerceMultiVendorNossoCloset/sourceCode/backend-spring/src/main/java/com/zosh/model/CatalogProduct.java:336-346 | At most 100 characters; null gives "". A description of up to 100 characters is kept. A longer one gives 100 characters ending in "...", with the original's first 97 in front. |
| CatalogProducts.ShortDescriptionIdempotent | EcommerceMultiVendorNossoCloset/sourceCode/backend-spring/src/main/java/com/zosh/model/CatalogProduct.java:336-346 | Shortening a short description changes nothing. |
| CatalogProducts.CatalogProduct.constructor | EcommerceMultiVendorNossoCloset/sourceCode/backend-spring/src/main/java/com/zosh/model/CatalogProduct.java:61-139 | A new product is AVAILABLE with no promotion, empty lists and every counter at 0. |
| CatalogProducts.CatalogProduct.AddImage | EcommerceMultiVendorNossoCloset/sourceCode/backend-spring/src/main/java/com/zosh/model/CatalogProduct.java:161-165 | A null or blank URL is ignored; any other is appended trimmed, duplicates allowed. |
| CatalogProducts.CatalogProduct.RemoveImage | EcommerceMultiVendorNossoCloset/sourceCode/backend-spring/src/main/java/com/zosh/model/CatalogProduct.java:167-169 | One copy of the untrimmed URL is removed. |
| CatalogProducts.CatalogProduct.AddColor | EcommerceMultiVendorNossoCloset/sourceCode/backend-spring/src/main/java/com/zosh/model/CatalogProduct.java:171-178 | The colour is stored once, trimmed and lower-case, and the list stays normalised. Afterwards `hasColor` finds the trimmed colour, and finds the colour as given exactly when it had nothing to trim. |
| CatalogProducts.CatalogProduct.RemoveColor | EcommerceMultiVendorNossoCloset/sourceCode/backend-spring/src/main/java/com/zosh/model/CatalogProduct.java:180-184 | The list stays normalised, and afterwards `hasColor` no longer finds the colour. |
| CatalogProducts.CatalogProduct.AddSize | EcommerceMultiVendorNossoCloset/sourceCode/backend-spring/src/main/java/com/zosh/model/CatalogProduct.java:186-193 | The size is stored once, trimmed and upper-case, and the list stays normalised. Afterwards `hasSize` finds the trimmed size, and finds the size as given exactly when it had nothing to trim. |
| CatalogProducts.CatalogProduct.RemoveSize | EcommerceMultiVendorNossoCloset/sourceCode/backend-spring/src/main/java/com/zosh/model/CatalogProduct.java:195-199 | The list stays normalised, and afterwards `hasSize` no longer finds the size. |
| CatalogProducts.CatalogProduct.AddTag | EcommerceMultiVendorNossoCloset/sourceCode/backend-spring/src/main/java/com/zosh/model/CatalogProduct.java:201-208 | The tag is stored once, trimmed and lower-case, and the list stays normalised. |
| CatalogProducts.CatalogProduct.RemoveTag | EcommerceMultiVendorNossoCloset/sourceCode/backend-spring/src/main/java/com/zosh/model/CatalogProduct.java:210-214 | The lower-case tag is removed without trimming, and the list stays normalised. |
| CatalogProducts.CatalogProduct.MarkAsAvailable | EcommerceMultiVendorNossoCloset/sourceCode/backend-spring/src/main/java/com/zosh/model/CatalogProduct.java:228-230 | The product becomes AVAILABLE. |
| CatalogProducts.CatalogProduct.MarkAsOutOfStock | EcommerceMultiVendorNossoCloset/sourceCode/backend-spring/src/main/java/com/zosh/model/CatalogProduct.java:232-234 | The product becomes OUT_OF_STOCK and is no longer available. |
| CatalogProducts.CatalogProduct.Discontinue | EcommerceMultiVendorNossoCloset/sourceCode/backend-spring/src/main/java/com/zosh/model/CatalogProduct.java:236-238 | The product becomes DISCONTINUED and is no longer available. |
| CatalogProducts.CatalogProduct.IncrementViewCount | EcommerceMultiVendorNossoCloset/sourceCode/backend-spring/src/main/java/com/zosh/model/CatalogProduct.java:240-242 | The counter goes up by one, with null read as 0. |
| CatalogProducts.CatalogProduct.IncrementFavoriteCount | EcommerceMultiVendorNossoCloset/sourceCode/backend-spring/src/main/java/com/zosh/model/CatalogProduct.java:244-246 | The counter goes up by one, with null read as 0. |
| CatalogProducts.CatalogProduct.DecrementFavoriteCount | EcommerceMultiVendorNossoCloset/sourceCode/backend-spring/src/main/java/com/zosh/model/CatalogProduct.java:248-250 | The counter goes down by one and never below 0. |
| CatalogProducts.CatalogProduct.IncrementOrderCount | EcommerceMultiVendorNossoCloset/sourceCode/backend-spring/src/main/java/com/zosh/model/CatalogProduct.java:252-254 | The counter goes up by one, with null read as 0. |
| CatalogProducts.CatalogProduct.GetPrimaryImage | EcommerceMultiVendorNossoCloset/sourceCode/backend-spring/src/main/java/com/zosh/model/CatalogProduct.java:309-311 | None exactly when there are no images; otherwise the first image. |
| CatalogProducts.PromotionActive | EcommerceMultiVendorNossoCloset/sourceCode/backend-spring/src/main/java/com/zosh/model/CatalogProduct.java:259-275 | No contract of its own: a promotional price and start date, now inside the window, and the price below the selling price. `InvertedWindowNeverActive` and `PromotionActiveAtEnds` state its shape. |
| CatalogProducts.CatalogProduct.IsAvailable | EcommerceMultiVendorNossoCloset/sourceCode/backend-spring/src/main/java/com/zosh/model/CatalogProduct.java:216-218 | No contract of its own: the status is AVAILABLE. `MarkAsAvailable` makes it hold; `MarkAsOutOfStock` and `Discontinue` make it fail. |
| CatalogProducts.CatalogProduct.IsDiscontinued | EcommerceMultiVendorNossoCloset/sourceCode/backend-spring/src/main/java/com/zosh/model/CatalogProduct.java:220-222 | No contract of its own: the status is DISCONTINUED. `Discontinue` states it afterwards. |
| CatalogProducts.CatalogProduct.IsOutOfStock | EcommerceMultiVendorNossoCloset/sourceCode/backend-spring/src/main/java/com/zosh/model/CatalogProduct.java:224-226 | No contract of its own: the status is OUT_OF_STOCK. `MarkAsOutOfStock` states it afterwards. |
| CatalogProducts.CatalogProduct.HasActivePromotion | EcommerceMultiVendorNossoCloset/sourceCode/backend-spring/src/main/java/com/zosh/model/CatalogProduct.java:259-275 | No contract of its own: `CatalogProducts.PromotionActive` of the product's fields. |
| CatalogProducts.CatalogProduct.GetEffectivePrice | EcommerceMultiVendorNossoCloset/sourceCode/backend-spring/src/main/java/com/zosh/model/CatalogProduct.java:280-282 | No contract of its own: `CatalogProducts.EffectivePrice` of the product's fields, whose contract fixes the result. |
| CatalogProducts.CatalogProduct.HasImages | EcommerceMultiVendorNossoCloset/sourceCode/backend-spring/src/main/java/com/zosh/model/CatalogProduct.java:302-304 | No contract of its own: the image list is not empty. `GetPrimaryImage` is None exactly when it fails. |
| CatalogProducts.CatalogProduct.HasColor | EcommerceMultiVendorNossoCloset/sourceCode/backend-spring/src/main/java/com/zosh/model/CatalogProduct.java:316-321 | No contract of its own: the lower-case colour, untrimmed, is in the list. `AddColor`, `RemoveColor`, `HasAfterAdd` and `OnlyTrimmedFound` state what it finds. |
| CatalogProducts.CatalogProduct.HasSize | EcommerceMultiVendorNossoCloset/sourceCode/backend-spring/src/main/java/com/zosh/model/CatalogProduct.java:326-331 | No contract of its own: the upper-case size, untrimmed, is in the list. `AddSize` and `RemoveSize` state what it finds. |
| CatalogProducts.CatalogProduct.GetShortDescription | EcommerceMultiVendorNossoCloset/sourceCode/backend-spring/src/main/java/com/zosh/model/CatalogProduct.java:336-346 | No contract of its own: `CatalogProducts.ShortDescription` of the description, whose contract states the result. |
| CatalogProducts.CatalogProduct.ListsNormalized | EcommerceMultiVendorNossoCloset/sourceCode/backend-spring/src/main/java/com/zosh/model/CatalogProduct.java:171-215 | No contract of its own: the colour, size and tag lists hold trimmed entries in their case, each once. The add and remove methods keep it. |
| CustomOrderRepository.HighNameIsLowest | EcommerceMultiVendorNossoCloset/sourceCode/backend-spring/src/main/java/com/zosh/repository/CustomOrderRepository.java:64 | As text, "HIGH" sorts below "LOW", "NORMAL" and "URGENT". |
| CustomOrderRepository.FindPendingAnalysis | EcommerceMultiVendorNossoCloset/sourceCode/backend-spring/src/main/java/com/zosh/repository/CustomOrderRepository.java:64-65 | The result holds exactly the PENDING_ANALYSIS orders, each as often as stored. Urgency names are in descending text order, and orders of equal urgency are oldest first. |
| CustomOrderRepository.PendingAnalysisListsHighLast | EcommerceMultiVendorNossoCloset/sourceCode/backend-spring/src/main/java/com/zosh/repository/CustomOrderRepository.java:64-65 | In the queue as written, a HIGH order is followed only by HIGH orders. |
| CustomOrderRepository.FindPendingAnalysisBySeverity | EcommerceMultiVendorNossoCloset/sourceCode/backend-spring/src/main/java/com/zosh/repository/CustomOrderRepository.java:64-65 | The same orders ordered by severity (URGENT, HIGH, NORMAL, LOW), oldest first among equals. |
| CustomOrderRepository.UrgentFirstBySeverity | EcommerceMultiVendorNossoCloset/sourceCode/backend-spring/src/main/java/com/zosh/repository/CustomOrderRepository.java:64-65 | By severity, every HIGH or URGENT order comes before every other one. |
| CustomOrderRepository.FindConfirmedAwaitingCollectiveOrder | EcommerceMultiVendorNossoCloset/sourceCode/backend-spring/src/main/java/com/zosh/repository/CustomOrderRepository.java:75-76 | The result holds exactly the CONFIRMED orders without a pool, each as often as stored. Null confirmation times come first, as MySQL and H2 sort NULL, then the earliest. |
| CustomOrderRepository.CountUrgentAfterAppend | EcommerceMultiVendorNossoCloset/sourceCode/backend-spring/src/main/java/com/zosh/repository/CustomOrderRepository.java:143 | Storing one more order raises the count by one exactly when that order is HIGH or URGENT and neither DELIVERED nor CANCELLED. The count never exceeds the number of orders. |
| CustomOrderRepository.ClosingLeavesCount | EcommerceMultiVendorNossoCloset/sourceCode/backend-spring/src/main/java/com/zosh/repository/CustomOrderRepository.java:143 | Delivering or cancelling an urgent open order lowers the count by exactly one. |
| CustomOrderRepository.FindOldPendingAnalysis | EcommerceMultiVendorNossoCloset/sourceCode/backend-spring/src/main/java/com/zosh/repository/CustomOrderRepository.java:154-155 | The result holds exactly the PENDING_ANALYSIS orders created before the cutoff, each as often as stored, oldest first. |
| CustomOrderRepository.FindOldPricedOrders | EcommerceMultiVendorNossoCloset/sourceCode/backend-spring/src/main/java/com/zosh/repository/CustomOrderRepository.java:160-161 | The result holds exactly the PRICED orders analysed before the cutoff, each as often as stored, earliest analysis first. |
| CustomOrderRepository.FindOrdersNeedingFollowUp | EcommerceMultiVendorNossoCloset/sourceCode/backend-spring/src/main/java/com/zosh/repository/CustomOrderRepository.java:194-199 | The result holds exactly the orders needing follow-up, each as often as stored, ordered like the analysis queue. |
| CustomOrderRepository.FollowUpIsOldPendingAndOldPriced | EcommerceMultiVendorNossoCloset/sourceCode/backend-spring/src/main/java/com/zosh/repository/CustomOrderRepository.java:194-199 | The follow-up list is the multiset union of the old pending list and the old priced list, which never share an order. |
| CustomOrderRepository.FiltersOnlyNarrow | EcommerceMultiVendorNossoCloset/sourceCode/backend-spring/src/main/java/com/zosh/repository/CustomOrderRepository.java:101-123 | Without parameters every order is returned, each as often as stored. Setting fewer parameters never loses an order. |
| CustomOrderRepository.ValueBoundsReadFinalPrice | EcommerceMultiVendorNossoCloset/sourceCode/backend-spring/src/main/java/com/zosh/repository/CustomOrderRepository.java:101-113 | The value bounds compare the final price only: an unpriced order fails any bound, and the estimate never matters. |
| CustomOrderRepository.AwaitingAnalysis | EcommerceMultiVendorNossoCloset/sourceCode/backend-spring/src/main/java/com/zosh/repository/CustomOrderRepository.java:64 | No contract of its own: the `WHERE` of `findPendingAnalysis`, status PENDING_ANALYSIS. The query's contract lists exactly these rows. |
| CustomOrderRepository.AwaitingPool | EcommerceMultiVendorNossoCloset/sourceCode/backend-spring/src/main/java/com/zosh/repository/CustomOrderRepository.java:75 | No contract of its own: the `WHERE` of `findConfirmedAwaitingCollectiveOrder`, CONFIRMED with no pool. |
| CustomOrderRepository.UrgentPending | EcommerceMultiVendorNossoCloset/sourceCode/backend-spring/src/main/java/com/zosh/repository/CustomOrderRepository.java:143 | No contract of its own: the `WHERE` of `countUrgentPendingOrders`, HIGH or URGENT and neither DELIVERED nor CANCELLED. |
| CustomOrderRepository.CountUrgentPendingOrders | EcommerceMultiVendorNossoCloset/sourceCode/backend-spring/src/main/java/com/zosh/repository/CustomOrderRepository.java:143 | No contract of its own: the number of matching rows. `CountUrgentAfterAppend` and `ClosingLeavesCount` state how it changes. |
| CustomOrderRepository.OldPendingAnalysis | EcommerceMultiVendorNossoCloset/sourceCode/backend-spring/src/main/java/com/zosh/repository/CustomOrderRepository.java:154 | No contract of its own: the `WHERE` of `findOldPendingAnalysis`, PENDING_ANALYSIS created before the cutoff. |
| CustomOrderRepository.OldPriced | EcommerceMultiVendorNossoCloset/sourceCode/backend-spring/src/main/java/com/zosh/repository/CustomOrderRepository.java:160 | No contract of its own: the `WHERE` of `findOldPricedOrders`, PRICED and analysed before the cutoff. |
| CustomOrderRepository.NeedsFollowUp | EcommerceMultiVendorNossoCloset/sourceCode/backend-spring/src/main/java/com/zosh/repository/CustomOrderRepository.java:194-198 | No contract of its own: the `WHERE` of `findOrdersNeedingFollowUp`. `FollowUpIsOldPendingAndOldPriced` splits it into the two old-order queries. |
| CustomOrderRepository.MatchesFilters | EcommerceMultiVendorNossoCloset/sourceCode/backend-spring/src/main/java/com/zosh/repository/CustomOrderRepository.java:101-121 | No contract of its own: the `WHERE` of `findWithFilters`, where an absent parameter disables its condition and the search term matches description, client name or reference code. |
| CustomOrderRepository.FindWithFilters | EcommerceMultiVendorNossoCloset/sourceCode/backend-spring/src/main/java/com/zosh/repository/CustomOrderRepository.java:101-123 | The result holds exactly the orders the filters match, each as often as stored. |
| CustomOrderRepository.LikeIgnoringCase | EcommerceMultiVendorNossoCloset/sourceCode/backend-spring/src/main/java/com/zosh/repository/CustomOrderRepository.java:111-113 | No contract of its own: `LOWER(column) LIKE LOWER('%term%')`, where a NULL column never matches. |
| CustomOrderRepository.UrgencyTextKey | EcommerceMultiVendorNossoCloset/sourceCode/backend-spring/src/main/java/com/zosh/repository/CustomOrderRepository.java:64 | No contract of its own: the `ORDER BY co.urgency DESC, co.createdAt ASC` key, comparing urgencies by their stored names. `FindPendingAnalysis` and the Findings row state the order it gives. |
| CollectiveOrderRepository.ReachedMinimumIsEntityCheck | EcommerceMultiVendorNossoCloset/sourceCode/backend-spring/src/main/java/com/zosh/repository/CollectiveOrderRepository.java:53-54 | The query selects a pool exactly when it is OPEN and reports its minimum reached. |
| CollectiveOrderRepository.FindOrdersReachedMinimum | EcommerceMultiVendorNossoCloset/sourceCode/backend-spring/src/main/java/com/zosh/repository/CollectiveOrderRepository.java:53-54 | The result holds exactly those pools, each as often as stored. Null `minimumReachedAt` comes first, as MySQL and H2 sort NULL, then the earliest. |
| CollectiveOrderRepository.OverdueIsEntityCheck | EcommerceMultiVendorNossoCloset/sourceCode/backend-spring/src/main/java/com/zosh/repository/CollectiveOrderRepository.java:59-66 | A pool is overdue to the query exactly when it is in PAYMENT_WINDOW and reports its payment overdue. No pool is both overdue and near its deadline. |
| CollectiveOrderRepository.FindOverduePaymentOrders | EcommerceMultiVendorNossoCloset/sourceCode/backend-spring/src/main/java/com/zosh/repository/CollectiveOrderRepository.java:65-66 | The result holds exactly the overdue pools, each as often as stored, earliest deadline first. |
| CollectiveOrderRepository.FindOrdersNearPaymentDeadline | EcommerceMultiVendorNossoCloset/sourceCode/backend-spring/src/main/java/com/zosh/repository/CollectiveOrderRepository.java:59-60 | The result holds exactly the PAYMENT_WINDOW pools with a deadline in [now, cutoff], earliest deadline first. |
| CollectiveOrderRepository.AdminPriorityOfListed | EcommerceMultiVendorNossoCloset/sourceCode/backend-spring/src/main/java/com/zosh/repository/CollectiveOrderRepository.java:157-168 | Every listed pool has priority 1, 2 or 3. Priority 1 means overdue, 2 means OPEN at its minimum, and 3 means MINIMUM_REACHED. |
| CollectiveOrderRepository.FindOrdersNeedingAdminAction | EcommerceMultiVendorNossoCloset/sourceCode/backend-spring/src/main/java/com/zosh/repository/CollectiveOrderRepository.java:157-168 | The result holds exactly the pools needing action, each as often as stored. They are ordered by priority, then oldest first. |
| CollectiveOrderRepository.OverdueFirst | EcommerceMultiVendorNossoCloset/sourceCode/backend-spring/src/main/java/com/zosh/repository/CollectiveOrderRepository.java:157-168 | Every overdue pool comes before every pool that is not overdue. |
| CollectiveOrderRepository.FindOrdersReadyForSupplierPayment | EcommerceMultiVendorNossoCloset/sourceCode/backend-spring/src/main/java/com/zosh/repository/CollectiveOrderRepository.java:173-174 | The result holds exactly the unpaid PAYMENT_WINDOW pools, each as often as stored, earliest opened window first. |
| CollectiveOrderRepository.SumCurrentValues | EcommerceMultiVendorNossoCloset/sourceCode/backend-spring/src/main/java/com/zosh/repository/CollectiveOrderRepository.java:113 | `SUM` is NULL exactly over no rows. |
| CollectiveOrderRepository.TotalValueBySupplier | EcommerceMultiVendorNossoCloset/sourceCode/backend-spring/src/main/java/com/zosh/repository/CollectiveOrderRepository.java:113-114 | The total is NULL exactly when the supplier has no pool other than CANCELLED ones. |
| CollectiveOrderRepository.TotalAfterAppend | EcommerceMultiVendorNossoCloset/sourceCode/backend-spring/src/main/java/com/zosh/repository/CollectiveOrderRepository.java:113-114 | Storing a pool adds its value to its own supplier's total unless it is CANCELLED. No other supplier's total changes. |
| CollectiveOrderRepository.FiltersOnlyNarrow | EcommerceMultiVendorNossoCloset/sourceCode/backend-spring/src/main/java/com/zosh/repository/CollectiveOrderRepository.java:81-98 | Without parameters every pool is returned, each as often as stored. Setting fewer parameters never loses a pool. |
| CollectiveOrderRepository.TrackingCodeSplits | EcommerceMultiVendorNossoCloset/sourceCode/backend-spring/src/main/java/com/zosh/repository/CollectiveOrderRepository.java:81-98 | The "with tracking code" result and the "without" result together are the unfiltered result. |
| CollectiveOrderRepository.ReachedMinimum | EcommerceMultiVendorNossoCloset/sourceCode/backend-spring/src/main/java/com/zosh/repository/CollectiveOrderRepository.java:53 | No contract of its own: the `WHERE` of `findOrdersReachedMinimum`. `ReachedMinimumIsEntityCheck` equates it with OPEN plus `isMinimumReached`. |
| CollectiveOrderRepository.Overdue | EcommerceMultiVendorNossoCloset/sourceCode/backend-spring/src/main/java/com/zosh/repository/CollectiveOrderRepository.java:65 | No contract of its own: the `WHERE` of `findOverduePaymentOrders`. `OverdueIsEntityCheck` equates it with PAYMENT_WINDOW plus `isPaymentOverdue`. |
| CollectiveOrderRepository.NearPaymentDeadline | EcommerceMultiVendorNossoCloset/sourceCode/backend-spring/src/main/java/com/zosh/repository/CollectiveOrderRepository.java:59 | No contract of its own: the `WHERE` of `findOrdersNearPaymentDeadline`, a PAYMENT_WINDOW deadline in [now, cutoff]. |
| CollectiveOrderRepository.NeedsAdminAction | EcommerceMultiVendorNossoCloset/sourceCode/backend-spring/src/main/java/com/zosh/repository/CollectiveOrderRepository.java:157-160 | No contract of its own: the `WHERE` of `findOrdersNeedingAdminAction`. `AdminPriorityOfListed` states the rank of every row it admits. |
| CollectiveOrderRepository.AdminPriority | EcommerceMultiVendorNossoCloset/sourceCode/backend-spring/src/main/java/com/zosh/repository/CollectiveOrderRepository.java:162-167 | No contract of its own: the `CASE` rank of the admin work list. `AdminPriorityOfListed` states what each rank means. |
| CollectiveOrderRepository.ReadyForSupplierPayment | EcommerceMultiVendorNossoCloset/sourceCode/backend-spring/src/main/java/com/zosh/repository/CollectiveOrderRepository.java:173 | No contract of its own: the `WHERE` of `findOrdersReadyForSupplierPayment`, PAYMENT_WINDOW with no supplier payment date. |
| CollectiveOrderRepository.CountedFor | EcommerceMultiVendorNossoCloset/sourceCode/backend-spring/src/main/java/com/zosh/repository/CollectiveOrderRepository.java:113 | No contract of its own: the supplier's pools that are not CANCELLED. `TotalValueBySupplier` and `TotalAfterAppend` state the total over them. |
| CollectiveOrderRepository.SumCurrentValuesAppend | EcommerceMultiVendorNossoCloset/sourceCode/backend-spring/src/main/java/com/zosh/repository/CollectiveOrderRepository.java:113 | The sum over one more row is the old sum, 0 for no rows, plus that row's current value. |
| CollectiveOrderRepository.MatchesFilters | EcommerceMultiVendorNossoCloset/sourceCode/backend-spring/src/main/java/com/zosh/repository/CollectiveOrderRepository.java:81-96 | No contract of its own: the `WHERE` of `findWithFilters`, where an absent parameter disables its condition. |
| CollectiveOrderRepository.FindWithFilters | EcommerceMultiVendorNossoCloset/sourceCode/backend-spring/src/main/java/com/zosh/repository/CollectiveOrderRepository.java:81-98 | The result holds exactly the pools the filters match, each as often as stored. |
| CollectiveOrderRepository.AdminKey | EcommerceMultiVendorNossoCloset/sourceCode/backend-spring/src/main/java/com/zosh/repository/CollectiveOrderRepository.java:162-167 | No contract of its own: the `CASE` rank, then `createdAt` ascending. `FindOrdersNeedingAdminAction` states the order it gives. |
| CreditTransactionRepository.ActiveAndExpiredDisjoint | EcommerceMultiVendorNossoCloset/sourceCode/backend-spring/src/main/java/com/zosh/repository/CreditTransactionRepository.java:53-70 | At one instant no entry is both an active and an expired credit. |
| CreditTransactionRepository.QueriesAgreeWithEntity | EcommerceMultiVendorNossoCloset/sourceCode/backend-spring/src/main/java/com/zosh/repository/CreditTransactionRepository.java:53-70 | Away from the expiry instant, both queries agree with the entity's `isExpired`. At the expiry instant itself an entry is spendable, yet it is neither an active nor an expired credit. |
| CreditTransactionRepository.FindActiveCredits | EcommerceMultiVendorNossoCloset/sourceCode/backend-spring/src/main/java/com/zosh/repository/CreditTransactionRepository.java:53-56 | The result holds exactly the client's ACTIVE entries with no expiry or a future one, each as often as stored. The soonest expiry comes first, entries that never expire come last, and equal expiries are listed oldest first. |
| CreditTransactionRepository.FindExpiredCredits | EcommerceMultiVendorNossoCloset/sourceCode/backend-spring/src/main/java/com/zosh/repository/CreditTransactionRepository.java:68-70 | The result holds exactly the ACTIVE entries whose expiry has passed, each as often as stored, oldest expiry first. |
| CreditTransactionRepository.NearExpirationIsActive | EcommerceMultiVendorNossoCloset/sourceCode/backend-spring/src/main/java/com/zosh/repository/CreditTransactionRepository.java:61-63 | An entry near its expiry is still an active credit, and not an expired one, unless it expires exactly now. |
| CreditTransactionRepository.SumAmountsRemoveFirst | EcommerceMultiVendorNossoCloset/sourceCode/backend-spring/src/main/java/com/zosh/repository/CreditTransactionRepository.java:75-77 | Removing one stored row takes exactly its amount off the sum. |
| CreditTransactionRepository.SumAmountsPermutation | EcommerceMultiVendorNossoCloset/sourceCode/backend-spring/src/main/java/com/zosh/repository/CreditTransactionRepository.java:75-77 | A sum does not depend on the order of its rows. |
| CreditTransactionRepository.SumAmountsNonNegative | EcommerceMultiVendorNossoCloset/sourceCode/backend-spring/src/main/java/com/zosh/repository/CreditTransactionRepository.java:75-77 | Rows with amounts of at least 0.01 sum to at least one cent each. |
| CreditTransactionRepository.BalanceOfListedCredits | EcommerceMultiVendorNossoCloset/sourceCode/backend-spring/src/main/java/com/zosh/repository/CreditTransactionRepository.java:53-77 | The balance is the sum over exactly the entries `findActiveCredits` lists. |
| CreditTransactionRepository.BalanceAfterAppend | EcommerceMultiVendorNossoCloset/sourceCode/backend-spring/src/main/java/com/zosh/repository/CreditTransactionRepository.java:75-77 | Storing an entry adds its amount when it is an active credit of the client, whatever its type, debits included. |
| CreditTransactionRepository.BalanceNonNegative | EcommerceMultiVendorNossoCloset/sourceCode/backend-spring/src/main/java/com/zosh/repository/CreditTransactionRepository.java:75-77 | The balance of rows within the amount bounds is never negative. |
| CreditTransactionRepository.ClientHasSufficientCredits | EcommerceMultiVendorNossoCloset/sourceCode/backend-spring/src/main/java/com/zosh/repository/CreditTransactionRepository.java:198-202 | The check holds exactly when the active balance covers the amount, and always for a non-positive amount. |
| CreditTransactionRepository.FindTransactionsNeedingFollowUp | EcommerceMultiVendorNossoCloset/sourceCode/backend-spring/src/main/java/com/zosh/repository/CreditTransactionRepository.java:208-217 | The result holds exactly the overdue ACTIVE and stale PENDING entries, each as often as stored. Overdue ones come first, and each group is oldest first. |
| CreditTransactionRepository.FiltersOnlyNarrow | EcommerceMultiVendorNossoCloset/sourceCode/backend-spring/src/main/java/com/zosh/repository/CreditTransactionRepository.java:87-106 | Without parameters every entry is returned, each as often as stored. Setting fewer parameters never loses an entry. |
| CreditTransactionRepository.IsActiveCredit | EcommerceMultiVendorNossoCloset/sourceCode/backend-spring/src/main/java/com/zosh/repository/CreditTransactionRepository.java:53-55 | No contract of its own: the `WHERE` of `findActiveCredits`. `QueriesAgreeWithEntity` and `ActiveAndExpiredDisjoint` relate it to `isExpired` and the expired query. |
| CreditTransactionRepository.IsExpiredCredit | EcommerceMultiVendorNossoCloset/sourceCode/backend-spring/src/main/java/com/zosh/repository/CreditTransactionRepository.java:68-69 | No contract of its own: the `WHERE` of `findExpiredCredits`, ACTIVE with an expiry before now. |
| CreditTransactionRepository.IsNearExpiration | EcommerceMultiVendorNossoCloset/sourceCode/backend-spring/src/main/java/com/zosh/repository/CreditTransactionRepository.java:61-62 | No contract of its own: the `WHERE` of `findCreditsNearExpiration`. `NearExpirationIsActive` relates it to the active query. |
| CreditTransactionRepository.SumAmounts | EcommerceMultiVendorNossoCloset/sourceCode/backend-spring/src/main/java/com/zosh/repository/CreditTransactionRepository.java:75 | No contract of its own: `COALESCE(SUM(amount), 0)`. `SumAmountsConcat`, `SumAmountsRemoveFirst`, `SumAmountsPermutation` and `SumAmountsNonNegative` state its properties. |
| CreditTransactionRepository.SumAmountsConcat | EcommerceMultiVendorNossoCloset/sourceCode/backend-spring/src/main/java/com/zosh/repository/CreditTransactionRepository.java:75 | The sum over two lists together is the sum of their sums. |
| CreditTransactionRepository.CalculateActiveCreditBalance | EcommerceMultiVendorNossoCloset/sourceCode/backend-spring/src/main/java/com/zosh/repository/CreditTransactionRepository.java:75-77 | No contract of its own: the sum over the active credits. `BalanceOfListedCredits`, `BalanceAfterAppend` and `BalanceNonNegative` state its value. |
| CreditTransactionRepository.NeedsFollowUp | EcommerceMultiVendorNossoCloset/sourceCode/backend-spring/src/main/java/com/zosh/repository/CreditTransactionRepository.java:208-211 | No contract of its own: the `WHERE` of `findTransactionsNeedingFollowUp`, a stale PENDING entry or an expired credit. |
| CreditTransactionRepository.FollowUpRank | EcommerceMultiVendorNossoCloset/sourceCode/backend-spring/src/main/java/com/zosh/repository/CreditTransactionRepository.java:212-216 | No contract of its own: the `CASE` rank of the follow-up order. `FindTransactionsNeedingFollowUp` states that expired credits come first. |
| CreditTransactionRepository.MatchesFilters | EcommerceMultiVendorNossoCloset/sourceCode/backend-spring/src/main/java/com/zosh/repository/CreditTransactionRepository.java:87-97 | No contract of its own: the `WHERE` of `findWithFilters`, where an absent parameter disables its condition. |
| CreditTransactionRepository.FindWithFilters | EcommerceMultiVendorNossoCloset/sourceCode/backend-spring/src/main/java/com/zosh/repository/CreditTransactionRepository.java:87-106 | The result holds exactly the entries the filters match, each as often as stored. |
| CreditTransactionRepository.ActiveCreditKey | EcommerceMultiVendorNossoCloset/sourceCode/backend-spring/src/main/java/com/zosh/repository/CreditTransactionRepository.java:55 | No contract of its own: the `ORDER BY ct.expiresAt ASC NULLS LAST, ct.createdAt ASC` key. `FindActiveCredits` states the order it gives. |
| CreditTransactionRepository.LikeIgnoringCase | EcommerceMultiVendorNossoCloset/sourceCode/backend-spring/src/main/java/com/zosh/repository/CreditTransactionRepository.java:96-97 | No contract of its own: `LOWER(column) LIKE LOWER('%term%')`, where a NULL column never matches. |
| AwsS3.ValidateImageFile | EcommerceMultiVendorNossoCloset/sourceCode/backend-spring/src/main/java/com/zosh/service/AwsS3Service.java:174-187 | It passes exactly for a present file of at most 10 MB with an `image/` type. Every refusal is IllegalArgumentException, and a null or empty file is refused first. |
| AwsS3.LastIndexOf | EcommerceMultiVendorNossoCloset/sourceCode/backend-spring/src/main/java/com/zosh/service/AwsS3Service.java:189-199 | The result is -1 exactly when c is absent. Otherwise it is a position holding c, with no c after it. |
| AwsS3.Extension | EcommerceMultiVendorNossoCloset/sourceCode/backend-spring/src/main/java/com/zosh/service/AwsS3Service.java:189-199 | Empty exactly for a null name or a name without '.'. Otherwise it is a suffix of the name that starts at its last '.'. |
| AwsS3.GenerateUniqueFileName | EcommerceMultiVendorNossoCloset/sourceCode/backend-spring/src/main/java/com/zosh/service/AwsS3Service.java:189-199 | The name starts with the timestamp, '_' and the UUID's first 8 characters, and ends with the extension. It has no other characters. |
| AwsS3.BuildImageKey | EcommerceMultiVendorNossoCloset/sourceCode/backend-spring/src/main/java/com/zosh/service/AwsS3Service.java:201-203 | The key is `images/`, then the category at positions 7.., then '/' and the file name. |
| AwsS3.ThumbnailKeyReplacesEachPart | EcommerceMultiVendorNossoCloset/sourceCode/backend-spring/src/main/java/com/zosh/service/AwsS3Service.java:205-207 | The thumbnail key of an image key is `thumbnails/`. Every `images` inside the category and inside the file name is replaced too. |
| AwsS3.ThumbnailOfImageKey | EcommerceMultiVendorNossoCloset/sourceCode/backend-spring/src/main/java/com/zosh/service/AwsS3Service.java:205-207 | When neither part contains `images`, the thumbnail key has the same category and file name under `thumbnails/`. |
| AwsS3.ReplaceInKey | EcommerceMultiVendorNossoCloset/sourceCode/backend-spring/src/main/java/com/zosh/service/AwsS3Service.java:205-207 | Replacing a folder name without '/' in `folder/category/file` replaces each part separately. |
| AwsS3.BaseUrl | EcommerceMultiVendorNossoCloset/sourceCode/backend-spring/src/main/java/com/zosh/service/AwsS3Service.java:209-211 | The base is `https://`, the bucket name, `.s3.`, the region and `.amazonaws.com/`, each part at its position. |
| AwsS3.BuildImageUrl | EcommerceMultiVendorNossoCloset/sourceCode/backend-spring/src/main/java/com/zosh/service/AwsS3Service.java:209-211 | The URL is the base followed by exactly the key. |
| AwsS3.UrlRoundTrip | EcommerceMultiVendorNossoCloset/sourceCode/backend-spring/src/main/java/com/zosh/service/AwsS3Service.java:209-217 | `extractKeyFromUrl(buildImageUrl(k)) == k` whenever k does not contain the base URL. |
| AwsS3.UrlRoundTripLosesEmbeddedBase | EcommerceMultiVendorNossoCloset/sourceCode/backend-spring/src/main/java/com/zosh/service/AwsS3Service.java:213-217 | A key that starts with the base URL does not come back from its URL. |
| AwsS3.ReplaceShrinks | EcommerceMultiVendorNossoCloset/sourceCode/backend-spring/src/main/java/com/zosh/service/AwsS3Service.java:213-217 | Removing a non-empty target never lengthens a string. |
| AwsS3.GetPublicUrl | EcommerceMultiVendorNossoCloset/sourceCode/backend-spring/src/main/java/com/zosh/service/AwsS3Service.java:168-170 | The public URL always starts with the base URL. |
| AwsS3.PublicUrlOfImageUrl | EcommerceMultiVendorNossoCloset/sourceCode/backend-spring/src/main/java/com/zosh/service/AwsS3Service.java:168-170 | The public URL of an uploaded image's URL is that URL. |
| AwsS3.DeleteTargetsUploadedKeys | EcommerceMultiVendorNossoCloset/sourceCode/backend-spring/src/main/java/com/zosh/service/AwsS3Service.java:116-141 | For an uploaded image's URL, deletion targets the key the upload wrote and that key's thumbnail key. |
| AwsS3.UploadImage | EcommerceMultiVendorNossoCloset/sourceCode/backend-spring/src/main/java/com/zosh/service/AwsS3Service.java:47-81 | It succeeds exactly for a file S3 accepts when the put succeeds, and returns the URL of `images/category/uniqueName`. Every failure, validation included, is a RuntimeException. |
| AwsS3.AcceptableByS3 | EcommerceMultiVendorNossoCloset/sourceCode/backend-spring/src/main/java/com/zosh/service/AwsS3Service.java:174-187 | No contract of its own: present, at most 10 MB, an `image/` type. `AwsS3.ValidateImageFile` passes exactly for it. |
| AwsS3.BuildThumbnailKey | EcommerceMultiVendorNossoCloset/sourceCode/backend-spring/src/main/java/com/zosh/service/AwsS3Service.java:205-207 | No contract of its own: `images` replaced by `thumbnails`. `ThumbnailKeyReplacesEachPart` and `ThumbnailOfImageKey` state the key it gives. |
| AwsS3.ExtractKeyFromUrl | EcommerceMultiVendorNossoCloset/sourceCode/backend-spring/src/main/java/com/zosh/service/AwsS3Service.java:213-217 | No contract of its own: the base URL removed. `UrlRoundTrip` and `UrlRoundTripLosesEmbeddedBase` state when it recovers the key. |
| GoogleDrive.ValidatePdfFile | EcommerceMultiVendorNossoCloset/sourceCode/backend-spring/src/main/java/com/zosh/service/GoogleDriveService.java:223-246 | It passes exactly for an acceptable PDF: present, `application/pdf`, named `*.pdf` in any case, 1 KB to 50 MB. A null or empty file is refused first. A NullPointerException arises only from a missing name or content type. |
| GoogleDrive.SafeNameUnchanged | EcommerceMultiVendorNossoCloset/sourceCode/backend-spring/src/main/java/com/zosh/service/GoogleDriveService.java:256 | A name of safe characters comes back unchanged. |
| GoogleDrive.GenerateFileName | EcommerceMultiVendorNossoCloset/sourceCode/backend-spring/src/main/java/com/zosh/service/GoogleDriveService.java:251-259 | The name is the timestamp, '_', 8 UUID characters, '_', then the original with every unsafe character replaced by '_'. The tail is all safe, and every safe character keeps its place. |
| GoogleDrive.GeneratedNameKeepsPdfExtension | EcommerceMultiVendorNossoCloset/sourceCode/backend-spring/src/main/java/com/zosh/service/GoogleDriveService.java:251-259 | A `.pdf` name keeps its ending, in its own case. |
| GoogleDrive.SimulatedUrl | EcommerceMultiVendorNossoCloset/sourceCode/backend-spring/src/main/java/com/zosh/service/GoogleDriveService.java:264-272 | The URL is `https://drive.google.com/file/d/simulated_`, then the UUID's first 8 characters, `_` and the milliseconds in decimal, then `/view`, and its length is fixed by that. |
| GoogleDrive.Parents | EcommerceMultiVendorNossoCloset/sourceCode/backend-spring/src/main/java/com/zosh/service/GoogleDriveService.java:59-62 | At most one parent, and none exactly when no default folder, or an empty one, is configured. The one parent is the configured folder. |
| GoogleDrive.UploadPdf | EcommerceMultiVendorNossoCloset/sourceCode/backend-spring/src/main/java/com/zosh/service/GoogleDriveService.java:45-91 | It is simulated exactly when Drive is disabled, without validation. When enabled, it succeeds exactly for an acceptable PDF when the Drive call does not throw. A refusal is the validation's own exception, and the metadata sent is the generated name, description and parent. |
| GoogleDrive.CatalogPdfName | EcommerceMultiVendorNossoCloset/sourceCode/backend-spring/src/main/java/com/zosh/service/GoogleDriveService.java:97-101 | The name is `Catalogo_`, the sanitised supplier, '_', the sanitised catalog, '_', the date and exactly `.pdf`, each part at its position. |
| GoogleDrive.CatalogPdfNameSeparators | EcommerceMultiVendorNossoCloset/sourceCode/backend-spring/src/main/java/com/zosh/service/GoogleDriveService.java:97-101 | The supplier part and the catalog part of a catalog PDF name are each followed by '_'. |
| GoogleDrive.CatalogPdfNameIsSafe | EcommerceMultiVendorNossoCloset/sourceCode/backend-spring/src/main/java/com/zosh/service/GoogleDriveService.java:97-101 | With a safe date stamp, the catalog name passes through `generateFileName`'s sanitisation unchanged. |
| GoogleDrive.UploadCatalogPdf | EcommerceMultiVendorNossoCloset/sourceCode/backend-spring/src/main/java/com/zosh/service/GoogleDriveService.java:96-106 | This is `uploadPdf` with the catalog name and description. With a safe date stamp the stored name is timestamp, UUID prefix and catalog name, and it ends in `.pdf`. |
| GoogleDrive.IsGoogleDriveEnabled | EcommerceMultiVendorNossoCloset/sourceCode/backend-spring/src/main/java/com/zosh/service/GoogleDriveService.java:277-279 | No contract of its own: the flag is set and a client is present. `GoogleDrive.UploadPdf` simulates exactly when it fails. |
| GoogleDrive.SafeFileNameChar | EcommerceMultiVendorNossoCloset/sourceCode/backend-spring/src/main/java/com/zosh/service/GoogleDriveService.java:256 | No contract of its own: the characters `[a-zA-Z0-9._-]`. `Common.ReplaceUnsafeFileNameChars` keeps exactly these. |
| GoogleDrive.CatalogPdfDescription | EcommerceMultiVendorNossoCloset/sourceCode/backend-spring/src/main/java/com/zosh/service/GoogleDriveService.java:103 | No contract of its own: the catalog PDF's description text, which `GoogleDrive.UploadCatalogPdf` passes on. |
| FileUploads.ValidateImageFile | EcommerceMultiVendorNossoCloset/sourceCode/backend-spring/src/main/java/com/zosh/service/FileUploadService.java:199-227 | It passes exactly for a present file with an `image/` type, a .jpg/.jpeg/.png/.webp name in any case, and 1 KB to 10 MB. Every refusal is IllegalArgumentException, a null or empty file is refused first, and a too-small file is one S3 would accept. |
| FileUploads.ImageCheckIsStricterThanS3 | EcommerceMultiVendorNossoCloset/sourceCode/backend-spring/src/main/java/com/zosh/service/FileUploadService.java:199-227 | Every image this service accepts, S3 accepts too, but not the other way round. |
| FileUploads.ValidatePdfFile | EcommerceMultiVendorNossoCloset/sourceCode/backend-spring/src/main/java/com/zosh/service/FileUploadService.java:229-252 | It passes exactly for an acceptable PDF. A NullPointerException arises exactly for a present file without a content type, and every other refusal is IllegalArgumentException. |
| FileUploads.PdfChecksAgree | EcommerceMultiVendorNossoCloset/sourceCode/backend-spring/src/main/java/com/zosh/service/FileUploadService.java:229-252 | This check and Drive's accept the same files. A `.txt` file of type `text/plain` is refused for different reasons by the two. |
| FileUploads.CatalogProductCategory | EcommerceMultiVendorNossoCloset/sourceCode/backend-spring/src/main/java/com/zosh/service/FileUploadService.java:37-38 | The category is `catalog-products/` followed by one lower-case letter, digit or '_' per character of the supplier name. |
| FileUploads.SharedCatalogCategory | EcommerceMultiVendorNossoCloset/sourceCode/backend-spring/src/main/java/com/zosh/service/FileUploadService.java:37-38 | Two suppliers share a category exactly when their names agree character by character, ignoring case and non-alphanumerics. |
| FileUploads.CustomOrderCategory | EcommerceMultiVendorNossoCloset/sourceCode/backend-spring/src/main/java/com/zosh/service/FileUploadService.java:54 | The category starts with `custom-orders/user-`. |
| FileUploads.CustomOrderCategoryInjective | EcommerceMultiVendorNossoCloset/sourceCode/backend-spring/src/main/java/com/zosh/service/FileUploadService.java:54 | Different users never share a category. |
| FileUploads.DecimalStringInjective | EcommerceMultiVendorNossoCloset/sourceCode/backend-spring/src/main/java/com/zosh/service/FileUploadService.java:54 | Different numbers have different decimal strings. |
| FileUploads.UploadImageTo | EcommerceMultiVendorNossoCloset/sourceCode/backend-spring/src/main/java/com/zosh/service/FileUploadService.java:34-75 | It succeeds exactly for an image this service accepts when S3 stores it. A refused file fails with IllegalArgumentException before reaching S3, and the result is the S3 URL in the category. |
| FileUploads.UploadedUrlHasImageExtension | EcommerceMultiVendorNossoCloset/sourceCode/backend-spring/src/main/java/com/zosh/service/FileUploadService.java:34-46 | An uploaded image's URL ends in an accepted image extension. |
| FileUploads.PresentFiles | EcommerceMultiVendorNossoCloset/sourceCode/backend-spring/src/main/java/com/zosh/service/FileUploadService.java:80-94 | There are never more present files than files. |
| FileUploads.BulkUploadSucceeds | EcommerceMultiVendorNossoCloset/sourceCode/backend-spring/src/main/java/com/zosh/service/FileUploadService.java:80-94 | The bulk upload succeeds exactly when every present file passes the check and is stored. |
| FileUploads.BulkUploadUrls | EcommerceMultiVendorNossoCloset/sourceCode/backend-spring/src/main/java/com/zosh/service/FileUploadService.java:80-94 | On success there is one URL per present file, in the files' order, at most one per file; each is that file's URL in the supplier's category. |
| FileUploads.BulkUploadUrlsAreImages | EcommerceMultiVendorNossoCloset/sourceCode/backend-spring/src/main/java/com/zosh/service/FileUploadService.java:80-94 | Every returned URL ends in an accepted image extension. |
| FileUploads.PresentFilesAreAcceptable | EcommerceMultiVendorNossoCloset/sourceCode/backend-spring/src/main/java/com/zosh/service/FileUploadService.java:80-94 | When every present file passes the check, so does each entry of the present files. |
| FileUploads.UploadMultipleCatalogImages | EcommerceMultiVendorNossoCloset/sourceCode/backend-spring/src/main/java/com/zosh/service/FileUploadService.java:80-94 | The loop returns the same result as the bulk-upload specification. |
| FileUploads.AdminDocumentName | EcommerceMultiVendorNossoCloset/sourceCode/backend-spring/src/main/java/com/zosh/service/FileUploadService.java:118-121 | The name is the sanitised document type, '_', the milliseconds in decimal and `.pdf`, each part at its position, and it is made of safe characters only. |
| FileUploads.UploadAdminDocument | EcommerceMultiVendorNossoCloset/sourceCode/backend-spring/src/main/java/com/zosh/service/FileUploadService.java:115-126 | A refused file fails with this service's own error. An accepted file with Drive enabled succeeds exactly when the Drive call does not throw, and is stored as timestamp, UUID prefix and admin document name. |
| FileUploads.UploadCatalogPdf | EcommerceMultiVendorNossoCloset/sourceCode/backend-spring/src/main/java/com/zosh/service/FileUploadService.java:101-110 | A refused file fails with this service's own error. An accepted file succeeds on Drive exactly when the Drive call does not throw, and is simulated when Drive is disabled. |
| FileUploads.HasImageExtension | EcommerceMultiVendorNossoCloset/sourceCode/backend-spring/src/main/java/com/zosh/service/FileUploadService.java:211-214 | No contract of its own: `.jpg`, `.jpeg`, `.png` or `.webp` in any case. `UploadedUrlHasImageExtension` states that uploaded URLs keep it. |
| FileUploads.AcceptableImage | EcommerceMultiVendorNossoCloset/sourceCode/backend-spring/src/main/java/com/zosh/service/FileUploadService.java:199-227 | No contract of its own: what this service's image check accepts. `FileUploads.ValidateImageFile` passes exactly for it. |
| FileUploads.UploadCatalogProductImage | EcommerceMultiVendorNossoCloset/sourceCode/backend-spring/src/main/java/com/zosh/service/FileUploadService.java:34-46 | No contract of its own: `FileUploads.UploadImageTo` with the supplier's catalog-products category. |
| FileUploads.UploadCustomOrderImage | EcommerceMultiVendorNossoCloset/sourceCode/backend-spring/src/main/java/com/zosh/service/FileUploadService.java:51-62 | No contract of its own: `FileUploads.UploadImageTo` with the user's custom-orders category. |
| FileUploads.UploadUserProfileImage | EcommerceMultiVendorNossoCloset/sourceCode/backend-spring/src/main/java/com/zosh/service/FileUploadService.java:67-75 | No contract of its own: `FileUploads.UploadImageTo` with the user-profiles category. |
| FileUploads.BulkUpload | EcommerceMultiVendorNossoCloset/sourceCode/backend-spring/src/main/java/com/zosh/service/FileUploadService.java:80-94 | No contract of its own: the recursive reference for the bulk upload. `BulkUploadSucceeds` and `BulkUploadUrls` state its result, and `UploadMultipleCatalogImages` is proved equal to it. |
| FileUploads.UploadedUrl | EcommerceMultiVendorNossoCloset/sourceCode/backend-spring/src/main/java/com/zosh/service/AwsS3Service.java:47-72 | No contract of its own: the URL `uploadImage` returns for the category and the unique name. `UploadImageTo` returns it on success, and `UploadedUrlHasImageExtension` states that it keeps the image extension. |
| MultipartFiles.Present | EcommerceMultiVendorNossoCloset/sourceCode/backend-spring/src/main/java/com/zosh/service/AwsS3Service.java:175 | No contract of its own: not null and not empty. `AwsS3.ValidateImageFile` rejects a file that is not present as empty. |
| MultipartFiles.HasPdfExtension | EcommerceMultiVendorNossoCloset/sourceCode/backend-spring/src/main/java/com/zosh/service/GoogleDriveService.java:228 | No contract of its own: the lower-case name ends in `.pdf`. `GeneratedNameKeepsPdfExtension` states that it survives `generateFileName`. |
| MultipartFiles.AcceptablePdf | EcommerceMultiVendorNossoCloset/sourceCode/backend-spring/src/main/java/com/zosh/service/GoogleDriveService.java:223-246 | No contract of its own: what both PDF validators accept. `GoogleDrive.ValidatePdfFile` and `FileUploads.PdfChecksAgree` state it. |

## Left out

- Controllers, DTOs, the mapper service, the metrics service and the frontend are not part of this model. The status guards that `CustomOrderController` applies before `analyze` and `cancel` are left out too, so both entity methods accept any status, as the entity code does.
- The real S3 and Google Drive calls are parameters. Image compression, thumbnail bytes, object metadata and the Drive permission call (`makeFilePublic`) are not modelled. Only the keys and names they use are.
- `AwsS3Service.uploadImageOriginal` and `imageExists`, and the deletion and availability helpers of `FileUploadService` (`deleteImage`, `deletePdf`, `imageExists`, `isGoogleDriveAvailable`, `isS3Available`, `getStorageInfo`), are left out. They are thin wrappers around storage calls. `AwsS3.DeleteTargetsUploadedKeys` states which keys `deleteImage` targets.
- `GoogleDriveService.listFiles`, `deleteFile`, `getFileInfo`, `createFolder`, `getDriveQuotaInfo` and `searchFilesByName` are Drive queries with no logic of their own.
- Log messages are not modelled. That includes the `bulk_upload_%d` product reference, which only reaches a log line.
- The formatted clock values (`yyyyMMdd`, `yyyyMMdd_HHmmss`, milliseconds) and the UUID are inputs. Their formatting is not modelled; the UUID's text is any 36-character string.
- Case mapping covers the ASCII letters only. `trim` strips the characters up to U+0020. A Java string's length counts UTF-16 units, while here it counts characters.
- `String.replaceAll` is modelled only for the two character-class patterns the services use.
- JPA persistence, transactions, Lombok-generated setters, `equals` and `hashCode`, and the entities' bidirectional JPA links beyond a pool's member list are not modelled. Entities are compared by identity.
- Repository statistics queries (counts by status, averages, grouped sums), derived `findBy...` methods and pagination are left out. `LIKE` search terms are modelled as case-insensitive substring tests without `%`/`_` wildcards in the term.
- `User.creditBalance` and the credit ledger are independent in the code, and they stay independent here. No debit, sweep or transfer operation beyond the entity methods is modelled.
- `CatalogProduct.calculateProfitMargin` and `getProductCount` are left out. The first is `BigDecimal` division with HALF_UP rounding; the second only counts a lazy collection.
- User roles and the customer/admin classifiers are left out.
- The `findWithFilters` queries have no `ORDER BY` and are paged. The model returns every matching row in stored order and leaves paging out, so it does not capture the database's freedom to return them in another order.
- NULL placement in `ORDER BY` follows MySQL and H2. A database that sorts NULL highest in ascending order would list the NULL rows of `findConfirmedAwaitingCollectiveOrder` and `findOrdersReachedMinimum` last.
- Repeated clock reads within one call are one value here. `CollectiveOrder.markAsDelivered` reads the clock once per member, and `uploadAdminDocument` reads the milliseconds for the name and again for the simulated URL. The model passes one `now` or one `millis` to all of them.
- The credit factories do not model a null `amount` or `newBalance`.
- An entity's `Row` holds only the columns its queries read.
- `getEffectivePrice` with a null selling price (a NullPointerException in the code) is left out: the selling price is a required column and is an `int` here.
- CollectiveOrders.CollectiveOrder.GetCompletionPercentage: computed over the reals. The `double` rounding is not modelled, so the contract states bounds and when the value is 100, not the rounded number.
- Suppliers.ValueWithFee: computed over the reals. The `BigDecimal` scale and rounding of the division by 100 are not modelled.
- CustomOrders.CustomOrder.GetDaysOld: states only the two cases that give 0. The day count is `Time.DaysBetween`, whose properties `time.dfy` proves.
- Users.DaysSinceLastOrder: states the null case and the same-day case. The day count again is `Time.DaysBetween`, and `Users.InactiveCustomer` gives the exact threshold.
- FileUploads.CustomOrderCategory: states the prefix. `FileUploads.CustomOrderCategoryInjective` states that the id part tells users apart, and the `%d` formatting of a null id as `null` is written out in the function.
- AwsS3.GetPublicUrl: states the prefix; `AwsS3.PublicUrlOfImageUrl` gives the round trip.
- GoogleDrive.GenerateFileName: a null original name (a NullPointerException in the code) is not modelled, because every caller passes a name it built.
- FileUploads.UploadCatalogProductImage, FileUploads.UploadCustomOrderImage and FileUploads.UploadUserProfileImage carry no contract of their own. Each is `FileUploads.UploadImageTo` with its category, and that member's contract covers them. A null supplier name (a NullPointerException in the code) is not modelled.
- CustomOrderRepository.FindOrdersNeedingFollowUp keeps the order as written. It sorts urgency names as text, as `findPendingAnalysis` does (see Findings), and only the analysis queue has a corrected severity order.

## Findings

| source | as written | input that shows it | evidently intended | confidence | as-written member | corrected member |
|---|---|---|---|---|---|---|
| EcommerceMultiVendorNossoCloset/sourceCode/backend-spring/src/main/java/com/zosh/repository/CustomOrderRepository.java:64 | `ORDER BY co.urgency DESC` sorts the urgency column. That column holds the enum's name as text (CustomOrder.java:96-98), so the order is URGENT, NORMAL, LOW, HIGH. | Two PENDING_ANALYSIS orders, one LOW and one HIGH: the LOW order is listed first. | The queue lists the most severe first: URGENT, HIGH, NORMAL, LOW. | not executed | CustomOrderRepository.PendingAnalysisListsHighLast | CustomOrderRepository.FindPendingAnalysisBySeverity |

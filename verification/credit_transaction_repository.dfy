/**
 * The ledger queries of `CreditTransactionRepository` over the stored credit entries: which
 * entries are active or expired at an instant, the active balance of a client, the follow-up
 * list and the search filters. Each query is a selection (`WHERE`) followed, where the query
 * orders its rows, by a sort (`ORDER BY`).
 */
module CreditTransactionRepository {
  import opened Common
  import opened Time
  import Lex
  import opened CreditTransactions

  /** The `WHERE` clause of `findActiveCredits`: the client's ACTIVE entries that have not reached their expiry. */
  predicate IsActiveCredit(t: Row, client: ClientId, now: DateTime)
  {
    t.client == client && t.status == Active && (t.expiresAt.None? || After(t.expiresAt.value, now))
  }

  /** The `WHERE` clause of `findExpiredCredits`: ACTIVE entries whose expiry is strictly before now. */
  predicate IsExpiredCredit(t: Row, now: DateTime)
  {
    t.status == Active && t.expiresAt.Some? && Before(t.expiresAt.value, now)
  }

  /** At one instant no entry is both an active credit and an expired credit. */
  lemma ActiveAndExpiredDisjoint(t: Row, client: ClientId, now: DateTime)
    ensures !(IsActiveCredit(t, client, now) && IsExpiredCredit(t, now))
  {
    if t.expiresAt.Some? {
      Trichotomy(t.expiresAt.value, now);
    }
  }

  /**
   * The queries agree with the entity's `isExpired` on every ACTIVE entry except one that
   * expires exactly now: that entry can still be spent with `use`, yet it is neither an active
   * nor an expired credit.
   */
  lemma QueriesAgreeWithEntity(t: Row, now: DateTime)
    requires t.status == Active
    ensures t.expiresAt != Some(now) ==> (IsActiveCredit(t, t.client, now) <==> !IsExpiredAt(t.status, t.expiresAt, now))
    ensures t.expiresAt != Some(now) ==> (IsExpiredCredit(t, now) <==> IsExpiredAt(t.status, t.expiresAt, now))
    ensures t.expiresAt == Some(now) ==> !IsExpiredAt(t.status, t.expiresAt, now)
    ensures t.expiresAt == Some(now) ==> !IsActiveCredit(t, t.client, now) && !IsExpiredCredit(t, now)
  {
    if t.expiresAt.Some? {
      Trichotomy(t.expiresAt.value, now);
    }
  }

  /** `ORDER BY ct.expiresAt ASC NULLS LAST, ct.createdAt ASC`. */
  function ActiveCreditKey(t: Row): seq<int>
  {
    NullsLastKey(t.expiresAt) + NullsFirstKey(t.createdAt)
  }

  /** `findActiveCredits`: the client's active credits, soonest expiry first, non-expiring ones last, oldest first among equal expiries. */
  function FindActiveCredits(rows: seq<Row>, client: ClientId, now: DateTime): (r: seq<Row>)
    ensures forall k :: 0 <= k < |r| ==> IsActiveCredit(r[k], client, now)
    ensures forall x :: multiset(r)[x] == if IsActiveCredit(x, client, now) then multiset(rows)[x] else 0
    ensures forall i, j :: 0 <= i < j < |r| && r[i].expiresAt.None? ==> r[j].expiresAt.None?
    ensures forall i, j :: 0 <= i < j < |r| && r[i].expiresAt.Some? && r[j].expiresAt.Some? ==>
              !Before(r[j].expiresAt.value, r[i].expiresAt.value)
    ensures forall i, j :: 0 <= i < j < |r| && r[i].expiresAt == r[j].expiresAt ==>
              (r[j].createdAt.None? ==> r[i].createdAt.None?)
              && (r[i].createdAt.Some? && r[j].createdAt.Some? ==> !Before(r[j].createdAt.value, r[i].createdAt.value))
  {
    var r := Lex.Query(rows, ActiveCreditOf(client, now), ActiveCreditKey);
    forall i, j | 0 <= i < j < |r|
      ensures r[i].expiresAt.None? ==> r[j].expiresAt.None?
      ensures r[i].expiresAt.Some? && r[j].expiresAt.Some? ==> !Before(r[j].expiresAt.value, r[i].expiresAt.value)
      ensures r[i].expiresAt == r[j].expiresAt ==>
                (r[j].createdAt.None? ==> r[i].createdAt.None?)
                && (r[i].createdAt.Some? && r[j].createdAt.Some? ==> !Before(r[j].createdAt.value, r[i].createdAt.value))
    {
      var ei, ej := NullsLastKey(r[i].expiresAt), NullsLastKey(r[j].expiresAt);
      Lex.LeqConcat(ei, NullsFirstKey(r[i].createdAt), ej, NullsFirstKey(r[j].createdAt));
      Lex.LeqLeading(ei, NullsFirstKey(r[i].createdAt), ej, NullsFirstKey(r[j].createdAt));
      NullsLastOrder(r[i].expiresAt, r[j].expiresAt);
      if r[i].expiresAt == r[j].expiresAt {
        Lex.LessIsStrict(ei, ej);
        NullsFirstOrder(r[i].createdAt, r[j].createdAt);
      }
    }
    r
  }

  /** `findExpiredCredits`: the expired credits, oldest expiry first. */
  function FindExpiredCredits(rows: seq<Row>, now: DateTime): (r: seq<Row>)
    ensures forall k :: 0 <= k < |r| ==> IsExpiredCredit(r[k], now)
    ensures forall x :: multiset(r)[x] == if IsExpiredCredit(x, now) then multiset(rows)[x] else 0
    ensures forall i, j :: 0 <= i < j < |r| && r[i].expiresAt.Some? && r[j].expiresAt.Some? ==>
              !Before(r[j].expiresAt.value, r[i].expiresAt.value)
  {
    var r := Lex.Query(rows, t => IsExpiredCredit(t, now), (t: Row) => NullsFirstKey(t.expiresAt));
    forall i, j | 0 <= i < j < |r| && r[i].expiresAt.Some? && r[j].expiresAt.Some?
      ensures !Before(r[j].expiresAt.value, r[i].expiresAt.value)
    {
      NullsFirstOrder(r[i].expiresAt, r[j].expiresAt);
    }
    r
  }

  /** The `WHERE` clause of `findCreditsNearExpiration`: ACTIVE entries expiring within [now, cutoff]. */
  predicate IsNearExpiration(t: Row, now: DateTime, cutoff: DateTime)
  {
    t.status == Active && t.expiresAt.Some? && !Before(t.expiresAt.value, now) && !After(t.expiresAt.value, cutoff)
  }

  /** An entry near its expiry, with the cutoff after now, is an active credit unless it expires exactly now. */
  lemma NearExpirationIsActive(t: Row, now: DateTime, cutoff: DateTime)
    requires IsNearExpiration(t, now, cutoff) && t.expiresAt != Some(now)
    ensures IsActiveCredit(t, t.client, now) && !IsExpiredCredit(t, now)
  {
    Trichotomy(t.expiresAt.value, now);
  }

  /** `SUM(ct.amount)` over rows, which `COALESCE` turns into 0 when there are none. */
  function SumAmounts(rows: seq<Row>): int
  {
    if rows == [] then 0 else rows[0].amount + SumAmounts(rows[1..])
  }

  lemma {:induction false} SumAmountsConcat(a: seq<Row>, b: seq<Row>)
    ensures SumAmounts(a + b) == SumAmounts(a) + SumAmounts(b)
  {
    if a == [] {
      assert a + b == b;
    } else {
      assert (a + b)[1..] == a[1..] + b;
      SumAmountsConcat(a[1..], b);
    }
  }

  /** Removing one stored row takes exactly its amount off the sum. */
  lemma {:induction false} SumAmountsRemoveFirst(rows: seq<Row>, x: Row)
    requires x in rows
    ensures SumAmounts(RemoveFirst(rows, x)) == SumAmounts(rows) - x.amount
  {
    if rows[0] != x {
      var rest := RemoveFirst(rows[1..], x);
      SumAmountsRemoveFirst(rows[1..], x);
      assert ([rows[0]] + rest)[1..] == rest;
    }
  }

  /** A sum does not depend on the order of its rows. */
  lemma {:induction false} SumAmountsPermutation(a: seq<Row>, b: seq<Row>)
    requires multiset(a) == multiset(b)
    ensures SumAmounts(a) == SumAmounts(b)
    decreases |a|
  {
    if a == [] {
      assert b == [] by {
        assert |multiset(b)| == 0;
      }
    } else {
      var x := a[0];
      assert x in multiset(b);
      assert a == [x] + a[1..];
      assert multiset(a[1..]) == multiset(a) - multiset{x};
      SumAmountsPermutation(a[1..], RemoveFirst(b, x));
      SumAmountsRemoveFirst(b, x);
    }
  }

  /** Rows within the amount bounds never sum to a negative value. */
  lemma {:induction false} SumAmountsNonNegative(rows: seq<Row>)
    requires forall k :: 0 <= k < |rows| ==> AmountsInBounds(rows[k])
    ensures SumAmounts(rows) >= 0
    ensures rows != [] ==> SumAmounts(rows) >= |rows|
  {
    if rows != [] {
      SumAmountsNonNegative(rows[1..]);
    }
  }

  /** The selection of `findActiveCredits` as a condition on rows. */
  function ActiveCreditOf(client: ClientId, now: DateTime): Row -> bool
  {
    t => IsActiveCredit(t, client, now)
  }

  /** `calculateActiveCreditBalance`: the amounts of the client's active credits added up, debits included. */
  function CalculateActiveCreditBalance(rows: seq<Row>, client: ClientId, now: DateTime): int
  {
    SumAmounts(Lex.Filter(rows, ActiveCreditOf(client, now)))
  }

  /** The balance is the sum over exactly the entries `findActiveCredits` lists. */
  lemma BalanceOfListedCredits(rows: seq<Row>, client: ClientId, now: DateTime)
    ensures CalculateActiveCreditBalance(rows, client, now) == SumAmounts(FindActiveCredits(rows, client, now))
  {
    var p := ActiveCreditOf(client, now);
    var f := Lex.Filter(rows, p);
    var r := FindActiveCredits(rows, client, now);
    forall x | true ensures multiset(f)[x] == multiset(r)[x] {
      Lex.FilterCount(rows, p, x);
    }
    assert multiset(f) == multiset(r);
    SumAmountsPermutation(f, r);
  }

  /**
   * Storing one more entry adds its amount to the balance when it is an active credit of the
   * client, whatever its type: a USAGE_DEBIT or EXPIRATION_DEBIT entry raises the balance too.
   */
  lemma {:induction false} BalanceAfterAppend(rows: seq<Row>, t: Row, client: ClientId, now: DateTime)
    ensures CalculateActiveCreditBalance(rows + [t], client, now)
            == CalculateActiveCreditBalance(rows, client, now) + (if IsActiveCredit(t, client, now) then t.amount else 0)
  {
    var p := ActiveCreditOf(client, now);
    assert p(t) == IsActiveCredit(t, client, now);
    Lex.FilterAppend(rows, t, p);
    if p(t) {
      SumAmountsConcat(Lex.Filter(rows, p), [t]);
      assert SumAmounts([t]) == t.amount by {
        assert [t][1..] == [];
      }
    } else {
      assert Lex.Filter(rows, p) + [] == Lex.Filter(rows, p);
    }
  }

  /** An entry outside the amount bounds is impossible, so the balance of stored rows is never negative. */
  lemma BalanceNonNegative(rows: seq<Row>, client: ClientId, now: DateTime)
    requires forall k :: 0 <= k < |rows| ==> AmountsInBounds(rows[k])
    ensures CalculateActiveCreditBalance(rows, client, now) >= 0
  {
    var p := ActiveCreditOf(client, now);
    var f := Lex.Filter(rows, p);
    forall k | 0 <= k < |f| ensures AmountsInBounds(f[k]) {
      Lex.FilterCount(rows, p, f[k]);
      assert f[k] in multiset(rows);
    }
    SumAmountsNonNegative(f);
  }

  /** `clientHasSufficientCredits`: the active balance covers the required amount. */
  function ClientHasSufficientCredits(rows: seq<Row>, client: ClientId, requiredAmount: int, now: DateTime): (ok: bool)
    ensures ok <==> SumAmounts(FindActiveCredits(rows, client, now)) >= requiredAmount
    ensures requiredAmount <= 0 && (forall k :: 0 <= k < |rows| ==> AmountsInBounds(rows[k])) ==> ok
  {
    BalanceOfListedCredits(rows, client, now);
    assert (forall k :: 0 <= k < |rows| ==> AmountsInBounds(rows[k])) ==> CalculateActiveCreditBalance(rows, client, now) >= 0 by {
      if forall k :: 0 <= k < |rows| ==> AmountsInBounds(rows[k]) {
        BalanceNonNegative(rows, client, now);
      }
    }
    CalculateActiveCreditBalance(rows, client, now) >= requiredAmount
  }

  /** The `WHERE` clause of `findTransactionsNeedingFollowUp`. */
  predicate NeedsFollowUp(t: Row, pendingCutoff: DateTime, now: DateTime)
  {
    || (t.status == Pending && t.createdAt.Some? && Before(t.createdAt.value, pendingCutoff))
    || IsExpiredCredit(t, now)
  }

  /** The `CASE` of the follow-up order: expired active credits 1, pending entries 2, anything else 3. */
  function FollowUpRank(t: Row, now: DateTime): int
  {
    if IsExpiredCredit(t, now) then 1 else if t.status == Pending then 2 else 3
  }

  /** `findTransactionsNeedingFollowUp`: expired active credits first, then stale pending entries, each oldest first. */
  function FindTransactionsNeedingFollowUp(rows: seq<Row>, pendingCutoff: DateTime, now: DateTime): (r: seq<Row>)
    ensures forall k :: 0 <= k < |r| ==> NeedsFollowUp(r[k], pendingCutoff, now)
    ensures forall x :: multiset(r)[x] == if NeedsFollowUp(x, pendingCutoff, now) then multiset(rows)[x] else 0
    ensures forall i, j :: 0 <= i < j < |r| && IsExpiredCredit(r[j], now) ==> IsExpiredCredit(r[i], now)
    ensures forall i, j :: 0 <= i < j < |r| && FollowUpRank(r[i], now) == FollowUpRank(r[j], now) && r[i].createdAt.Some? && r[j].createdAt.Some? ==>
              !Before(r[j].createdAt.value, r[i].createdAt.value)
  {
    var key := (t: Row) => [FollowUpRank(t, now)] + NullsFirstKey(t.createdAt);
    var r := Lex.Query(rows, t => NeedsFollowUp(t, pendingCutoff, now), key);
    forall i, j | 0 <= i < j < |r|
      ensures IsExpiredCredit(r[j], now) ==> IsExpiredCredit(r[i], now)
      ensures FollowUpRank(r[i], now) == FollowUpRank(r[j], now) && r[i].createdAt.Some? && r[j].createdAt.Some? ==>
                !Before(r[j].createdAt.value, r[i].createdAt.value)
    {
      var ri, rj := [FollowUpRank(r[i], now)], [FollowUpRank(r[j], now)];
      Lex.LeqLeading(ri, NullsFirstKey(r[i].createdAt), rj, NullsFirstKey(r[j].createdAt));
      if ri == rj {
        Lex.LeqConcat(ri, NullsFirstKey(r[i].createdAt), rj, NullsFirstKey(r[j].createdAt));
        Lex.LessIsStrict(ri, rj);
        NullsFirstOrder(r[i].createdAt, r[j].createdAt);
      }
    }
    r
  }

  /** The parameters of `findWithFilters`; an absent parameter disables its condition. */
  datatype Filters = Filters(
    clientId: Option<ClientId>,
    transactionType: Option<TransactionType>,
    status: Option<CreditStatus>,
    minAmount: Option<int>,
    maxAmount: Option<int>,
    startDate: Option<DateTime>,
    endDate: Option<DateTime>,
    searchTerm: Option<string>)

  /** `LOWER(column) LIKE LOWER('%' || term || '%')`: a NULL column never matches. */
  predicate LikeIgnoringCase(column: Option<string>, term: string)
  {
    column.Some? && Contains(ToLower(column.value), ToLower(term))
  }

  /** The `WHERE` clause of `findWithFilters`. */
  predicate MatchesFilters(t: Row, f: Filters)
  {
    && (f.clientId.None? || t.client == f.clientId.value)
    && (f.transactionType.None? || t.transactionType == f.transactionType.value)
    && (f.status.None? || t.status == f.status.value)
    && (f.minAmount.None? || t.amount >= f.minAmount.value)
    && (f.maxAmount.None? || t.amount <= f.maxAmount.value)
    && (f.startDate.None? || (t.createdAt.Some? && !Before(t.createdAt.value, f.startDate.value)))
    && (f.endDate.None? || (t.createdAt.Some? && !After(t.createdAt.value, f.endDate.value)))
    && (f.searchTerm.None? || LikeIgnoringCase(Some(t.description), f.searchTerm.value)
                           || LikeIgnoringCase(t.referenceCode, f.searchTerm.value))
  }

  /**
   * `findWithFilters`, before paging. The query has no `ORDER BY`; the model returns the
   * matching rows in the order they are stored.
   */
  function FindWithFilters(rows: seq<Row>, f: Filters): (r: seq<Row>)
    ensures forall k :: 0 <= k < |r| ==> MatchesFilters(r[k], f)
    ensures forall x :: multiset(r)[x] == if MatchesFilters(x, f) then multiset(rows)[x] else 0
  {
    var p := (t: Row) => MatchesFilters(t, f);
    var r := Lex.Filter(rows, p);
    forall x ensures multiset(r)[x] == if MatchesFilters(x, f) then multiset(rows)[x] else 0 {
      Lex.FilterCount(rows, p, x);
    }
    r
  }

  /** g is f with some of its parameters dropped. */
  predicate Relaxes(g: Filters, f: Filters)
  {
    && (g.clientId.None? || g.clientId == f.clientId)
    && (g.transactionType.None? || g.transactionType == f.transactionType)
    && (g.status.None? || g.status == f.status)
    && (g.minAmount.None? || g.minAmount == f.minAmount)
    && (g.maxAmount.None? || g.maxAmount == f.maxAmount)
    && (g.startDate.None? || g.startDate == f.startDate)
    && (g.endDate.None? || g.endDate == f.endDate)
    && (g.searchTerm.None? || g.searchTerm == f.searchTerm)
  }

  const NoFilters := Filters(None, None, None, None, None, None, None, None)

  /**
   * Without parameters every entry is returned, in the stored order the model keeps;
   * dropping parameters never loses an entry, and each entry is kept as often as it is
   * stored.
   */
  lemma FiltersOnlyNarrow(rows: seq<Row>, f: Filters, g: Filters)
    requires Relaxes(g, f)
    ensures FindWithFilters(rows, NoFilters) == rows
    ensures multiset(FindWithFilters(rows, f)) <= multiset(FindWithFilters(rows, g))
  {
    Lex.FilterAll(rows, t => MatchesFilters(t, NoFilters));
    forall x | true ensures multiset(FindWithFilters(rows, f))[x] <= multiset(FindWithFilters(rows, g))[x] {
      assert MatchesFilters(x, f) ==> MatchesFilters(x, g);
    }
  }
}

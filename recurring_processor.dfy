/**
 * processRecurringTransactions: for every recurrence rule, walk a month
 * cursor from the 1st of the rule's start month through `now`, and for each
 * month inside the rule's active period insert the month's transaction
 * unless the duplicate check finds one; then record `now` as the last check.
 *
 * The clock (`new Date()`) is the parameter `now`. A store call that throws
 * is the parameter `faultAt`: the ordinal (from 0) of the store call that
 * fails. The whole body sits in one try/catch, so a failure ends the run
 * with nothing rolled back and nothing rethrown; `completed` reports whether
 * the run got to the end.
 */
module RecurringProcessor {
  import opened Wrappers
  import opened Calendar
  import opened MonthKeys
  import opened Ledger
  import opened Schedule

  /**
   * The number of store calls a run has made once it has processed the slots
   * `done`: getLastCheckDate, getRecurringTransactions, one duplicate check per
   * processed slot and one insert per row added.
   */
  function CallsMade(txs: seq<Transaction>, done: seq<Slot>): int {
    2 + |done| + (|Materialize(txs, done)| - |txs|)
  }

  /** The number of store calls a complete run makes: those of every slot, then setLastCheckDate. */
  function StoreCalls(txs: seq<Transaction>, plan: seq<Slot>): int {
    CallsMade(txs, plan) + 1
  }

  /**
   * Store call number `f` is made after the slots `done` have been processed
   * and before the next slot of `plan` is done with (after the last slot, it
   * is setLastCheckDate): a run in which call `f` fails stops with exactly the
   * slots `done` processed.
   */
  predicate FailsAfter(txs: seq<Transaction>, done: seq<Slot>, plan: seq<Slot>, f: nat) {
    (done == [] || CallsMade(txs, done) <= f) &&
    if |done| < |plan| then f < CallsMade(txs, plan[..|done| + 1]) else f < StoreCalls(txs, plan)
  }

  /** A run over `plan` in which call `f` fails stops after the slots `stop` and leaves the table `txs`. */
  ghost predicate Stopped(txs0: seq<Transaction>, txs: seq<Transaction>, stop: seq<Slot>, plan: seq<Slot>, f: nat) {
    stop <= plan && txs == Materialize(txs0, stop) && FailsAfter(txs0, stop, plan, f)
  }

  /** `txs` is the table a run over `plan` leaves when store call `f` fails. */
  ghost predicate StoppedAt(txs0: seq<Transaction>, txs: seq<Transaction>, plan: seq<Slot>, f: nat) {
    exists stop :: Stopped(txs0, txs, stop, plan, f)
  }

  /** Each processed slot costs its duplicate check, and one insert when its row was missing. */
  lemma SlotCalls(txs: seq<Transaction>, done: seq<Slot>, s: Slot)
    ensures CallsMade(txs, done + [s]) ==
      CallsMade(txs, done) + 1 + (if Missing(Materialize(txs, done), s) then 1 else 0)
  {
    MaterializeSnoc(txs, done, s);
  }

  /** A run that has processed the slots `done` has made the two reads and at least one call per slot. */
  lemma CallsMadeAtLeast(txs: seq<Transaction>, done: seq<Slot>)
    ensures CallsMade(txs, done) >= 2 + |done|
  {
    MaterializeAppends(txs, done);
  }

  /** Processing more of the plan never takes fewer calls. */
  lemma CallsMadeMonotone(txs: seq<Transaction>, a: seq<Slot>, b: seq<Slot>)
    requires a <= b
    ensures CallsMade(txs, a) <= CallsMade(txs, b)
  {
    MaterializePrefix(txs, a, b);
  }

  /**
   * A run never makes more store calls than StoreCalls: after the slots of any
   * prefix of the plan it has made fewer, with setLastCheckDate still to come.
   */
  lemma CallsWithinRun(txs: seq<Transaction>, done: seq<Slot>, plan: seq<Slot>)
    requires done <= plan
    ensures CallsMade(txs, done) < StoreCalls(txs, plan)
  {
    CallsMadeMonotone(txs, done, plan);
  }

  /** A call that a run can stop at is one the complete run makes. */
  lemma FailsWithinRun(txs: seq<Transaction>, stop: seq<Slot>, plan: seq<Slot>, f: nat)
    requires stop <= plan && FailsAfter(txs, stop, plan, f)
    ensures f < StoreCalls(txs, plan)
  {
    if |stop| < |plan| {
      CallsWithinRun(txs, plan[..|stop| + 1], plan);
    }
  }

  /** A failing call that comes before the next slot is done with cannot come after a longer prefix. */
  lemma NoLaterStop(txs: seq<Transaction>, d: seq<Slot>, e: seq<Slot>, plan: seq<Slot>, f: nat)
    requires d <= plan && e <= plan && |d| < |e|
    requires FailsAfter(txs, d, plan, f)
    ensures !FailsAfter(txs, e, plan, f)
  {
    var next := plan[..|d| + 1];
    assert next == e[..|d| + 1];
    CallsMadeMonotone(txs, next, e);
  }

  /** The failing call fixes how far the run got: only one prefix of the plan fits it. */
  lemma FailingCallFixesPrefix(txs: seq<Transaction>, d: seq<Slot>, e: seq<Slot>, plan: seq<Slot>, f: nat)
    requires d <= plan && e <= plan
    requires FailsAfter(txs, d, plan, f) && FailsAfter(txs, e, plan, f)
    ensures d == e
  {
    if |d| < |e| {
      NoLaterStop(txs, d, e, plan, f);
    } else if |e| < |d| {
      NoLaterStop(txs, e, d, plan, f);
    } else {
      assert d == plan[..|d|] && e == plan[..|e|];
    }
  }

  /** The table a failed run leaves is determined by which call failed. */
  lemma FailedRunDetermined(txs0: seq<Transaction>, t1: seq<Transaction>, t2: seq<Transaction>, plan: seq<Slot>, f: nat)
    requires StoppedAt(txs0, t1, plan, f) && StoppedAt(txs0, t2, plan, f)
    ensures t1 == t2
  {
    var d :| Stopped(txs0, t1, d, plan, f);
    var e :| Stopped(txs0, t2, e, plan, f);
    FailingCallFixesPrefix(txs0, d, e, plan, f);
  }

  /**
   * Nothing is rolled back: the rows of every prefix of the plan whose calls
   * all came before the failing one are still in the table, in order.
   */
  lemma RowsBeforeFailureRemain(txs0: seq<Transaction>, txs: seq<Transaction>, plan: seq<Slot>, f: nat, d: seq<Slot>)
    requires StoppedAt(txs0, txs, plan, f)
    requires d <= plan && CallsMade(txs0, d) <= f
    ensures Materialize(txs0, d) <= txs
  {
    var stop :| Stopped(txs0, txs, stop, plan, f);
    if |stop| < |d| {
      var next := plan[..|stop| + 1];
      assert next == d[..|stop| + 1];
      CallsMadeMonotone(txs0, next, d);
      assert false;
    }
    assert d == stop[..|d|];
    MaterializePrefix(txs0, d, stop);
  }

  /**
   * The source's `isAfterStart && isBeforeEnd` for a cursor at the 1st of
   * month `ym`, midnight, is the rule being active in that month.
   */
  lemma CursorActive(rule: RecurringRule, ym: Month)
    ensures (AtOrBefore(StartOfMonth(rule.startDate), MonthStart(ym)) &&
             (rule.endDate.None? || AtOrBefore(MonthStart(ym), rule.endDate.value)))
        <==> Active(rule, ym)
  {
    MonthStartAtOrBefore(MonthOf(rule.startDate), MonthStart(ym));
    if rule.endDate.Some? {
      MonthStartAtOrBefore(ym, rule.endDate.value);
    }
  }

  /** The source's `isAfterStart` holds in every month the cursor visits: only the end date can exclude one. */
  lemma AfterStartAlways(rule: RecurringRule, now: Date, ym: Month)
    requires ym in MonthsVisited(rule.startDate, now)
    ensures AtOrBefore(StartOfMonth(rule.startDate), MonthStart(ym))
  {
    MonthsVisitedExact(rule.startDate, now);
    MonthStartAtOrBefore(MonthOf(rule.startDate), MonthStart(ym));
  }

  /** One more visited month extends the processed slots by that month's slot, if the rule is active then. */
  lemma ActiveSlotsNext(head: seq<Slot>, rule: RecurringRule, first: Month, k: nat)
    ensures head + ActiveSlots(rule, MonthRange(first, k + 1)) ==
      (head + ActiveSlots(rule, MonthRange(first, k))) + MonthSlots(rule, AddMonths(first, k))
  {
    var ms := MonthRange(first, k + 1);
    assert ms[..k] == MonthRange(first, k);
  }

  /** The slots up to the next visited month are a prefix of the plan, one month's slot longer. */
  lemma NextMonthInPlan(head: seq<Slot>, rule: RecurringRule, first: Month, k: nat, n: nat, plan: seq<Slot>)
    requires k < n && head + ActiveSlots(rule, MonthRange(first, n)) <= plan
    ensures head + ActiveSlots(rule, MonthRange(first, k + 1)) ==
      (head + ActiveSlots(rule, MonthRange(first, k))) + MonthSlots(rule, AddMonths(first, k))
    ensures head + ActiveSlots(rule, MonthRange(first, k + 1)) <= plan
  {
    ActiveSlotsNext(head, rule, first, k);
    ActiveSlotsPrefix(rule, first, k + 1, n);
  }

  /** The cursor `k` months after the start month is not later than `now` exactly while `k` is below the visit count. */
  lemma CursorBeforeNow(first: Month, k: nat, now: Date)
    ensures AtOrBefore(MonthStart(AddMonths(first, k)), now) <==> k < VisitCount(first, MonthOf(now))
  {
    MonthStartAtOrBefore(AddMonths(first, k), now);
  }

  /** `setMonth(getMonth() + 1)` moves the cursor from the 1st of one visited month to the 1st of the next. */
  lemma CursorAdvance(first: Month, k: nat)
    ensures AddOneMonth(MonthStart(AddMonths(first, k))) == MonthStart(AddMonths(first, k + 1))
  {
  }

  lemma MaterializeSnoc(txs: seq<Transaction>, done: seq<Slot>, s: Slot)
    ensures Materialize(txs, done + [s]) == Step(Materialize(txs, done), s)
  {
    assert (done + [s])[..|done|] == done;
  }

  lemma PlanNext(rules: seq<RecurringRule>, now: Date, i: nat)
    requires i < |rules|
    ensures Plan(rules[..i + 1], now) == Plan(rules[..i], now) + RuleSlots(rules[i], now)
  {
    assert rules[..i + 1][..i] == rules[..i];
  }

  /**
   * The state of a run that has processed the slots `done`: the table is what
   * Materialize leaves, and the run has made the two reads, one duplicate
   * check per processed slot and one insert per row added.
   */
  ghost predicate Progress(txs0: seq<Transaction>, txs: seq<Transaction>, done: seq<Slot>, calls: int) {
    txs == Materialize(txs0, done) && calls == CallsMade(txs0, done)
  }

  /** Store call number `call` is the one that fails. */
  predicate FailsAt(faultAt: Option<nat>, call: nat) {
    faultAt.Some? && faultAt.value == call
  }

  /** The failing call, if any, is not among the first `calls` ones. */
  predicate NotYetFailed(faultAt: Option<nat>, calls: int) {
    faultAt.None? || faultAt.value >= calls
  }

  /** The slot a month contributes to the plan: one when the rule is active then, none otherwise. */
  function MonthSlots(rule: RecurringRule, ym: Month): seq<Slot> {
    if Active(rule, ym) then [Slot(rule, ym)] else []
  }

  /**
   * The body of the month loop for a month in which the rule is active: the
   * duplicate check for the rule's tagged description and the month's key,
   * then the insert of the month's transaction when the check found none.
   * When one of these calls fails, the table is untouched and the failing
   * call is one made after the slots `done`.
   */
  method ProcessSlot(store: Store, rule: RecurringRule, currentMonth: Date, faultAt: Option<nat>, calls0: nat,
                     ghost ym: Month, ghost txs0: seq<Transaction>, ghost done: seq<Slot>, ghost plan: seq<Slot>)
    returns (ok: bool, calls: nat)
    modifies store
    requires currentMonth == MonthStart(ym)
    requires Progress(txs0, store.transactions, done, calls0) && NotYetFailed(faultAt, calls0)
    requires done + [Slot(rule, ym)] <= plan
    ensures store.rules == old(store.rules) && store.lastCheck == old(store.lastCheck)
    ensures ok ==> Progress(txs0, store.transactions, done + [Slot(rule, ym)], calls) &&
                   NotYetFailed(faultAt, calls)
    ensures !ok ==> store.transactions == old(store.transactions) &&
                    faultAt.Some? && FailsAfter(txs0, done, plan, faultAt.value)
  {
    ghost var s := Slot(rule, ym);
    var transactionDate := NoonOnFirst(currentMonth);
    var monthYear := MonthKey(MonthOf(transactionDate));
    var descriptionWithTag := RecurringTag(rule.description);
    SlotCalls(txs0, done, s);
    MaterializeSnoc(txs0, done, s);
    assert plan[..|done| + 1] == done + [s];
    calls := calls0;
    if FailsAt(faultAt, calls) {
      return false, calls;
    }
    var found := store.CheckRecurringTransactionExists(descriptionWithTag, monthYear);
    calls := calls + 1;
    assert NotYetFailed(faultAt, calls);
    HasMatchMonth(store.transactions, descriptionWithTag, ym);
    if !found {
      if FailsAt(faultAt, calls) {
        return false, calls;
      }
      var t := Transaction(rule.kind, rule.amount, rule.categoryId, Some(descriptionWithTag), transactionDate);
      assert t == Occurrence(s);
      store.AddTransaction(t);
      calls := calls + 1;
      assert NotYetFailed(faultAt, calls);
    }
    ok := true;
  }

  /**
   * One iteration of the month loop, for the cursor at the 1st of the `k`-th
   * visited month: if the rule is active then, run the duplicate check and
   * insert the month's transaction when none is found. A failing store call
   * ends the run with the table as the earlier months left it.
   */
  method ProcessMonth(store: Store, rule: RecurringRule, ruleStartDate: Date, currentMonth: Date,
                      faultAt: Option<nat>, calls0: nat,
                      ghost first: Month, ghost k: nat, ghost n: nat,
                      ghost txs0: seq<Transaction>, ghost head: seq<Slot>, ghost plan: seq<Slot>)
    returns (ok: bool, calls: nat)
    modifies store
    requires ruleStartDate == StartOfMonth(rule.startDate) && currentMonth == MonthStart(AddMonths(first, k))
    requires k < n && head + ActiveSlots(rule, MonthRange(first, n)) <= plan
    requires Progress(txs0, store.transactions, head + ActiveSlots(rule, MonthRange(first, k)), calls0)
    requires NotYetFailed(faultAt, calls0)
    ensures store.rules == old(store.rules) && store.lastCheck == old(store.lastCheck)
    ensures ok ==> Progress(txs0, store.transactions, head + ActiveSlots(rule, MonthRange(first, k + 1)), calls) &&
                   NotYetFailed(faultAt, calls)
    ensures !ok ==> store.transactions == old(store.transactions) && faultAt.Some? &&
                    FailsAfter(txs0, head + ActiveSlots(rule, MonthRange(first, k)), plan, faultAt.value)
  {
    ghost var ym := AddMonths(first, k);
    ghost var done := head + ActiveSlots(rule, MonthRange(first, k));
    NextMonthInPlan(head, rule, first, k, n, plan);
    var isAfterStart := AtOrBefore(ruleStartDate, currentMonth);
    var isBeforeEnd := rule.endDate.None? || AtOrBefore(currentMonth, rule.endDate.value);
    CursorActive(rule, ym);
    if isAfterStart && isBeforeEnd {
      ok, calls := ProcessSlot(store, rule, currentMonth, faultAt, calls0, ym, txs0, done, plan);
    } else {
      assert done + MonthSlots(rule, ym) == done;
      ok, calls := true, calls0;
    }
  }

  /** The slots of the first `k` visited months lie between the rule's start and its end in the plan. */
  lemma MonthsSoFar(head: seq<Slot>, rule: RecurringRule, first: Month, k: nat, n: nat, plan: seq<Slot>)
    requires k <= n && head + ActiveSlots(rule, MonthRange(first, n)) <= plan
    ensures head <= head + ActiveSlots(rule, MonthRange(first, k))
    ensures head + ActiveSlots(rule, MonthRange(first, k)) <= head + ActiveSlots(rule, MonthRange(first, n))
    ensures head + ActiveSlots(rule, MonthRange(first, k)) <= plan
  {
    ActiveSlotsPrefix(rule, first, k, n);
  }

  /**
   * One iteration of the rule loop: walk the cursor from the 1st of the rule's
   * start month, midnight, one month at a time while it is not later than `now`.
   * A failing store call ends the run after the slots `stop`, which run from
   * the rule's first slot to its last.
   */
  method ProcessRule(store: Store, rule: RecurringRule, now: Date, faultAt: Option<nat>, calls0: nat,
                     ghost txs0: seq<Transaction>, ghost head: seq<Slot>, ghost plan: seq<Slot>)
    returns (ok: bool, calls: nat, ghost stop: seq<Slot>)
    modifies store
    requires Progress(txs0, store.transactions, head, calls0) && NotYetFailed(faultAt, calls0)
    requires head + RuleSlots(rule, now) <= plan
    ensures store.rules == old(store.rules) && store.lastCheck == old(store.lastCheck)
    ensures ok ==> Progress(txs0, store.transactions, head + RuleSlots(rule, now), calls) &&
                   NotYetFailed(faultAt, calls)
    ensures !ok ==> head <= stop && stop <= head + RuleSlots(rule, now) &&
                    faultAt.Some? && Stopped(txs0, store.transactions, stop, plan, faultAt.value)
  {
    calls, stop := calls0, head;
    var ruleStartDate := StartOfMonth(rule.startDate);
    var currentMonth := ruleStartDate;
    ghost var first := MonthOf(rule.startDate);
    ghost var n := VisitCount(first, MonthOf(now));
    ghost var k: nat := 0;
    assert head == head + ActiveSlots(rule, MonthRange(first, 0));
    assert RuleSlots(rule, now) == ActiveSlots(rule, MonthRange(first, n));

    while AtOrBefore(currentMonth, now)
      invariant k <= n && currentMonth == MonthStart(AddMonths(first, k))
      invariant store.rules == old(store.rules) && store.lastCheck == old(store.lastCheck)
      invariant Progress(txs0, store.transactions, head + ActiveSlots(rule, MonthRange(first, k)), calls)
      invariant NotYetFailed(faultAt, calls)
      decreases n - k
    {
      CursorBeforeNow(first, k, now);
      stop := head + ActiveSlots(rule, MonthRange(first, k));
      MonthsSoFar(head, rule, first, k, n, plan);
      ok, calls := ProcessMonth(store, rule, ruleStartDate, currentMonth, faultAt, calls, first, k, n, txs0, head, plan);
      if !ok {
        return;
      }
      CursorAdvance(first, k);
      currentMonth := AddOneMonth(currentMonth);
      k := k + 1;
    }
    CursorBeforeNow(first, k, now);
    assert k == n;
    ok := true;
  }

  /**
   * The loop over the rules: process each rule in turn, in the order the store
   * returned them. A failing store call ends the loop after the slots `stop`.
   */
  method ProcessRules(store: Store, recurringRules: seq<RecurringRule>, now: Date, faultAt: Option<nat>, calls0: nat,
                      ghost txs0: seq<Transaction>)
    returns (ok: bool, calls: nat, ghost stop: seq<Slot>)
    modifies store
    requires Progress(txs0, store.transactions, [], calls0) && NotYetFailed(faultAt, calls0)
    ensures store.rules == old(store.rules) && store.lastCheck == old(store.lastCheck)
    ensures ok ==> Progress(txs0, store.transactions, Plan(recurringRules, now), calls) &&
                   NotYetFailed(faultAt, calls)
    ensures !ok ==> faultAt.Some? &&
                    Stopped(txs0, store.transactions, stop, Plan(recurringRules, now), faultAt.value)
  {
    ghost var plan := Plan(recurringRules, now);
    calls, stop := calls0, [];
    assert recurringRules[..0] == [];
    for i := 0 to |recurringRules|
      invariant store.rules == old(store.rules) && store.lastCheck == old(store.lastCheck)
      invariant Progress(txs0, store.transactions, Plan(recurringRules[..i], now), calls)
      invariant NotYetFailed(faultAt, calls)
    {
      PlanNext(recurringRules, now, i);
      PlanPrefix(recurringRules, now, i + 1);
      ok, calls, stop := ProcessRule(store, recurringRules[i], now, faultAt, calls,
                                     txs0, Plan(recurringRules[..i], now), plan);
      if !ok {
        return;
      }
    }
    assert recurringRules[..|recurringRules|] == recurringRules;
    ok := true;
  }

  /**
   * The run. When it completes, the table holds exactly what Materialize says
   * (each due slot's row, added only when the duplicate check found none) and
   * the last check is `now`. When store call `faultAt` fails, the last check
   * is not moved and the table is what the slots processed before that call
   * left: the rows added so far stay. It fails exactly when the failing call
   * is one it gets to make.
   */
  method ProcessRecurringTransactions(store: Store, now: Date, faultAt: Option<nat>) returns (completed: bool)
    modifies store
    ensures store.rules == old(store.rules)
    ensures completed <==>
      faultAt.None? || faultAt.value >= StoreCalls(old(store.transactions), Plan(old(store.rules), now))
    ensures completed ==>
      store.transactions == Materialize(old(store.transactions), Plan(old(store.rules), now)) &&
      store.lastCheck == now
    ensures !completed ==>
      store.lastCheck == old(store.lastCheck) && old(store.transactions) <= store.transactions &&
      StoppedAt(old(store.transactions), store.transactions, Plan(old(store.rules), now), faultAt.value)
  {
    ghost var txs0 := store.transactions;
    ghost var plan := Plan(store.rules, now);
    ghost var stop: seq<Slot> := [];
    CallsMadeAtLeast(txs0, plan);
    if plan != [] {
      CallsMadeAtLeast(txs0, plan[..1]);
    }
    assert Materialize(txs0, []) == txs0;

    if FailsAt(faultAt, 0) {
      assert Stopped(txs0, store.transactions, stop, plan, faultAt.value);
      return false;
    }
    var lastCheck := store.GetLastCheckDate();
    if FailsAt(faultAt, 1) {
      assert Stopped(txs0, store.transactions, stop, plan, faultAt.value);
      return false;
    }
    var recurringRules := store.GetRecurringTransactions();
    var ok, calls;
    ok, calls, stop := ProcessRules(store, recurringRules, now, faultAt, 2, txs0);
    if !ok {
      MaterializeAppends(txs0, stop);
      FailsWithinRun(txs0, stop, plan, faultAt.value);
      return false;
    }
    if FailsAt(faultAt, calls) {
      stop := plan;
      MaterializeAppends(txs0, stop);
      assert Stopped(txs0, store.transactions, stop, plan, faultAt.value);
      return false;
    }
    store.SetLastCheckDate(now);
    return true;
  }

  /**
   * On an empty table, call 4 comes after the first slot (two reads, its check
   * and its insert) and before the second slot's check is done with.
   */
  lemma FourthCallAfterFirstSlot(plan: seq<Slot>)
    requires |plan| >= 2
    ensures Materialize([], plan[..1]) == [Occurrence(plan[0])]
    ensures FailsAfter([], plan[..1], plan, 4)
  {
    var empty: seq<Transaction> := [];
    var one := plan[..1];
    assert one == [] + [plan[0]];
    MaterializeSnoc(empty, [], plan[0]);
    assert plan[..2] == one + [plan[1]];
    SlotCalls(empty, one, plan[1]);
  }

  /**
   * The Gym rule of Schedule.GymExample, run over an empty table with store
   * call 4 failing: calls 0 and 1 are the reads and 2 and 3 January's check
   * and insert, so call 4 is February's check and only January's row is left.
   */
  lemma GymFailsAtFebruaryCheck(gym: RecurringRule, now: Date, txs: seq<Transaction>)
    requires gym.endDate == None
    requires MonthIndex(MonthOf(now)) == MonthIndex(MonthOf(gym.startDate)) + 3
    requires StoppedAt([], txs, Plan([gym], now), 4)
    ensures txs == [Occurrence(Slot(gym, MonthOf(gym.startDate)))]
  {
    var plan := Plan([gym], now);
    PlanSingle(gym, now);
    RuleSlotsWithoutEndDate(gym, now);
    FourthCallAfterFirstSlot(plan);
    var stop :| Stopped([], txs, stop, plan, 4);
    FailingCallFixesPrefix([], stop, plan[..1], plan, 4);
  }
}

/**
 * What one run of the recurring-transaction processor does, as values.
 *
 * A run visits, rule by rule, the months from the rule's start month through
 * the month of `now`; each visited month inside the rule's active period is a
 * Slot. The Plan is the sequence of slots in the order the run meets them, and
 * Materialize is the effect of the whole run on the transaction table: each
 * slot appends its Occurrence unless a row with the slot's (tag, month key) is
 * already there.
 */
module Schedule {
  import opened Wrappers
  import opened Calendar
  import opened Ledger

  /** One rule in one month. */
  datatype Slot = Slot(rule: RecurringRule, month: Month)

  // ---------------------------------------------------------------------------
  // The months a rule's cursor visits

  /** How many months lie from `first` through `last`, both included (none when `first` is later). */
  function VisitCount(first: Month, last: YearMonth): nat {
    if MonthIndex(first) <= MonthIndex(last) then MonthIndex(last) - MonthIndex(first) + 1 else 0
  }

  /** The first `n` months from `first` on, in order. */
  function MonthRange(first: Month, n: nat): (ms: seq<Month>)
    ensures |ms| == n
  {
    if n == 0 then [] else MonthRange(first, n - 1) + [AddMonths(first, n - 1)]
  }

  lemma {:induction false} MonthRangeAt(first: Month, n: nat, i: nat)
    requires i < n
    ensures MonthRange(first, n)[i] == AddMonths(first, i)
  {
    if i < n - 1 {
      MonthRangeAt(first, n - 1, i);
    }
  }

  /** The months at whose 1st, midnight, the cursor stands while it is not later than `now`. */
  function MonthsVisited(start: Date, now: Date): seq<Month> {
    MonthRange(MonthOf(start), VisitCount(MonthOf(start), MonthOf(now)))
  }

  /**
   * The visited months are exactly the consecutive months from the start
   * month through the month of `now`, in increasing order; none when the start
   * month is later than `now`'s.
   */
  lemma MonthsVisitedExact(start: Date, now: Date)
    ensures var ms := MonthsVisited(start, now);
      && (MonthIndex(MonthOf(now)) < MonthIndex(MonthOf(start)) <==> ms == [])
      && (ms != [] ==> ms[0] == MonthOf(start) && ms[|ms| - 1] == MonthOf(now))
      && (forall i :: 0 <= i < |ms| ==> ms[i] == AddMonths(MonthOf(start), i))
      && (forall i :: 0 < i < |ms| ==> ms[i] == Next(ms[i - 1]))
      && (forall ym: Month ::
            (ym in ms <==> MonthIndex(MonthOf(start)) <= MonthIndex(ym) <= MonthIndex(MonthOf(now))))
  {
    var first, last := MonthOf(start), MonthOf(now);
    var ms := MonthsVisited(start, now);
    var n := |ms|;
    forall i | 0 <= i < n ensures ms[i] == AddMonths(first, i) {
      MonthRangeAt(first, n, i);
    }
    if ms != [] {
      IndexDetermines(ms[0], first);
      IndexDetermines(ms[n - 1], last);
    }
    forall i | 0 < i < n ensures ms[i] == Next(ms[i - 1]) {
    }
    forall ym: Month
      ensures ym in ms <==> MonthIndex(first) <= MonthIndex(ym) <= MonthIndex(last)
    {
      if MonthIndex(first) <= MonthIndex(ym) <= MonthIndex(last) {
        var i := MonthIndex(ym) - MonthIndex(first);
        IndexDetermines(ms[i], ym);
      }
    }
  }

  // ---------------------------------------------------------------------------
  // The slots of a rule and the plan of a run

  /** `isAfterStart && isBeforeEnd` for the cursor at the 1st of month `ym`, midnight. */
  predicate Active(r: RecurringRule, ym: Month) {
    MonthIndex(MonthOf(r.startDate)) <= MonthIndex(ym) &&
    (r.endDate.None? || MonthIndex(ym) <= MonthIndex(MonthOf(r.endDate.value)))
  }

  /** The slots of rule `r` for the months `ms` in which it is active, in the order of `ms`. */
  function ActiveSlots(r: RecurringRule, ms: seq<Month>): (slots: seq<Slot>)
    ensures |slots| <= |ms|
  {
    if ms == [] then []
    else
      var last := ms[|ms| - 1];
      ActiveSlots(r, ms[..|ms| - 1]) + (if Active(r, last) then [Slot(r, last)] else [])
  }

  /** A slot is among the active slots exactly when it is for `r`, for a month of `ms`, and `r` is active then. */
  lemma {:induction false} ActiveSlotsMembers(r: RecurringRule, ms: seq<Month>, s: Slot)
    ensures s in ActiveSlots(r, ms) <==> s.rule == r && s.month in ms && Active(r, s.month)
  {
    if ms != [] {
      var init, last := ms[..|ms| - 1], ms[|ms| - 1];
      ActiveSlotsMembers(r, init, s);
      assert ms == init + [last];
    }
  }

  function RuleSlots(r: RecurringRule, now: Date): seq<Slot> {
    ActiveSlots(r, MonthsVisited(r.startDate, now))
  }

  /**
   * A rule is due in a month exactly when the month lies from the rule's start
   * month through `now`'s month and is not after the end date's month (the end
   * month itself is included; without an end date only `now` bounds it).
   */
  lemma RuleSlotsExact(r: RecurringRule, now: Date, ym: Month)
    ensures Slot(r, ym) in RuleSlots(r, now) <==>
      && MonthIndex(MonthOf(r.startDate)) <= MonthIndex(ym) <= MonthIndex(MonthOf(now))
      && (r.endDate.None? || MonthIndex(ym) <= MonthIndex(MonthOf(r.endDate.value)))
  {
    MonthsVisitedExact(r.startDate, now);
    ActiveSlotsMembers(r, MonthsVisited(r.startDate, now), Slot(r, ym));
  }

  predicate Increasing(ms: seq<Month>) {
    forall i, j :: 0 <= i < j < |ms| ==> MonthIndex(ms[i]) < MonthIndex(ms[j])
  }

  predicate SlotsIncreasing(slots: seq<Slot>) {
    forall i, j :: 0 <= i < j < |slots| ==> MonthIndex(slots[i].month) < MonthIndex(slots[j].month)
  }

  lemma {:induction false} ActiveSlotsIncreasing(r: RecurringRule, ms: seq<Month>)
    requires Increasing(ms)
    ensures SlotsIncreasing(ActiveSlots(r, ms))
  {
    if ms != [] {
      var init, last := ms[..|ms| - 1], ms[|ms| - 1];
      ActiveSlotsIncreasing(r, init);
      var slots, head := ActiveSlots(r, ms), ActiveSlots(r, init);
      assert SlotsIncreasing(head);
      forall i, j | 0 <= i < j < |slots|
        ensures MonthIndex(slots[i].month) < MonthIndex(slots[j].month)
      {
        assert slots == head + (if Active(r, last) then [Slot(r, last)] else []);
        assert slots[i] == head[i];
        if j < |head| {
          assert slots[j] == head[j];
          assert MonthIndex(head[i].month) < MonthIndex(head[j].month);
        } else {
          assert slots[j] == Slot(r, last);
          ActiveSlotsMembers(r, init, head[i]);
          var k :| 0 <= k < |init| && init[k] == head[i].month;
          assert ms[k] == init[k] && ms[|ms| - 1] == last;
          assert MonthIndex(ms[k]) < MonthIndex(ms[|ms| - 1]);
          assert MonthIndex(slots[i].month) == MonthIndex(ms[k]);
        }
      }
    }
  }

  /** Within one rule the slots come in strictly increasing month order. */
  lemma RuleSlotsIncreasing(r: RecurringRule, now: Date)
    ensures SlotsIncreasing(RuleSlots(r, now))
  {
    var first := MonthOf(r.startDate);
    var ms := MonthsVisited(r.startDate, now);
    forall i, j | 0 <= i < j < |ms| ensures MonthIndex(ms[i]) < MonthIndex(ms[j]) {
      MonthRangeAt(first, |ms|, i);
      MonthRangeAt(first, |ms|, j);
    }
    ActiveSlotsIncreasing(r, ms);
  }

  /** The slots of a run over `rules`: rule by rule, each rule's slots in month order. */
  function Plan(rules: seq<RecurringRule>, now: Date): seq<Slot> {
    if rules == [] then []
    else Plan(rules[..|rules| - 1], now) + RuleSlots(rules[|rules| - 1], now)
  }

  /** The plan holds a slot exactly when its rule is one of the rules and the rule is due in its month. */
  lemma {:induction false} PlanMembers(rules: seq<RecurringRule>, now: Date, s: Slot)
    ensures s in Plan(rules, now) <==> s.rule in rules && s in RuleSlots(s.rule, now)
  {
    if rules != [] {
      var init, last := rules[..|rules| - 1], rules[|rules| - 1];
      PlanMembers(init, now, s);
      ActiveSlotsMembers(last, MonthsVisited(last.startDate, now), s);
      assert rules == init + [last];
    }
  }

  lemma {:induction false} ActiveSlotsPrefix(r: RecurringRule, first: Month, k: nat, n: nat)
    requires k <= n
    ensures ActiveSlots(r, MonthRange(first, k)) <= ActiveSlots(r, MonthRange(first, n))
    decreases n - k
  {
    if k < n {
      ActiveSlotsPrefix(r, first, k, n - 1);
      var ms := MonthRange(first, n);
      assert ms[..|ms| - 1] == MonthRange(first, n - 1);
      assert ActiveSlots(r, MonthRange(first, n - 1)) <= ActiveSlots(r, ms);
    }
  }

  lemma {:induction false} PlanPrefix(rules: seq<RecurringRule>, now: Date, i: nat)
    requires i <= |rules|
    ensures Plan(rules[..i], now) <= Plan(rules, now)
    decreases |rules| - i
  {
    if i < |rules| {
      PlanPrefix(rules[..|rules| - 1], now, i);
      assert rules[..|rules| - 1][..i] == rules[..i];
    } else {
      assert rules[..i] == rules;
    }
  }

  // ---------------------------------------------------------------------------
  // The effect of a run on the transaction table

  function SlotTag(s: Slot): string {
    RecurringTag(s.rule.description)
  }

  /**
   * The row generated for a slot: the rule's kind, amount and category, the
   * tagged description, created at noon on the 1st of the slot's month. It is
   * found by the duplicate check of its own slot.
   */
  function Occurrence(s: Slot): (t: Transaction)
    ensures IsRowFor(t, SlotTag(s), s.month)
    ensures t.kind == s.rule.kind && t.amount == s.rule.amount && t.categoryId == s.rule.categoryId
    ensures t.createdAt.day == 1 && t.createdAt.hour == 12
    ensures t.createdAt.minute == 0 && t.createdAt.second == 0 && t.createdAt.millis == 0
  {
    Transaction(s.rule.kind, s.rule.amount, s.rule.categoryId,
                Some(RecurringTag(s.rule.description)), NoonOnFirst(MonthStart(s.month)))
  }

  /** A generated row answers the duplicate check of exactly one (tag, month). */
  lemma OccurrenceMatchesOnly(s: Slot, tag: string, ym: Month)
    ensures IsRowFor(Occurrence(s), tag, ym) <==> tag == SlotTag(s) && ym == s.month
  {
  }

  /** No row carries the slot's tag in the slot's month. */
  predicate Missing(txs: seq<Transaction>, s: Slot) {
    !HasRowFor(txs, SlotTag(s), s.month)
  }

  /**
   * One check-then-insert: the rows already there stay, at most one is added,
   * and afterwards the slot's duplicate check finds a row.
   */
  function Step(txs: seq<Transaction>, s: Slot): (r: seq<Transaction>)
    ensures txs <= r && |r| <= |txs| + 1
    ensures HasRowFor(r, SlotTag(s), s.month)
  {
    if Missing(txs, s) then txs + [Occurrence(s)] else txs
  }

  /** The table after the slots of `plan` have been processed in order. */
  function Materialize(txs: seq<Transaction>, plan: seq<Slot>): seq<Transaction> {
    if plan == [] then txs else Step(Materialize(txs, plan[..|plan| - 1]), plan[|plan| - 1])
  }

  lemma PrefixHasRow(a: seq<Transaction>, b: seq<Transaction>, tag: string, ym: Month)
    requires a <= b && HasRowFor(a, tag, ym)
    ensures HasRowFor(b, tag, ym)
  {
    var t :| t in a && IsRowFor(t, tag, ym);
    var i :| 0 <= i < |a| && a[i] == t;
    assert b[i] == t;
  }

  /** A run only appends: the old rows stay, unchanged and in place, and at most one row is added per slot. */
  lemma {:induction false} MaterializeAppends(txs: seq<Transaction>, plan: seq<Slot>)
    ensures txs <= Materialize(txs, plan)
    ensures |Materialize(txs, plan)| <= |txs| + |plan|
  {
    if plan != [] {
      MaterializeAppends(txs, plan[..|plan| - 1]);
      var m := Materialize(txs, plan[..|plan| - 1]);
      assert m <= Materialize(txs, plan);
    }
  }

  /** Processing a prefix of a plan leaves a prefix of the table that the whole plan leaves. */
  lemma {:induction false} MaterializePrefix(txs: seq<Transaction>, done: seq<Slot>, plan: seq<Slot>)
    requires done <= plan
    ensures Materialize(txs, done) <= Materialize(txs, plan)
    decreases |plan| - |done|
  {
    if |done| < |plan| {
      var init := plan[..|plan| - 1];
      assert done <= init;
      MaterializePrefix(txs, done, init);
      assert Materialize(txs, init) <= Materialize(txs, plan);
    } else {
      assert done == plan;
    }
  }

  /** After a run, every slot of the plan is answered by some row. */
  lemma {:induction false} MaterializeCovers(txs: seq<Transaction>, plan: seq<Slot>)
    ensures forall s :: s in plan ==> HasRowFor(Materialize(txs, plan), SlotTag(s), s.month)
  {
    if plan != [] {
      var init, last := plan[..|plan| - 1], plan[|plan| - 1];
      MaterializeCovers(txs, init);
      var m, res := Materialize(txs, init), Materialize(txs, plan);
      assert m <= res;
      forall s | s in plan ensures HasRowFor(res, SlotTag(s), s.month) {
        if s in init {
          PrefixHasRow(m, res, SlotTag(s), s.month);
        } else {
          assert plan == init + [last];
          assert s == last;
          if Missing(m, last) {
            assert Occurrence(last) in res;
          }
        }
      }
    }
  }

  /** A run over slots that are all answered already changes nothing. */
  lemma {:induction false} MaterializeCovered(txs: seq<Transaction>, plan: seq<Slot>)
    requires forall s :: s in plan ==> HasRowFor(txs, SlotTag(s), s.month)
    ensures Materialize(txs, plan) == txs
  {
    if plan != [] {
      MaterializeCovered(txs, plan[..|plan| - 1]);
    }
  }

  /** Idempotence: a second run with the same rules and the same `now` inserts nothing. */
  lemma MaterializeIdempotent(txs: seq<Transaction>, plan: seq<Slot>)
    ensures Materialize(Materialize(txs, plan), plan) == Materialize(txs, plan)
  {
    MaterializeCovers(txs, plan);
    MaterializeCovered(Materialize(txs, plan), plan);
  }

  /** Processing `a` and then `b` is processing `a + b`. */
  lemma {:induction false} MaterializeConcat(txs: seq<Transaction>, a: seq<Slot>, b: seq<Slot>)
    ensures Materialize(txs, a + b) == Materialize(Materialize(txs, a), b)
  {
    if b == [] {
      assert a + b == a;
    } else {
      var init := b[..|b| - 1];
      MaterializeConcat(txs, a, init);
      assert (a + b)[..|a + b| - 1] == a + init;
    }
  }

  /**
   * Recovery: a run over `plan` that stopped after some prefix of it, followed
   * by a complete run over the same plan, leaves the table one complete run
   * would have left.
   */
  lemma ResumeAfterInterruption(txs: seq<Transaction>, done: seq<Slot>, plan: seq<Slot>)
    requires done <= plan
    ensures Materialize(Materialize(txs, done), plan) == Materialize(txs, plan)
  {
    var rest := plan[|done|..];
    assert plan == done + rest;
    MaterializeConcat(Materialize(txs, done), done, rest);
    MaterializeIdempotent(txs, done);
    MaterializeConcat(txs, done, rest);
  }

  /**
   * Each appended row is the Occurrence of some slot of the plan, and no row
   * before it answered that slot's duplicate check.
   */
  lemma {:induction false} MaterializeInsertsFirst(txs: seq<Transaction>, plan: seq<Slot>)
    ensures var res := Materialize(txs, plan);
      forall k :: |txs| <= k < |res| ==>
        exists s :: s in plan && res[k] == Occurrence(s) && Missing(res[..k], s)
  {
    if plan != [] {
      var init, last := plan[..|plan| - 1], plan[|plan| - 1];
      MaterializeInsertsFirst(txs, init);
      MaterializeAppends(txs, init);
      var m, res := Materialize(txs, init), Materialize(txs, plan);
      forall k | |txs| <= k < |res|
        ensures exists s :: s in plan && res[k] == Occurrence(s) && Missing(res[..k], s)
      {
        if k < |m| {
          var s :| s in init && m[k] == Occurrence(s) && Missing(m[..k], s);
          assert res[..k] == m[..k];
          assert s in plan;
        } else {
          assert res[..k] == m;
          assert last in plan;
        }
      }
    }
  }

  /** `t` is the row generated for some slot of `plan` that `txs` does not answer. */
  ghost predicate GeneratedForMissing(t: Transaction, plan: seq<Slot>, txs: seq<Transaction>) {
    exists s :: s in plan && t == Occurrence(s) && Missing(txs, s)
  }

  /** Each row a run adds is generated for a slot whose (tag, month) had no row before the run. */
  lemma MaterializeOnlyMissing(txs: seq<Transaction>, plan: seq<Slot>)
    ensures var res := Materialize(txs, plan);
      forall k :: |txs| <= k < |res| ==> GeneratedForMissing(res[k], plan, txs)
  {
    var res := Materialize(txs, plan);
    MaterializeAppends(txs, plan);
    MaterializeInsertsFirst(txs, plan);
    forall k | |txs| <= k < |res|
      ensures GeneratedForMissing(res[k], plan, txs)
    {
      var s :| s in plan && res[k] == Occurrence(s) && Missing(res[..k], s);
      assert txs <= res[..k];
      if HasRowFor(txs, SlotTag(s), s.month) {
        PrefixHasRow(txs, res[..k], SlotTag(s), s.month);
      }
    }
  }

  /** Every slot whose (tag, month) had no row before the run gets a row from the run. */
  lemma MaterializeFillsMissing(txs: seq<Transaction>, plan: seq<Slot>)
    ensures var res := Materialize(txs, plan);
      forall s :: s in plan && Missing(txs, s) ==>
        exists k :: |txs| <= k < |res| && IsRowFor(res[k], SlotTag(s), s.month)
  {
    var res := Materialize(txs, plan);
    MaterializeAppends(txs, plan);
    MaterializeCovers(txs, plan);
    forall s | s in plan && Missing(txs, s)
      ensures exists k :: |txs| <= k < |res| && IsRowFor(res[k], SlotTag(s), s.month)
    {
      var t :| t in res && IsRowFor(t, SlotTag(s), s.month);
      var k :| 0 <= k < |res| && res[k] == t;
    }
  }

  /**
   * A row the run adds is the first row with its (tag, month): no month gets
   * two rows with one tag from one run, and a (tag, month) that had a row
   * before the run gets none.
   */
  lemma MaterializeFirstPerKey(txs: seq<Transaction>, plan: seq<Slot>)
    ensures var res := Materialize(txs, plan);
      forall tag, ym: Month, k :: |txs| <= k < |res| && IsRowFor(res[k], tag, ym) ==>
        (forall j :: 0 <= j < k ==> !IsRowFor(res[j], tag, ym))
  {
    var res := Materialize(txs, plan);
    MaterializeInsertsFirst(txs, plan);
    forall tag, ym: Month, k, j | |txs| <= k < |res| && IsRowFor(res[k], tag, ym) && 0 <= j < k
      ensures !IsRowFor(res[j], tag, ym)
    {
      var s :| s in plan && res[k] == Occurrence(s) && Missing(res[..k], s);
      OccurrenceMatchesOnly(s, tag, ym);
      assert res[j] in res[..k];
    }
  }

  /**
   * The duplicate check looks at the tagged description and the month, not at
   * the rule: a second rule with the same description adds nothing for a month
   * the first one has been processed for.
   */
  lemma SharedDescription(txs: seq<Transaction>, r1: RecurringRule, r2: RecurringRule, ym: Month)
    requires r1.description == r2.description
    ensures Step(Step(txs, Slot(r1, ym)), Slot(r2, ym)) == Step(txs, Slot(r1, ym))
  {
    var after := Step(txs, Slot(r1, ym));
    if Missing(txs, Slot(r1, ym)) {
      assert Occurrence(Slot(r1, ym)) in after;
    }
  }

  // ---------------------------------------------------------------------------
  // Backfill

  predicate DistinctKeys(plan: seq<Slot>) {
    forall i, j :: 0 <= i < j < |plan| ==>
      SlotTag(plan[i]) != SlotTag(plan[j]) || plan[i].month != plan[j].month
  }

  /** Slots with pairwise different (tag, month), none answered yet, each append their Occurrence, in order. */
  lemma {:induction false} MaterializeFresh(txs: seq<Transaction>, plan: seq<Slot>)
    requires DistinctKeys(plan)
    requires forall s :: s in plan ==> Missing(txs, s)
    ensures var res := Materialize(txs, plan);
      && |res| == |txs| + |plan| && res[..|txs|] == txs
      && forall i :: 0 <= i < |plan| ==> res[|txs| + i] == Occurrence(plan[i])
  {
    if plan != [] {
      var init, last := plan[..|plan| - 1], plan[|plan| - 1];
      assert DistinctKeys(init) by {
        forall i, j | 0 <= i < j < |init|
          ensures SlotTag(init[i]) != SlotTag(init[j]) || init[i].month != init[j].month
        {
          assert init[i] == plan[i] && init[j] == plan[j];
        }
      }
      assert forall s :: s in init ==> s in plan;
      MaterializeFresh(txs, init);
      var m := Materialize(txs, init);
      forall i | 0 <= i < |init| ensures m[|txs| + i] == Occurrence(plan[i]) {
        assert init[i] == plan[i];
      }
      FreshLastMissing(txs, plan, m);
      var res := m + [Occurrence(last)];
      assert Materialize(txs, plan) == res;
      assert res[..|txs|] == m[..|txs|];
      forall i | 0 <= i < |plan| ensures res[|txs| + i] == Occurrence(plan[i]) {
        if i < |init| {
          assert res[|txs| + i] == m[|txs| + i];
        } else {
          assert i == |m| - |txs| && plan[i] == last;
        }
      }
    }
  }

  /** The step case of MaterializeFresh: the last slot is still unanswered after the others. */
  lemma FreshLastMissing(txs: seq<Transaction>, plan: seq<Slot>, m: seq<Transaction>)
    requires plan != [] && DistinctKeys(plan) && Missing(txs, plan[|plan| - 1])
    requires |m| == |txs| + |plan| - 1 && m[..|txs|] == txs
    requires forall i :: 0 <= i < |plan| - 1 ==> m[|txs| + i] == Occurrence(plan[i])
    ensures Missing(m, plan[|plan| - 1])
  {
    var last := plan[|plan| - 1];
    forall t | t in m ensures !IsRowFor(t, SlotTag(last), last.month) {
      var idx :| 0 <= idx < |m| && m[idx] == t;
      if idx < |txs| {
        assert t == txs[idx];
      } else {
        var i := idx - |txs|;
        assert t == Occurrence(plan[i]);
        OccurrenceMatchesOnly(plan[i], SlotTag(last), last.month);
      }
    }
  }

  lemma {:induction false} ActiveSlotsAllActive(r: RecurringRule, ms: seq<Month>)
    requires forall i :: 0 <= i < |ms| ==> Active(r, ms[i])
    ensures var slots := ActiveSlots(r, ms);
      |slots| == |ms| && forall i :: 0 <= i < |ms| ==> slots[i] == Slot(r, ms[i])
  {
    if ms != [] {
      ActiveSlotsAllActive(r, ms[..|ms| - 1]);
    }
  }

  /** Without an end date a rule is due in every month its cursor visits. */
  lemma RuleSlotsWithoutEndDate(r: RecurringRule, now: Date)
    requires r.endDate.None?
    ensures var first := MonthOf(r.startDate);
      var slots := RuleSlots(r, now);
      && |slots| == VisitCount(first, MonthOf(now))
      && forall i :: 0 <= i < |slots| ==> slots[i] == Slot(r, AddMonths(first, i))
  {
    var first := MonthOf(r.startDate);
    var ms := MonthsVisited(r.startDate, now);
    forall i | 0 <= i < |ms| ensures ms[i] == AddMonths(first, i) {
      MonthRangeAt(first, |ms|, i);
    }
    ActiveSlotsAllActive(r, ms);
  }

  /** The plan of a run over one rule is that rule's slots. */
  lemma PlanSingle(r: RecurringRule, now: Date)
    ensures Plan([r], now) == RuleSlots(r, now)
  {
    assert [r][..0] == [];
  }

  /** The slots of one rule never share a month, so their (tag, month) keys differ. */
  lemma RuleSlotsDistinct(r: RecurringRule, now: Date)
    ensures DistinctKeys(RuleSlots(r, now))
  {
    var slots := RuleSlots(r, now);
    RuleSlotsIncreasing(r, now);
    forall i, j | 0 <= i < j < |slots| ensures slots[i].month != slots[j].month {
      assert MonthIndex(slots[i].month) < MonthIndex(slots[j].month);
    }
  }

  /** On an empty table, slots with pairwise different (tag, month) each add their Occurrence, in plan order. */
  lemma FreshOnEmpty(plan: seq<Slot>)
    requires DistinctKeys(plan)
    ensures var res := Materialize([], plan);
      |res| == |plan| && forall i :: 0 <= i < |plan| ==> res[i] == Occurrence(plan[i])
  {
    var empty: seq<Transaction> := [];
    MaterializeFresh(empty, plan);
    var res := Materialize(empty, plan);
    forall i | 0 <= i < |plan| ensures res[i] == Occurrence(plan[i]) {
      assert res[|empty| + i] == Occurrence(plan[i]);
    }
  }

  /**
   * Backfill: a rule without an end date, run for the first time on an empty
   * table, produces one row per month from its start month through `now`'s,
   * each dated the 1st of its month at noon.
   */
  lemma BackfillWithoutEndDate(r: RecurringRule, now: Date)
    requires r.endDate.None?
    ensures var first := MonthOf(r.startDate);
      var n := VisitCount(first, MonthOf(now));
      var res := Materialize([], Plan([r], now));
      |res| == n && forall i :: 0 <= i < n ==> res[i] == Occurrence(Slot(r, AddMonths(first, i)))
  {
    PlanSingle(r, now);
    RuleSlotsWithoutEndDate(r, now);
    RuleSlotsDistinct(r, now);
    FreshOnEmpty(RuleSlots(r, now));
  }

  /**
   * A rule of 12.99 for "Gym" whose start date lies three months before the
   * month of `now` (say 2025-01-15 and 2025-04-10, see Calendar.AddMonthsExample), run over an empty table:
   * four rows, one per month from the start month on, each at noon on the 1st.
   */
  lemma GymExample(gym: RecurringRule, now: Date)
    requires gym.kind == Expense && gym.amount == 12.99 && gym.description == "Gym" && gym.endDate == None
    requires MonthIndex(MonthOf(now)) == MonthIndex(MonthOf(gym.startDate)) + 3
    ensures var res := Materialize([], Plan([gym], now));
      && |res| == 4
      && forall i :: 0 <= i < 4 ==>
           && res[i].kind == Expense && res[i].amount == 12.99 && res[i].categoryId == gym.categoryId
           && res[i].description == Some("Gym (Recurring)")
           && res[i].createdAt == NoonOnFirst(MonthStart(AddMonths(MonthOf(gym.startDate), i)))
  {
    var first, res := MonthOf(gym.startDate), Materialize([], Plan([gym], now));
    assert VisitCount(first, MonthOf(now)) == 4;
    BackfillWithoutEndDate(gym, now);
    RecurringTagExample();
    forall i | 0 <= i < 4
      ensures res[i] == Occurrence(Slot(gym, AddMonths(first, i)))
    {
    }
  }
}

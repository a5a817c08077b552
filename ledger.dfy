/**
 * The records the processor reads and writes, and the store that holds them.
 *
 * The store stands for the database helpers the processor imports
 * (getRecurringTransactions, checkRecurringTransactionExists, addTransaction,
 * getLastCheckDate, setLastCheckDate); it keeps the rows in memory, in insertion order.
 */
module Ledger {
  import opened Wrappers
  import opened Calendar
  import opened MonthKeys

  datatype Kind = Income | Expense

  /** A transaction row; the store-assigned id is not modelled. */
  datatype Transaction = Transaction(
    kind: Kind,
    amount: real,
    categoryId: Option<int>,
    description: Option<string>,
    createdAt: Date)

  /** A recurrence rule: a monthly income or expense from a start date to an optional end date. */
  datatype RecurringRule = RecurringRule(
    id: int,
    kind: Kind,
    amount: real,
    categoryId: Option<int>,
    description: string,
    startDate: Date,
    endDate: Option<Date>)

  /** The description given to every transaction a rule generates. */
  function RecurringTag(description: string): (tag: string)
    ensures |tag| == |description| + |" (Recurring)"|
    ensures tag[..|description|] == description && tag[|description|..] == " (Recurring)"
  {
    description + " (Recurring)"
  }

  /** Two rules share a tag exactly when they share a description. */
  lemma RecurringTagInjective(d1: string, d2: string)
    ensures RecurringTag(d1) == RecurringTag(d2) <==> d1 == d2
  {
    if RecurringTag(d1) == RecurringTag(d2) {
      assert d1 == RecurringTag(d1)[..|d1|];
    }
  }

  lemma RecurringTagExample()
    ensures RecurringTag("Gym") == "Gym (Recurring)"
  {
  }

  /**
   * The existence query on a row: it carries the tag as its description and
   * was created in the month the key names (the `created_at LIKE 'YYYY-MM%'` filter).
   */
  predicate Matches(t: Transaction, tag: string, key: string) {
    t.description == Some(tag) && MonthKey(MonthOf(t.createdAt)) == key
  }

  predicate HasMatch(txs: seq<Transaction>, tag: string, key: string) {
    exists t :: t in txs && Matches(t, tag, key)
  }

  /** A row with this description, created in this month. */
  predicate IsRowFor(t: Transaction, tag: string, ym: Month) {
    t.description == Some(tag) && MonthOf(t.createdAt) == ym
  }

  predicate HasRowFor(txs: seq<Transaction>, tag: string, ym: Month) {
    exists t :: t in txs && IsRowFor(t, tag, ym)
  }

  /** A row answers the query for a month's key exactly when it has the tag and was created in that month. */
  lemma MatchesMonth(t: Transaction, tag: string, ym: Month)
    ensures Matches(t, tag, MonthKey(ym)) <==> IsRowFor(t, tag, ym)
  {
    MonthKeyInjective(MonthOf(t.createdAt), ym);
  }

  /**
   * The existence query with the month key answers "is there a row with this
   * description in this month": the key names one month and no other.
   */
  lemma HasMatchMonth(txs: seq<Transaction>, tag: string, ym: Month)
    ensures HasMatch(txs, tag, MonthKey(ym)) <==> HasRowFor(txs, tag, ym)
  {
    forall t | t in txs ensures Matches(t, tag, MonthKey(ym)) <==> IsRowFor(t, tag, ym) {
      MatchesMonth(t, tag, ym);
    }
  }

  /** The in-memory store: the transaction table, the rule table and the last-check watermark. */
  class Store {
    var transactions: seq<Transaction>
    var rules: seq<RecurringRule>
    var lastCheck: Date

    /** A store with the given rules, no transactions, and the watermark at the epoch. */
    constructor (rules: seq<RecurringRule>)
      ensures this.rules == rules && transactions == [] && lastCheck == Instant(1970, 1, 1, 0, 0, 0, 0)
    {
      this.rules := rules;
      transactions := [];
      lastCheck := Instant(1970, 1, 1, 0, 0, 0, 0);
    }

    /** getLastCheckDate. */
    method GetLastCheckDate() returns (d: Date)
      ensures d == lastCheck
    {
      d := lastCheck;
    }

    /** getRecurringTransactions: every rule, in table order. */
    method GetRecurringTransactions() returns (rs: seq<RecurringRule>)
      ensures rs == rules
    {
      rs := rules;
    }

    /**
     * checkRecurringTransactionExists(tag, key): whether some row carries the
     * tag as its description and was created in the month the key names.
     */
    method CheckRecurringTransactionExists(tag: string, key: string) returns (found: bool)
      ensures found <==> exists t :: t in transactions && Matches(t, tag, key)
    {
      found := HasMatch(transactions, tag, key);
    }

    /** addTransaction: appends one row. */
    method AddTransaction(t: Transaction)
      modifies this
      ensures transactions == old(transactions) + [t]
      ensures rules == old(rules) && lastCheck == old(lastCheck)
    {
      transactions := transactions + [t];
    }

    /** setLastCheckDate. */
    method SetLastCheckDate(t: Date)
      modifies this
      ensures lastCheck == t
      ensures transactions == old(transactions) && rules == old(rules)
    {
      lastCheck := t;
    }
  }
}

/** The transaction log: every order, donation and restock attempt, successful or not, in
    the order it happened. The day's profit is never stored; it is always the sum of the
    logged profit fields. */
module Transactions {

  datatype Kind = OrderTxn | DonationTxn | RestockTxn

  /** One log entry: what was attempted, on which dish or ingredient name, for how many,
      the profit it contributes, and whether it succeeded. */
  datatype Txn = Txn(kind: Kind, subject: string, quantity: int, profit: real, success: bool)

  /** `addTransactionNode`: the entry goes after every existing entry. */
  function AddTransactionNode(log: seq<Txn>, t: Txn): (r: seq<Txn>)
    ensures |r| == |log| + 1
    ensures r[..|log|] == log && r[|log|] == t
  {
    log + [t]
  }

  /** `x` taken `n` times, `n` possibly negative: a served line's profit, a restock's cost.
      Written as repeated addition so that the solver never sees a product of unknowns; the
      lemma below shows it is the product. */
  function Times(x: real, n: int): real
    decreases if n < 0 then -n else n
  {
    if n == 0 then 0.0 else if n > 0 then Times(x, n - 1) + x else Times(x, n + 1) - x
  }

  lemma {:induction false} TimesIsProduct(x: real, n: int)
    ensures Times(x, n) == x * n as real
    decreases if n < 0 then -n else n
  {
    if n > 0 {
      TimesIsProduct(x, n - 1);
      assert x * (n - 1) as real + x == x * n as real;
    } else if n < 0 {
      TimesIsProduct(x, n + 1);
      assert x * (n + 1) as real - x == x * n as real;
    }
  }

  /** `profit()`: the sum of the profit fields, walking the log from its front. Entries
      whose profit field is zero sum to zero. */
  function Profit(log: seq<Txn>): (r: real)
    ensures (forall k :: 0 <= k < |log| ==> log[k].profit == 0.0) ==> r == 0.0
  {
    if |log| == 0 then 0.0 else log[0].profit + Profit(log[1..])
  }

  /** Appending an entry moves the profit by exactly that entry's profit. */
  lemma {:induction false} ProfitAppend(log: seq<Txn>, t: Txn)
    ensures Profit(AddTransactionNode(log, t)) == Profit(log) + t.profit
    decreases |log|
  {
    if |log| == 0 {
      assert AddTransactionNode(log, t) == [t];
    } else {
      assert AddTransactionNode(log, t)[1..] == AddTransactionNode(log[1..], t);
      ProfitAppend(log[1..], t);
    }
  }

  lemma {:induction false} ProfitConcat(a: seq<Txn>, b: seq<Txn>)
    ensures Profit(a + b) == Profit(a) + Profit(b)
    decreases |a|
  {
    if |a| == 0 {
      assert a + b == b;
    } else {
      assert (a + b)[1..] == a[1..] + b;
      ProfitConcat(a[1..], b);
    }
  }

  /** Entries whose profit field is zero leave the profit where it was. */
  lemma ProfitOfZeroEntries(log: seq<Txn>, extra: seq<Txn>)
    requires forall k :: 0 <= k < |extra| ==> extra[k].profit == 0.0
    ensures Profit(log + extra) == Profit(log)
  {
    ProfitConcat(log, extra);
  }

  /** `resetFrontNode`: the log is emptied, and the profit is back to 0. */
  function ResetFrontNode(log: seq<Txn>): (r: seq<Txn>)
    ensures Profit(r) == 0.0
  {
    []
  }
}

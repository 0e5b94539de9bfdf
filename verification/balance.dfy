/** The balance of the stored transactions, which the repository's
    `getBalance()` computes: income values minus outcome values. */
module Balance {
  import opened Records

  /** The effect of one entry on the total: income adds its value, any other
      type subtracts it. */
  function Signed(kind: Kind, value: int): int
  {
    if kind == Income then value else -value
  }

  /** The balance total, as a fold of the signed values (the last one last). */
  function Total(ts: seq<Transaction>): int
  {
    if ts == [] then 0
    else Total(ts[..|ts| - 1]) + Signed(ts[|ts| - 1].kind, ts[|ts| - 1].value)
  }

  /** Sum of the values of the income transactions. */
  function IncomeSum(ts: seq<Transaction>): int
  {
    if ts == [] then 0
    else IncomeSum(ts[..|ts| - 1]) + (if ts[|ts| - 1].kind == Income then ts[|ts| - 1].value else 0)
  }

  /** Sum of the values of the outcome transactions. */
  function OutcomeSum(ts: seq<Transaction>): int
  {
    if ts == [] then 0
    else OutcomeSum(ts[..|ts| - 1]) + (if ts[|ts| - 1].kind == Outcome then ts[|ts| - 1].value else 0)
  }

  /** The signed fold agrees with the balance's `{income, outcome, total}`
      reading: total is income minus outcome. */
  lemma {:induction false} TotalIsIncomeMinusOutcome(ts: seq<Transaction>)
    ensures Total(ts) == IncomeSum(ts) - OutcomeSum(ts)
  {
    if ts != [] {
      TotalIsIncomeMinusOutcome(ts[..|ts| - 1]);
    }
  }

  /** Saving one more transaction moves the total by its signed value. */
  lemma TotalSnoc(ts: seq<Transaction>, t: Transaction)
    ensures Total(ts + [t]) == Total(ts) + Signed(t.kind, t.value)
  {
    assert (ts + [t])[..|ts|] == ts;
  }

  /** The total of a concatenation is the sum of the totals. */
  lemma {:induction false} TotalAppend(a: seq<Transaction>, b: seq<Transaction>)
    ensures Total(a + b) == Total(a) + Total(b)
    decreases |b|
  {
    if b == [] {
      assert a + b == a;
    } else {
      var init, last := b[..|b| - 1], b[|b| - 1];
      assert a + b == (a + init) + [last];
      assert b == init + [last];
      TotalSnoc(a + init, last);
      TotalSnoc(init, last);
      TotalAppend(a, init);
    }
  }
}

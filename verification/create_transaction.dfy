/** `CreateTransactionService.execute`: records one transaction, refusing an
    outcome that would take the balance total below zero. */
module CreateTransactionService {
  import opened Records
  import opened Balance
  import opened Store

  /** The balance gate of a single create: only an outcome is tested, and it
      is refused when the current total minus its value is negative. */
  predicate Rejects(total: int, kind: Kind, value: int)
  {
    kind == Outcome && total - value < 0
  }

  /** What the gate means for the balance: an income always passes, and a
      transaction passes exactly when it is an income or the total it leaves
      behind is not negative. */
  lemma GateMeaning(total: int, kind: Kind, value: int)
    ensures kind == Income ==> !Rejects(total, kind, value)
    ensures !Rejects(total, kind, value) <==> kind == Income || total + Signed(kind, value) >= 0
    ensures !Rejects(total, kind, value) && total >= 0 && value >= 0 ==> total + Signed(kind, value) >= 0
  {
  }

  method Execute(ledger: Ledger, title: string, value: int, kind: Kind, category: string)
    returns (r: Result<Transaction>)
    requires ledger.Valid()
    modifies ledger
    ensures ledger.Valid()
    // rejected exactly when the balance gate fires, and then nothing is stored
    ensures r.Err? <==> Rejects(old(ledger.CurrentTotal()), kind, value)
    ensures r.Err? ==> r.error == InsufficientFunds && unchanged(ledger)
    // accepted: one transaction with the requested fields is appended and returned
    ensures r.Ok? ==> ledger.transactions == old(ledger.transactions) + [r.value]
    ensures r.Ok? ==> r.value.title == title && r.value.kind == kind && r.value.value == value
    ensures r.Ok? ==> r.value.id !in set t | t in old(ledger.transactions) :: t.id
    // it references the category that carries the requested title
    ensures r.Ok? ==> FindByTitle(ledger.categories, category) == Some(Category(r.value.categoryId, category))
    // an existing category is reused; a missing one is created once
    ensures r.Ok? && HasTitle(old(ledger.categories), category) ==> ledger.categories == old(ledger.categories)
    ensures r.Ok? && !HasTitle(old(ledger.categories), category) ==>
              ledger.categories == old(ledger.categories) + [Category(old(ledger.nextId), category)]
    ensures UniqueTitles(old(ledger.categories)) ==> UniqueTitles(ledger.categories)
    // the balance moves by the transaction's signed value and stays non-negative
    ensures r.Ok? ==> ledger.CurrentTotal() == old(ledger.CurrentTotal()) + Signed(kind, value)
    ensures r.Ok? && old(ledger.CurrentTotal()) >= 0 && value >= 0 ==> ledger.CurrentTotal() >= 0
    ensures r.Ok? && kind == Outcome ==> ledger.CurrentTotal() >= 0
  {
    if kind == Outcome && ledger.CurrentTotal() - value < 0 {
      return Err(InsufficientFunds);
    }
    var transCategory := FindOrCreateCategory(ledger, category);
    assert transCategory in ledger.categories;
    var transaction := ledger.SaveTransaction(title, kind, value, transCategory.id);
    r := Ok(transaction);
  }
}

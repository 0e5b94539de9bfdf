/** Example runs of the two services, checked against the contracts of the
    two services alone (as a client of them). */
module Scenarios {
  import opened Records
  import opened Store
  import CreateTransactionService
  import ImportTransactionsService

  method SingleCreates()
  {
    var ledger := new Ledger();
    var r := CreateTransactionService.Execute(ledger, "Salary", 100, Income, "Job");
    assert r.Ok? && ledger.CurrentTotal() == 100;

    // an outcome larger than the total is refused and changes nothing
    r := CreateTransactionService.Execute(ledger, "Rent", 150, Outcome, "Home");
    assert r.Err? && ledger.CurrentTotal() == 100;

    // an outcome equal to the total is accepted and leaves 0
    r := CreateTransactionService.Execute(ledger, "Rent", 100, Outcome, "Home");
    assert r.Ok? && ledger.CurrentTotal() == 0;
  }

  method SameCategoryTwice()
  {
    var ledger := new Ledger();
    var r1 := CreateTransactionService.Execute(ledger, "Lunch", 10, Income, "Food");
    var r2 := CreateTransactionService.Execute(ledger, "Dinner", 20, Income, "Food");
    assert r1.Ok? && r2.Ok?;
    // one "Food" category, referenced by both transactions
    assert |ledger.categories| == 1 && ledger.categories[0].title == "Food";
    assert r1.value.categoryId == r2.value.categoryId == ledger.categories[0].id;
  }

  method Imports()
  {
    var ledger := new Ledger();
    var bad := [Row("Gift", Income, 50, "Misc"), Row("Tv", Outcome, 80, "Home")];
    assert ImportTransactionsService.NetValue(bad) == -30;
    var r := ImportTransactionsService.Execute(ledger, bad);
    assert r.Err? && ledger.transactions == [] && ledger.categories == [];

    var good := [Row("Salary", Income, 100, "Job"), Row("Tv", Outcome, 40, "Home")];
    assert ImportTransactionsService.NetValue(good) == 60;
    r := ImportTransactionsService.Execute(ledger, good);
    assert r.Ok? && ledger.CurrentTotal() == 60;
    assert |r.value| == 2 && r.value[0].title == "Salary" && r.value[1].title == "Tv";
  }

  method OneCategoryPerTitle()
  {
    var ledger := new Ledger();
    var month := Row("Month", Income, 10, "Rent");
    var rows := [month, month, month, month, month];
    FiveMonths(month);
    ghost var before := ledger.categories;
    var r := ImportTransactionsService.Execute(ledger, rows);
    assert r.Ok?;
    // exactly one category exists, for "Rent", and every row links to it
    OneCategoryLinked(before, ledger.categories, r.value, rows, "Rent");
  }

  /** The net value of five identical income rows of 10 is 50. */
  lemma FiveMonths(month: Row)
    requires month.kind == Income && month.value == 10
    ensures ImportTransactionsService.NetValue([month, month, month, month, month]) == 50
  {
    var rows := [month, month, month, month, month];
    assert ImportTransactionsService.Reduce(40, rows[4..]) == 50;
    assert ImportTransactionsService.Reduce(30, rows[3..]) == 50;
    assert ImportTransactionsService.Reduce(20, rows[2..]) == 50;
    assert ImportTransactionsService.Reduce(10, rows[1..]) == 50;
  }

  /** After an accepted import whose rows all name one title into an empty
      store, that title has exactly one category and every row links to it. */
  lemma OneCategoryLinked(before: seq<Category>, cats: seq<Category>, inserted: seq<Transaction>, rows: seq<Row>, title: string)
    requires before == [] && |rows| > 0 && |inserted| == |rows|
    requires forall k :: 0 <= k < |rows| ==> rows[k].category == title
    requires UniqueTitles(before) ==> UniqueTitles(cats)
    requires forall k :: |before| <= k < |cats| ==>
               cats[k].title in ImportTransactionsService.RowCategories(rows) && !HasTitle(before, cats[k].title)
    requires forall k :: 0 <= k < |rows| ==> ImportTransactionsService.Links(cats, inserted[k], rows[k])
    ensures |cats| == 1 && cats[0].title == title
    ensures forall k :: 0 <= k < |rows| ==> inserted[k].categoryId == cats[0].id
  {
    assert ImportTransactionsService.Links(cats, inserted[0], rows[0]);
    assert HasTitle(cats, title);
    forall k | 0 <= k < |cats|
      ensures cats[k].title == title
    {
      var j :| 0 <= j < |rows| && ImportTransactionsService.RowCategories(rows)[j] == cats[k].title;
    }
    var last := |cats| - 1;
    assert cats[last].title == cats[0].title;
    forall k | 0 <= k < |rows|
      ensures inserted[k].categoryId == cats[0].id
    {
      assert ImportTransactionsService.Links(cats, inserted[k], rows[k]);
      assert FindByTitle(cats, title).value in cats;
    }
  }
}

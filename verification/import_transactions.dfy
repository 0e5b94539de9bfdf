/** `ImportTransactionsService.execute` on already-parsed rows: the batch is
    refused as a whole when its net value would take the balance total below
    zero; otherwise each distinct category title is found or created and one
    transaction is saved per row and the saved transactions are returned in
    row order. */
module ImportTransactionsService {
  import opened Records
  import opened Balance
  import opened Store

  /** The `reduce` over the rows: a left fold from `acc` that adds an income
      row's value and subtracts the value of any other row. */
  function Reduce(acc: int, rows: seq<Row>): int
    decreases |rows|
  {
    if rows == [] then acc
    else Reduce(acc + Signed(rows[0].kind, rows[0].value), rows[1..])
  }

  /** The net value of a batch: the fold started at 0. */
  function NetValue(rows: seq<Row>): int
  {
    Reduce(0, rows)
  }

  /** Folding one more row moves the result by that row's signed value. */
  lemma {:induction false} ReduceSnoc(acc: int, rows: seq<Row>, row: Row)
    ensures Reduce(acc, rows + [row]) == Reduce(acc, rows) + Signed(row.kind, row.value)
    decreases |rows|
  {
    if rows == [] {
      assert [row][1..] == [];
    } else {
      assert (rows + [row])[1..] == rows[1..] + [row];
      ReduceSnoc(acc + Signed(rows[0].kind, rows[0].value), rows[1..], row);
    }
  }

  /** A saved transaction carries its row's title, type and value. */
  predicate Carries(t: Transaction, row: Row)
  {
    t.title == row.title && t.kind == row.kind && t.value == row.value
  }

  /** The net value of a batch is the balance total of the transactions saved
      for it, whatever categories and ids they received. */
  lemma {:induction false} NetValueIsTotal(rows: seq<Row>, ts: seq<Transaction>)
    requires |ts| == |rows|
    requires forall k :: 0 <= k < |rows| ==> Carries(ts[k], rows[k])
    ensures NetValue(rows) == Total(ts)
    decreases |rows|
  {
    if rows != [] {
      var n := |rows| - 1;
      assert rows == rows[..n] + [rows[n]];
      NetValueIsTotal(rows[..n], ts[..n]);
      ReduceSnoc(0, rows[..n], rows[n]);
    }
  }

  /** `transactionFile.map(transaction => transaction.category)`. */
  function RowCategories(rows: seq<Row>): seq<string>
  {
    seq(|rows|, k requires 0 <= k < |rows| => rows[k].category)
  }

  predicate NoDuplicates(xs: seq<string>)
  {
    forall i, j :: 0 <= i < j < |xs| ==> xs[i] != xs[j]
  }

  /** Insertion into a `Set` in iteration order: each title not yet in `seen`
      is appended the first time it occurs. */
  function AddNew(seen: seq<string>, xs: seq<string>): (r: seq<string>)
    requires NoDuplicates(seen)
    ensures NoDuplicates(r)
    ensures forall x :: x in r <==> x in seen || x in xs
    ensures |seen| <= |r| <= |seen| + |xs| && r[..|seen|] == seen
    decreases |xs|
  {
    if xs == [] then seen
    else if xs[0] in seen then AddNew(seen, xs[1..])
    else AddNew(seen + [xs[0]], xs[1..])
  }

  /** `Array.from(new Set(titles))`: the rows' category titles, each once. */
  function CategoryTitles(rows: seq<Row>): (titles: seq<string>)
    ensures NoDuplicates(titles)
    ensures forall x :: x in titles <==> x in RowCategories(rows)
    ensures |titles| <= |rows|
  {
    AddNew([], RowCategories(rows))
  }

  /** What the category pass has achieved once it has handled the titles
      `done`, starting from the categories `before`: the old categories are
      kept, every handled title has a category, and the categories added so far
      are for handled titles that had none, one per title. */
  ghost predicate PassInvariant(before: seq<Category>, cats: seq<Category>, done: seq<string>)
  {
    && |before| <= |cats| && cats[..|before|] == before
    && (forall x :: x in done ==> HasTitle(cats, x))
    && (forall k :: |before| <= k < |cats| ==> cats[k].title in done && !HasTitle(before, cats[k].title))
    && UniqueTitles(cats[|before|..])
    && (UniqueTitles(before) ==> UniqueTitles(cats))
  }

  /** One find-or-create keeps the pass invariant, with its title handled. */
  lemma PassStep(before: seq<Category>, cats: seq<Category>, titles: seq<string>, i: nat, next: seq<Category>)
    requires i < |titles|
    requires PassInvariant(before, cats, titles[..i])
    requires HasTitle(cats, titles[i]) ==> next == cats
    requires !HasTitle(cats, titles[i]) ==> exists id :: next == cats + [Category(id, titles[i])]
    ensures PassInvariant(before, next, titles[..i + 1])
  {
    assert titles[..i + 1] == titles[..i] + [titles[i]];
    if HasTitle(cats, titles[i]) {
      PassFound(before, cats, titles[..i], titles[i]);
    } else {
      var id :| next == cats + [Category(id, titles[i])];
      PassCreated(before, cats, titles[..i], Category(id, titles[i]));
    }
  }

  /** A title that already has a category: nothing is added. */
  lemma PassFound(before: seq<Category>, cats: seq<Category>, done: seq<string>, title: string)
    requires PassInvariant(before, cats, done)
    requires HasTitle(cats, title)
    ensures PassInvariant(before, cats, done + [title])
  {
  }

  /** A title without a category: the category appended for it. */
  lemma PassCreated(before: seq<Category>, cats: seq<Category>, done: seq<string>, c: Category)
    requires PassInvariant(before, cats, done)
    requires !HasTitle(cats, c.title)
    ensures PassInvariant(before, cats + [c], done + [c.title])
  {
    var next := cats + [c];
    StillMissing(before, cats, c.title);
    assert next[..|before|] == before by {
      assert next[..|before|] == cats[..|before|];
    }
    assert forall x :: x in done + [c.title] ==> HasTitle(next, x) by {
      forall x | x in done + [c.title]
        ensures HasTitle(next, x)
      {
        if x != c.title {
          KeepsTitle(cats, next, x);
        } else {
          assert next[|cats|].title == c.title;
        }
      }
    }
    assert forall k :: |before| <= k < |next| ==> next[k].title in done + [c.title] && !HasTitle(before, next[k].title) by {
      forall k | |before| <= k < |next|
        ensures next[k].title in done + [c.title] && !HasTitle(before, next[k].title)
      {
        if k < |cats| {
          assert next[k] == cats[k];
        }
      }
    }
    assert UniqueTitles(next[|before|..]) by {
      assert next[|before|..] == cats[|before|..] + [c];
      FindAfterAppend(cats[|before|..], c);
    }
    assert UniqueTitles(before) ==> UniqueTitles(next) by {
      FindAfterAppend(cats, c);
    }
  }

  /** The category pass: find or create one category per title, one title
      after the other. Existing categories are kept as they are; every title
      ends up with a category; a category is created only for a title that
      had none, and never twice for one title. */
  method ResolveCategories(ledger: Ledger, titles: seq<string>)
    requires ledger.Valid()
    modifies ledger
    ensures ledger.Valid()
    ensures ledger.transactions == old(ledger.transactions)
    ensures PassInvariant(old(ledger.categories), ledger.categories, titles)
  {
    ghost var before := ledger.categories;
    for i := 0 to |titles|
      invariant ledger.Valid()
      invariant ledger.transactions == old(ledger.transactions)
      invariant PassInvariant(before, ledger.categories, titles[..i])
    {
      ghost var cats := ledger.categories;
      var c := FindOrCreateCategory(ledger, titles[i]);
      PassStep(before, cats, titles, i, ledger.categories);
    }
    assert titles[..|titles|] == titles;
  }

  /** A title missing from a store is missing from every prefix of it. */
  lemma StillMissing(before: seq<Category>, cats: seq<Category>, title: string)
    requires |before| <= |cats| && cats[..|before|] == before
    requires !HasTitle(cats, title)
    ensures !HasTitle(before, title)
    ensures !HasTitle(cats[|before|..], title)
  {
    forall k | 0 <= k < |before|
      ensures before[k].title != title
    {
      assert before[k] == cats[k];
    }
    forall k | 0 <= k < |cats| - |before|
      ensures cats[|before|..][k].title != title
    {
      assert cats[|before|..][k] == cats[|before| + k];
    }
  }

  /** A title stays stored when the store only grows at its end. */
  lemma KeepsTitle(cats: seq<Category>, more: seq<Category>, title: string)
    requires HasTitle(cats, title)
    requires |cats| <= |more| && more[..|cats|] == cats
    ensures HasTitle(more, title)
  {
    var k :| 0 <= k < |cats| && cats[k].title == title;
    assert more[k] == cats[k];
  }

  /** A saved transaction references the category that `findOne` returns
      for its row's title. */
  predicate Links(cats: seq<Category>, t: Transaction, row: Row)
  {
    FindByTitle(cats, row.category) == Some(Category(t.categoryId, row.category))
  }

  /** The transactions saved so far are those of the first rows, in order,
      each carrying its row's fields and linked to its row's category. */
  ghost predicate InsertedFor(cats: seq<Category>, rows: seq<Row>, inserted: seq<Transaction>)
  {
    && |inserted| <= |rows|
    && (forall k :: 0 <= k < |inserted| ==> Carries(inserted[k], rows[k]) && Links(cats, inserted[k], rows[k]))
  }

  /** Saving the transaction of the next row extends what has been inserted. */
  lemma InsertStep(cats: seq<Category>, rows: seq<Row>, inserted: seq<Transaction>, t: Transaction)
    requires InsertedFor(cats, rows, inserted)
    requires |inserted| < |rows|
    requires Carries(t, rows[|inserted|]) && Links(cats, t, rows[|inserted|])
    ensures InsertedFor(cats, rows, inserted + [t])
  {
  }

  /** The per-row callback: look the row's category up again and save the
      row's transaction pointing at it. */
  method InsertRow(ledger: Ledger, row: Row) returns (t: Transaction)
    requires ledger.Valid()
    requires HasTitle(ledger.categories, row.category)
    modifies ledger
    ensures ledger.Valid()
    ensures ledger.categories == old(ledger.categories)
    ensures ledger.transactions == old(ledger.transactions) + [t]
    ensures Carries(t, row) && Links(ledger.categories, t, row)
  {
    var transCategory := FindByTitle(ledger.categories, row.category);
    FoundHasId(ledger.categories, row.category);
    t := ledger.SaveTransaction(row.title, row.kind, row.value, transCategory.value.id);
  }

  /** The insert pass: one transaction per row, in row order, each pointing at
      the category found for its row's title. */
  method InsertRows(ledger: Ledger, rows: seq<Row>) returns (inserted: seq<Transaction>)
    requires ledger.Valid()
    requires forall k :: 0 <= k < |rows| ==> HasTitle(ledger.categories, rows[k].category)
    modifies ledger
    ensures ledger.Valid()
    ensures ledger.categories == old(ledger.categories)
    ensures ledger.transactions == old(ledger.transactions) + inserted
    ensures |inserted| == |rows|
    ensures InsertedFor(ledger.categories, rows, inserted)
  {
    ghost var cats := ledger.categories;
    inserted := [];
    for i := 0 to |rows|
      invariant ledger.Valid()
      invariant ledger.categories == cats
      invariant ledger.transactions == old(ledger.transactions) + inserted
      invariant |inserted| == i
      invariant InsertedFor(cats, rows, inserted)
    {
      var t := InsertRow(ledger, rows[i]);
      InsertStep(cats, rows, inserted, t);
      inserted := inserted + [t];
    }
  }

  method Execute(ledger: Ledger, rows: seq<Row>) returns (r: Result<seq<Transaction>>)
    requires ledger.Valid()
    modifies ledger
    ensures ledger.Valid()
    // all-or-nothing at the gate: refused exactly when total + net < 0, and then nothing is stored
    ensures r.Err? <==> old(ledger.CurrentTotal()) + NetValue(rows) < 0
    ensures r.Err? ==> r.error == InsufficientFunds && unchanged(ledger)
    // accepted: one transaction per row, appended and returned in row order
    ensures r.Ok? ==> ledger.transactions == old(ledger.transactions) + r.value
    ensures r.Ok? ==> |r.value| == |rows|
    ensures r.Ok? ==> forall k :: 0 <= k < |rows| ==> Carries(r.value[k], rows[k])
    // each references the category that carries its row's title
    ensures r.Ok? ==> forall k :: 0 <= k < |rows| ==> Links(ledger.categories, r.value[k], rows[k])
    // existing categories are kept; new ones are for missing titles only, one per title
    ensures r.Ok? ==> |old(ledger.categories)| <= |ledger.categories|
    ensures r.Ok? ==> ledger.categories[..|old(ledger.categories)|] == old(ledger.categories)
    ensures r.Ok? ==> forall k :: |old(ledger.categories)| <= k < |ledger.categories| ==>
              ledger.categories[k].title in RowCategories(rows) &&
              !HasTitle(old(ledger.categories), ledger.categories[k].title)
    ensures r.Ok? ==> UniqueTitles(ledger.categories[|old(ledger.categories)|..])
    ensures UniqueTitles(old(ledger.categories)) ==> UniqueTitles(ledger.categories)
    // the total moves by the net value and is not negative
    ensures r.Ok? ==> ledger.CurrentTotal() == old(ledger.CurrentTotal()) + NetValue(rows)
    ensures r.Ok? ==> ledger.CurrentTotal() >= 0
  {
    var values := NetValue(rows);
    var total := ledger.CurrentTotal();
    if total + values < 0 {
      return Err(InsufficientFunds);
    }
    var categoryTitlesFromFile := CategoryTitles(rows);
    ResolveCategories(ledger, categoryTitlesFromFile);
    forall k | 0 <= k < |rows|
      ensures HasTitle(ledger.categories, rows[k].category)
    {
      assert RowCategories(rows)[k] == rows[k].category;
    }
    var inserted := InsertRows(ledger, rows);
    TotalAppend(old(ledger.transactions), inserted);
    NetValueIsTotal(rows, inserted);
    r := Ok(inserted);
  }
}

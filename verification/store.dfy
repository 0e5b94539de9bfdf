/** In-memory stand-in for the two repositories the services use: the
    transaction repository (save, getBalance) and the category repository
    (findOne by title, create and save), plus the counter that hands out ids. */
module Store {
  import opened Records
  import opened Balance

  /** Some stored category carries `title`. */
  predicate HasTitle(cats: seq<Category>, title: string)
  {
    exists k :: 0 <= k < |cats| && cats[k].title == title
  }

  /** Some stored category carries `id`. */
  predicate HasId(cats: seq<Category>, id: nat)
  {
    exists k :: 0 <= k < |cats| && cats[k].id == id
  }

  /** At most one category per title: what the services keep by looking a
      title up before creating it. */
  predicate UniqueTitles(cats: seq<Category>)
  {
    forall i, j :: 0 <= i < j < |cats| ==> cats[i].title != cats[j].title
  }

  /** `categoryRepository.findOne({ where: { title } })`: a stored category
      with that title, if any. The store does not say which one it returns
      when several share the title; this model takes the first stored one. */
  function FindByTitle(cats: seq<Category>, title: string): (found: Option<Category>)
    ensures found.Some? ==> found.value in cats && found.value.title == title
    ensures found.None? <==> !HasTitle(cats, title)
  {
    if cats == [] then None
    else if cats[0].title == title then Some(cats[0])
    else
      var rest := FindByTitle(cats[1..], title);
      assert HasTitle(cats, title) ==> HasTitle(cats[1..], title) by {
        if HasTitle(cats, title) {
          var k :| 0 <= k < |cats| && cats[k].title == title;
          assert k != 0 && cats[1..][k - 1].title == title;
        }
      }
      rest
  }

  /** When titles are unique, the category found for a title is the one
      category that has it. */
  lemma {:induction false} FindUnique(cats: seq<Category>, k: nat)
    requires UniqueTitles(cats)
    requires k < |cats|
    ensures FindByTitle(cats, cats[k].title) == Some(cats[k])
  {
    if k > 0 {
      assert cats[0].title != cats[k].title;
      assert UniqueTitles(cats[1..]) by {
        forall i, j | 0 <= i < j < |cats| - 1
          ensures cats[1..][i].title != cats[1..][j].title
        {
          assert cats[1..][i] == cats[i + 1] && cats[1..][j] == cats[j + 1];
        }
      }
      FindUnique(cats[1..], k - 1);
    }
  }

  /** Both repositories and the id counter. */
  class Ledger {
    var transactions: seq<Transaction>
    var categories: seq<Category>
    var nextId: nat

    /** Store integrity: every id was handed out by the counter, ids are
        issued in increasing order, and every transaction references a
        stored category. Unique titles are not the store's job. */
    ghost predicate Valid()
      reads this
    {
      && (forall k :: 0 <= k < |categories| ==> categories[k].id < nextId)
      && (forall k :: 0 < k < |categories| ==> categories[k - 1].id < categories[k].id)
      && (forall k :: 0 <= k < |transactions| ==> transactions[k].id < nextId)
      && (forall k :: 0 < k < |transactions| ==> transactions[k - 1].id < transactions[k].id)
      && (forall k :: 0 <= k < |transactions| ==> HasId(categories, transactions[k].categoryId))
    }

    /** `(await transactionRepository.getBalance()).total`. */
    function CurrentTotal(): int
      reads this
    {
      Total(transactions)
    }

    constructor ()
      ensures Valid()
      ensures transactions == [] && categories == [] && nextId == 0
    {
      transactions, categories, nextId := [], [], 0;
    }

    /** `categoryRepository.create({ title })` followed by `save`: appends a
        category with a fresh id. */
    method SaveCategory(title: string) returns (c: Category)
      requires Valid()
      modifies this
      ensures Valid()
      ensures c == Category(old(nextId), title)
      ensures categories == old(categories) + [c]
      ensures transactions == old(transactions) && nextId == old(nextId) + 1
    {
      c := Category(nextId, title);
      forall k | 0 <= k < |transactions|
        ensures HasId(categories + [c], transactions[k].categoryId)
      {
        HasIdGrows(categories, c, transactions[k].categoryId);
      }
      categories := categories + [c];
      nextId := nextId + 1;
    }

    /** `transactionRepository.create({...})` followed by `save`: appends a
        transaction with a fresh id that references a stored category. */
    method SaveTransaction(title: string, kind: Kind, value: int, categoryId: nat) returns (t: Transaction)
      requires Valid()
      requires HasId(categories, categoryId)
      modifies this
      ensures Valid()
      ensures t == Transaction(old(nextId), title, kind, value, categoryId)
      ensures transactions == old(transactions) + [t]
      ensures categories == old(categories) && nextId == old(nextId) + 1
      ensures CurrentTotal() == old(CurrentTotal()) + Signed(kind, value)
    {
      t := Transaction(nextId, title, kind, value, categoryId);
      TotalSnoc(transactions, t);
      ghost var ts := transactions + [t];
      assert forall k :: 0 <= k < |transactions| ==> ts[k] == transactions[k];
      transactions := transactions + [t];
      nextId := nextId + 1;
    }
  }

  /** The category found for a stored title is stored under its id. */
  lemma FoundHasId(cats: seq<Category>, title: string)
    requires HasTitle(cats, title)
    ensures FindByTitle(cats, title).Some?
    ensures HasId(cats, FindByTitle(cats, title).value.id)
  {
    var c := FindByTitle(cats, title).value;
    var k :| 0 <= k < |cats| && cats[k] == c;
  }

  /** A stored id stays stored when a category is appended. */
  lemma HasIdGrows(cats: seq<Category>, c: Category, id: nat)
    requires HasId(cats, id)
    ensures HasId(cats + [c], id)
  {
    var k :| 0 <= k < |cats| && cats[k].id == id;
    assert (cats + [c])[k] == cats[k];
  }

  /** Find a category by title and create it when it is missing: the
      look-up-then-insert both services perform. */
  method FindOrCreateCategory(ledger: Ledger, title: string) returns (c: Category)
    requires ledger.Valid()
    modifies ledger
    ensures ledger.Valid()
    ensures FindByTitle(ledger.categories, title) == Some(c)
    ensures ledger.transactions == old(ledger.transactions)
    ensures HasTitle(old(ledger.categories), title) ==>
              ledger.categories == old(ledger.categories) && ledger.nextId == old(ledger.nextId)
    ensures !HasTitle(old(ledger.categories), title) ==>
              c == Category(old(ledger.nextId), title) &&
              ledger.categories == old(ledger.categories) + [c] &&
              ledger.nextId == old(ledger.nextId) + 1
    ensures UniqueTitles(old(ledger.categories)) ==> UniqueTitles(ledger.categories)
  {
    var found := FindByTitle(ledger.categories, title);
    if found.Some? {
      c := found.value;
    } else {
      c := ledger.SaveCategory(title);
      FindAfterAppend(old(ledger.categories), c);
    }
  }

  /** A title that was missing is found in the category just appended. */
  lemma {:induction false} FindAfterAppend(cats: seq<Category>, c: Category)
    requires !HasTitle(cats, c.title)
    ensures FindByTitle(cats + [c], c.title) == Some(c)
    ensures UniqueTitles(cats) ==> UniqueTitles(cats + [c])
  {
    if cats != [] {
      forall k | 0 <= k < |cats[1..]|
        ensures cats[1..][k].title != c.title
      {
        assert cats[1..][k] == cats[k + 1];
      }
      assert (cats + [c])[1..] == cats[1..] + [c];
      assert cats[0].title != c.title;
      FindAfterAppend(cats[1..], c);
    }
    if UniqueTitles(cats) {
      forall i, j | 0 <= i < j < |cats| + 1
        ensures (cats + [c])[i].title != (cats + [c])[j].title
      {
        if j == |cats| {
          assert cats[i].title != c.title;
        }
      }
    }
  }
}

/** The entities of the ledger: stored transactions and categories, the rows
    of an import file, and the one error the services raise. */
module Records {

  /** The type of a transaction: `'income' | 'outcome'`. */
  datatype Kind = Income | Outcome

  /** A stored category. Ids come from the store's fresh-id counter. */
  datatype Category = Category(id: nat, title: string)

  /** A stored transaction; `categoryId` references a stored category.
      `createdAt` and `updatedAt` are not modelled. */
  datatype Transaction = Transaction(id: nat, title: string, kind: Kind, value: int, categoryId: nat)

  /** One already-parsed row of an import file (columns title, type, value, category). */
  datatype Row = Row(title: string, kind: Kind, value: int, category: string)

  /** `AppError('Cannot complete transaction, funds below zero')`. */
  datatype Error = InsufficientFunds

  datatype Option<+T> = None | Some(value: T)

  datatype Result<+T> = Ok(value: T) | Err(error: Error)
}

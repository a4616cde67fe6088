/** Shared result types: the Python program signals failure by raising, the
    model returns a `Result` whose error names the exception class. */
module Common {

  datatype Option<+T> = None | Some(value: T)

  /** The exceptions the modelled code raises (or lets escape). */
  datatype Failure =
    | BadArgument(message: string)   // discord.ext.commands.BadArgument
    | DBError(message: string)       // models.core.DBError
    | ValueError                     // int() on a malformed literal, randint on an empty range
    | IndexError                     // indexing an empty string
    | KeyError                       // missing dictionary key
    | AttributeError                 // attribute access on None
    | TypeError                      // iterating or testing membership in None
    | MultipleResultsFound           // `.one()` on a query with several matching rows

  datatype Result<+T> = Ok(value: T) | Err(error: Failure)
}

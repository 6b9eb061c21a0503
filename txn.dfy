/** The database as the handlers see it through one transaction: the point
    at which it may refuse the request's work. Every handler that writes
    takes a snapshot when the transaction begins and, when anything fails,
    puts the tables back to that snapshot. */
module Txn {

  /** Where, if anywhere, the database refuses a request's work, with the
      driver's error text. The writes a handler issues are numbered from 0
      in the order it issues them. */
  datatype Fault =
    | NoFault
    | BeginFails(reason: string)
    | WriteFails(at: nat, reason: string)
    | CommitFails(reason: string)
  {
    /** The fault strikes a transaction that issues `writes` writes: it
        cannot begin, one of its writes is refused, or its commit is. */
    predicate Strikes(writes: nat)
    {
      match this
      case NoFault => false
      case BeginFails(_) => true
      case WriteFails(at, _) => at < writes
      case CommitFails(_) => true
    }

    /** The write numbered `i` is refused. */
    predicate RefusesWrite(i: nat)
    {
      WriteFails? && at == i
    }

    /** The driver's error text, "" when there is none. */
    function Reason(): string
    {
      match this
      case NoFault => ""
      case BeginFails(r) => r
      case WriteFails(_, r) => r
      case CommitFails(r) => r
    }
  }
}

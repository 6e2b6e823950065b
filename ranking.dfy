/** The document-type priority table every part of the system uses: a higher number is a
    more authoritative document. This is the reference definition. Each source file carries its
    own copy (a Python dict, a JavaScript object literal), modelled in that file's module with
    its own lookup rule, and each copy's contract states that it agrees with this table. */
module Ranking {

  /** The reference table, written as a case analysis on the type. */
  function PriorityOf(docType: string): (p: int)
    ensures 1 <= p <= 4
  {
    match docType
    case "Amendment" => 4
    case "Side Letter" => 3
    case "Fee Schedule" => 3
    case "Subscription Agreement" => 2
    case "PPM" => 1
    case _ => 1
  }
}

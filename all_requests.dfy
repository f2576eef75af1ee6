/**
 * The administrator's request list: which action buttons a request card
 * shows (src/Admin/AllRequests.jsx:161-172) and the status each button sends
 * to the update-status route. This is the only place where a forward-only
 * progression Pending, Approved, Completed is enforced; the server accepts
 * any listed status from any other.
 */
module AllRequests {
  import opened Schema

  /** The APPROVE and COMPLETE buttons. */
  datatype Action = Approve | Complete

  /** The status each button's click handler sends. */
  function Target(a: Action): string {
    match a
    case Approve => Approved
    case Complete => Completed
  }

  /**
   * The buttons a card shows, in page order: none once the status is
   * exactly `Completed`, COMPLETE alone when it is exactly `Approved`, both
   * otherwise (the comparisons are case-sensitive).
   */
  function Buttons(status: string): (bs: seq<Action>)
    ensures bs == [] <==> status == Completed
    ensures bs == [Complete] <==> status == Approved
    ensures bs == [Approve, Complete] <==> status != Completed && status != Approved
  {
    if status == Completed then []
    else if status == Approved then [Complete]
    else [Approve, Complete]
  }

  /** The position of a listed status in the intended progression. */
  function Rank(status: string): (n: nat)
    requires IsValidStatus(status)
    ensures n == 0 <==> status == Pending
    ensures n == 1 <==> status == Approved
    ensures n == 2 <==> status == Completed
  {
    if status == Pending then 0 else if status == Approved then 1 else 2
  }

  /**
   * Every button the page shows sends a status the server accepts, never
   * sends `Pending`, and, from a listed status, moves strictly forward, so a
   * completed request can no longer be changed from this page.
   */
  lemma ButtonsMoveForward(status: string, a: Action)
    requires a in Buttons(status)
    ensures IsValidStatus(Target(a))
    ensures Target(a) != Pending
    ensures status != Completed
    ensures IsValidStatus(status) ==> Rank(status) < Rank(Target(a))
  {
  }

  /** Conversely, every forward move between listed statuses has a button. */
  lemma ForwardMovesHaveButtons(status: string, target: string)
    requires IsValidStatus(status) && IsValidStatus(target)
    requires Rank(status) < Rank(target)
    ensures exists a :: a in Buttons(status) && Target(a) == target
  {
    if target == Approved {
      assert Approve in Buttons(status) && Target(Approve) == target;
    } else {
      assert Complete in Buttons(status) && Target(Complete) == target;
    }
  }
}

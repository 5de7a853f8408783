/**
 * The order status enumeration and the fixed transition table of orders/models.py,
 * with the facts about the state machine that follow from the table alone.
 */
module OrderStatus {

  datatype Status = Created | InPreparation | Ready | Delivered | Paid | Cancelled

  /** The value stored in the status column. */
  function Code(s: Status): string
  {
    match s
    case Created => "CREATED"
    case InPreparation => "IN_PREPARATION"
    case Ready => "READY"
    case Delivered => "DELIVERED"
    case Paid => "PAID"
    case Cancelled => "CANCELLED"
  }

  /** Distinct statuses are stored as distinct codes, so the column determines the status. */
  lemma CodesAreDistinct(s: Status, t: Status)
    requires Code(s) == Code(t)
    ensures s == t
  {
  }

  /** The statuses an order in status `s` may move to (Order.VALID_TRANSITIONS). */
  function ValidTransitions(s: Status): (r: set<Status>)
    ensures Created !in r
    ensures |r| <= 2
    ensures s != Created ==> |r| <= 1
  {
    match s
    case Created => {InPreparation, Cancelled}
    case InPreparation => {Ready}
    case Ready => {Delivered}
    case Delivered => {Paid}
    case Paid => {}
    case Cancelled => {}
  }

  /** Order.is_active: an order is open unless it has been paid or cancelled. */
  predicate IsActiveStatus(s: Status)
    ensures IsActiveStatus(s) <==> Code(s) != "PAID" && Code(s) != "CANCELLED"
  {
    s != Paid && s != Cancelled
  }

  /** How far along the lifecycle a status lies; used to show that the machine has no cycles. */
  function Stage(s: Status): nat
  {
    match s
    case Created => 0
    case InPreparation => 1
    case Cancelled => 1
    case Ready => 2
    case Delivered => 3
    case Paid => 4
  }

  /** A sequence of statuses in which every step is allowed by the transition table. */
  ghost predicate IsTransitionPath(path: seq<Status>)
  {
    forall k :: 0 < k < |path| ==> path[k] in ValidTransitions(path[k - 1])
  }

  /** The closed statuses are exactly those with no way out. */
  lemma ClosedIffNoExits(s: Status)
    ensures !IsActiveStatus(s) <==> ValidTransitions(s) == {}
  {
  }

  /** Every allowed move starts from an open status and goes strictly forward. */
  lemma TransitionMovesForward(s: Status, t: Status)
    requires t in ValidTransitions(s)
    ensures IsActiveStatus(s)
    ensures Stage(s) < Stage(t)
  {
  }

  /** Along a path, each move advances the stage by at least one. */
  lemma {:induction false} PathMovesForward(path: seq<Status>, i: nat, j: nat)
    requires IsTransitionPath(path)
    requires i <= j < |path|
    ensures Stage(path[i]) + (j - i) <= Stage(path[j])
  {
    if i < j {
      PathMovesForward(path, i, j - 1);
      TransitionMovesForward(path[j - 1], path[j]);
    }
  }

  /** No order ever returns to a status it has left. */
  lemma NoStatusRevisited(path: seq<Status>, i: nat, j: nat)
    requires IsTransitionPath(path)
    requires i < j < |path|
    ensures path[i] != path[j]
  {
    PathMovesForward(path, i, j);
  }

  /** Every lifecycle ends after at most four moves. */
  lemma LifecycleIsBounded(path: seq<Status>)
    requires IsTransitionPath(path)
    ensures |path| <= 5
  {
    if |path| > 0 {
      PathMovesForward(path, 0, |path| - 1);
    }
  }

  /** A closed order never reopens: a closed status can only be the last one of a path. */
  lemma ClosedIsFinal(path: seq<Status>, i: nat)
    requires IsTransitionPath(path)
    requires i < |path| && !IsActiveStatus(path[i])
    ensures i == |path| - 1
    ensures forall j :: i <= j < |path| ==> !IsActiveStatus(path[j])
  {
    if i + 1 < |path| {
      TransitionMovesForward(path[i], path[i + 1]);
    }
  }

  /** The happy path is allowed, and cancelling is the one other way out of CREATED. */
  lemma LifecycleShape()
    ensures IsTransitionPath([Created, InPreparation, Ready, Delivered, Paid])
    ensures IsTransitionPath([Created, Cancelled])
    ensures ValidTransitions(Created) - {InPreparation} == {Cancelled}
  {
  }
}

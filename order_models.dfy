/** An order (orders/models.py): the one place where an order's status is written. */
module OrderModels {
  import opened Common
  import opened OrderStatus
  import opened Errors
  import opened TableModels

  class Order {
    const table: Table
    var status: Status
    const createdBy: UserId

    /** Inserting an order row: its status defaults to CREATED. */
    constructor (table: Table, createdBy: UserId)
      ensures this.table == table && this.createdBy == createdBy
      ensures status == Created
    {
      this.table := table;
      this.createdBy := createdBy;
      status := Created;
    }

    /** Order.is_active: an order is open exactly while the transition table still lets it move. */
    predicate IsActive()
      reads this
      ensures IsActive() <==> ValidTransitions(status) != {}
    {
      IsActiveStatus(status)
    }

    /**
     * Order.change_status: moves to `newStatus` exactly when the transition table allows it,
     * and otherwise leaves the status alone and reports the rejected move.
     */
    method ChangeStatus(newStatus: Status) returns (r: Outcome)
      modifies this
      ensures r.Pass? <==> newStatus in ValidTransitions(old(status))
      ensures r.Fail? ==> r.error == InvalidTransition(old(status), newStatus)
      ensures status == (if r.Pass? then newStatus else old(status))
      ensures r.Pass? ==> old(IsActive()) && Stage(old(status)) < Stage(status)
      ensures IsActive() ==> old(IsActive())
    {
      if newStatus !in ValidTransitions(status) {
        return Fail(InvalidTransition(status, newStatus));
      }
      TransitionMovesForward(status, newStatus);
      status := newStatus;
      return Pass;
    }
  }
}

/** A dining table (tables/models.py), with the `modified_by` field the table services write. */
module TableModels {
  import opened Common

  class Table {
    var number: int
    var capacity: int
    /** Whether the table may take orders. */
    var isActive: bool
    /** The last user who activated or deactivated the table. */
    var modifiedBy: Option<UserId>

    /** A new table is active and has not been toggled by anyone. */
    constructor (number: int, capacity: int)
      ensures this.number == number && this.capacity == capacity
      ensures isActive && modifiedBy == None
    {
      this.number := number;
      this.capacity := capacity;
      isActive := true;
      modifiedBy := None;
    }
  }
}

/** JobField: the abstract base of the four categorical values (Employer,
    Location, PositionType, CoreCompetency). Each instance holds one string and an
    id taken from a counter that all four kinds share. */
module JobFields {
  import opened Counters

  /** Which subclass of JobField an instance is. */
  datatype FieldKind = Employer | Location | PositionType | CoreCompetency

  class JobField {
    /** Assigned once, in the constructor; JobField has no setter for it. */
    const id: int32
    const kind: FieldKind
    var value: string

    /** `JobField(value)`: takes the next id from the shared counter, then stores
        the value. */
    constructor (ids: IdCounter, kind: FieldKind, value: string)
      modifies ids
      ensures id == old(ids.nextId) && ids.nextId == Successor(old(ids.nextId))
      ensures this.kind == kind && this.value == value
    {
      id := ids.nextId;
      this.kind := kind;
      this.value := value;
      ids.nextId := Successor(ids.nextId);
    }

    /** `toString()` is the stored value itself. */
    function ToString(): (s: string)
      reads this
      ensures s == value
    {
      value
    }

    /** `equals(o)`: the same object, or another JobField with the same id; the
        values are not compared. */
    function Equals(o: JobField?): (r: bool)
      ensures r <==> o != null && id == o.id
    {
      this == o || (o != null && id == o.id)
    }

    method SetValue(value: string)
      modifies this
      ensures this.value == value
    {
      this.value := value;
    }
  }
}

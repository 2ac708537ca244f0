/** Job: one job record. It has an id from its own static counter, a free-text
    name, and a reference to one shared JobField of each kind. */
module Jobs {
  import opened Counters
  import opened JobFields

  /** What toString shows in place of an empty name or value. */
  const Placeholder: string := "Data not available"

  /** The value toString leaves in a field: the placeholder if it was empty. */
  function OrPlaceholder(s: string): (r: string)
    ensures r != ""
    ensures s != "" ==> r == s
  {
    if s == "" then Placeholder else s
  }

  /** Decimal rendering of an int, as `%d` writes it: an optional '-' followed by
      digits. */
  function DecimalString(n: int): (r: string)
    ensures |r| > 0 && (r[0] == '-' <==> n < 0)
    ensures forall i :: 0 <= i < |r| && (i > 0 || n >= 0) ==> '0' <= r[i] <= '9'
  {
    if n < 0 then "-" + Digits(-n) else Digits(n)
  }

  function Digits(n: nat): (r: string)
    ensures |r| > 0 && forall i :: 0 <= i < |r| ==> '0' <= r[i] <= '9'
  {
    if n < 10 then [('0' as int + n) as char]
    else Digits(n / 10) + [('0' as int + n % 10) as char]
  }

  /** Reads back a rendering made by DecimalString. */
  function ReadDecimal(s: string): int {
    if s != [] && s[0] == '-' then -DigitsValue(s[1..]) else DigitsValue(s)
  }

  /** The value of a string of decimal digits, most significant first. */
  function DigitsValue(s: string): int {
    if s == [] then 0
    else DigitsValue(s[..|s| - 1]) * 10 + (s[|s| - 1] as int - '0' as int)
  }

  /** Reading the rendering of n gives n back. */
  lemma DecimalRoundTrip(n: int)
    ensures ReadDecimal(DecimalString(n)) == n
  {
    if n < 0 {
      DigitsRoundTrip(-n);
      assert DecimalString(n)[1..] == Digits(-n);
    } else {
      DigitsRoundTrip(n);
    }
  }

  lemma {:induction false} DigitsRoundTrip(n: nat)
    ensures DigitsValue(Digits(n)) == n
  {
    if n >= 10 {
      DigitsRoundTrip(n / 10);
      var r := Digits(n);
      assert r[..|r| - 1] == Digits(n / 10);
    }
  }

  /** One line of the block: a caption, a value and a line break. */
  function Line(caption: string, value: string): (r: string)
    ensures |r| == |caption| + |value| + 1 && r[|r| - 1] == '\n'
  {
    caption + value + "\n"
  }

  /** The block toString returns: a blank line, then one line each for the id,
      the name and the four values. */
  function Format(id: int32, name: string, employer: string, location: string,
                  positionType: string, coreCompetency: string): (r: string)
    ensures |r| == 69 + |DecimalString(id as int)| + |name| + |employer| + |location| +
                   |positionType| + |coreCompetency|
    ensures r[..5] == "\nID: " && r[|r| - 1] == '\n'
    ensures r[5..5 + |DecimalString(id as int)|] == DecimalString(id as int)
  {
    "\n" + Line("ID: ", DecimalString(id as int)) + Line("Name: ", name) +
    Line("Employer: ", employer) + Line("Location: ", location) +
    Line("Position Type: ", positionType) + Line("Core Competency: ", coreCompetency)
  }

  /** The id can be read back from the block. */
  lemma FormatId(id: int32, name: string, employer: string, location: string,
                 positionType: string, coreCompetency: string)
    ensures var r := Format(id, name, employer, location, positionType, coreCompetency);
      ReadDecimal(r[5..5 + |DecimalString(id as int)|]) == id as int
  {
    DecimalRoundTrip(id as int);
  }

  /** One of toString's write-backs: an empty value becomes the placeholder,
      through `setValue`, in the shared JobField itself. */
  method FillIfEmpty(f: JobField)
    modifies f
    ensures f.value == OrPlaceholder(old(f.value))
  {
    if f.value == "" {
      f.SetValue(Placeholder);
    }
  }

  class Job {
    /** Assigned once, in the constructor; Job has no setter for it. */
    const id: int32
    var name: string
    var employer: JobField
    var location: JobField
    var positionType: JobField
    var coreCompetency: JobField

    /** The categorical field of the given kind. */
    function Field(kind: FieldKind): JobField
      reads this
    {
      match kind
      case Employer => employer
      case Location => location
      case PositionType => positionType
      case CoreCompetency => coreCompetency
    }

    /** Java's field types: `employer` is an Employer, and so on. */
    ghost predicate WellTyped()
      reads this
    {
      forall kind :: Field(kind).kind == kind
    }

    /** The job and the four values it refers to. */
    ghost function Repr(): set<object>
      reads this
    {
      {this, employer, location, positionType, coreCompetency}
    }

    /** `Job(aName, anEmployer, aLocation, aPositionType, aCoreCompetency)`: takes
        the next id from the job counter (through `this()`), then stores the five
        arguments. */
    constructor (ids: IdCounter, name: string, employer: JobField, location: JobField,
                 positionType: JobField, coreCompetency: JobField)
      requires employer.kind == Employer && location.kind == Location
      requires positionType.kind == PositionType && coreCompetency.kind == CoreCompetency
      modifies ids
      ensures id == old(ids.nextId) && ids.nextId == Successor(old(ids.nextId))
      ensures this.name == name && this.employer == employer && this.location == location
      ensures this.positionType == positionType && this.coreCompetency == coreCompetency
      ensures WellTyped()
    {
      id := ids.nextId;
      this.name := name;
      this.employer := employer;
      this.location := location;
      this.positionType := positionType;
      this.coreCompetency := coreCompetency;
      ids.nextId := Successor(ids.nextId);
    }

    /** `toString()`: writes the placeholder into an empty name and into every
        shared JobField whose value is empty, then formats the result. The
        JobFields are shared, so every other job referring to them sees the
        placeholder afterwards. */
    method ToString() returns (s: string)
      requires WellTyped()
      modifies this, employer, location, positionType, coreCompetency
      ensures employer == old(employer) && location == old(location)
      ensures positionType == old(positionType) && coreCompetency == old(coreCompetency)
      ensures name == OrPlaceholder(old(name))
      ensures employer.value == OrPlaceholder(old(employer.value))
      ensures location.value == OrPlaceholder(old(location.value))
      ensures positionType.value == OrPlaceholder(old(positionType.value))
      ensures coreCompetency.value == OrPlaceholder(old(coreCompetency.value))
      ensures s == Format(id, name, employer.value, location.value, positionType.value, coreCompetency.value)
    {
      assert Field(Employer).kind == Employer && Field(Location).kind == Location;
      assert Field(PositionType).kind == PositionType && Field(CoreCompetency).kind == CoreCompetency;
      if name == "" {
        name := Placeholder;
      }
      FillIfEmpty(employer);
      FillIfEmpty(location);
      FillIfEmpty(coreCompetency);
      FillIfEmpty(positionType);
      s := Format(id, name, employer.ToString(), location.ToString(),
                  positionType.ToString(), coreCompetency.ToString());
    }

    /** `equals(o)`: the same object, or another Job with the same id; names and
        values are not compared. */
    function Equals(o: Job?): (r: bool)
      ensures r <==> o != null && id == o.id
    {
      this == o || (o != null && id == o.id)
    }

    method SetName(name: string)
      modifies this
      ensures this.name == name
      ensures employer == old(employer) && location == old(location)
      ensures positionType == old(positionType) && coreCompetency == old(coreCompetency)
    {
      this.name := name;
    }

    method SetEmployer(employer: JobField)
      requires employer.kind == Employer
      modifies this
      ensures this.employer == employer
      ensures name == old(name) && location == old(location)
      ensures positionType == old(positionType) && coreCompetency == old(coreCompetency)
    {
      this.employer := employer;
    }

    method SetLocation(location: JobField)
      requires location.kind == Location
      modifies this
      ensures this.location == location
      ensures name == old(name) && employer == old(employer)
      ensures positionType == old(positionType) && coreCompetency == old(coreCompetency)
    {
      this.location := location;
    }

    method SetPositionType(positionType: JobField)
      requires positionType.kind == PositionType
      modifies this
      ensures this.positionType == positionType
      ensures name == old(name) && employer == old(employer)
      ensures location == old(location) && coreCompetency == old(coreCompetency)
    {
      this.positionType := positionType;
    }

    method SetCoreCompetency(coreCompetency: JobField)
      requires coreCompetency.kind == CoreCompetency
      modifies this
      ensures this.coreCompetency == coreCompetency
      ensures name == old(name) && employer == old(employer)
      ensures location == old(location) && positionType == old(positionType)
    {
      this.coreCompetency := coreCompetency;
    }
  }
}

/** JobData: the process-wide job catalogue. It loads job_data.csv once, interns
    the four categorical columns into shared JobField instances, and answers
    case-insensitive substring searches over the loaded jobs. */
module JobData {
  import opened Strings
  import opened NameSorter
  import opened Counters
  import opened JobFields
  import opened Jobs

  /** A Java reference that may be null. */
  datatype Option<T> = None | Some(value: T)

  /** The runtime exceptions that can escape from JobData's public methods. */
  datatype Error = IndexOutOfBounds | NullPointer

  /** How loadData returns: normally, or by throwing. */
  datatype Outcome = Pass | Fail(error: Error)

  datatype Result<T> = Success(value: T) | Failure(error: Error)

  /** One data record of job_data.csv, columns in file order (indices 0 to 4). */
  datatype Row = Row(name: string, employer: string, location: string,
                     positionType: string, coreCompetency: string)

  /** The classpath resource as the CSV parser delivers it: unreadable (an
      IOException), or the records that follow the header line. */
  datatype DataFile = Unreadable | Records(rows: seq<Row>)

  /** The column of a row that holds the value of the given kind. */
  function Cell(row: Row, kind: FieldKind): string {
    match kind
    case Employer => row.employer
    case Location => row.location
    case PositionType => row.positionType
    case CoreCompetency => row.coreCompetency
  }

  // ---------------------------------------------------------------------------
  // Interning

  /** The display strings of a list of JobFields. */
  ghost function Values(fields: seq<JobField>): seq<string>
    reads fields
  {
    seq(|fields|, i requires 0 <= i < |fields| reads fields => fields[i].value)
  }

  /** Some value equals v when both are lower-cased. */
  ghost predicate HasMatch(values: seq<string>, v: string) {
    exists k :: 0 <= k < |values| && SameLowerCase(values[k], v)
  }

  ghost predicate DistinctIgnoringCase(values: seq<string>) {
    forall i, j :: 0 <= i < j < |values| ==> !SameLowerCase(values[i], values[j])
  }

  /** The values of one kind's list after the loader has seen `rows`: a row's
      value is appended unless a case-insensitively equal value is already there. */
  ghost function Interned(rows: seq<Row>, kind: FieldKind): seq<string> {
    if rows == [] then []
    else Extend(Interned(rows[..|rows| - 1], kind), Cell(rows[|rows| - 1], kind))
  }

  /** The loader's step for one value: keep the values when one of them equals v
      ignoring case, otherwise append v. */
  ghost function Extend(values: seq<string>, v: string): seq<string> {
    if HasMatch(values, v) then values else values + [v]
  }

  /** Row k is the first row whose value of this kind has its lower-cased form. */
  ghost predicate FirstOccurrence(rows: seq<Row>, kind: FieldKind, k: int) {
    0 <= k < |rows| &&
    forall m :: 0 <= m < k ==> !SameLowerCase(Cell(rows[m], kind), Cell(rows[k], kind))
  }

  /** No two interned values of a kind are equal ignoring case. */
  lemma {:induction false} InternedDistinct(rows: seq<Row>, kind: FieldKind)
    ensures DistinctIgnoringCase(Interned(rows, kind))
  {
    if rows != [] {
      var init := rows[..|rows| - 1];
      InternedDistinct(init, kind);
      var previous := Interned(init, kind);
      var v := Cell(rows[|rows| - 1], kind);
      if !HasMatch(previous, v) {
        var r := previous + [v];
        forall i, j | 0 <= i < j < |r|
          ensures !SameLowerCase(r[i], r[j])
        {
          if j == |previous| {
            assert r[i] == previous[i];
          }
        }
      }
    }
  }

  /** Every row's value has a case-insensitively equal interned value. */
  lemma {:induction false} InternedCovers(rows: seq<Row>, kind: FieldKind)
    ensures forall k :: 0 <= k < |rows| ==> HasMatch(Interned(rows, kind), Cell(rows[k], kind))
  {
    if rows != [] {
      var init := rows[..|rows| - 1];
      InternedCovers(init, kind);
      var previous := Interned(init, kind);
      var v := Cell(rows[|rows| - 1], kind);
      if !HasMatch(previous, v) {
        assert SameLowerCase((previous + [v])[|previous|], v);
      }
      forall k | 0 <= k < |rows|
        ensures HasMatch(Interned(rows, kind), Cell(rows[k], kind))
      {
        if k < |rows| - 1 {
          assert rows[k] == init[k];
          var m :| 0 <= m < |previous| && SameLowerCase(previous[m], Cell(init[k], kind));
          assert Interned(rows, kind)[m] == previous[m];
        }
      }
    }
  }

  /** Every interned value is the value of the first row of its case-insensitive
      class, with that row's casing. */
  lemma {:induction false} InternedFirstSeen(rows: seq<Row>, kind: FieldKind)
    ensures forall i :: 0 <= i < |Interned(rows, kind)| ==>
      exists k :: FirstOccurrence(rows, kind, k) && Cell(rows[k], kind) == Interned(rows, kind)[i]
  {
    if rows == [] {
      assert Interned(rows, kind) == [];
    } else {
      var init := rows[..|rows| - 1];
      InternedFirstSeen(init, kind);
      var previous := Interned(init, kind);
      var v := Cell(rows[|rows| - 1], kind);
      assert Interned(rows, kind) == Extend(previous, v);
      forall i | 0 <= i < |previous|
        ensures exists k :: FirstOccurrence(rows, kind, k) && Cell(rows[k], kind) == previous[i]
      {
        var k :| FirstOccurrence(init, kind, k) && Cell(init[k], kind) == previous[i];
        FirstOccurrenceExtends(init, rows, kind, k);
      }
      if !HasMatch(previous, v) {
        NewValueFirstOccurs(rows, kind);
        assert Interned(rows, kind) == previous + [v];
        assert Cell(rows[|rows| - 1], kind) == Interned(rows, kind)[|previous|];
      }
      assert forall i :: 0 <= i < |Interned(rows, kind)| ==>
        exists k :: FirstOccurrence(rows, kind, k) && Cell(rows[k], kind) == Interned(rows, kind)[i];
    }
  }

  /** A first occurrence stays one when rows are appended. */
  lemma FirstOccurrenceExtends(init: seq<Row>, rows: seq<Row>, kind: FieldKind, k: int)
    requires init <= rows && FirstOccurrence(init, kind, k)
    ensures FirstOccurrence(rows, kind, k) && rows[k] == init[k]
  {
    assert forall m :: 0 <= m <= k ==> rows[m] == init[m];
  }

  /** A value that was not interned before its row is that row's first occurrence. */
  lemma NewValueFirstOccurs(rows: seq<Row>, kind: FieldKind)
    requires rows != []
    requires !HasMatch(Interned(rows[..|rows| - 1], kind), Cell(rows[|rows| - 1], kind))
    ensures FirstOccurrence(rows, kind, |rows| - 1)
  {
    var init := rows[..|rows| - 1];
    var previous := Interned(init, kind);
    var v := Cell(rows[|rows| - 1], kind);
    InternedCovers(init, kind);
    forall m | 0 <= m < |rows| - 1
      ensures !SameLowerCase(Cell(rows[m], kind), v)
    {
      assert rows[m] == init[m];
      var w :| 0 <= w < |previous| && SameLowerCase(previous[w], Cell(init[m], kind));
      assert !SameLowerCase(previous[w], v);
    }
  }

  /** The example rows ("Dev", "Acme", "NYC", "Full Time", "Java") and ("QA",
      "acme", "LA", "Part Time", "Java") intern to one employer "Acme", two
      locations and one core competency "Java". */
  lemma InternedExample()
    ensures var rows := [Row("Dev", "Acme", "NYC", "Full Time", "Java"),
                         Row("QA", "acme", "LA", "Part Time", "Java")];
      Interned(rows, Employer) == ["Acme"] &&
      Interned(rows, Location) == ["NYC", "LA"] &&
      Interned(rows, CoreCompetency) == ["Java"]
  {
    var rows := [Row("Dev", "Acme", "NYC", "Full Time", "Java"),
                 Row("QA", "acme", "LA", "Part Time", "Java")];
    var first := rows[..1];
    assert first[..0] == [] && rows[..|rows| - 1] == first;
    assert Interned(first, Employer) == ["Acme"];
    assert Interned(first, Location) == ["NYC"];
    assert Interned(first, CoreCompetency) == ["Java"];
    assert ToLowerCase("Acme") == "acme" == ToLowerCase("acme");
    assert SameLowerCase(["Acme"][0], "acme");
    assert SameLowerCase(["Java"][0], "Java");
    assert !HasMatch(["NYC"], "LA") by {
      assert |ToLowerCase("NYC")| != |ToLowerCase("LA")|;
    }
  }

  /** `findExistingObject(list, value)`: the first element whose lower-cased
      display string equals the lower-cased value, or null. */
  method FindExistingObject(list: seq<JobField>, value: string) returns (r: JobField?)
    ensures r == null <==> !HasMatch(Values(list), value)
    ensures r != null ==> r in list && SameLowerCase(r.value, value)
    ensures r != null ==>
      exists i :: 0 <= i < |list| && list[i] == r && SameLowerCase(r.value, value) &&
        forall k :: 0 <= k < i ==> !SameLowerCase(list[k].value, value)
  {
    var i := 0;
    while i < |list|
      invariant 0 <= i <= |list|
      invariant forall k :: 0 <= k < i ==> !SameLowerCase(list[k].value, value)
    {
      if ToLowerCase(list[i].ToString()) == ToLowerCase(value) {
        assert Values(list)[i] == list[i].value;
        return list[i];
      }
      i := i + 1;
    }
    assert forall k :: 0 <= k < |list| ==> Values(list)[k] == list[k].value;
    return null;
  }

  // ---------------------------------------------------------------------------
  // Searching

  /** The field names getFieldValue recognises, and coreCompetency. */
  const SearchFields: seq<string> := ["name", "employer", "location", "positionType", "coreCompetency"]

  /** `getFieldValue(job, fieldName)`: the display string of the named field;
      names are matched exactly, and every unrecognised name selects
      coreCompetency. */
  function GetFieldValue(job: Job, fieldName: string): (r: string)
    reads job, job.Repr()
    ensures fieldName == "name" ==> r == job.name
    ensures fieldName == "employer" ==> r == job.employer.value
    ensures fieldName == "location" ==> r == job.location.value
    ensures fieldName == "positionType" ==> r == job.positionType.value
    ensures (fieldName != "name" && fieldName != "employer" && fieldName != "location" &&
             fieldName != "positionType") ==> r == job.coreCompetency.value
  {
    if fieldName == "name" then job.name
    else if fieldName == "employer" then job.employer.ToString()
    else if fieldName == "location" then job.location.ToString()
    else if fieldName == "positionType" then job.positionType.ToString()
    else job.coreCompetency.ToString()
  }

  /** The named field contains the term, both lower-cased. */
  predicate FieldContains(job: Job, fieldName: string, term: string)
    reads job, job.Repr()
  {
    Contains(ToLowerCase(GetFieldValue(job, fieldName)), ToLowerCase(term))
  }

  /** What a search selects. */
  datatype Query =
    | Everything                                // the whole list
    | AnyField(term: string)                    // findByValue
    | InColumn(column: string, term: string)    // one field, chosen by getFieldValue

  ghost predicate Matches(job: Job, q: Query)
    reads job, job.Repr()
  {
    match q
    case Everything => true
    case AnyField(term) => exists f :: f in SearchFields && FieldContains(job, f, term)
    case InColumn(column, term) => FieldContains(job, column, term)
  }

  /** The query findByColumnAndValue(column, value) answers. */
  function QueryFor(column: string, value: string): Query {
    if ToLowerCase(value) == "all" then Everything
    else if column == "all" then AnyField(value)
    else InColumn(column, value)
  }

  /** Every object the jobs' searchable fields live in. */
  ghost function Footprint(jobs: seq<Job>): set<object>
    reads jobs
  {
    set j, o | j in jobs && o in j.Repr() :: o
  }

  /** The jobs that match the query, in their original order. */
  ghost function Filter(jobs: seq<Job>, q: Query): seq<Job>
    reads jobs, Footprint(jobs)
  {
    if jobs == [] then []
    else
      var last := jobs[|jobs| - 1];
      Filter(jobs[..|jobs| - 1], q) + if Matches(last, q) then [last] else []
  }

  ghost predicate Distinct(jobs: seq<Job>) {
    forall i, j :: 0 <= i < j < |jobs| ==> jobs[i] != jobs[j]
  }

  /** r keeps some of the elements of s, in the same order. */
  ghost predicate IsSubsequence(r: seq<Job>, s: seq<Job>)
    decreases |s|
  {
    if r == [] then true
    else if s == [] then false
    else (r[|r| - 1] == s[|s| - 1] && IsSubsequence(r[..|r| - 1], s[..|s| - 1])) ||
         IsSubsequence(r, s[..|s| - 1])
  }

  /** A job is in the result exactly when it is in the list and matches. */
  lemma {:induction false} FilterMembership(jobs: seq<Job>, q: Query, x: Job)
    ensures x in Filter(jobs, q) <==> x in jobs && Matches(x, q)
  {
    if jobs != [] {
      var init := jobs[..|jobs| - 1];
      FilterMembership(init, q, x);
      assert jobs == init + [jobs[|jobs| - 1]];
    }
  }

  /** A matching job occurs in the result as often as in the list, a job that does
      not match never; so no job is added twice. */
  lemma {:induction false} FilterCount(jobs: seq<Job>, q: Query, x: Job)
    ensures multiset(Filter(jobs, q))[x] == if Matches(x, q) then multiset(jobs)[x] else 0
  {
    if jobs != [] {
      var init := jobs[..|jobs| - 1];
      FilterCount(init, q, x);
      assert jobs == init + [jobs[|jobs| - 1]];
    }
  }

  /** One more job of the list adds that job to the result exactly when it
      matches: the step of the search loops. */
  lemma FilterStep(jobs: seq<Job>, i: int, q: Query)
    requires 0 <= i < |jobs|
    ensures Filter(jobs[..i + 1], q) == Filter(jobs[..i], q) + if Matches(jobs[i], q) then [jobs[i]] else []
  {
    assert jobs[..i + 1][..i] == jobs[..i];
  }

  /** The result lists its jobs in the order of the input list. */
  lemma {:induction false} FilterSubsequence(jobs: seq<Job>, q: Query)
    ensures IsSubsequence(Filter(jobs, q), jobs)
  {
    if jobs != [] {
      var init := jobs[..|jobs| - 1];
      FilterSubsequence(init, q);
      var last := jobs[|jobs| - 1];
      assert jobs[..|jobs| - 1] == init;
      if Matches(last, q) {
        var r := Filter(jobs, q);
        assert r == Filter(init, q) + [last];
        assert r[..|r| - 1] == Filter(init, q) && r[|r| - 1] == last;
      } else {
        assert Filter(jobs, q) == Filter(init, q);
      }
    }
  }

  /** Filtering a list without repeated jobs gives a list without repeated jobs. */
  lemma {:induction false} FilterDistinct(jobs: seq<Job>, q: Query)
    requires Distinct(jobs)
    ensures Distinct(Filter(jobs, q))
  {
    if jobs != [] {
      var init := jobs[..|jobs| - 1];
      var last := jobs[|jobs| - 1];
      FilterDistinct(init, q);
      FilterMembership(init, q, last);
    }
  }

  /** The match-everything query returns the list unchanged. */
  lemma {:induction false} FilterEverything(jobs: seq<Job>)
    ensures Filter(jobs, Everything) == jobs
  {
    if jobs != [] {
      FilterEverything(jobs[..|jobs| - 1]);
    }
  }

  /** A query every job of the list matches returns the list unchanged. */
  lemma {:induction false} FilterAllMatch(jobs: seq<Job>, q: Query)
    requires forall j :: j in jobs ==> Matches(j, q)
    ensures Filter(jobs, q) == jobs
  {
    if jobs != [] {
      var init, last := jobs[..|jobs| - 1], jobs[|jobs| - 1];
      assert jobs == init + [last];
      FilterAllMatch(init, q);
    }
  }

  /** An empty term is contained in every field, so it matches every job. */
  lemma EmptyTermMatches(job: Job, column: string)
    ensures Matches(job, InColumn(column, "")) && Matches(job, AnyField(""))
  {
    assert ToLowerCase("") == "";
    ContainsEmpty(ToLowerCase(GetFieldValue(job, column)));
    ContainsEmpty(ToLowerCase(GetFieldValue(job, "name")));
    assert FieldContains(job, "name", "");
  }

  /** An empty term returns the whole list, in a single column and across all
      fields. */
  lemma EmptyTermMatchesAll(jobs: seq<Job>, column: string)
    ensures Filter(jobs, InColumn(column, "")) == jobs
    ensures Filter(jobs, AnyField("")) == jobs
  {
    forall j | j in jobs
      ensures Matches(j, InColumn(column, "")) && Matches(j, AnyField(""))
    {
      EmptyTermMatches(j, column);
    }
    FilterAllMatch(jobs, InColumn(column, ""));
    FilterAllMatch(jobs, AnyField(""));
  }

  /** A term that lower-cases to "all" makes findByColumnAndValue return the whole
      list, whatever the column. */
  lemma SearchAllTermIsFindAll(jobs: seq<Job>, column: string, value: string)
    requires ToLowerCase(value) == "all"
    ensures Filter(jobs, QueryFor(column, value)) == jobs
  {
    FilterEverything(jobs);
  }

  /** findByValue's test: one of the five fields, in the order it tries them,
      contains the term, ignoring case. */
  predicate AnyFieldHit(job: Job, term: string)
    reads job, job.Repr()
  {
    Contains(ToLowerCase(job.name), ToLowerCase(term)) ||
    Contains(ToLowerCase(job.employer.value), ToLowerCase(term)) ||
    Contains(ToLowerCase(job.location.value), ToLowerCase(term)) ||
    Contains(ToLowerCase(job.positionType.value), ToLowerCase(term)) ||
    Contains(ToLowerCase(job.coreCompetency.value), ToLowerCase(term))
  }

  /** The cross-field match is the OR of the five fields, tested in the order
      findByValue tests them. */
  lemma AnyFieldCases(job: Job, term: string)
    ensures Matches(job, AnyField(term)) <==> AnyFieldHit(job, term)
  {
    var t := ToLowerCase(term);
    if Matches(job, AnyField(term)) {
      var f :| f in SearchFields && FieldContains(job, f, term);
      SearchFieldNames(f);
    }
    SearchFieldNames("name");
    SearchFieldNames("employer");
    SearchFieldNames("location");
    SearchFieldNames("positionType");
    SearchFieldNames("coreCompetency");
    assert FieldContains(job, "name", term) <==> Contains(ToLowerCase(job.name), t);
    assert FieldContains(job, "employer", term) <==> Contains(ToLowerCase(job.employer.value), t);
    assert FieldContains(job, "location", term) <==> Contains(ToLowerCase(job.location.value), t);
    assert FieldContains(job, "positionType", term) <==> Contains(ToLowerCase(job.positionType.value), t);
    assert FieldContains(job, "coreCompetency", term) <==> Contains(ToLowerCase(job.coreCompetency.value), t);
  }

  lemma SearchFieldNames(f: string)
    ensures f in SearchFields <==>
      f == "name" || f == "employer" || f == "location" || f == "positionType" || f == "coreCompetency"
  {
  }

  // ---------------------------------------------------------------------------
  // Sorting

  /** Inserting v after every value that does not sort after it, and before the
      first one that does, keeps a sorted list sorted. */
  lemma InsertKeepsSorted(values: seq<string>, p: int, v: string)
    requires SortedByName(values) && 0 <= p <= |values|
    requires forall k :: 0 <= k < p ==> Compare(values[k], v) <= 0
    requires p < |values| ==> Compare(values[p], v) > 0
    ensures SortedByName(values[..p] + [v] + values[p..])
  {
    var r := values[..p] + [v] + values[p..];
    forall i, j | 0 <= i < j < |r|
      ensures Compare(r[i], r[j]) <= 0
    {
      if j == p {
        assert r[i] == values[i];
      } else if i == p {
        assert r[j] == values[j - 1];
        CompareAntisymmetric(values[p], v);
        if j - 1 > p {
          CompareTransitive(v, values[p], values[j - 1]);
        }
      } else {
        assert r[i] == values[if i < p then i else i - 1];
        assert r[j] == values[if j < p then j else j - 1];
      }
    }
  }

  /** The display strings of a concatenation are the concatenated display strings. */
  lemma ValuesAppend(a: seq<JobField>, b: seq<JobField>)
    ensures Values(a + b) == Values(a) + Values(b)
  {
  }

  /** Inserting one element adds exactly that element to the multiset. */
  lemma MultisetInsert<T>(s: seq<T>, p: int, x: T)
    requires 0 <= p <= |s|
    ensures multiset(s[..p] + [x] + s[p..]) == multiset(s) + multiset{x}
  {
    assert s == s[..p] + s[p..];
  }

  /** The display strings after an insertion are the inserted display string among
      the old ones. */
  lemma ValuesInsert(s: seq<JobField>, p: int, x: JobField)
    requires 0 <= p <= |s|
    ensures Values(s[..p] + [x] + s[p..]) == Values(s)[..p] + [x.value] + Values(s)[p..]
  {
  }

  /** One step of the sort: x placed after every element that does not sort after
      it. */
  method InsertByName(sorted: seq<JobField>, x: JobField) returns (r: seq<JobField>)
    requires SortedByName(Values(sorted))
    ensures multiset(r) == multiset(sorted) + multiset{x}
    ensures multiset(Values(r)) == multiset(Values(sorted)) + multiset{x.value}
    ensures SortedByName(Values(r))
  {
    ghost var values := Values(sorted);
    var p := 0;
    while p < |sorted| && Compare(sorted[p].value, x.value) <= 0
      invariant 0 <= p <= |sorted|
      invariant forall k :: 0 <= k < p ==> Compare(values[k], x.value) <= 0
    {
      p := p + 1;
    }
    InsertKeepsSorted(values, p, x.value);
    MultisetInsert(sorted, p, x);
    MultisetInsert(values, p, x.value);
    ValuesInsert(sorted, p, x);
    r := sorted[..p] + [x] + sorted[p..];
  }

  /** The sort's loop invariant: the first i elements, sorted. */
  ghost predicate SortedPrefix(fields: seq<JobField>, i: int, sorted: seq<JobField>)
    reads fields, sorted
  {
    0 <= i <= |fields| &&
    multiset(sorted) == multiset(fields[..i]) &&
    multiset(Values(sorted)) == multiset(Values(fields[..i])) &&
    SortedByName(Values(sorted))
  }

  /** Inserting the next element extends the sorted prefix by one. */
  lemma SortStep(fields: seq<JobField>, i: int, sorted: seq<JobField>, next: seq<JobField>)
    requires SortedPrefix(fields, i, sorted) && i < |fields|
    requires multiset(next) == multiset(sorted) + multiset{fields[i]}
    requires multiset(Values(next)) == multiset(Values(sorted)) + multiset{fields[i].value}
    requires SortedByName(Values(next))
    ensures SortedPrefix(fields, i + 1, next)
  {
    assert fields[..i + 1] == fields[..i] + [fields[i]];
    ValuesAppend(fields[..i], [fields[i]]);
  }

  /** `list.sort(new NameSorter())`: the same elements, ordered by display string
      ignoring case. */
  method SortByName(fields: seq<JobField>) returns (sorted: seq<JobField>)
    ensures multiset(sorted) == multiset(fields)
    ensures multiset(Values(sorted)) == multiset(Values(fields))
    ensures SortedByName(Values(sorted))
  {
    sorted := [];
    var i := 0;
    while i < |fields|
      invariant SortedPrefix(fields, i, sorted)
    {
      sorted := InsertNext(fields, i, sorted);
      i := i + 1;
    }
    SortDone(fields, sorted);
  }

  /** One pass of the sort: inserts the next element of the list. */
  method InsertNext(fields: seq<JobField>, i: int, sorted: seq<JobField>) returns (next: seq<JobField>)
    requires SortedPrefix(fields, i, sorted) && i < |fields|
    ensures SortedPrefix(fields, i + 1, next)
  {
    next := InsertByName(sorted, fields[i]);
    SortStep(fields, i, sorted, next);
  }

  /** Once the whole list is inserted, the sorted list holds exactly its elements. */
  lemma SortDone(fields: seq<JobField>, sorted: seq<JobField>)
    requires SortedPrefix(fields, |fields|, sorted)
    ensures multiset(sorted) == multiset(fields)
    ensures multiset(Values(sorted)) == multiset(Values(fields))
    ensures SortedByName(Values(sorted))
  {
    assert fields[..|fields|] == fields;
  }

  // ---------------------------------------------------------------------------
  // The catalogue

  class JobStore {
    /** job_data.csv, read on every load attempt. */
    const source: DataFile
    /** The static `Job.nextId`. */
    const jobIds: IdCounter
    /** The static `JobField.nextId`, shared by all four kinds. */
    const fieldIds: IdCounter

    var isDataLoaded: bool
    /** null until a load gets past reading the records. */
    var allJobs: Option<seq<Job>>
    var allEmployers: seq<JobField>
    var allLocations: seq<JobField>
    var allPositionTypes: seq<JobField>
    var allCoreCompetency: seq<JobField>
    /** The kinds whose list a getAll accessor has sorted since the data was loaded. */
    ghost var reorderedKinds: set<FieldKind>
    /** Every JobField the load has created, in creation order. */
    ghost var createdFields: seq<JobField>

    function Jobs(): seq<Job>
      reads this`allJobs
    {
      if allJobs.Some? then allJobs.value else []
    }

    /** The canonical list of the given kind. */
    function List(kind: FieldKind): seq<JobField>
      reads this`allEmployers, this`allLocations, this`allPositionTypes, this`allCoreCompetency
    {
      match kind
      case Employer => allEmployers
      case Location => allLocations
      case PositionType => allPositionTypes
      case CoreCompetency => allCoreCompetency
    }

    /** The state before any load has succeeded. */
    ghost predicate Pristine()
      reads this
    {
      !isDataLoaded && allJobs == None && reorderedKinds == {} && createdFields == [] &&
      allEmployers == [] && allLocations == [] && allPositionTypes == [] && allCoreCompetency == []
    }

    /** The invariant of the catalogue: nothing is loaded before a load succeeds;
        once loaded, the catalogue holds what the file's records describe (with the
        lists the accessors sorted reordered), and the jobs refer to values in the
        lists. */
    ghost predicate Valid()
      reads this, Jobs(), Footprint(Jobs()), allEmployers, allLocations, allPositionTypes, allCoreCompetency
    {
      jobIds != fieldIds &&
      (isDataLoaded ==> source.Records? && source.rows != [] && LoadedFrom(source.rows, reorderedKinds)) &&
      (!isDataLoaded ==> Pristine()) &&
      Consistent()
    }

    /** Every list holds JobFields of its own kind. */
    ghost predicate Typed()
      reads this`allEmployers, this`allLocations, this`allPositionTypes, this`allCoreCompetency
    {
      forall kind :: OfKind(List(kind), kind)
    }

    /** Every job refers to values held in the lists. */
    ghost predicate Members()
      reads this`allJobs, this`allEmployers, this`allLocations, this`allPositionTypes,
            this`allCoreCompetency, Jobs()
    {
      forall j :: j in Jobs() ==>
        j.employer in allEmployers && j.location in allLocations &&
        j.positionType in allPositionTypes && j.coreCompetency in allCoreCompetency
    }

    /** Every list holds JobFields of its own kind, and every job refers to values
        held in the lists. */
    ghost predicate Consistent()
      reads this`allJobs, this`allEmployers, this`allLocations, this`allPositionTypes,
            this`allCoreCompetency, Jobs()
    {
      Typed() && Members()
    }

    constructor (source: DataFile)
      ensures this.source == source && Valid() && Pristine()
      ensures fresh(jobIds) && fresh(fieldIds) && jobIds.nextId == 1 && fieldIds.nextId == 1
    {
      this.source := source;
      jobIds := new IdCounter();
      fieldIds := new IdCounter();
      isDataLoaded := false;
      allJobs := None;
      allEmployers, allLocations, allPositionTypes, allCoreCompetency := [], [], [], [];
      reorderedKinds := {};
      createdFields := [];
    }

    /** One kind's list holds the interned values of the rows: in first-seen order,
        or, for a kind in `reordered`, in some order. */
    ghost predicate ListFrom(kind: FieldKind, rows: seq<Row>, reordered: set<FieldKind>)
      reads this`allEmployers, this`allLocations, this`allPositionTypes, this`allCoreCompetency, List(kind)
    {
      if kind !in reordered then Values(List(kind)) == Interned(rows, kind)
      else multiset(Values(List(kind))) == multiset(Interned(rows, kind))
    }

    /** The state a load of `rows` leaves: job k is row k, with its name as given
        and each categorical field an interned value equal to the row's value
        ignoring case; the four lists hold the interned values, those of the kinds in
        `reordered` possibly reordered (a getAll accessor sorts them). */
    ghost predicate LoadedFrom(rows: seq<Row>, reordered: set<FieldKind>)
      reads this`allJobs, this`allEmployers, this`allLocations, this`allPositionTypes,
            this`allCoreCompetency, Jobs(), Footprint(Jobs()),
            allEmployers, allLocations, allPositionTypes, allCoreCompetency
    {
      allJobs.Some? && |Jobs()| == |rows| && Distinct(Jobs()) &&
      (forall k :: 0 <= k < |rows| ==> JobFromRow(Jobs()[k], rows[k])) &&
      forall kind :: ListFrom(kind, rows, reordered)
    }

    /** The lists of a loaded catalogue, sorted or not: no two values of a kind
        are equal ignoring case, and every row's value has a value equal to it,
        ignoring case, in its kind's list. */
    lemma LoadedListsInterned(rows: seq<Row>, reordered: set<FieldKind>, kind: FieldKind)
      requires LoadedFrom(rows, reordered)
      ensures DistinctIgnoringCase(Values(List(kind)))
      ensures forall k :: 0 <= k < |rows| ==> HasMatch(Values(List(kind)), Cell(rows[k], kind))
    {
      assert ListFrom(kind, rows, reordered);
      var interned := Interned(rows, kind);
      InternedDistinct(rows, kind);
      InternedCovers(rows, kind);
      if kind in reordered {
        var values := Values(List(kind));
        DistinctReordered(interned, values);
        forall k | 0 <= k < |rows|
          ensures HasMatch(values, Cell(rows[k], kind))
        {
          var m :| 0 <= m < |interned| && SameLowerCase(interned[m], Cell(rows[k], kind));
          assert interned[m] in multiset(values);
          var w :| 0 <= w < |values| && values[w] == interned[m];
        }
      }
    }

    /** How loadData returns when the data was or was not loaded before: records.get(0)
        throws on a file with no records; an unreadable file is reported and
        swallowed. */
    function LoadOutcome(wasLoaded: bool): Outcome {
      if !wasLoaded && source.Records? && source.rows == [] then Fail(IndexOutOfBounds) else Pass
    }

    /** The state after loadData has run: loaded stays loaded; otherwise the file's
        records are loaded (Valid says what the catalogue then holds), with the
        kinds in `reordered` sorted since, or nothing changes when the file cannot
        be read or has no records. */
    ghost predicate AfterLoad(wasLoaded: bool, reordered: set<FieldKind>)
      reads this
    {
      if wasLoaded then isDataLoaded
      else match source
        case Unreadable => Pristine()
        case Records(rows) => if rows == [] then Pristine() else isDataLoaded && reorderedKinds == reordered
    }

    /** The number of JobFields the loads so far have created. */
    ghost function Created(): int
      reads this`allEmployers, this`allLocations, this`allPositionTypes, this`allCoreCompetency
    {
      |allEmployers| + |allLocations| + |allPositionTypes| + |allCoreCompetency|
    }

    /** The JobFields the load has created carry the shared field counter's ids in
        creation order: the c-th one created has the c-th id counted from
        fieldStart, whatever its kind. */
    ghost predicate FieldsNumbered(fieldStart: int32)
      reads this`createdFields, fieldIds
    {
      fieldIds.nextId == Advance(fieldStart, |createdFields|) && FieldsNumberedFrom(createdFields, fieldStart)
    }

    /** Each list holds the created JobFields of its kind, in creation order or,
        for a kind in `reordered`, in some order. */
    ghost predicate ListsCreated(reordered: set<FieldKind>)
      reads this`createdFields, this`allEmployers, this`allLocations, this`allPositionTypes,
            this`allCoreCompetency
    {
      KindCreated(Employer, reordered) && KindCreated(Location, reordered) &&
      KindCreated(PositionType, reordered) && KindCreated(CoreCompetency, reordered)
    }

    /** The list of the given kind holds the created JobFields of that kind. */
    ghost predicate KindCreated(kind: FieldKind, reordered: set<FieldKind>)
      reads this`createdFields, this`allEmployers, this`allLocations, this`allPositionTypes,
            this`allCoreCompetency
    {
      if kind in reordered then multiset(List(kind)) == multiset(CreatedOfKind(createdFields, kind))
      else List(kind) == CreatedOfKind(createdFields, kind)
    }

    /** While the shared field counter does not wrap around, no two JobFields of the
        lists carry the same id, whether of the same kind or of different kinds. */
    lemma FieldIdsDistinct(fieldStart: int32, reordered: set<FieldKind>,
                           kf: FieldKind, f: JobField, kg: FieldKind, g: JobField)
      requires FieldsNumbered(fieldStart) && ListsCreated(reordered)
      requires fieldStart as int + |createdFields| <= MaxInt as int + 1
      requires f in List(kf) && g in List(kg) && f != g
      ensures f.id != g.id
    {
      ListCreated(reordered, kf, f);
      ListCreated(reordered, kg, g);
      var a :| 0 <= a < |createdFields| && createdFields[a] == f;
      var b :| 0 <= b < |createdFields| && createdFields[b] == g;
      if a < b {
        AdvanceIncreasing(fieldStart, a, b);
      } else {
        AdvanceIncreasing(fieldStart, b, a);
      }
    }

    /** A load creates at most four JobFields per record, one of each kind, so the
        shared counter does not wrap for fewer than about 5 * 10^8 records. */
    lemma CreatedWithinRows(rows: seq<Row>, reordered: set<FieldKind>)
      requires LoadedFrom(rows, reordered) && ListsCreated(reordered)
      ensures |createdFields| <= 4 * |rows|
    {
      forall kind
        ensures |CreatedOfKind(createdFields, kind)| <= |rows|
      {
        assert ListFrom(kind, rows, reordered) && KindCreated(kind, reordered);
        assert |multiset(List(kind))| == |multiset(CreatedOfKind(createdFields, kind))|;
        assert |multiset(Values(List(kind)))| == |multiset(Interned(rows, kind))|;
        InternedLength(rows, kind);
      }
      CreatedKindsSum(createdFields);
    }

    lemma ListCreated(reordered: set<FieldKind>, kind: FieldKind, f: JobField)
      requires ListsCreated(reordered) && f in List(kind)
      ensures f in createdFields
    {
      assert KindCreated(kind, reordered);
      assert f in multiset(CreatedOfKind(createdFields, kind)) by {
        if kind in reordered {
          assert f in multiset(List(kind));
        }
      }
      CreatedOfKindIn(createdFields, kind, f);
    }

    /** The ids a load hands out: job k gets the job counter's k-th id, and the
        JobFields are numbered as FieldsNumbered says. */
    ghost predicate IdsFrom(jobStart: int32, fieldStart: int32)
      reads this`allJobs, this`allEmployers, this`allLocations, this`allPositionTypes,
            this`allCoreCompetency, this`createdFields, this`reorderedKinds, jobIds, fieldIds
    {
      IdsNumbered(jobStart, fieldStart, reorderedKinds)
    }

    /** IdsFrom while the load runs, before any list can have been reordered. */
    ghost predicate LoadIds(jobStart: int32, fieldStart: int32)
      reads this`allJobs, this`allEmployers, this`allLocations, this`allPositionTypes,
            this`allCoreCompetency, this`createdFields, jobIds, fieldIds
    {
      IdsNumbered(jobStart, fieldStart, {})
    }

    /** IdsFrom with the reordered kinds given. */
    ghost predicate IdsNumbered(jobStart: int32, fieldStart: int32, reordered: set<FieldKind>)
      reads this`allJobs, this`allEmployers, this`allLocations, this`allPositionTypes,
            this`allCoreCompetency, this`createdFields, jobIds, fieldIds
    {
      NumberedFrom(Jobs(), jobStart) &&
      jobIds.nextId == Advance(jobStart, |Jobs()|) &&
      FieldsNumbered(fieldStart) && ListsCreated(reordered)
    }

    /** The jobs of the first i rows exist: job k is row k and carries the k-th job
        id counted from jobStart. */
    ghost predicate JobsLoaded(rows: seq<Row>, i: int, jobStart: int32)
      reads this`allJobs, Jobs(), Footprint(Jobs()), jobIds
    {
      0 <= i <= |rows| && allJobs.Some? && |Jobs()| == i && Distinct(Jobs()) &&
      NumberedFrom(Jobs(), jobStart) && jobIds.nextId == Advance(jobStart, i) &&
      forall k :: 0 <= k < i ==> JobFromRow(Jobs()[k], rows[k])
    }

    /** The list of the given kind holds the values interned from the first i rows. */
    ghost predicate KindLoaded(kind: FieldKind, rows: seq<Row>, i: int)
      reads this`allEmployers, this`allLocations, this`allPositionTypes, this`allCoreCompetency,
            allEmployers, allLocations, allPositionTypes, allCoreCompetency
    {
      0 <= i <= |rows| && ValuesAre(List(kind), Interned(rows[..i], kind))
    }

    /** The state after the first i rows have been loaded: the invariant of
        loadData's loop. */
    ghost predicate LoadedPrefix(rows: seq<Row>, i: int, jobStart: int32, fieldStart: int32)
      reads this, Jobs(), Footprint(Jobs()), allEmployers, allLocations, allPositionTypes, allCoreCompetency,
            jobIds, fieldIds
    {
      RowsLoaded(rows, i, jobStart, fieldStart) && ListsCreated({})
    }

    /** LoadedPrefix without the relation between the lists and the created
        JobFields, which CreatedStep keeps. */
    ghost predicate RowsLoaded(rows: seq<Row>, i: int, jobStart: int32, fieldStart: int32)
      reads this, Jobs(), Footprint(Jobs()), allEmployers, allLocations, allPositionTypes, allCoreCompetency,
            jobIds, fieldIds
    {
      jobIds != fieldIds && !isDataLoaded && JobsLoaded(rows, i, jobStart) && Consistent() &&
      KindLoaded(Employer, rows, i) && KindLoaded(Location, rows, i) &&
      KindLoaded(PositionType, rows, i) && KindLoaded(CoreCompetency, rows, i) &&
      FieldsNumbered(fieldStart)
    }

    /** `loadData()`: the first successful call loads the file's records, in file
        order, with every list in first-seen order; later calls change nothing. */
    method LoadData() returns (o: Outcome)
      requires Valid()
      modifies this, jobIds, fieldIds
      ensures Valid()
      ensures o == LoadOutcome(old(isDataLoaded))
      ensures AfterLoad(old(isDataLoaded), {})
      ensures old(isDataLoaded) || !isDataLoaded ==> unchanged(this, jobIds, fieldIds)
      ensures !old(isDataLoaded) && isDataLoaded ==>
        LoadedFrom(source.rows, {}) && IdsFrom(old(jobIds.nextId), old(fieldIds.nextId))
    {
      if isDataLoaded {
        return Pass;
      }
      if source.Unreadable? {
        // the IOException is caught and reported; nothing has been changed
        return Pass;
      }
      var rows := source.rows;
      if |rows| == 0 {
        // records.get(0) throws before allJobs is assigned
        return Fail(IndexOutOfBounds);
      }
      LoadRecords(rows);
      return Pass;
    }

    /** What a search returns after its loadData call: loadData's exception, a
        NullPointerException when no records were ever read (allJobs is still
        null), otherwise the jobs that match the query, in catalogue order. */
    ghost function Answer(wasLoaded: bool, q: Query): (r: Result<seq<Job>>)
      reads this, Jobs(), Footprint(Jobs())
      ensures r.Success? <==> LoadOutcome(wasLoaded) == Pass && allJobs.Some?
      ensures r.Failure? && LoadOutcome(wasLoaded) == Pass ==> r.error == NullPointer
    {
      match LoadOutcome(wasLoaded)
      case Fail(e) => Failure(e)
      case Pass => if allJobs.None? then Failure(NullPointer) else Success(Filter(Jobs(), q))
    }

    /** `findAll()`: loads the data if needed, then returns a copy of allJobs. */
    method FindAll() returns (r: Result<seq<Job>>)
      requires Valid()
      modifies this, jobIds, fieldIds
      ensures Valid() && AfterLoad(old(isDataLoaded), {})
      ensures r == Answer(old(isDataLoaded), Everything)
      ensures r.Success? ==> r.value == Jobs()
      ensures old(isDataLoaded) || !isDataLoaded ==> unchanged(this, jobIds, fieldIds)
    {
      var o := LoadData();
      FilterEverything(Jobs());
      if o.Fail? {
        return Failure(o.error);
      }
      if allJobs.None? {
        return Failure(NullPointer);
      }
      return Success(allJobs.value);
    }

    /** `findByValue(value)`: loads the data if needed, then adds each job, once,
        as soon as one of its five fields contains the value, ignoring case. */
    method FindByValue(value: string) returns (r: Result<seq<Job>>)
      requires Valid()
      modifies this, jobIds, fieldIds
      ensures Valid() && AfterLoad(old(isDataLoaded), {})
      ensures r == Answer(old(isDataLoaded), AnyField(value))
      ensures old(isDataLoaded) || !isDataLoaded ==> unchanged(this, jobIds, fieldIds)
    {
      var o := LoadData();
      if o.Fail? {
        return Failure(o.error);
      }
      if allJobs.None? {
        return Failure(NullPointer);
      }
      var found := SearchAnyField(value);
      return Success(found);
    }

    /** `findByColumnAndValue(column, value)`: loads the data if needed; then the
        whole list for a value that lower-cases to "all", the cross-field search for
        column "all", and otherwise the jobs whose field named `column` contains the
        value, ignoring case. */
    method FindByColumnAndValue(column: string, value: string) returns (r: Result<seq<Job>>)
      requires Valid()
      modifies this, jobIds, fieldIds
      ensures Valid() && AfterLoad(old(isDataLoaded), {})
      ensures r == Answer(old(isDataLoaded), QueryFor(column, value))
      ensures old(isDataLoaded) || !isDataLoaded ==> unchanged(this, jobIds, fieldIds)
    {
      var o := LoadData();
      if o.Fail? {
        return Failure(o.error);
      }
      if ToLowerCase(value) == "all" {
        r := FindAll();
        return;
      }
      if column == "all" {
        r := FindByValue(value);
        return;
      }
      if allJobs.None? {
        return Failure(NullPointer);
      }
      var found := SearchColumn(column, value);
      return Success(found);
    }

    /** The loop of findByValue: each job, once, as soon as one of its five fields
        contains the value, ignoring case. */
    method SearchAnyField(value: string) returns (found: seq<Job>)
      requires Valid() && allJobs.Some?
      ensures Valid() && unchanged(this, jobIds, fieldIds)
      ensures found == Filter(Jobs(), AnyField(value))
    {
      var jobs := allJobs.value;
      forall k | 0 <= k < |jobs|
        ensures Filter(jobs[..k + 1], AnyField(value)) == Filter(jobs[..k], AnyField(value)) +
          if AnyFieldHit(jobs[k], value) then [jobs[k]] else []
      {
        AnyFieldCases(jobs[k], value);
        FilterStep(jobs, k, AnyField(value));
      }
      found := [];
      var i := 0;
      while i < |jobs|
        invariant 0 <= i <= |jobs|
        invariant found == Filter(jobs[..i], AnyField(value))
      {
        var job := jobs[i];
        var term := ToLowerCase(value);
        if Contains(ToLowerCase(job.name), term) {
          found := found + [job];
        } else if Contains(ToLowerCase(job.employer.ToString()), term) {
          found := found + [job];
        } else if Contains(ToLowerCase(job.location.ToString()), term) {
          found := found + [job];
        } else if Contains(ToLowerCase(job.positionType.ToString()), term) {
          found := found + [job];
        } else if Contains(ToLowerCase(job.coreCompetency.ToString()), term) {
          found := found + [job];
        }
        i := i + 1;
      }
      assert jobs[..|jobs|] == jobs;
    }

    /** The loop of findByColumnAndValue: the jobs whose field named by the column
        contains the value, ignoring case. */
    method SearchColumn(column: string, value: string) returns (found: seq<Job>)
      requires Valid() && allJobs.Some?
      ensures Valid() && unchanged(this, jobIds, fieldIds)
      ensures found == Filter(Jobs(), InColumn(column, value))
    {
      var jobs := allJobs.value;
      forall k | 0 <= k < |jobs|
        ensures Filter(jobs[..k + 1], InColumn(column, value)) == Filter(jobs[..k], InColumn(column, value)) +
          if Contains(ToLowerCase(GetFieldValue(jobs[k], column)), ToLowerCase(value)) then [jobs[k]] else []
      {
        FilterStep(jobs, k, InColumn(column, value));
      }
      found := [];
      var i := 0;
      while i < |jobs|
        invariant 0 <= i <= |jobs|
        invariant found == Filter(jobs[..i], InColumn(column, value))
      {
        var aValue := GetFieldValue(jobs[i], column);
        if Contains(ToLowerCase(aValue), ToLowerCase(value)) {
          found := found + [jobs[i]];
        }
        i := i + 1;
      }
      assert jobs[..|jobs|] == jobs;
    }

    /** `getAllEmployers()`, `getAllLocations()`, `getAllPositionTypes()` and
        `getAllCoreCompetency()`: loads the data if needed, sorts the list of the
        kind in place with NameSorter, and returns that list itself. */
    method GetAll(kind: FieldKind) returns (r: Result<seq<JobField>>)
      requires Valid()
      modifies this, jobIds, fieldIds
      ensures Valid()
      ensures r == match LoadOutcome(old(isDataLoaded))
                   case Fail(e) => Failure(e)
                   case Pass => Success(List(kind))
      ensures SortedByName(Values(List(kind)))
      ensures old(isDataLoaded) ==>
        isDataLoaded && allJobs == old(allJobs) && unchanged(jobIds, fieldIds) &&
        multiset(List(kind)) == multiset(old(List(kind))) &&
        (forall k :: k != kind ==> List(k) == old(List(k))) &&
        reorderedKinds == old(reorderedKinds) + {kind} && createdFields == old(createdFields)
      ensures !old(isDataLoaded) ==> AfterLoad(false, {kind})
      ensures !isDataLoaded ==> unchanged(this, jobIds, fieldIds)
    {
      var o := LoadData();
      if o.Fail? {
        assert List(kind) == [];
        return Failure(o.error);
      }
      var sorted := SortValid(kind);
      return Success(sorted);
    }

    /** Sorts the list of the given kind in a consistent catalogue, keeping the
        catalogue consistent. */
    method SortValid(kind: FieldKind) returns (sorted: seq<JobField>)
      requires Valid()
      modifies this`allEmployers, this`allLocations, this`allPositionTypes, this`allCoreCompetency,
               this`reorderedKinds
      ensures Valid() && List(kind) == sorted && SortedByName(Values(sorted))
      ensures multiset(sorted) == multiset(old(List(kind)))
      ensures forall k :: k != kind ==> List(k) == old(List(k))
      ensures reorderedKinds == if isDataLoaded then old(reorderedKinds) + {kind} else old(reorderedKinds)
      ensures createdFields == old(createdFields)
      ensures !isDataLoaded ==> unchanged(this)
    {
      label Before:
      sorted := SortList(kind);
      ReorderedValid@Before(kind);
    }

    /** `list.sort(new NameSorter())` on the list of the given kind. */
    method SortList(kind: FieldKind) returns (sorted: seq<JobField>)
      modifies this`allEmployers, this`allLocations, this`allPositionTypes, this`allCoreCompetency,
               this`reorderedKinds
      ensures List(kind) == sorted && SortedByName(Values(sorted))
      ensures multiset(sorted) == multiset(old(List(kind)))
      ensures multiset(Values(sorted)) == old(multiset(Values(List(kind))))
      ensures kind != Employer ==> allEmployers == old(allEmployers)
      ensures kind != Location ==> allLocations == old(allLocations)
      ensures kind != PositionType ==> allPositionTypes == old(allPositionTypes)
      ensures kind != CoreCompetency ==> allCoreCompetency == old(allCoreCompetency)
      ensures reorderedKinds == if isDataLoaded then old(reorderedKinds) + {kind} else old(reorderedKinds)
    {
      sorted := SortByName(List(kind));
      SetList(kind, sorted);
      if isDataLoaded {
        reorderedKinds := reorderedKinds + {kind};
      }
    }

    /** Replaces the list of the given kind, as `list.sort` does in place. */
    method SetList(kind: FieldKind, fields: seq<JobField>)
      modifies this`allEmployers, this`allLocations, this`allPositionTypes, this`allCoreCompetency
      ensures List(kind) == fields
      ensures kind != Employer ==> allEmployers == old(allEmployers)
      ensures kind != Location ==> allLocations == old(allLocations)
      ensures kind != PositionType ==> allPositionTypes == old(allPositionTypes)
      ensures kind != CoreCompetency ==> allCoreCompetency == old(allCoreCompetency)
    {
      match kind {
        case Employer => allEmployers := fields;
        case Location => allLocations := fields;
        case PositionType => allPositionTypes := fields;
        case CoreCompetency => allCoreCompetency := fields;
      }
    }

    /** Reordering one list, and recording that when the data is loaded, keeps
        the invariant. */
    twostate lemma ReorderedValid(new kind: FieldKind)
      requires old(Valid())
      requires isDataLoaded == old(isDataLoaded) && allJobs == old(allJobs) && createdFields == old(createdFields)
      requires reorderedKinds == if isDataLoaded then old(reorderedKinds) + {kind} else old(reorderedKinds)
      requires multiset(List(kind)) == multiset(old(List(kind)))
      requires multiset(Values(List(kind))) == old(multiset(Values(List(kind))))
      requires kind != Employer ==> allEmployers == old(allEmployers)
      requires kind != Location ==> allLocations == old(allLocations)
      requires kind != PositionType ==> allPositionTypes == old(allPositionTypes)
      requires kind != CoreCompetency ==> allCoreCompetency == old(allCoreCompetency)
      requires forall j :: j in old(Jobs()) ==>
        unchanged(j) && unchanged(old(j.employer), old(j.location), old(j.positionType), old(j.coreCompetency))
      requires unchanged(old(allEmployers), old(allLocations), old(allPositionTypes), old(allCoreCompetency))
      ensures Valid() && Created() == old(Created())
      ensures forall k :: k != kind ==> List(k) == old(List(k))
    {
      Reordered(kind);
      SameElements(List(kind), old(List(kind)));
      if isDataLoaded {
        ReorderedLoaded(kind, source.rows, old(reorderedKinds));
      }
    }

    /** Reordering one list keeps the ids the load handed out, with that kind now
        among the reordered ones. */
    twostate lemma ReorderedIds(new kind: FieldKind, new jobStart: int32, new fieldStart: int32)
      requires old(IdsFrom(jobStart, fieldStart))
      requires allJobs == old(allJobs) && createdFields == old(createdFields)
      requires jobIds.nextId == old(jobIds.nextId) && fieldIds.nextId == old(fieldIds.nextId)
      requires reorderedKinds == old(reorderedKinds) + {kind}
      requires multiset(List(kind)) == multiset(old(List(kind)))
      requires kind != Employer ==> allEmployers == old(allEmployers)
      requires kind != Location ==> allLocations == old(allLocations)
      requires kind != PositionType ==> allPositionTypes == old(allPositionTypes)
      requires kind != CoreCompetency ==> allCoreCompetency == old(allCoreCompetency)
      ensures IdsFrom(jobStart, fieldStart)
    {
      assert ListsCreated(reorderedKinds) by {
        KeptCreated(kind, Employer);
        KeptCreated(kind, Location);
        KeptCreated(kind, PositionType);
        KeptCreated(kind, CoreCompetency);
      }
    }

    /** One list after reordering the list of `kind`: still made of its created JobFields. */
    twostate lemma KeptCreated(new kind: FieldKind, new k: FieldKind)
      requires old(KindCreated(k, reorderedKinds))
      requires createdFields == old(createdFields)
      requires reorderedKinds == old(reorderedKinds) + {kind}
      requires multiset(List(kind)) == multiset(old(List(kind)))
      requires k != kind ==> List(k) == old(List(k))
      ensures KindCreated(k, reorderedKinds)
    {
      if k == kind && kind !in old(reorderedKinds) {
        assert old(List(kind)) == CreatedOfKind(createdFields, kind);
      }
    }

    /** Reordering one list keeps the jobs referring to values held in the lists,
        and keeps an unloaded catalogue empty. */
    twostate lemma Reordered(new kind: FieldKind)
      requires old(Valid())
      requires isDataLoaded == old(isDataLoaded) && allJobs == old(allJobs) && createdFields == old(createdFields)
      requires !isDataLoaded ==> reorderedKinds == old(reorderedKinds)
      requires multiset(List(kind)) == multiset(old(List(kind)))
      requires kind != Employer ==> allEmployers == old(allEmployers)
      requires kind != Location ==> allLocations == old(allLocations)
      requires kind != PositionType ==> allPositionTypes == old(allPositionTypes)
      requires kind != CoreCompetency ==> allCoreCompetency == old(allCoreCompetency)
      requires forall j :: j in old(Jobs()) ==> unchanged(j)
      ensures Consistent() && (!isDataLoaded ==> Pristine())
    {
      SameElements(List(kind), old(List(kind)));
      assert |allEmployers| == |old(allEmployers)| && forall x :: x in allEmployers <==> x in old(allEmployers);
      assert |allLocations| == |old(allLocations)| && forall x :: x in allLocations <==> x in old(allLocations);
      assert |allPositionTypes| == |old(allPositionTypes)| &&
        forall x :: x in allPositionTypes <==> x in old(allPositionTypes);
      assert |allCoreCompetency| == |old(allCoreCompetency)| &&
        forall x :: x in allCoreCompetency <==> x in old(allCoreCompetency);
      forall k
        ensures OfKind(List(k), k)
      {
        assert old(OfKind(List(k), k));
      }
      forall j | j in Jobs()
        ensures j.employer in allEmployers && j.location in allLocations
        ensures j.positionType in allPositionTypes && j.coreCompetency in allCoreCompetency
      {
        assert old(j.employer in allEmployers && j.location in allLocations);
        assert old(j.positionType in allPositionTypes && j.coreCompetency in allCoreCompetency);
      }
    }

    /** Reordering one list keeps what the catalogue was loaded from, with that
        kind now among the reordered ones. */
    twostate lemma ReorderedLoaded(new kind: FieldKind, new rows: seq<Row>, new reordered: set<FieldKind>)
      requires old(LoadedFrom(rows, reordered))
      requires allJobs == old(allJobs)
      requires multiset(Values(List(kind))) == old(multiset(Values(List(kind))))
      requires kind != Employer ==> allEmployers == old(allEmployers)
      requires kind != Location ==> allLocations == old(allLocations)
      requires kind != PositionType ==> allPositionTypes == old(allPositionTypes)
      requires kind != CoreCompetency ==> allCoreCompetency == old(allCoreCompetency)
      requires forall j :: j in old(Jobs()) ==>
        unchanged(j) && unchanged(old(j.employer), old(j.location), old(j.positionType), old(j.coreCompetency))
      requires unchanged(old(allEmployers), old(allLocations), old(allPositionTypes), old(allCoreCompetency))
      ensures LoadedFrom(rows, reordered + {kind})
    {
      forall k
        ensures ListFrom(k, rows, reordered + {kind})
      {
        assert old(ListFrom(k, rows, reordered));
        if k != kind {
          assert Values(List(k)) == old(Values(List(k)));
        }
      }
    }

    /** The part of loadData after the records have been read: allJobs is created,
        every row is loaded in file order, and the flag is set. */
    method LoadRecords(rows: seq<Row>)
      requires Pristine() && jobIds != fieldIds
      modifies this, jobIds, fieldIds
      ensures isDataLoaded && reorderedKinds == {} && Consistent() && LoadedFrom(rows, {})
      ensures IdsFrom(old(jobIds.nextId), old(fieldIds.nextId))
    {
      ghost var jobStart, fieldStart := jobIds.nextId, fieldIds.nextId;
      LoadRows(rows);
      MarkLoaded(rows, jobStart, fieldStart);
    }

    /** `isDataLoaded = true` once the loop is done; the loaded state is kept. */
    method MarkLoaded(rows: seq<Row>, ghost jobStart: int32, ghost fieldStart: int32)
      requires Consistent() && LoadedFrom(rows, {}) && LoadIds(jobStart, fieldStart)
      modifies this`isDataLoaded, this`reorderedKinds
      ensures isDataLoaded && reorderedKinds == {}
      ensures Consistent() && LoadedFrom(rows, {}) && LoadIds(jobStart, fieldStart)
    {
      label Loop:
      isDataLoaded := true;
      reorderedKinds := {};
      FlagKeepsConsistent@Loop();
      FlagKeepsLoaded@Loop(rows);
      FlagKeepsIds@Loop(jobStart, fieldStart);
    }

    /** The three frame facts MarkLoaded needs, one predicate at a time. */
    twostate lemma FlagKeepsConsistent()
      requires old(Consistent())
      requires unchanged(this`allJobs, this`allEmployers, this`allLocations, this`allPositionTypes,
                         this`allCoreCompetency)
      requires unchanged(old(Jobs()))
      ensures Consistent()
    {
    }

    twostate lemma FlagKeepsLoaded(new rows: seq<Row>)
      requires old(LoadedFrom(rows, {}))
      requires unchanged(this`allJobs, this`allEmployers, this`allLocations, this`allPositionTypes,
                         this`allCoreCompetency)
      requires unchanged(old(Jobs()), old(Footprint(Jobs())))
      requires unchanged(old(allEmployers), old(allLocations), old(allPositionTypes), old(allCoreCompetency))
      ensures LoadedFrom(rows, {})
    {
    }

    twostate lemma FlagKeepsIds(new jobStart: int32, new fieldStart: int32)
      requires old(LoadIds(jobStart, fieldStart))
      requires unchanged(this`allJobs, this`allEmployers, this`allLocations, this`allPositionTypes,
                         this`allCoreCompetency, this`createdFields, jobIds, fieldIds)
      ensures LoadIds(jobStart, fieldStart)
    {
    }

    method LoadRows(rows: seq<Row>)
      requires Pristine() && jobIds != fieldIds
      modifies this, jobIds, fieldIds
      ensures !isDataLoaded && Consistent() && LoadedFrom(rows, {})
      ensures LoadIds(old(jobIds.nextId), old(fieldIds.nextId))
    {
      ghost var jobStart, fieldStart := jobIds.nextId, fieldIds.nextId;
      allJobs := Some([]);
      assert rows[..0] == [];
      var i := 0;
      while i < |rows|
        invariant i <= |rows| && LoadedPrefix(rows, i, jobStart, fieldStart)
      {
        LoadRow(rows, i, jobStart, fieldStart);
        i := i + 1;
      }
      LoadedAll(rows, jobStart, fieldStart);
    }

    /** At the end of the loop the catalogue holds exactly what the rows describe. */
    lemma LoadedAll(rows: seq<Row>, jobStart: int32, fieldStart: int32)
      requires LoadedPrefix(rows, |rows|, jobStart, fieldStart)
      ensures Consistent() && LoadedFrom(rows, {}) && LoadIds(jobStart, fieldStart)
    {
      assert rows[..|rows|] == rows;
      forall kind
        ensures ListFrom(kind, rows, {})
      {
        assert KindLoaded(kind, rows, |rows|) by {
          match kind
          case Employer =>
          case Location =>
          case PositionType =>
          case CoreCompetency =>
        }
        ValuesAreValues(List(kind), Interned(rows, kind));
      }
    }

    /** One pass of loadData's loop: look up the row's four values in their lists,
        then create the missing ones and the job. */
    method LoadRow(rows: seq<Row>, i: int, ghost jobStart: int32, ghost fieldStart: int32)
      requires i < |rows| && LoadedPrefix(rows, i, jobStart, fieldStart)
      modifies this, jobIds, fieldIds
      ensures LoadedPrefix(rows, i + 1, jobStart, fieldStart)
    {
      var newEmployer, newLocation, newPosition, newSkill := LookupRow(rows, i);
      var newJob := AddRow(rows[i], newEmployer, newLocation, newPosition, newSkill, fieldStart);
      assert RowsLoaded(rows, i + 1, jobStart, fieldStart) by {
        RowStep(rows, i, jobStart, fieldStart, newJob,
                newEmployer == null, newLocation == null, newPosition == null, newSkill == null);
      }
      assert ListsCreated({}) by {
        JobKinds(newJob);
        CreatedStep(newJob, newEmployer == null, newLocation == null, newPosition == null, newSkill == null);
      }
    }

    /** The changes one pass of the loop makes keep the loop invariant. */
    twostate lemma RowStep(new rows: seq<Row>, new i: int, new jobStart: int32, new fieldStart: int32, new job: Job,
                           new newEmployer: bool, new newLocation: bool, new newPosition: bool, new newSkill: bool)
      requires 0 <= i < |rows| && old(LoadedPrefix(rows, i, jobStart, fieldStart))
      requires !isDataLoaded && Typed() && FieldsNumbered(fieldStart)
      requires newEmployer <==> !HasMatch(Interned(rows[..i], Employer), Cell(rows[i], Employer))
      requires newLocation <==> !HasMatch(Interned(rows[..i], Location), Cell(rows[i], Location))
      requires newPosition <==> !HasMatch(Interned(rows[..i], PositionType), Cell(rows[i], PositionType))
      requires newSkill <==> !HasMatch(Interned(rows[..i], CoreCompetency), Cell(rows[i], CoreCompetency))
      requires allEmployers == old(allEmployers) + (if newEmployer then [job.employer] else [])
      requires allLocations == old(allLocations) + (if newLocation then [job.location] else [])
      requires allPositionTypes == old(allPositionTypes) + (if newPosition then [job.positionType] else [])
      requires allCoreCompetency == old(allCoreCompetency) + (if newSkill then [job.coreCompetency] else [])
      requires newEmployer ==> job.employer.value == Cell(rows[i], Employer)
      requires newLocation ==> job.location.value == Cell(rows[i], Location)
      requires newPosition ==> job.positionType.value == Cell(rows[i], PositionType)
      requires newSkill ==> job.coreCompetency.value == Cell(rows[i], CoreCompetency)
      requires allJobs == Some(old(Jobs()) + [job]) && job !in old(Jobs()) && JobFromRow(job, rows[i])
      requires job.employer in allEmployers && job.location in allLocations
      requires job.positionType in allPositionTypes && job.coreCompetency in allCoreCompetency
      requires job.id == old(jobIds.nextId) && jobIds.nextId == Successor(old(jobIds.nextId))
      requires forall j: Job :: old(allocated(j)) ==>
        j.name == old(j.name) && j.employer == old(j.employer) && j.location == old(j.location) &&
        j.positionType == old(j.positionType) && j.coreCompetency == old(j.coreCompetency)
      requires forall g: JobField :: old(allocated(g)) ==> g.value == old(g.value)
      ensures RowsLoaded(rows, i + 1, jobStart, fieldStart)
    {
      JobsStep(rows, i, jobStart, job);
      MembersStep(job);
      KindsStep(rows, i, job, newEmployer, newLocation, newPosition, newSkill);
    }

    /** The four values of a job, held in their lists, carry their lists' kinds. */
    lemma JobKinds(job: Job)
      requires Typed()
      requires job.employer in allEmployers && job.location in allLocations
      requires job.positionType in allPositionTypes && job.coreCompetency in allCoreCompetency
      ensures job.employer.kind == Employer && job.location.kind == Location
      ensures job.positionType.kind == PositionType && job.coreCompetency.kind == CoreCompetency
    {
      assert OfKind(List(Employer), Employer) && OfKind(List(Location), Location);
      assert OfKind(List(PositionType), PositionType) && OfKind(List(CoreCompetency), CoreCompetency);
    }

    /** The lists after one pass of the loop still hold the created JobFields of
        their kinds, in creation order. */
    twostate lemma CreatedStep(new job: Job, new newEmployer: bool, new newLocation: bool,
                               new newPosition: bool, new newSkill: bool)
      requires old(ListsCreated({}))
      requires job.employer.kind == Employer && job.location.kind == Location
      requires job.positionType.kind == PositionType && job.coreCompetency.kind == CoreCompetency
      requires allEmployers == old(allEmployers) + (if newEmployer then [job.employer] else [])
      requires allLocations == old(allLocations) + (if newLocation then [job.location] else [])
      requires allPositionTypes == old(allPositionTypes) + (if newPosition then [job.positionType] else [])
      requires allCoreCompetency == old(allCoreCompetency) + (if newSkill then [job.coreCompetency] else [])
      requires createdFields == old(createdFields) +
        (if newEmployer then [job.employer] else []) + (if newLocation then [job.location] else []) +
        (if newSkill then [job.coreCompetency] else []) + (if newPosition then [job.positionType] else [])
      ensures ListsCreated({})
    {
      var e, l := (if newEmployer then [job.employer] else []), (if newLocation then [job.location] else []);
      var c, p := (if newSkill then [job.coreCompetency] else []), (if newPosition then [job.positionType] else []);
      var c0 := old(createdFields);
      assert old(KindCreated(Employer, {})) && old(KindCreated(Location, {}));
      assert old(KindCreated(PositionType, {})) && old(KindCreated(CoreCompetency, {}));
      RowCreated(c0, e, l, c, p, Employer);
      RowCreated(c0, e, l, c, p, Location);
      RowCreated(c0, e, l, c, p, PositionType);
      RowCreated(c0, e, l, c, p, CoreCompetency);
    }

    /** The lists after one pass of the loop hold the values interned from one more row. */
    twostate lemma KindsStep(new rows: seq<Row>, new i: int, new job: Job,
                             new newEmployer: bool, new newLocation: bool, new newPosition: bool, new newSkill: bool)
      requires 0 <= i < |rows|
      requires old(KindLoaded(Employer, rows, i)) && old(KindLoaded(Location, rows, i))
      requires old(KindLoaded(PositionType, rows, i)) && old(KindLoaded(CoreCompetency, rows, i))
      requires newEmployer <==> !HasMatch(Interned(rows[..i], Employer), Cell(rows[i], Employer))
      requires newLocation <==> !HasMatch(Interned(rows[..i], Location), Cell(rows[i], Location))
      requires newPosition <==> !HasMatch(Interned(rows[..i], PositionType), Cell(rows[i], PositionType))
      requires newSkill <==> !HasMatch(Interned(rows[..i], CoreCompetency), Cell(rows[i], CoreCompetency))
      requires allEmployers == old(allEmployers) + (if newEmployer then [job.employer] else [])
      requires allLocations == old(allLocations) + (if newLocation then [job.location] else [])
      requires allPositionTypes == old(allPositionTypes) + (if newPosition then [job.positionType] else [])
      requires allCoreCompetency == old(allCoreCompetency) + (if newSkill then [job.coreCompetency] else [])
      requires newEmployer ==> job.employer.value == Cell(rows[i], Employer)
      requires newLocation ==> job.location.value == Cell(rows[i], Location)
      requires newPosition ==> job.positionType.value == Cell(rows[i], PositionType)
      requires newSkill ==> job.coreCompetency.value == Cell(rows[i], CoreCompetency)
      requires forall g: JobField :: old(allocated(g)) ==> g.value == old(g.value)
      ensures KindLoaded(Employer, rows, i + 1) && KindLoaded(Location, rows, i + 1)
      ensures KindLoaded(PositionType, rows, i + 1) && KindLoaded(CoreCompetency, rows, i + 1)
    {
      KindStep(Employer, rows, i, job.employer, newEmployer);
      KindStep(Location, rows, i, job.location, newLocation);
      KindStep(PositionType, rows, i, job.positionType, newPosition);
      KindStep(CoreCompetency, rows, i, job.coreCompetency, newSkill);
    }

    /** The lookup half of loadData's loop body: findExistingObject on each of the
        four lists, for the values of row i. */
    method LookupRow(rows: seq<Row>, i: int)
      returns (newEmployer: JobField?, newLocation: JobField?, newPosition: JobField?, newSkill: JobField?)
      requires 0 <= i < |rows| && KindLoaded(Employer, rows, i) && KindLoaded(Location, rows, i) &&
        KindLoaded(PositionType, rows, i) && KindLoaded(CoreCompetency, rows, i)
      ensures newEmployer == null <==> !HasMatch(Interned(rows[..i], Employer), Cell(rows[i], Employer))
      ensures newLocation == null <==> !HasMatch(Interned(rows[..i], Location), Cell(rows[i], Location))
      ensures newPosition == null <==> !HasMatch(Interned(rows[..i], PositionType), Cell(rows[i], PositionType))
      ensures newSkill == null <==> !HasMatch(Interned(rows[..i], CoreCompetency), Cell(rows[i], CoreCompetency))
      ensures newEmployer != null ==> newEmployer in allEmployers && SameLowerCase(newEmployer.value, Cell(rows[i], Employer))
      ensures newLocation != null ==> newLocation in allLocations && SameLowerCase(newLocation.value, Cell(rows[i], Location))
      ensures newPosition != null ==>
        newPosition in allPositionTypes && SameLowerCase(newPosition.value, Cell(rows[i], PositionType))
      ensures newSkill != null ==>
        newSkill in allCoreCompetency && SameLowerCase(newSkill.value, Cell(rows[i], CoreCompetency))
    {
      newEmployer := Lookup(Employer, rows, i);
      newLocation := Lookup(Location, rows, i);
      newPosition := Lookup(PositionType, rows, i);
      newSkill := Lookup(CoreCompetency, rows, i);
    }

    /** `findExistingObject` on the list of the given kind, for the value of row i:
        it finds an instance exactly when the value was interned from an earlier
        row, ignoring case. */
    method Lookup(kind: FieldKind, rows: seq<Row>, i: int) returns (found: JobField?)
      requires 0 <= i < |rows| && KindLoaded(kind, rows, i)
      ensures found == null <==> !HasMatch(Interned(rows[..i], kind), Cell(rows[i], kind))
      ensures found != null ==> found in List(kind) && SameLowerCase(found.value, Cell(rows[i], kind))
    {
      ValuesAreValues(List(kind), Interned(rows[..i], kind));
      found := FindExistingObject(List(kind), Cell(rows[i], kind));
    }

    /** The jobs' part of the loop invariant survives appending the job of row i. */
    twostate lemma JobsStep(new rows: seq<Row>, new i: int, new jobStart: int32, new job: Job)
      requires 0 <= i < |rows| && old(JobsLoaded(rows, i, jobStart))
      requires allJobs == Some(old(Jobs()) + [job]) && job !in old(Jobs())
      requires job.id == old(jobIds.nextId) && jobIds.nextId == Successor(old(jobIds.nextId))
      requires JobFromRow(job, rows[i])
      requires forall j: Job :: old(allocated(j)) ==>
        j.name == old(j.name) && j.employer == old(j.employer) && j.location == old(j.location) &&
        j.positionType == old(j.positionType) && j.coreCompetency == old(j.coreCompetency)
      requires forall g: JobField :: old(allocated(g)) ==> g.value == old(g.value)
      ensures JobsLoaded(rows, i + 1, jobStart)
    {
      var jobs0 := old(Jobs());
      DistinctGrow(jobs0, job);
      NumberedGrow(jobs0, job, jobStart);
      forall k | 0 <= k < i + 1
        ensures JobFromRow(Jobs()[k], rows[k])
      {
        if k < i {
          var j := jobs0[k];
          assert Jobs()[k] == j && j in old(Jobs());
          assert old(JobFromRow(j, rows[k]));
        }
      }
    }

    /** The membership part of the loop invariant survives growing the lists and
        appending a job whose values are in them. */
    twostate lemma MembersStep(new job: Job)
      requires old(Members()) && allJobs == Some(old(Jobs()) + [job])
      requires old(allEmployers) <= allEmployers && old(allLocations) <= allLocations
      requires old(allPositionTypes) <= allPositionTypes && old(allCoreCompetency) <= allCoreCompetency
      requires job.employer in allEmployers && job.location in allLocations
      requires job.positionType in allPositionTypes && job.coreCompetency in allCoreCompetency
      requires forall j: Job :: old(allocated(j)) ==>
        j.name == old(j.name) && j.employer == old(j.employer) && j.location == old(j.location) &&
        j.positionType == old(j.positionType) && j.coreCompetency == old(j.coreCompetency)
      ensures Members()
    {
      forall j | j in Jobs()
        ensures j.employer in allEmployers && j.location in allLocations
        ensures j.positionType in allPositionTypes && j.coreCompetency in allCoreCompetency
      {
        if j != job {
          assert j in old(Jobs());
        }
      }
    }

    /** One kind's part of the loop invariant survives row i: its list grows by the
        new instance exactly when the value was not interned before. */
    twostate lemma KindStep(new kind: FieldKind, new rows: seq<Row>, new i: int, new f: JobField, new grown: bool)
      requires 0 <= i < |rows| && old(KindLoaded(kind, rows, i))
      requires grown <==> !HasMatch(Interned(rows[..i], kind), Cell(rows[i], kind))
      requires List(kind) == old(List(kind)) + (if grown then [f] else [])
      requires grown ==> f.value == Cell(rows[i], kind)
      requires forall g: JobField :: old(allocated(g)) ==> g.value == old(g.value)
      ensures KindLoaded(kind, rows, i + 1)
    {
      ExtendStep(rows, i, kind, Interned(rows[..i], kind), !grown);
    }

    /** The creation step of loadData's loop: the values findExistingObject did not
        find are created and appended (employer, location, core competency, position
        type, in that order), then the job, which is appended to allJobs. */
    method AddRow(row: Row, foundEmployer: JobField?, foundLocation: JobField?,
                  foundPosition: JobField?, foundSkill: JobField?, ghost fieldStart: int32)
      returns (job: Job)
      requires jobIds != fieldIds && allJobs.Some? && Typed()
      requires foundEmployer != null ==>
        foundEmployer in allEmployers && SameLowerCase(foundEmployer.value, Cell(row, Employer))
      requires foundLocation != null ==>
        foundLocation in allLocations && SameLowerCase(foundLocation.value, Cell(row, Location))
      requires foundPosition != null ==>
        foundPosition in allPositionTypes && SameLowerCase(foundPosition.value, Cell(row, PositionType))
      requires foundSkill != null ==>
        foundSkill in allCoreCompetency && SameLowerCase(foundSkill.value, Cell(row, CoreCompetency))
      requires FieldsNumbered(fieldStart)
      modifies this`allJobs, this`allEmployers, this`allLocations, this`allPositionTypes,
               this`allCoreCompetency, this`createdFields, jobIds, fieldIds
      ensures Typed() && FieldsNumbered(fieldStart)
      ensures createdFields == old(createdFields) +
        (if foundEmployer == null then [job.employer] else []) + (if foundLocation == null then [job.location] else []) +
        (if foundSkill == null then [job.coreCompetency] else []) +
        (if foundPosition == null then [job.positionType] else [])
      ensures foundEmployer == null ==> fresh(job.employer)
      ensures foundLocation == null ==> fresh(job.location)
      ensures foundPosition == null ==> fresh(job.positionType)
      ensures foundSkill == null ==> fresh(job.coreCompetency)
      ensures allEmployers == old(allEmployers) + (if foundEmployer == null then [job.employer] else [])
      ensures allLocations == old(allLocations) + (if foundLocation == null then [job.location] else [])
      ensures allPositionTypes == old(allPositionTypes) + (if foundPosition == null then [job.positionType] else [])
      ensures allCoreCompetency ==
        old(allCoreCompetency) + (if foundSkill == null then [job.coreCompetency] else [])
      ensures if foundEmployer == null then job.employer.value == Cell(row, Employer) else job.employer == foundEmployer
      ensures if foundLocation == null then job.location.value == Cell(row, Location) else job.location == foundLocation
      ensures if foundPosition == null then job.positionType.value == Cell(row, PositionType)
              else job.positionType == foundPosition
      ensures if foundSkill == null then job.coreCompetency.value == Cell(row, CoreCompetency)
              else job.coreCompetency == foundSkill
      ensures fresh(job) && JobFromRow(job, row)
      ensures job.employer in allEmployers && job.location in allLocations
      ensures job.positionType in allPositionTypes && job.coreCompetency in allCoreCompetency
      ensures allJobs == Some(old(allJobs.value) + [job])
      ensures job.id == old(jobIds.nextId) && jobIds.nextId == Successor(old(jobIds.nextId))
      ensures forall j: Job :: old(allocated(j)) ==>
        j.name == old(j.name) && j.employer == old(j.employer) && j.location == old(j.location) &&
        j.positionType == old(j.positionType) && j.coreCompetency == old(j.coreCompetency)
      ensures forall g: JobField :: old(allocated(g)) ==> g.value == old(g.value)
    {
      var employer, location, positionType, coreCompetency :=
        InternRow(row, foundEmployer, foundLocation, foundPosition, foundSkill, fieldStart);
      job := new Job(jobIds, row.name, employer, location, positionType, coreCompetency);
      allJobs := Some(allJobs.value + [job]);
    }

    method InternRow(row: Row, foundEmployer: JobField?, foundLocation: JobField?,
                     foundPosition: JobField?, foundSkill: JobField?, ghost fieldStart: int32)
      returns (employer: JobField, location: JobField, positionType: JobField, coreCompetency: JobField)
      requires Typed()
      requires foundEmployer != null ==> foundEmployer in allEmployers
      requires foundLocation != null ==> foundLocation in allLocations
      requires foundPosition != null ==> foundPosition in allPositionTypes
      requires foundSkill != null ==> foundSkill in allCoreCompetency
      requires FieldsNumbered(fieldStart)
      modifies this`allEmployers, this`allLocations, this`allPositionTypes, this`allCoreCompetency,
               this`createdFields, fieldIds
      ensures Typed() && FieldsNumbered(fieldStart)
      ensures createdFields == old(createdFields) +
        (if foundEmployer == null then [employer] else []) + (if foundLocation == null then [location] else []) +
        (if foundSkill == null then [coreCompetency] else []) + (if foundPosition == null then [positionType] else [])
      ensures foundEmployer == null ==> fresh(employer)
      ensures foundLocation == null ==> fresh(location)
      ensures foundPosition == null ==> fresh(positionType)
      ensures foundSkill == null ==> fresh(coreCompetency)
      ensures employer.kind == Employer && location.kind == Location
      ensures positionType.kind == PositionType && coreCompetency.kind == CoreCompetency
      ensures allEmployers == old(allEmployers) + (if foundEmployer == null then [employer] else [])
      ensures allLocations == old(allLocations) + (if foundLocation == null then [location] else [])
      ensures allPositionTypes == old(allPositionTypes) + (if foundPosition == null then [positionType] else [])
      ensures allCoreCompetency == old(allCoreCompetency) + (if foundSkill == null then [coreCompetency] else [])
      ensures if foundEmployer == null then employer.value == Cell(row, Employer) else employer == foundEmployer
      ensures if foundLocation == null then location.value == Cell(row, Location) else location == foundLocation
      ensures if foundPosition == null then positionType.value == Cell(row, PositionType)
              else positionType == foundPosition
      ensures if foundSkill == null then coreCompetency.value == Cell(row, CoreCompetency)
              else coreCompetency == foundSkill
      ensures forall g: JobField :: old(allocated(g)) ==> g.value == old(g.value)
    {
      employer := InternValue(Employer, row.employer, foundEmployer, fieldStart);
      location := InternValue(Location, row.location, foundLocation, fieldStart);
      coreCompetency := InternValue(CoreCompetency, row.coreCompetency, foundSkill, fieldStart);
      positionType := InternValue(PositionType, row.positionType, foundPosition, fieldStart);
    }

    /** The reuse rule for one value: the instance findExistingObject found, or a new
        JobField of the given kind, which takes the next field id and is appended to
        its kind's list. */
    method InternValue(kind: FieldKind, value: string, found: JobField?, ghost fieldStart: int32)
      returns (f: JobField)
      requires Typed() && (found != null ==> found in List(kind))
      requires FieldsNumbered(fieldStart)
      modifies this`allEmployers, this`allLocations, this`allPositionTypes, this`allCoreCompetency,
               this`createdFields, fieldIds
      ensures Typed() && f.kind == kind
      ensures List(kind) == old(List(kind)) + (if found == null then [f] else [])
      ensures createdFields == old(createdFields) + (if found == null then [f] else [])
      ensures if found == null then fresh(f) && f.value == value && f.id == old(fieldIds.nextId) else f == found
      ensures FieldsNumbered(fieldStart)
      ensures kind != Employer ==> allEmployers == old(allEmployers)
      ensures kind != Location ==> allLocations == old(allLocations)
      ensures kind != PositionType ==> allPositionTypes == old(allPositionTypes)
      ensures kind != CoreCompetency ==> allCoreCompetency == old(allCoreCompetency)
    {
      if found != null {
        return found;
      }
      f := new JobField(fieldIds, kind, value);
      AppendField(kind, f);
      FieldsNumberedGrow(createdFields, f, fieldStart);
      createdFields := createdFields + [f];
      assert createdFields[..|createdFields| - 1] == old(createdFields);
    }

    /** `list.add(f)` on the list of f's kind. */
    method AppendField(kind: FieldKind, f: JobField)
      requires Typed() && f.kind == kind
      modifies this`allEmployers, this`allLocations, this`allPositionTypes, this`allCoreCompetency
      ensures Typed()
      ensures List(kind) == old(List(kind)) + [f]
      ensures kind != Employer ==> allEmployers == old(allEmployers)
      ensures kind != Location ==> allLocations == old(allLocations)
      ensures kind != PositionType ==> allPositionTypes == old(allPositionTypes)
      ensures kind != CoreCompetency ==> allCoreCompetency == old(allCoreCompetency)
    {
      match kind {
        case Employer =>
          allEmployers := allEmployers + [f];
        case Location =>
          allLocations := allLocations + [f];
        case PositionType =>
          allPositionTypes := allPositionTypes + [f];
        case CoreCompetency =>
          allCoreCompetency := allCoreCompetency + [f];
      }
      forall k
        ensures OfKind(List(k), k)
      {
        assert old(OfKind(List(k), k));
      }
    }
  }

  /** Every element of the list is a JobField of the given kind: the element type
      of the Java list. */
  predicate OfKind(fields: seq<JobField>, kind: FieldKind) {
    forall f :: f in fields ==> f.kind == kind
  }

  /** Two permutations of each other hold the same elements. */
  lemma SameElements<T>(a: seq<T>, b: seq<T>)
    requires multiset(a) == multiset(b)
    ensures |a| == |b| && forall x :: x in a <==> x in b
  {
    assert |a| == |multiset(a)| && |b| == |multiset(b)|;
    forall x
      ensures x in a <==> x in b
    {
      assert x in a <==> x in multiset(a);
      assert x in b <==> x in multiset(b);
    }
  }

  /** Removing position p takes one occurrence of its element out of the count. */
  lemma CountWithout<T>(a: seq<T>, p: int, x: T)
    requires 0 <= p < |a|
    ensures multiset(a)[x] == multiset(a[..p] + a[p + 1..])[x] + if x == a[p] then 1 else 0
  {
    assert a == a[..p] + [a[p]] + a[p + 1..];
  }

  /** An element at two positions occurs at least twice. */
  lemma CountTwice<T>(b: seq<T>, lo: int, hi: int)
    requires 0 <= lo < hi < |b| && b[lo] == b[hi]
    ensures multiset(b)[b[lo]] >= 2
  {
    assert b == b[..lo] + [b[lo]] + b[lo + 1..hi] + [b[hi]] + b[hi + 1..];
  }

  /** Two different positions of a reordered list come from two different
      positions of the original. */
  lemma OtherIndex<T>(a: seq<T>, b: seq<T>, i: int, j: int) returns (p: int, q: int)
    requires multiset(a) == multiset(b) && 0 <= i < |b| && 0 <= j < |b| && i != j
    ensures 0 <= p < |a| && 0 <= q < |a| && p != q && a[p] == b[i] && a[q] == b[j]
  {
    assert b[i] in multiset(a);
    p :| 0 <= p < |a| && a[p] == b[i];
    var rest := a[..p] + a[p + 1..];
    CountWithout(a, p, b[j]);
    if b[j] == b[i] {
      if i < j {
        CountTwice(b, i, j);
      } else {
        CountTwice(b, j, i);
      }
    }
    assert b[j] in multiset(rest);
    var r :| 0 <= r < |rest| && rest[r] == b[j];
    q := if r < p then r else r + 1;
  }

  /** Reordering keeps the values pairwise different ignoring case. */
  lemma DistinctReordered(a: seq<string>, b: seq<string>)
    requires multiset(a) == multiset(b) && DistinctIgnoringCase(a)
    ensures DistinctIgnoringCase(b)
  {
    forall i, j | 0 <= i < j < |b|
      ensures !SameLowerCase(b[i], b[j])
    {
      var p, q := OtherIndex(a, b, i, j);
      if q < p {
        assert !SameLowerCase(a[q], a[p]);
      }
    }
  }

  /** Job k carries the k-th id counted from start. */
  predicate NumberedFrom(jobs: seq<Job>, start: int32) {
    forall k :: 0 <= k < |jobs| ==> jobs[k].id == Advance(start, k)
  }

  /** JobField c carries the c-th id counted from start. */
  predicate FieldsNumberedFrom(fields: seq<JobField>, start: int32) {
    forall c :: 0 <= c < |fields| ==> fields[c].id == Advance(start, c)
  }

  lemma FieldsNumberedGrow(fields: seq<JobField>, f: JobField, start: int32)
    requires FieldsNumberedFrom(fields, start) && f.id == Advance(start, |fields|)
    ensures FieldsNumberedFrom(fields + [f], start)
  {
  }

  /** The JobFields of the given kind among fields, in their order. */
  function CreatedOfKind(fields: seq<JobField>, kind: FieldKind): seq<JobField> {
    if fields == [] then []
    else
      var last := fields[|fields| - 1];
      CreatedOfKind(fields[..|fields| - 1], kind) + if last.kind == kind then [last] else []
  }

  /** The zero or one JobField of `extra` when it is of the given kind. */
  function OfKindOnly(extra: seq<JobField>, kind: FieldKind): seq<JobField> {
    if extra != [] && extra[0].kind == kind then extra else []
  }

  /** The JobFields of one kind that one pass of the loop creates, in the order it
      creates them (employer, location, core competency, position type). */
  lemma RowCreated(c0: seq<JobField>, e: seq<JobField>, l: seq<JobField>, c: seq<JobField>, p: seq<JobField>,
                   kind: FieldKind)
    requires |e| <= 1 && |l| <= 1 && |c| <= 1 && |p| <= 1
    requires e != [] ==> e[0].kind == Employer
    requires l != [] ==> l[0].kind == Location
    requires c != [] ==> c[0].kind == CoreCompetency
    requires p != [] ==> p[0].kind == PositionType
    ensures CreatedOfKind(c0 + e + l + c + p, kind) == CreatedOfKind(c0, kind) +
      match kind
      case Employer => e
      case Location => l
      case CoreCompetency => c
      case PositionType => p
  {
    var s1 := c0 + e;
    var s2 := s1 + l;
    var s3 := s2 + c;
    var before := CreatedOfKind(c0, kind);
    var oe, ol, oc, op := OfKindOnly(e, kind), OfKindOnly(l, kind), OfKindOnly(c, kind), OfKindOnly(p, kind);
    assert CreatedOfKind(s3 + p, kind) == before + (oe + ol + oc + op) by {
      CreatedOfKindStep(c0, e, kind);
      CreatedOfKindStep(s1, l, kind);
      CreatedOfKindStep(s2, c, kind);
      CreatedOfKindStep(s3, p, kind);
    }
    RowPieces(e, l, c, p, kind);
  }

  /** Of the four JobFields one row may create, exactly the one of the given kind
      is kept. */
  lemma RowPieces(e: seq<JobField>, l: seq<JobField>, c: seq<JobField>, p: seq<JobField>, kind: FieldKind)
    requires |e| <= 1 && |l| <= 1 && |c| <= 1 && |p| <= 1
    requires e != [] ==> e[0].kind == Employer
    requires l != [] ==> l[0].kind == Location
    requires c != [] ==> c[0].kind == CoreCompetency
    requires p != [] ==> p[0].kind == PositionType
    ensures OfKindOnly(e, kind) + OfKindOnly(l, kind) + OfKindOnly(c, kind) + OfKindOnly(p, kind) ==
      match kind
      case Employer => e
      case Location => l
      case CoreCompetency => c
      case PositionType => p
  {
  }

  /** Every created JobField has exactly one of the four kinds. */
  lemma {:induction false} CreatedKindsSum(fields: seq<JobField>)
    ensures |CreatedOfKind(fields, Employer)| + |CreatedOfKind(fields, Location)| +
            |CreatedOfKind(fields, PositionType)| + |CreatedOfKind(fields, CoreCompetency)| == |fields|
  {
    if fields != [] {
      CreatedKindsSum(fields[..|fields| - 1]);
    }
  }

  /** Each record adds at most one value to a kind's interned list. */
  lemma {:induction false} InternedLength(rows: seq<Row>, kind: FieldKind)
    ensures |Interned(rows, kind)| <= |rows|
  {
    if rows != [] {
      InternedLength(rows[..|rows| - 1], kind);
    }
  }

  lemma CreatedOfKindStep(fields: seq<JobField>, extra: seq<JobField>, kind: FieldKind)
    requires |extra| <= 1
    ensures CreatedOfKind(fields + extra, kind) == CreatedOfKind(fields, kind) + OfKindOnly(extra, kind)
  {
    if extra != [] {
      assert (fields + extra)[..|fields + extra| - 1] == fields;
    } else {
      assert fields + extra == fields;
    }
  }

  lemma {:induction false} CreatedOfKindIn(fields: seq<JobField>, kind: FieldKind, f: JobField)
    requires f in multiset(CreatedOfKind(fields, kind))
    ensures f in fields && f.kind == kind
  {
    if fields != [] {
      var init := fields[..|fields| - 1];
      var last := fields[|fields| - 1];
      if f != last || last.kind != kind {
        assert f in multiset(CreatedOfKind(init, kind));
        CreatedOfKindIn(init, kind, f);
        assert f in fields;
      }
    }
  }

  lemma NumberedGrow(jobs: seq<Job>, job: Job, start: int32)
    requires NumberedFrom(jobs, start) && job.id == Advance(start, |jobs|)
    ensures NumberedFrom(jobs + [job], start)
  {
  }

  /** While the job counter does not wrap around, the jobs of a load have strictly
      increasing ids. */
  lemma IdsIncreasing(jobs: seq<Job>, start: int32)
    requires NumberedFrom(jobs, start) && start as int + |jobs| <= MaxInt as int + 1
    ensures forall a, b :: 0 <= a < b < |jobs| ==> jobs[a].id < jobs[b].id
  {
    forall a, b | 0 <= a < b < |jobs|
      ensures jobs[a].id < jobs[b].id
    {
      AdvanceIncreasing(start, a, b);
    }
  }

  lemma DistinctGrow(jobs: seq<Job>, job: Job)
    requires Distinct(jobs) && job !in jobs
    ensures Distinct(jobs + [job])
  {
  }

  /** Job k of a load is row k: the same name, and values equal to the row's
      ignoring case. */
  ghost predicate JobFromRow(job: Job, row: Row)
    reads job, job.Repr()
  {
    job.name == row.name &&
    SameLowerCase(job.employer.value, row.employer) &&
    SameLowerCase(job.location.value, row.location) &&
    SameLowerCase(job.positionType.value, row.positionType) &&
    SameLowerCase(job.coreCompetency.value, row.coreCompetency)
  }

  /** The JobFields hold the given values, in order. */
  ghost predicate ValuesAre(fields: seq<JobField>, values: seq<string>)
    reads fields
  {
    |fields| == |values| && forall k :: 0 <= k < |fields| ==> fields[k].value == values[k]
  }

  lemma ValuesAreValues(fields: seq<JobField>, values: seq<string>)
    requires ValuesAre(fields, values)
    ensures Values(fields) == values
  {
  }

  /** One more row adds the row's value to the interned values of a kind exactly
      when no case-insensitively equal value was interned before. */
  lemma ExtendStep(rows: seq<Row>, i: int, kind: FieldKind, before: seq<string>, found: bool)
    requires 0 <= i < |rows| && before == Interned(rows[..i], kind)
    requires found <==> HasMatch(before, Cell(rows[i], kind))
    ensures Interned(rows[..i + 1], kind) == before + (if found then [] else [Cell(rows[i], kind)])
  {
    assert rows[..i + 1][..i] == rows[..i];
  }

}

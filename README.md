# techjobs MVC: the job catalogue

This project models the in-memory job catalogue of the techjobs MVC application and proves
properties of it. The catalogue is `JobData` together with the entity classes it builds:
`Job`, `JobField` (with its four kinds `Employer`, `Location`, `PositionType` and
`CoreCompetency`) and the `NameSorter` comparator.

- `JobData` loads `job_data.csv` once. For each record it interns the four categorical columns.
  The interning is a case-insensitive linear lookup (`findExistingObject`): a match is reused,
  otherwise a new instance is created and appended to its kind's list. A `Job` that refers to
  the interned instances is then appended to `allJobs`.
- On top of the loaded list `JobData` answers three searches: the whole list, a
  case-insensitive substring search over one field, and the same search across all five fields.
- The `getAll*` accessors sort one of the four lists in place with `NameSorter` and return it.

Modules, one per source class plus one for the `java.lang.String` operations they rely on:

- `Strings` (strings.dfy): ASCII `toLowerCase`, `contains` and `compareTo`. `contains` is
  proved equal to an index-based definition of an occurrence. `compareTo` is proved to give 0
  exactly on equal strings and a negative result exactly when the first precedes the second
  lexicographically. `toLowerCase` is proved idempotent.
- `NameSorter` (name_sorter.dfy): `compare` and the facts that make it a total preorder.
- `Counters` (counters.dfy): the `static int nextId` counters as an `IdCounter` object over a
  32-bit `int32`, with Java's wrap-around at 2^31 - 1.
- `JobFields` (job_field.dfy): class `JobField`. The subclass is a `kind` field; the id comes
  from the counter shared by all four kinds.
- `Jobs` (job.dfy): class `Job`. Its `toString` writes the placeholder
  `"Data not available"` into the shared `JobField`s before formatting.
- `JobData` (job_data.dfy): class `JobStore`. It holds the static state of `JobData`:
  `isDataLoaded`, `allJobs`, the four lists, the two id counters and the data file. Its methods
  are `loadData`, `findAll`, `findByValue`, `findByColumnAndValue` and the four `getAll*`.
  Module-level it has `findExistingObject`, `getFieldValue`, a specification of the searches
  (`Filter` over a `Query`) and of the interning (`Interned`, a function of the rows).

The class invariant `JobStore.Valid` says two things:
- Before a load succeeds, the catalogue is empty.
- After a load, job k is record k, and each kind's list holds the values interned from the
  records: in first-seen order, or reordered by a `getAll*` accessor. Every job refers to
  values held in the lists.

Every public method keeps `Valid` and states its result in terms of it.

The Java exceptions that escape from `JobData` are modelled as results:
- A file with no records makes `records.get(0)` throw `IndexOutOfBoundsException`. The flag
  stays false, so the next call tries again.
- An unreadable file is reported and swallowed. `allJobs` stays `null`, so the next search
  throws `NullPointerException`.

## Model

| member | source | states |
|---|---|---|
| Strings.ToLowerCase | java-web-dev-techjobs-mvc/src/main/java/org/launchcode/javawebdevtechjobsmvc/NameSorter.java:10 | the result has the input's length |
| Strings.LowerCaseChars | java-web-dev-techjobs-mvc/src/main/java/org/launchcode/javawebdevtechjobsmvc/NameSorter.java:10 | at every index the result holds no letter 'A'..'Z'; 'A'..'Z' move to 'a'..'z' and every other character is kept |
| Strings.LowerCaseFixed | java-web-dev-techjobs-mvc/src/main/java/org/launchcode/javawebdevtechjobsmvc/NameSorter.java:10 | a string is its own lower case exactly when it has no letter 'A'..'Z' |
| Strings.LowerCaseIdempotent | java-web-dev-techjobs-mvc/src/main/java/org/launchcode/javawebdevtechjobsmvc/NameSorter.java:10 | lower-casing twice is lower-casing once |
| Strings.Contains | java-web-dev-techjobs-mvc/src/main/java/org/launchcode/javawebdevtechjobsmvc/models/JobData.java:71 | a prefix of the string is contained in it, and a contained term is no longer than the string |
| Strings.ContainsIffOccurs | java-web-dev-techjobs-mvc/src/main/java/org/launchcode/javawebdevtechjobsmvc/models/JobData.java:71 | `contains` holds exactly when the term occurs in the string at some index |
| Strings.ContainsEmpty | java-web-dev-techjobs-mvc/src/main/java/org/launchcode/javawebdevtechjobsmvc/models/JobData.java:71 | every string contains the empty string |
| Strings.CompareTo | java-web-dev-techjobs-mvc/src/main/java/org/launchcode/javawebdevtechjobsmvc/NameSorter.java:10 | equal strings compare as 0 |
| Strings.CompareToPrefix | java-web-dev-techjobs-mvc/src/main/java/org/launchcode/javawebdevtechjobsmvc/NameSorter.java:10 | when one string is a prefix of the other, the difference of the lengths |
| Strings.CompareToFirstDifference | java-web-dev-techjobs-mvc/src/main/java/org/launchcode/javawebdevtechjobsmvc/NameSorter.java:10 | at the first index where the strings differ, the difference of the two characters there |
| Strings.CompareToZero | java-web-dev-techjobs-mvc/src/main/java/org/launchcode/javawebdevtechjobsmvc/NameSorter.java:10 | `compareTo` is 0 exactly when the strings are equal |
| Strings.CompareToAntisymmetric | java-web-dev-techjobs-mvc/src/main/java/org/launchcode/javawebdevtechjobsmvc/NameSorter.java:10 | swapping the arguments of `compareTo` negates the result |
| Strings.CompareToTransitive | java-web-dev-techjobs-mvc/src/main/java/org/launchcode/javawebdevtechjobsmvc/NameSorter.java:10 | `compareTo` <= 0 is transitive |
| Strings.CompareToNegative | java-web-dev-techjobs-mvc/src/main/java/org/launchcode/javawebdevtechjobsmvc/NameSorter.java:10 | `compareTo` is negative exactly when the first string precedes the second lexicographically, a proper prefix first |
| NameSorter.Compare | java-web-dev-techjobs-mvc/src/main/java/org/launchcode/javawebdevtechjobsmvc/NameSorter.java:10 | `compare` is 0 exactly when the lower-cased strings are equal |
| NameSorter.CompareNegativeIff | java-web-dev-techjobs-mvc/src/main/java/org/launchcode/javawebdevtechjobsmvc/NameSorter.java:10 | `compare` is negative exactly when the lower-cased first string precedes the lower-cased second lexicographically |
| NameSorter.CompareAntisymmetric | java-web-dev-techjobs-mvc/src/main/java/org/launchcode/javawebdevtechjobsmvc/NameSorter.java:10 | `compare(b, a)` is `-compare(a, b)`, so the signs are opposite |
| NameSorter.CompareTransitive | java-web-dev-techjobs-mvc/src/main/java/org/launchcode/javawebdevtechjobsmvc/NameSorter.java:10 | `compare(a, b) <= 0` and `compare(b, c) <= 0` give `compare(a, c) <= 0` |
| NameSorter.CompareIgnoresCase | java-web-dev-techjobs-mvc/src/main/java/org/launchcode/javawebdevtechjobsmvc/NameSorter.java:10 | "Acme" and "acme" compare equal |
| Counters.AdvanceNoWrap | java-web-dev-techjobs-mvc/src/main/java/org/launchcode/javawebdevtechjobsmvc/models/Job.java:17-20 | below 2^31 - 1, k increments of `nextId` add exactly k |
| Counters.AdvanceAdd | java-web-dev-techjobs-mvc/src/main/java/org/launchcode/javawebdevtechjobsmvc/models/Job.java:17-20 | a increments followed by b increments are a + b increments |
| Counters.AdvanceIncreasing | java-web-dev-techjobs-mvc/src/main/java/org/launchcode/javawebdevtechjobsmvc/models/Job.java:17-20 | objects created one after another get strictly increasing ids while the counter does not wrap |
| Counters.Successor | java-web-dev-techjobs-mvc/src/main/java/org/launchcode/javawebdevtechjobsmvc/models/Job.java:19 | `nextId++` is exactly n + 1 below 2^31 - 1 |
| Counters.SuccessorTwosComplement | java-web-dev-techjobs-mvc/src/main/java/org/launchcode/javawebdevtechjobsmvc/models/Job.java:19 | `nextId++` is n + 1 reduced to 32-bit two's complement |
| Counters.SuccessorWraps | java-web-dev-techjobs-mvc/src/main/java/org/launchcode/javawebdevtechjobsmvc/models/Job.java:19 | `nextId++` at 2^31 - 1 gives -2^31 |
| Counters.IdCounter.constructor | java-web-dev-techjobs-mvc/src/main/java/org/launchcode/javawebdevtechjobsmvc/models/Job.java:8 | the counter starts at 1 |
| JobFields.JobField.constructor | java-web-dev-techjobs-mvc/src/main/java/org/launchcode/javawebdevtechjobsmvc/models/JobField.java:11-21 | the new value takes the shared counter's id, the counter moves on by one, and the value is stored |
| JobFields.JobField.ToString | java-web-dev-techjobs-mvc/src/main/java/org/launchcode/javawebdevtechjobsmvc/models/JobField.java:25-27 | `toString` is exactly the stored value |
| JobFields.JobField.Equals | java-web-dev-techjobs-mvc/src/main/java/org/launchcode/javawebdevtechjobsmvc/models/JobField.java:30-36 | equal exactly when the other is non-null with the same id, whatever the values and kinds |
| JobFields.JobField.SetValue | java-web-dev-techjobs-mvc/src/main/java/org/launchcode/javawebdevtechjobsmvc/models/JobField.java:52-54 | `getValue` then returns the new value; the id is a constant |
| Jobs.OrPlaceholder | java-web-dev-techjobs-mvc/src/main/java/org/launchcode/javawebdevtechjobsmvc/models/Job.java:36-50 | the value `toString` leaves is never empty, and a non-empty value is kept |
| Jobs.DecimalString | java-web-dev-techjobs-mvc/src/main/java/org/launchcode/javawebdevtechjobsmvc/models/Job.java:52 | `%d` gives a non-empty rendering of digits that starts with '-' exactly for negative ids |
| Jobs.DecimalRoundTrip | java-web-dev-techjobs-mvc/src/main/java/org/launchcode/javawebdevtechjobsmvc/models/Job.java:52 | reading the rendering of a number back gives the number |
| Jobs.Format | java-web-dev-techjobs-mvc/src/main/java/org/launchcode/javawebdevtechjobsmvc/models/Job.java:52-57 | the block starts with a blank line and "ID: " followed by the rendered id, ends with a line break, and is 69 characters longer than the id and the five values together |
| Jobs.FormatId | java-web-dev-techjobs-mvc/src/main/java/org/launchcode/javawebdevtechjobsmvc/models/Job.java:52-57 | the id can be read back from the block |
| Jobs.FillIfEmpty | java-web-dev-techjobs-mvc/src/main/java/org/launchcode/javawebdevtechjobsmvc/models/Job.java:39-41 | a shared value that was empty holds the placeholder afterwards; a non-empty one is untouched |
| Jobs.Job.constructor | java-web-dev-techjobs-mvc/src/main/java/org/launchcode/javawebdevtechjobsmvc/models/Job.java:17-30 | the job takes the job counter's id, the counter moves on by one, and the five arguments are stored as given |
| Jobs.Job.ToString | java-web-dev-techjobs-mvc/src/main/java/org/launchcode/javawebdevtechjobsmvc/models/Job.java:34-59 | an empty name and every empty categorical value is replaced by the placeholder in the job and in the shared JobFields; non-empty ones are kept; the result is the six-line ID/Name/Employer/Location/Position Type/Core Competency block of the new values |
| Jobs.Job.Equals | java-web-dev-techjobs-mvc/src/main/java/org/launchcode/javawebdevtechjobsmvc/models/Job.java:62-68 | equal exactly when the other job is non-null with the same id, whatever the fields |
| Jobs.Job.SetName | java-web-dev-techjobs-mvc/src/main/java/org/launchcode/javawebdevtechjobsmvc/models/Job.java:86-88 | sets the name; the four JobField references are unchanged and the id is a constant |
| Jobs.Job.SetEmployer | java-web-dev-techjobs-mvc/src/main/java/org/launchcode/javawebdevtechjobsmvc/models/Job.java:94-96 | sets the employer; the name and the other three references are unchanged |
| Jobs.Job.SetLocation | java-web-dev-techjobs-mvc/src/main/java/org/launchcode/javawebdevtechjobsmvc/models/Job.java:102-104 | sets the location; the name and the other three references are unchanged |
| Jobs.Job.SetPositionType | java-web-dev-techjobs-mvc/src/main/java/org/launchcode/javawebdevtechjobsmvc/models/Job.java:110-112 | sets the position type; the name and the other three references are unchanged |
| Jobs.Job.SetCoreCompetency | java-web-dev-techjobs-mvc/src/main/java/org/launchcode/javawebdevtechjobsmvc/models/Job.java:118-120 | sets the core competency; the name and the other three references are unchanged |
| JobData.InternedDistinct | java-web-dev-techjobs-mvc/src/main/java/org/launchcode/javawebdevtechjobsmvc/models/JobData.java:168-191 | no two interned values of a kind are equal ignoring case |
| JobData.InternedCovers | java-web-dev-techjobs-mvc/src/main/java/org/launchcode/javawebdevtechjobsmvc/models/JobData.java:168-191 | every record's value has an interned value equal to it ignoring case |
| JobData.InternedFirstSeen | java-web-dev-techjobs-mvc/src/main/java/org/launchcode/javawebdevtechjobsmvc/models/JobData.java:168-191 | every interned value is, with its casing, the value of the first record of its case-insensitive class |
| JobData.InternedExample | java-web-dev-techjobs-mvc/src/main/java/org/launchcode/javawebdevtechjobsmvc/models/JobData.java:168-191 | records with employers "Acme" and "acme" intern to the one employer "Acme" |
| JobData.FindExistingObject | java-web-dev-techjobs-mvc/src/main/java/org/launchcode/javawebdevtechjobsmvc/models/JobData.java:127-134 | null exactly when no element equals the value ignoring case; otherwise the first such element of the list |
| JobData.GetFieldValue | java-web-dev-techjobs-mvc/src/main/java/org/launchcode/javawebdevtechjobsmvc/models/JobData.java:79-94 | the name, employer, location or position type for those exact names, the core competency for every other string |
| JobData.FilterMembership | java-web-dev-techjobs-mvc/src/main/java/org/launchcode/javawebdevtechjobsmvc/models/JobData.java:67-76 | a job is in a search result exactly when it is in the list and matches |
| JobData.FilterCount | java-web-dev-techjobs-mvc/src/main/java/org/launchcode/javawebdevtechjobsmvc/models/JobData.java:108-122 | a matching job occurs in the result as often as in the list and a non-matching one never, so no job is added twice |
| JobData.FilterSubsequence | java-web-dev-techjobs-mvc/src/main/java/org/launchcode/javawebdevtechjobsmvc/models/JobData.java:67-76 | the result keeps the list's order |
| JobData.FilterDistinct | java-web-dev-techjobs-mvc/src/main/java/org/launchcode/javawebdevtechjobsmvc/models/JobData.java:108-122 | a list without repeated jobs gives a result without repeated jobs |
| JobData.FilterEverything | java-web-dev-techjobs-mvc/src/main/java/org/launchcode/javawebdevtechjobsmvc/models/JobData.java:33-40 | the match-everything query returns the list unchanged |
| JobData.FilterAllMatch | java-web-dev-techjobs-mvc/src/main/java/org/launchcode/javawebdevtechjobsmvc/models/JobData.java:67-76 | a query every job matches returns the list unchanged |
| JobData.EmptyTermMatchesAll | java-web-dev-techjobs-mvc/src/main/java/org/launchcode/javawebdevtechjobsmvc/models/JobData.java:71 | an empty term returns the whole list, in one column and across all fields |
| JobData.SearchAllTermIsFindAll | java-web-dev-techjobs-mvc/src/main/java/org/launchcode/javawebdevtechjobsmvc/models/JobData.java:59-61 | a term that lower-cases to "all" returns the whole list, whatever the column |
| JobData.AnyFieldCases | java-web-dev-techjobs-mvc/src/main/java/org/launchcode/javawebdevtechjobsmvc/models/JobData.java:110-119 | the cross-field match holds exactly when one of the five fields contains the term, ignoring case |
| JobData.InsertByName | java-web-dev-techjobs-mvc/src/main/java/org/launchcode/javawebdevtechjobsmvc/models/JobData.java:208 | inserting into a sorted list adds exactly that element and keeps the list sorted under `compare` |
| JobData.SortByName | java-web-dev-techjobs-mvc/src/main/java/org/launchcode/javawebdevtechjobsmvc/models/JobData.java:208 | the result is a permutation of the input, sorted ascending under `compare` |
| JobData.DistinctReordered | java-web-dev-techjobs-mvc/src/main/java/org/launchcode/javawebdevtechjobsmvc/models/JobData.java:206-228 | sorting a list keeps its values pairwise different ignoring case |
| JobData.IdsIncreasing | java-web-dev-techjobs-mvc/src/main/java/org/launchcode/javawebdevtechjobsmvc/models/Job.java:17-20 | the jobs of a load have strictly increasing, hence distinct, ids while the counter does not wrap |
| JobData.JobStore.constructor | java-web-dev-techjobs-mvc/src/main/java/org/launchcode/javawebdevtechjobsmvc/models/JobData.java:19-26 | the catalogue starts unloaded with `allJobs` null, empty lists and both counters at 1 |
| JobData.JobStore.LoadedListsInterned | java-web-dev-techjobs-mvc/src/main/java/org/launchcode/javawebdevtechjobsmvc/models/JobData.java:160-196 | after a load, sorted or not, each kind's list has no two values equal ignoring case and holds a value equal, ignoring case, to every record's value |
| JobData.JobStore.Answer | java-web-dev-techjobs-mvc/src/main/java/org/launchcode/javawebdevtechjobsmvc/models/JobData.java:139-157 | a search succeeds exactly when loadData returned normally and `allJobs` is not null; otherwise it fails with loadData's exception or a NullPointerException |
| JobData.JobStore.LoadData | java-web-dev-techjobs-mvc/src/main/java/org/launchcode/javawebdevtechjobsmvc/models/JobData.java:139-204 | once loaded, nothing changes; otherwise an empty file throws, an unreadable one changes nothing, and a file with records is loaded: job k is record k with the k-th job id, the lists hold the interned values in first-seen order, and every created JobField carries the field counter's ids in creation order |
| JobData.JobStore.FindAll | java-web-dev-techjobs-mvc/src/main/java/org/launchcode/javawebdevtechjobsmvc/models/JobData.java:33-40 | returns all jobs, in catalogue order, after the load |
| JobData.JobStore.FindByValue | java-web-dev-techjobs-mvc/src/main/java/org/launchcode/javawebdevtechjobsmvc/models/JobData.java:101-125 | returns, in catalogue order, exactly the jobs with a field that contains the value ignoring case |
| JobData.JobStore.FindByColumnAndValue | java-web-dev-techjobs-mvc/src/main/java/org/launchcode/javawebdevtechjobsmvc/models/JobData.java:52-77 | the whole list for a value that lower-cases to "all", the cross-field search for column "all", otherwise the jobs, in order, whose field named by the column contains the value ignoring case |
| JobData.JobStore.SearchAnyField | java-web-dev-techjobs-mvc/src/main/java/org/launchcode/javawebdevtechjobsmvc/models/JobData.java:108-122 | the loop of `findByValue` collects exactly the jobs with a field that contains the value ignoring case, in catalogue order, and changes nothing |
| JobData.JobStore.SearchColumn | java-web-dev-techjobs-mvc/src/main/java/org/launchcode/javawebdevtechjobsmvc/models/JobData.java:67-76 | the loop of `findByColumnAndValue` collects exactly the jobs whose field named by the column contains the value ignoring case, in catalogue order, and changes nothing |
| JobData.JobStore.GetAll | java-web-dev-techjobs-mvc/src/main/java/org/launchcode/javawebdevtechjobsmvc/models/JobData.java:206-228 | the kind's list is left a sorted permutation of its previous contents and is returned itself; the jobs, the counters, the other lists and the created JobFields are unchanged |
| JobData.JobStore.SortValid | java-web-dev-techjobs-mvc/src/main/java/org/launchcode/javawebdevtechjobsmvc/models/JobData.java:208 | sorting one list keeps the catalogue consistent and leaves the other three lists as they were |
| JobData.JobStore.ReorderedIds | java-web-dev-techjobs-mvc/src/main/java/org/launchcode/javawebdevtechjobsmvc/models/JobData.java:208 | sorting one list keeps the ids the load handed out, with that kind's list now any order of its created JobFields |
| JobData.JobStore.SortList | java-web-dev-techjobs-mvc/src/main/java/org/launchcode/javawebdevtechjobsmvc/models/JobData.java:208 | the kind's list becomes a sorted permutation of itself and the other three lists are unchanged |
| JobData.JobStore.LoadRecords | java-web-dev-techjobs-mvc/src/main/java/org/launchcode/javawebdevtechjobsmvc/models/JobData.java:157-198 | from an empty catalogue, loads every record, numbers the jobs and the created JobFields from the two counters, and sets the flag |
| JobData.JobStore.LoadRows | java-web-dev-techjobs-mvc/src/main/java/org/launchcode/javawebdevtechjobsmvc/models/JobData.java:157-196 | the loop leaves the catalogue holding exactly what the records describe, each list in creation order, with the flag still false |
| JobData.JobStore.MarkLoaded | java-web-dev-techjobs-mvc/src/main/java/org/launchcode/javawebdevtechjobsmvc/models/JobData.java:198 | the flag is set after the loop, with the loaded state kept |
| JobData.JobStore.LoadRow | java-web-dev-techjobs-mvc/src/main/java/org/launchcode/javawebdevtechjobsmvc/models/JobData.java:160-196 | one pass of the loop extends the loaded prefix by one record |
| JobData.JobStore.LookupRow | java-web-dev-techjobs-mvc/src/main/java/org/launchcode/javawebdevtechjobsmvc/models/JobData.java:168-171 | each lookup finds an instance exactly when an earlier record interned a value equal to it ignoring case |
| JobData.JobStore.Lookup | java-web-dev-techjobs-mvc/src/main/java/org/launchcode/javawebdevtechjobsmvc/models/JobData.java:168-171 | the lookup of one kind finds an element of that kind's list, equal to the value ignoring case, exactly when such a value was interned before |
| JobData.JobStore.AddRow | java-web-dev-techjobs-mvc/src/main/java/org/launchcode/javawebdevtechjobsmvc/models/JobData.java:173-195 | creates exactly the values that were not found, as fresh objects numbered in creation order (employer, location, core competency, position type), and appends them to their lists; appends a fresh job with the next job id whose fields are the found or created values |
| JobData.JobStore.InternRow | java-web-dev-techjobs-mvc/src/main/java/org/launchcode/javawebdevtechjobsmvc/models/JobData.java:173-191 | each list grows by a fresh value exactly when none was found, and the created values take the next field ids in creation order; existing values are untouched |
| JobData.JobStore.InternValue | java-web-dev-techjobs-mvc/src/main/java/org/launchcode/javawebdevtechjobsmvc/models/JobData.java:173-176 | the found instance, or a fresh one with the value and the next field id, appended to its kind's list and to the record of created JobFields |
| JobData.JobStore.FieldIdsDistinct | java-web-dev-techjobs-mvc/src/main/java/org/launchcode/javawebdevtechjobsmvc/models/JobField.java:7-14 | while the shared field counter does not wrap, no two JobFields in the four lists carry the same id, of the same kind or not |
| JobData.JobStore.CreatedWithinRows | java-web-dev-techjobs-mvc/src/main/java/org/launchcode/javawebdevtechjobsmvc/models/JobData.java:160-191 | a load creates at most four JobFields per record, which meets `FieldIdsDistinct`'s no-wrap hypothesis for any catalogue of fewer than about 5 * 10^8 records |
| JobData.CreatedKindsSum | java-web-dev-techjobs-mvc/src/main/java/org/launchcode/javawebdevtechjobsmvc/models/JobField.java:7-14 | every created JobField is of exactly one of the four kinds |
| JobData.InternedLength | java-web-dev-techjobs-mvc/src/main/java/org/launchcode/javawebdevtechjobsmvc/models/JobData.java:168-191 | each record adds at most one value to a kind's list |
| JobData.JobStore.ListCreated | java-web-dev-techjobs-mvc/src/main/java/org/launchcode/javawebdevtechjobsmvc/models/JobData.java:173-191 | every JobField in a list is one the load created |
| JobData.CreatedOfKindIn | java-web-dev-techjobs-mvc/src/main/java/org/launchcode/javawebdevtechjobsmvc/models/JobData.java:173-191 | a JobField among the created ones of a kind was created and has that kind |
| JobData.RowCreated | java-web-dev-techjobs-mvc/src/main/java/org/launchcode/javawebdevtechjobsmvc/models/JobData.java:173-191 | the JobFields of one kind created by one record are exactly the one value of that kind the record created, if any |

## Left out

- Reading `job_data.csv` is not modelled: `ClassPathResource`, the reader, the RFC 4180 parser and its header handling (JobData.java:149-155) are library code. The file is a parameter, `DataFile`, which is either unreadable or the already-parsed records, five strings each.
- A record with fewer than five fields is not modelled. In the source, `record.get(i)` throws inside the loop (JobData.java:162-166), and `loadData` does not catch that exception, so `isDataLoaded` stays false with the four lists partly built. A later call starts `allJobs` afresh (JobData.java:157), reuses the JobFields already in the four lists (JobData.java:168-171) and throws again at the same record, so the catalogue never loads.
- The unused `headers` array and the column count taken from `records.get(0)` are not modelled. Only the exception that `get(0)` throws on an empty record list is kept.
- The message that `loadData` prints and the stack trace it writes for an `IOException` are left out. The model keeps only the effect: nothing changes.
- A file that cannot be read leaves `allJobs` null, so every later search throws `NullPointerException`. The model follows that code (`Failure(NullPointer)`) rather than returning an empty list.
- Strings.ToLowerCase: maps only 'A'..'Z', not the Unicode and locale rules of Java's `toLowerCase`.
- Strings.CompareTo: compares Unicode scalar values, where Java compares UTF-16 code units. For strings with characters above U+FFFF the sign and the value can differ from Java's: a surrogate pair sorts below U+E000..U+FFFF in Java and above them here.
- JobData.JobStore.LoadData, JobData.JobStore.FindAll, JobData.JobStore.FindByValue, JobData.JobStore.FindByColumnAndValue and JobData.JobStore.GetAll require `Valid`, which ties job k to record k. `Job.toString` writes the placeholder back into the job and its shared JobFields, and the `Job` setters replace fields. Either breaks that tie: after formatting a job with an empty employer, `findByValue("data not available")` finds it, but record k still has the empty value. The model covers only catalogues that no `toString` or setter has changed since the load.
- JobData.JobStore.GetAll: does not restate the ids the load handed out. On a loaded catalogue it keeps the jobs, the counters, the other three lists and the record of created JobFields, and `ReorderedIds` then gives the ids back for the sorted list.
- JobData.JobStore.FindAll, JobData.JobStore.FindByValue and JobData.JobStore.FindByColumnAndValue: do not restate the ids the load handed out. `LoadData` states them, and the searches change nothing after it.
- `String.format`'s `%d` is modelled as a plain decimal rendering (`Jobs.DecimalString`), proved by reading it back. The grouping and locale options of `Formatter` are not modelled.
- `hashCode` and `Objects.hash` are not modelled.
- `null` strings are not modelled. This covers the `aValue != null` test in `findByColumnAndValue` and the `getValue() == null` tests in `toString`, which can only run after `.equals("")` has already dereferenced the value. The no-argument `Job()`, which leaves every field null, is modelled only as the first step of the five-argument constructor.
- `equals` takes a `Job?` or `JobField?` rather than an `Object`. The `instanceof` test is the parameter's type.
- JobData.SortByName: stands for `ArrayList.sort` (a library call). It is an insertion sort, and only "a permutation sorted under NameSorter" is claimed. Stability is not claimed.
- The four `getAll*` accessors differ only in the list they sort. They are one method, `GetAll(kind)`.
- JobData.JobStore.FindAll: returns a sequence, which is a value. That `new ArrayList<>(allJobs)` is a copy, so changing the result cannot change `allJobs`, holds by construction and is not stated separately.
- JobData.JobStore.GetAll: returns a sequence value. Java returns the live list, and a caller that mutates it changes the catalogue; that aliasing is not captured.
- The static fields of `JobData` are fields of one `JobStore` object. The two `static int nextId` counters are `IdCounter` objects passed to the constructors. Concurrent access to the statics from several request threads is not modelled.
- Getters (`getName`, `getEmployer`, `getValue`, `getId`, ...) are field reads in the model.
- The Spring MVC controllers are not part of this model.

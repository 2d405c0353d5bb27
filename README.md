# new_callsigns: record parsing and person aggregation

`new_callsigns` reads the FCC amateur-licence daily files. There are four pipe-delimited data files: header (`HD.dat`), amateur (`AM.dat`), entity (`EN.dat`) and vanity (`VC.dat`). The program builds one person per unique system identifier and prints a table of four attributes per person, optionally filtered on the operator class.

This project models that core in Dafny:

- **Schema** (`Schema.dfy`):
  - the record kinds;
  - the fixed load order header, amateur, entity, vanity;
  - the per-kind `FIELDS` lists, Header's repeated names included;
  - the file name of each kind;
  - the `TRANSFORMS` table (Entity's three name fields are title-cased).
- **Line and file parsing** (`Strings.dfy`, `Records.dfy`):
  - `Record.from_line` pairs `FIELDS` with the `|`-split columns by position, truncating to the shorter side, and a later duplicate name wins;
  - `Record.load_file` reads the file in text mode (universal newlines), splits on `\n`, drops empty lines and parses the rest in order;
  - any OS-level failure to open or read the file becomes `RecordNonexistent`, and undecodable text is a separate error.
- **Field resolution** (`Resolution.dfy`). `Person.__getattr__` is a function over a person value:
  - the buckets are scanned in creation order;
  - non-empty values from the records of a bucket are collected in append order, each passed through its kind's transform;
  - the `", "`-join of the first bucket that yields anything is returned, or the `"-"` default when none does;
  - `Lookup` keeps "no value" as `None`, and `Resolve` renders it as `"-"`.
- **Aggregation** (`Collection.dfy`, `Aggregator.dfy`):
  - the value-level `Directory` (identifier order plus persons) with `Insert`, `InsertAll` (`People.load_records`) and `Build` (`People.from_folder`);
  - the classes `Person` and `People`, whose methods update their fields in place and are proved against those functions.
- **Report** (`Report.dfy`): the row loop of `print_data`:
  - one row per person in identifier order, holding `entity_name`, `call_sign`, `operator_class` and `requested_call_sign`;
  - when the operator-class option is given and non-empty, only people whose resolved operator class equals it.

These parts are inputs rather than I/O:

- A data folder is a map from file name to what reading that file yields: decoded text, an OS error, or a decoding error. A missing name is a missing file.
- Python's dictionary order is modelled by explicit order sequences: `Person.order` for buckets and `People.ids` for persons.
- A record without a `unique_system_identifier` column makes `load_records` raise `AttributeError`. The model returns the `MissingIdentifier` error in its place. The records inserted before it stay inserted, and `from_folder` does not catch the error.

Error handling:

- `load_file` maps every `IOError` raised while opening or reading to `RecordNonexistentException`: a missing file, a permission failure, a directory in place of a file. `from_folder` skips all of them.
- A `UnicodeDecodeError` is not an `IOError`, so an undecodable file ends `from_folder` with an error.

## Model

| member | source | states |
|---|---|---|
| Strings.Split | main.py:110 | `str.split` on one character always yields at least one piece, and no piece contains the separator |
| Strings.JoinSplit | main.py:110 | joining the pieces of a split with the separator gives back the original string |
| Strings.SplitJoin | main.py:119 | splitting the join of separator-free pieces gives back exactly those pieces |
| Strings.SplitAtSeparator | main.py:110 | splitting `a + sep + b` yields the pieces of `a` followed by the pieces of `b` |
| Strings.SplitTrailingSeparator | main.py:119 | a trailing separator adds exactly one empty last piece |
| Strings.SplitSeparatorFreePrefix | main.py:110 | a separator-free prefix joins the first piece of the rest and leaves the other pieces as they were |
| Schema.Rank | main.py:23-28 | every kind has a position in the load order, and that position names the kind |
| Schema.FileNamesDistinct | main.py:115 | two kinds read the same `.dat` file exactly when they are the same kind |
| Schema.LeadingColumns | main.py:127-257 | every kind's field list has column 0 `record_type` and column 1 `unique_system_identifier` |
| Schema.IdentifierOnlyInColumnOne | main.py:127-257 | no field list names `unique_system_identifier` at any column but 1 |
| Schema.HeaderDuplicateNames | main.py:129-180 | the Header list has 50 names: `reserved` exactly at 11 and 20, `broadcast_services` exactly at 45 and 47 |
| Schema.TransformOnlyOnEntityNames | main.py:239-243 | a value is changed by its transform only for Entity's `entity_name`, `first_name` and `last_name` |
| Schema.Fields | main.py:127-257 | each kind's `FIELDS` list in column order; `LeadingColumns`, `IdentifierOnlyInColumnOne` and `HeaderDuplicateNames` pin down the columns the model relies on |
| Schema.Transform | main.py:85-86 | a value read from a record goes through its kind's transform when the table lists the field, and is otherwise returned as stored (`TransformOnlyOnEntityNames`) |
| Schema.Titleize | main.py:239-243 | the stand-in for `titleize` keeps the length of its input; `TitleizeWords` gives its meaning on names |
| Schema.CapitalizeWordsPointwise | main.py:239-243 | on letters and spaces, a letter is upper case exactly when it starts a word and lower case otherwise; spaces are kept |
| Schema.TitleizeWords | main.py:239-243 | a name of letters and spaces comes out with every word capitalised and the rest of each word in lower case |
| Schema.TitleizeIdempotent | main.py:239-243 | on names of letters and spaces, title-casing an already title-cased value changes nothing |
| Records.Zip | main.py:110 | the dict comprehension over `zip(FIELDS, columns)`; `ZipKeys`, `ZipValue`, `ZipFields` and `DuplicateNameLaterWins` give its keys and values |
| Records.FromLine | main.py:109-111 | a record of the given kind whose fields are the zip of the kind's `FIELDS` with the `|`-split line; specified by `ZipFields`, `FromLineIdentifier`, `FromLineDropsExtraColumns` and `HeaderLaterDuplicateWins` |
| Records.ZipKeys | main.py:110 | a name is a key of the record exactly when it is the field name of some column below min(#columns, #fields) |
| Records.ZipValue | main.py:110 | a name that does not reappear later within the paired prefix maps to its own column |
| Records.ZipFields | main.py:109-111 | the keys are exactly the first min(#columns, #fields) names, and each name's last occurrence there holds its column, so missing columns are absent and never an error |
| Records.DuplicateNameLaterWins | main.py:110 | a name listed twice takes the later column when the line has it, else the earlier column, else is absent |
| Records.HeaderLaterDuplicateWins | main.py:109-111 | on a Header line, `reserved` holds column 20 (else 11) and `broadcast_services` column 47 (else 45), each when present |
| Records.ZipIgnoresExtraColumns | main.py:110 | columns beyond the field list do not change the record |
| Records.FromLineDropsExtraColumns | main.py:109-111 | a line that already fills the field list parses the same with any `|`-suffix appended |
| Records.FromLineIdentifier | main.py:109-111 | a parsed record has an identifier exactly when its line has a second column, and the identifier is that column |
| Records.UniversalNewlines | main.py:117 | text read in text mode contains no carriage return; the three lemmas below say what it does with each line end |
| Records.UniversalNewlinesPlain | main.py:117 | text without a carriage return is read unchanged |
| Records.UniversalNewlinesCrLf | main.py:117 | a `\r\n` line end is read as a single `\n`, and the text before it is unchanged |
| Records.UniversalNewlinesLoneCr | main.py:117 | a `\r` not followed by `\n` is read as `\n`, and the text before it is unchanged |
| Records.NonEmptyLines | main.py:119-121 | every kept line is non-empty and one of the input lines, and none are invented |
| Records.NonEmptyLinesSingle | main.py:120 | a single line is kept exactly when it is non-empty |
| Records.NonEmptyLinesAppend | main.py:119-121 | dropping empty lines commutes with concatenation, so file order is kept |
| Records.NonEmptyLinesCount | main.py:119-121 | the number of kept lines is the number of lines minus the number of empty ones |
| Records.ParseLinesPointwise | main.py:119-121 | one record per kept line, record i being line i parsed as the file's kind |
| Records.FileOfLines | main.py:118-122 | the records of a file whose text is newline-separated lines are those lines, empty ones dropped, parsed in order |
| Records.TrailingNewlineIgnored | main.py:119-120 | a trailing newline adds no record |
| Records.ParseFile | main.py:118-122 | the records of a file's text: its non-empty `\n`-separated lines parsed in order (`FileOfLines`, `TrailingNewlineIgnored`, `ParseLinesPointwise`) |
| Records.ParseLines | main.py:119-121 | each non-empty line becomes one record of the kind, in order (`ParseLinesPointwise`) |
| Records.Load | main.py:114-125 | what `load_file` yields for each way reading the kind's file can end; `LoadFile` is proved equal to it |
| Records.ParseText | main.py:118-122 | the parsing loop returns the records of the file's non-empty lines in order, all of the file's kind |
| Records.LoadFile | main.py:114-125 | `load_file` returns the file's records, each of its kind; an unreadable or missing file is `RecordNonexistent` and undecodable text `Undecodable`, with no other failure |
| Resolution.AddRecord | main.py:68-69 | `add_record` on a person value; `AddRecordEffect` states its effect |
| Resolution.Candidates | main.py:79-87 | the `entries` of one bucket; `CandidatesEmpty` and `CandidatesAreTransformedValues` give its contents |
| Resolution.First | main.py:78-90 | the scan over buckets with its `break`; `FirstNone`, `FirstPicksEarliest` and `LaterBucketsIgnored` give its result |
| Resolution.Lookup | main.py:75-91 | the value of `val` after the scan, `None` when nothing was found (`ResolveDefault`) |
| Resolution.Resolve | main.py:75-93 | `__getattr__`: the found value or `"-"` (`ResolveDefault`, `ResolveFirstBucket`, `StoredDashLooksLikeDefault`); `Person.Get` is proved equal to it |
| Resolution.AddRecordEffect | main.py:68-69 | adding a record keeps the person well formed, appends to its kind's bucket (created on first use, and only then added to the bucket order) and leaves the other buckets unchanged |
| Resolution.CandidatesEmpty | main.py:79-87 | a bucket yields no entries exactly when none of its records has a non-empty value for the field |
| Resolution.CandidatesAreTransformedValues | main.py:79-87 | a bucket's entries are, in append order, the transformed values of exactly the records with a non-empty value; the emptiness test precedes the transform |
| Resolution.FirstNone | main.py:78-90 | the scan finds nothing exactly when no record in any bucket has a non-empty value for the field |
| Resolution.FirstPicksEarliest | main.py:78-90 | the result is the `", "`-join of the entries of the first bucket that has any |
| Resolution.LaterBucketsIgnored | main.py:88-90 | once a bucket yields a value, appending later buckets does not change the result |
| Resolution.ResolveDefault | main.py:75-93 | the lookup is "no value" exactly when no record holds a non-empty value, and then the result is `"-"` |
| Resolution.ResolveFirstBucket | main.py:78-90 | on a person, the value is the join of the first bucket, in creation order, that yields any entries |
| Resolution.StoredDashLooksLikeDefault | main.py:76-93 | a stored value `"-"` resolves to the same string as the missing-value default |
| Collection.Insert | main.py:58-59 | `people[id].add_record(k, r)` on the collection value; `InsertBucket`, `InsertEffect` and `InsertWellFormed` state its effect |
| Collection.InsertAll | main.py:57-59 | `load_records`' loop over one file's records; `InsertAllAt`, `InsertAllBuckets`, `InsertAllIds` and `InsertAllWellFormed` state its effect |
| Collection.BuildFrom | main.py:48-52 | the `from_folder` loop over a list of kinds; `BuildFromStep`, `BuildFromBuckets`, `BuildFromFails` and `BuildFromIds` state its result |
| Collection.Build | main.py:46-53 | `from_folder` over the four kinds in load order; `BuildBuckets`, `BuildPersons`, `BuildIds`, `BuildFails` and `BuildOrdered` state its result |
| Collection.InsertBucket | main.py:58-59 | inserting appends the record to exactly one bucket of one person; every other bucket is unchanged |
| Collection.InsertEffect | main.py:58-59 | the record becomes the last of its bucket; other buckets and persons are unchanged; a new identifier is appended to the order with a person holding just that record |
| Collection.InsertWellFormed | main.py:58-59 | inserting keeps identifiers distinct, the order and the persons in step, and every person well formed |
| Collection.InsertAllAt | main.py:57-59 | the loop stops at a record without an identifier, and otherwise inserts it and continues with the rest |
| Collection.InsertAllWellFormed | main.py:55-59 | loading a file's records keeps the collection well formed |
| Collection.InsertAllBuckets | main.py:57-59 | after loading a fully identified file of one kind, each person's bucket of that kind has gained exactly its own records in file order; buckets of other kinds are unchanged |
| Collection.BuildFromWellFormed | main.py:46-53 | building from a well-formed collection yields a well-formed collection |
| Collection.BuildFromStep | main.py:48-52 | one kind's step skips an unreadable file and otherwise inserts the file's records; a build that succeeds had every record identified |
| Collection.BuildFromBuckets | main.py:46-53 | building over kinds from position s on adds, to each bucket of a kind at or after s, exactly that person's records of that kind's file |
| Collection.BuildBuckets | main.py:46-53 | in the built collection each person's bucket of each kind holds exactly its records from that kind's file, in file order, and an unreadable kind has no bucket at all |
| Collection.InsertPopulated | main.py:58-59 | inserting keeps every person holding at least one bucket |
| Collection.InsertAllPopulated | main.py:57-59 | loading a file's records keeps every person holding at least one bucket |
| Collection.BuildFromPopulated | main.py:48-52 | the build steps keep every person holding at least one bucket |
| Collection.BuildPersons | main.py:58 | the built collection has a person for an identifier exactly when some loaded file has a record with that identifier |
| Collection.Arrive | main.py:58 | the identifier order after one record: its identifier is appended unless it is missing or already listed, as the defaulting dictionary's key order does |
| Collection.Arrivals | main.py:57-58 | the identifiers of a sequence of records, in order of first appearance, after those already listed |
| Collection.ArrivalsMember | main.py:57-58 | an identifier is listed after the records exactly when it was listed before or some record carries it |
| Collection.ArrivalsExtends | main.py:57-58 | identifiers already listed keep their places, and new ones only go after them |
| Collection.ArrivalsAppend | main.py:57-58 | listing after two runs of records equals listing after the first run and then the second |
| Collection.InsertAllIds | main.py:57-59 | loading one kind's records appends their new identifiers in order of first appearance |
| Collection.LoadedRecords | main.py:48-52 | the records of the readable files among a list of kinds, file after file |
| Collection.BuildFromIds | main.py:48-52 | the build steps list their records' identifiers in order of first appearance, after those already listed |
| Collection.BuildIds | main.py:46-59 | the built collection lists identifiers in the order they are first seen, reading header, amateur, entity and vanity each top to bottom, which is the row order of the table |
| Collection.BuildFromFails | main.py:48-52 | building over a list of kinds fails exactly when one kind's file is undecodable or has a record without an identifier |
| Collection.BuildFails | main.py:46-53 | `from_folder` fails exactly when some kind is fatal; missing or unreadable files never make it fail |
| Collection.AddRecordOrdered | main.py:68-69 | adding a record of kind k to a person whose buckets are in load order and below k's successor keeps them so |
| Collection.InsertOrdered | main.py:58-59 | inserting a record of kind k keeps every person's buckets in load order |
| Collection.InsertAllOrdered | main.py:57-59 | loading one kind's file keeps every person's buckets in load order |
| Collection.BuildFromOrdered | main.py:48-52 | the remaining build steps keep every person's buckets in load order |
| Collection.BuildOrdered | main.py:23-28 | in the built collection every person's buckets come in the order header, amateur, entity, vanity |
| Aggregator.Person.constructor | main.py:65-66 | a new person has no buckets |
| Aggregator.Person.AddRecord | main.py:68-69 | the person's new state is the value-level `AddRecord` of its old state |
| Aggregator.Person.Get | main.py:75-93 | the nested scan with early `break` returns exactly the resolved value of the field |
| Aggregator.People.constructor | main.py:42-43 | a new collection is empty and valid |
| Aggregator.People.Insert | main.py:58-59 | the defaulting dictionary access plus `add_record` changes the collection exactly as `Insert`, keeping the objects in step with the value |
| Aggregator.People.AddToExisting | main.py:58-59 | for a known identifier only that person's object changes, by `Insert`; no object is created |
| Aggregator.People.AddNew | main.py:43 | for a new identifier a fresh person is created, takes the record and is appended to the order, as `Insert` says |
| Aggregator.People.InsertAt | main.py:57-59 | one turn of the loop either inserts record i or reports that it has no identifier, leaving the collection unchanged |
| Aggregator.People.InsertRecords | main.py:57-59 | the loop leaves the collection as `InsertAll` says and reports `MissingIdentifier` exactly when some record lacks an identifier |
| Aggregator.People.LoadRecords | main.py:55-59 | `load_records` returns the file's loading error with the collection unchanged, or inserts its records as `InsertAll` says |
| Aggregator.People.FromFolder | main.py:46-53 | `from_folder` returns a fresh valid collection equal to `Build`, or the same error `Build` gives |
| Report.Row | main.py:374-376 | the four resolved attributes of one person in column order (`PersonRow` is proved equal to it) |
| Report.Keep | main.py:372-373 | the operator-class test: an absent or empty option keeps everyone, otherwise the resolved operator class must equal it |
| Report.Rows | main.py:370-377 | the table of a collection; `RowsOfSelected`, `UnfilteredListsEveryone`, `FilteredRowsMatch` and `MatchingPersonListed` give its contents |
| Report.SelectedMember | main.py:371-373 | a person is listed exactly when it is in the collection and the filter keeps it |
| Report.RowsOfSelected | main.py:370-377 | the table has, in order, one row per listed person, holding that person's resolved attributes |
| Report.UnfilteredSelectsEveryone | main.py:372 | with no or an empty operator-class option, every identifier is selected, in order |
| Report.UnfilteredListsEveryone | main.py:370-377 | with no or an empty operator-class option, row i is the row of the i-th identifier, for every identifier |
| Report.FilteredRowsMatch | main.py:372-377 | with an operator class given, every row has four columns and shows exactly that operator class |
| Report.MatchingPersonListed | main.py:371-377 | with an operator class given, every person whose resolved operator class equals it has its row in the table |
| Report.RowsOfSnoc | main.py:371-377 | one more identifier adds its row exactly when its person is listed |
| Report.PersonRow | main.py:374-376 | the inner loop builds the four resolved attributes in column order |
| Report.KeptRows | main.py:372-377 | the i-th person contributes its row exactly when the filter keeps it |
| Report.Table | main.py:363-377 | the loop's output is the full table of the collection: listed persons in identifier order, four resolved attributes each |

## Left out

- The download from the FCC site and the FCC search API (main.py:259-263, main.py:311-344): network I/O.
- Extracting the zip archive and the "incomplete zipfile" entry-count check (main.py:355-361): archive handling. The folder of data files is a parameter.
- Argument parsing, logging, `tabulate` printing and `clean` (main.py:265-309, main.py:378-394): command-line and filesystem plumbing. The table is returned as rows and not printed.
- The default day from `datetime.now()` (main.py:346-350): clock dependence, and only the archive name depends on it.
- `camelize` and the `globals()` class lookup: replaced by the `Kind` datatype.
- Schema.Titleize: an ASCII approximation of `inflection.titleize`, which is a library outside this repository. It lower-cases, turns `_` into spaces and upper-cases the first letter of each run of letters. It agrees with the library on names made of letters and spaces whose words are either all capitals or have no capital after their first letter, which covers the FCC's upper-case names. Elsewhere it differs:
  - a hyphen is kept, so `smith-jones` gives `Smith-Jones` where the library gives `Smith Jones`;
  - a letter after an apostrophe starts a word, so `o'brien` gives `O'Brien` where the library gives `O'brien`;
  - a capital after a digit or a lower-case letter starts no new word, so `1St` and `McDonald` stay whole where the library gives `1 St` and `Mc Donald`;
  - the library's humanize step (dropping a trailing `_id`) and non-ASCII case mapping are not modelled.

  The library is not idempotent on such text (`1st` gives `1St`, which gives `1 St`). Idempotence is therefore stated only on letters and spaces.
- Python's `hasattr` is also true for class attributes such as `FIELDS` or `TRANSFORMS`. The model treats queried names as field names only: a record is its field map.
- `People.__str__` (main.py:61-62): it uses a nonexistent attribute and would fail if called.
- `Amateur.__str__` and `Entity.__str__`: not used by the core.
- The `Person.id` property (main.py:71-73): it is resolution of `unique_system_identifier`, which `Resolution.Resolve` already covers.
- Byte decoding: a file's content is given as decoded text or as a decoding failure, and the encoding itself is not modelled.
- The text of exception messages: errors are values of `Error` carrying the file name or the kind.

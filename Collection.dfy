/**
 * The people collection as a value: every person keyed by unique system
 * identifier, in the order the identifiers were first seen, and how loading
 * the four data files builds it.
 */
module Collection {
  import opened Wrappers
  import opened Schema
  import opened Records
  import opened Resolution

  /** `ids` is the dictionary's insertion order; `persons` its contents. */
  datatype Directory = Directory(ids: seq<string>, persons: map<string, PersonState>)

  const EmptyDirectory: Directory := Directory([], map[])

  ghost predicate WellFormedDirectory(d: Directory)
  {
    && Distinct(d.ids)
    && (forall id :: id in d.persons <==> id in d.ids)
    && (forall id :: id in d.persons ==> WellFormedPerson(d.persons[id]))
  }

  /** `people[id].add_record(k, r)`: the person is created empty on first use of `id`. */
  function Insert(d: Directory, id: string, k: Kind, r: Record): (d1: Directory)
  {
    if id in d.persons then Directory(d.ids, d.persons[id := AddRecord(d.persons[id], k, r)])
    else Directory(d.ids + [id], d.persons[id := AddRecord(EmptyPerson, k, r)])
  }

  /** The records of kind `k` held by person `id`; empty when there are none. */
  function Bucket(d: Directory, id: string, k: Kind): (bucket: seq<Record>)
  {
    if id in d.persons && k in d.persons[id].buckets then d.persons[id].buckets[k] else []
  }

  /** Inserting changes exactly one bucket, by appending the record. */
  lemma InsertBucket(d: Directory, id: string, k: Kind, r: Record, id': string, k': Kind)
    ensures Bucket(Insert(d, id, k, r), id', k') == Bucket(d, id', k') + (if id' == id && k' == k then [r] else [])
  {
  }

  lemma InsertWellFormed(d: Directory, id: string, k: Kind, r: Record)
    requires WellFormedDirectory(d)
    ensures WellFormedDirectory(Insert(d, id, k, r))
  {
    var p := if id in d.persons then d.persons[id] else EmptyPerson;
    AddRecordEffect(p, k, r);
    var d' := Insert(d, id, k, r);
    if id !in d.persons {
      assert id !in d.ids;
      assert forall i :: 0 <= i < |d.ids| ==> d'.ids[i] == d.ids[i];
    }
  }

  /**
   * Inserting a record makes it the last of its person's bucket for its kind
   * and changes no other bucket of that or any other person; a new identifier
   * is appended to the order with a person holding just that record.
   */
  lemma InsertEffect(d: Directory, id: string, k: Kind, r: Record)
    ensures var d' := Insert(d, id, k, r);
      && Bucket(d', id, k) == Bucket(d, id, k) + [r]
      && (forall id', k' :: id' != id || k' != k ==> Bucket(d', id', k') == Bucket(d, id', k'))
      && (forall id' :: id' != id && id' in d.persons ==> id' in d'.persons && d'.persons[id'] == d.persons[id'])
      && d'.ids == (if id in d.persons then d.ids else d.ids + [id])
      && (id !in d.persons ==> d'.persons[id] == PersonState([k], map[k := [r]]))
  {
    forall id', k' ensures Bucket(Insert(d, id, k, r), id', k') == Bucket(d, id', k') + (if id' == id && k' == k then [r] else []) {
      InsertBucket(d, id, k, r, id', k');
    }
  }

  predicate AllIdentified(rs: seq<Record>)
  {
    forall i :: 0 <= i < |rs| ==> Identifier(rs[i]).Some?
  }

  /**
   * `load_records`' loop: each record in turn goes to the person named by its
   * identifier. A record without one raises, so nothing after it is inserted.
   */
  function InsertAll(d: Directory, k: Kind, rs: seq<Record>): (d1: Directory)
    decreases |rs|
  {
    if rs == [] then d
    else match Identifier(rs[0])
      case None => d
      case Some(id) => InsertAll(Insert(d, id, k, rs[0]), k, rs[1..])
  }

  /** One step of `InsertAll` taken at position `i` of the file. */
  lemma InsertAllAt(d: Directory, k: Kind, rs: seq<Record>, i: nat)
    requires i < |rs|
    ensures Identifier(rs[i]).None? ==> InsertAll(d, k, rs[i..]) == d
    ensures Identifier(rs[i]).Some? ==>
      InsertAll(d, k, rs[i..]) == InsertAll(Insert(d, Identifier(rs[i]).value, k, rs[i]), k, rs[i + 1..])
  {
    assert rs[i..][0] == rs[i];
    assert rs[i..][1..] == rs[i + 1..];
  }

  /** The suffix from `i` on is fully identified exactly when record `i` is and the rest is. */
  lemma AllIdentifiedAt(rs: seq<Record>, i: nat)
    requires i < |rs|
    ensures AllIdentified(rs[i..]) <==> Identifier(rs[i]).Some? && AllIdentified(rs[i + 1..])
  {
    assert rs[i..][0] == rs[i];
    assert forall j :: 1 <= j < |rs| - i ==> rs[i..][j] == rs[i + 1..][j - 1];
  }

  /** The records that belong to person `id`, in order. */
  function Matching(rs: seq<Record>, id: string): (mine: seq<Record>)
    decreases |rs|
  {
    if rs == [] then []
    else (if Identifier(rs[0]) == Some(id) then [rs[0]] else []) + Matching(rs[1..], id)
  }

  lemma {:induction false} InsertAllWellFormed(d: Directory, k: Kind, rs: seq<Record>)
    requires WellFormedDirectory(d)
    ensures WellFormedDirectory(InsertAll(d, k, rs))
    decreases |rs|
  {
    if rs != [] && Identifier(rs[0]).Some? {
      InsertWellFormed(d, Identifier(rs[0]).value, k, rs[0]);
      InsertAllWellFormed(Insert(d, Identifier(rs[0]).value, k, rs[0]), k, rs[1..]);
    }
  }

  /**
   * After loading a file of kind `k` whose records all have identifiers, each
   * person's `k` bucket has gained exactly that person's records, in file
   * order, and no other bucket has changed.
   */
  lemma {:induction false} InsertAllBuckets(d: Directory, k: Kind, rs: seq<Record>, id: string, k': Kind)
    requires AllIdentified(rs)
    ensures Bucket(InsertAll(d, k, rs), id, k') == Bucket(d, id, k') + (if k' == k then Matching(rs, id) else [])
    decreases |rs|
  {
    if rs == [] {
      assert InsertAll(d, k, rs) == d;
    } else {
      var id0 := Identifier(rs[0]).value;
      var d1 := Insert(d, id0, k, rs[0]);
      assert InsertAll(d, k, rs) == InsertAll(d1, k, rs[1..]);
      assert AllIdentified(rs[1..]) by {
        assert forall i :: 0 <= i < |rs| - 1 ==> rs[1..][i] == rs[i + 1];
      }
      InsertBucket(d, id0, k, rs[0], id, k');
      InsertAllBuckets(d1, k, rs[1..], id, k');
      var here := if Identifier(rs[0]) == Some(id) then [rs[0]] else [];
      assert Matching(rs, id) == here + Matching(rs[1..], id);
      if k' == k {
        calc {
          Bucket(InsertAll(d, k, rs), id, k');
          Bucket(d1, id, k') + Matching(rs[1..], id);
          Bucket(d, id, k') + here + Matching(rs[1..], id);
          Bucket(d, id, k') + Matching(rs, id);
        }
      }
    }
  }

  /** The outcome of loading each kind's file. */
  type Loads = Kind -> Result<seq<Record>, Error>

  /** What `load_file` gives for each kind when reading `folder`. */
  function Outcomes(folder: Folder): (loads: Loads)
  {
    k => Load(k, folder)
  }

  /** `People.from_folder` from `d` on: load each kind in turn, skipping a kind whose file cannot be read. */
  function BuildFrom(d: Directory, loads: Loads, kinds: seq<Kind>): (built: Result<Directory, Error>)
    decreases |kinds|
  {
    if kinds == [] then Success(d)
    else
      var k := kinds[0];
      match loads(k)
      case Failure(RecordNonexistent(_)) => BuildFrom(d, loads, kinds[1..])
      case Failure(e) => Failure(e)
      case Success(rs) =>
        if AllIdentified(rs) then BuildFrom(InsertAll(d, k, rs), loads, kinds[1..])
        else Failure(MissingIdentifier(k))
  }

  /** `People.from_folder`: all four kinds, header first. */
  function Build(folder: Folder): (built: Result<Directory, Error>)
  {
    BuildFrom(EmptyDirectory, Outcomes(folder), RecordTypes)
  }

  /** What loading kind `k` contributes to person `id`: its matching records, or nothing if the file was unreadable. */
  function Loaded(loads: Loads, k: Kind, id: string): (mine: seq<Record>)
  {
    match loads(k)
    case Success(rs) => Matching(rs, id)
    case Failure(_) => []
  }

  /** A kind whose load ends the build: undecodable text, or a record without an identifier. */
  predicate Fatal(loads: Loads, k: Kind)
  {
    match loads(k)
    case Failure(e) => !e.RecordNonexistent?
    case Success(rs) => !AllIdentified(rs)
  }

  lemma {:induction false} BuildFromWellFormed(d: Directory, loads: Loads, kinds: seq<Kind>)
    requires WellFormedDirectory(d)
    ensures BuildFrom(d, loads, kinds).Success? ==> WellFormedDirectory(BuildFrom(d, loads, kinds).value)
    decreases |kinds|
  {
    if kinds != [] {
      var k := kinds[0];
      match loads(k)
      case Failure(_) =>
        BuildFromWellFormed(d, loads, kinds[1..]);
      case Success(rs) =>
        InsertAllWellFormed(d, k, rs);
        BuildFromWellFormed(InsertAll(d, k, rs), loads, kinds[1..]);
    }
  }

  /** One step of a successful build: the first kind is skipped or inserted in full. */
  lemma BuildFromStep(d: Directory, loads: Loads, kinds: seq<Kind>)
    requires kinds != [] && BuildFrom(d, loads, kinds).Success?
    ensures var loaded := loads(kinds[0]);
      && (loaded.Failure? ==> BuildFrom(d, loads, kinds) == BuildFrom(d, loads, kinds[1..]))
      && (loaded.Success? ==> BuildFrom(d, loads, kinds) == BuildFrom(InsertAll(d, kinds[0], loaded.value), loads, kinds[1..]))
      && (loaded.Success? ==> AllIdentified(loaded.value))
  {
  }

  /** One step of a successful build, seen through the buckets: kind `s` adds its matching records. */
  lemma BuildFromStepBuckets(d: Directory, loads: Loads, s: nat) returns (d1: Directory)
    requires s < |RecordTypes| && BuildFrom(d, loads, RecordTypes[s..]).Success?
    ensures BuildFrom(d1, loads, RecordTypes[s + 1..]) == BuildFrom(d, loads, RecordTypes[s..])
    ensures forall id, k :: Bucket(d1, id, k) == Bucket(d, id, k) + (if k == RecordTypes[s] then Loaded(loads, k, id) else [])
  {
    var kinds, k0 := RecordTypes[s..], RecordTypes[s];
    assert kinds[0] == k0 && kinds[1..] == RecordTypes[s + 1..];
    BuildFromStep(d, loads, kinds);
    match loads(k0)
    case Failure(_) =>
      d1 := d;
      forall id, k
        ensures Bucket(d1, id, k) == Bucket(d, id, k) + (if k == k0 then Loaded(loads, k, id) else [])
      {
        assert Bucket(d, id, k) + [] == Bucket(d, id, k);
      }
    case Success(rs) =>
      d1 := InsertAll(d, k0, rs);
      forall id, k
        ensures Bucket(d1, id, k) == Bucket(d, id, k) + (if k == k0 then Loaded(loads, k, id) else [])
      {
        InsertAllBuckets(d, k0, rs, id, k);
      }
  }

  /**
   * Regrouping of a bucket and its two additions. Stated on its own so that
   * the step in `BuildFromBuckets` does not search the sequence axioms.
   */
  lemma Associative<T>(a: seq<T>, b: seq<T>, c: seq<T>)
    ensures (a + b) + c == a + (b + c)
  {
  }

  lemma {:induction false} BuildFromBuckets(d: Directory, loads: Loads, s: nat, id: string, k: Kind)
    requires s <= |RecordTypes|
    requires BuildFrom(d, loads, RecordTypes[s..]).Success?
    ensures Bucket(BuildFrom(d, loads, RecordTypes[s..]).value, id, k) ==
      Bucket(d, id, k) + (if s <= Rank(k) then Loaded(loads, k, id) else [])
    decreases |RecordTypes| - s
  {
    if s < |RecordTypes| {
      var k0 := RecordTypes[s];
      assert Rank(k0) == s;
      assert k != k0 ==> Rank(k) != s;
      var d1 := BuildFromStepBuckets(d, loads, s);
      BuildFromBuckets(d1, loads, s + 1, id, k);
      var here := if k == k0 then Loaded(loads, k, id) else [];
      var later := if s + 1 <= Rank(k) then Loaded(loads, k, id) else [];
      assert here + later == (if s <= Rank(k) then Loaded(loads, k, id) else []);
      Associative(Bucket(d, id, k), here, later);
    } else {
      assert RecordTypes[s..] == [];
      assert Bucket(d, id, k) + [] == Bucket(d, id, k);
    }
  }

  /**
   * After a successful build, person `id`'s bucket of kind `k` holds exactly
   * the records of `k`'s file whose identifier is `id`, in file order; when the
   * file could not be read, the person has no bucket of that kind.
   */
  lemma BuildBuckets(folder: Folder, id: string, k: Kind)
    requires Build(folder).Success?
    ensures var d := Build(folder).value;
      && Bucket(d, id, k) == Loaded(Outcomes(folder), k, id)
      && (Load(k, folder).Failure? ==> id !in d.persons || k !in d.persons[id].buckets)
  {
    BuildFromWellFormed(EmptyDirectory, Outcomes(folder), RecordTypes);
    assert RecordTypes[0..] == RecordTypes;
    BuildFromBuckets(EmptyDirectory, Outcomes(folder), 0, id, k);
    var d := Build(folder).value;
    if id in d.persons && k in d.persons[id].buckets {
      assert d.persons[id].buckets[k] != [];
    }
  }

  /** Every person holds at least one bucket: persons are only created by inserting a record. */
  ghost predicate Populated(d: Directory)
  {
    forall id :: id in d.persons ==> d.persons[id].order != []
  }

  lemma InsertPopulated(d: Directory, id: string, k: Kind, r: Record)
    requires Populated(d)
    ensures Populated(Insert(d, id, k, r))
  {
    var d' := Insert(d, id, k, r);
    forall id' | id' in d'.persons
      ensures d'.persons[id'].order != []
    {
      if id' == id {
        var p := if id in d.persons then d.persons[id] else EmptyPerson;
        assert d'.persons[id] == AddRecord(p, k, r);
      }
    }
  }

  lemma {:induction false} InsertAllPopulated(d: Directory, k: Kind, rs: seq<Record>)
    requires Populated(d)
    ensures Populated(InsertAll(d, k, rs))
    decreases |rs|
  {
    if rs != [] && Identifier(rs[0]).Some? {
      var id := Identifier(rs[0]).value;
      InsertPopulated(d, id, k, rs[0]);
      InsertAllPopulated(Insert(d, id, k, rs[0]), k, rs[1..]);
    }
  }

  lemma {:induction false} BuildFromPopulated(d: Directory, loads: Loads, kinds: seq<Kind>)
    requires Populated(d)
    ensures BuildFrom(d, loads, kinds).Success? ==> Populated(BuildFrom(d, loads, kinds).value)
    decreases |kinds|
  {
    if kinds != [] {
      var k := kinds[0];
      match loads(k)
      case Failure(_) =>
        BuildFromPopulated(d, loads, kinds[1..]);
      case Success(rs) =>
        InsertAllPopulated(d, k, rs);
        BuildFromPopulated(InsertAll(d, k, rs), loads, kinds[1..]);
    }
  }

  /**
   * The built collection has a person for an identifier exactly when some
   * loaded file has a record with that identifier.
   */
  lemma BuildPersons(folder: Folder, id: string)
    requires Build(folder).Success?
    ensures id in Build(folder).value.persons <==> exists k :: Loaded(Outcomes(folder), k, id) != []
  {
    var d := Build(folder).value;
    BuildFromWellFormed(EmptyDirectory, Outcomes(folder), RecordTypes);
    BuildFromPopulated(EmptyDirectory, Outcomes(folder), RecordTypes);
    if id in d.persons {
      var k := d.persons[id].order[0];
      assert k in d.persons[id].buckets && Bucket(d, id, k) != [];
      BuildBuckets(folder, id, k);
    }
    forall k | Loaded(Outcomes(folder), k, id) != []
      ensures id in d.persons
    {
      BuildBuckets(folder, id, k);
    }
  }

  /** `ids` extended by the identifier of `r` unless it is missing or already listed. */
  function Arrive(ids: seq<string>, r: Record): (ids': seq<string>)
  {
    match Identifier(r)
    case None => ids
    case Some(id) => if id in ids then ids else ids + [id]
  }

  /** The identifiers of `rs` in order of first appearance, after those of `ids`. */
  function Arrivals(ids: seq<string>, rs: seq<Record>): (ids': seq<string>)
    decreases |rs|
  {
    if rs == [] then ids else Arrivals(Arrive(ids, rs[0]), rs[1..])
  }

  /** An identifier is listed after the records exactly when it was before or some record has it. */
  lemma {:induction false} ArrivalsMember(ids: seq<string>, rs: seq<Record>, id: string)
    ensures id in Arrivals(ids, rs) <==> id in ids || exists j :: 0 <= j < |rs| && Identifier(rs[j]) == Some(id)
    decreases |rs|
  {
    if rs != [] {
      ArrivalsMember(Arrive(ids, rs[0]), rs[1..], id);
      if exists j :: 0 <= j < |rs| && Identifier(rs[j]) == Some(id) {
        var j :| 0 <= j < |rs| && Identifier(rs[j]) == Some(id);
        if j > 0 {
          assert Identifier(rs[1..][j - 1]) == Some(id);
        }
      }
      forall j | 0 <= j < |rs| - 1 && Identifier(rs[1..][j]) == Some(id)
        ensures Identifier(rs[j + 1]) == Some(id)
      {
      }
    }
  }

  /** Identifiers already listed keep their places: new ones only go after them. */
  lemma {:induction false} ArrivalsExtends(ids: seq<string>, rs: seq<Record>)
    ensures |ids| <= |Arrivals(ids, rs)| && Arrivals(ids, rs)[..|ids|] == ids
    decreases |rs|
  {
    if rs != [] {
      var next := Arrive(ids, rs[0]);
      assert |ids| <= |next| && next[..|ids|] == ids;
      ArrivalsExtends(next, rs[1..]);
      assert Arrivals(ids, rs)[..|ids|] == Arrivals(ids, rs)[..|next|][..|ids|];
    }
  }

  lemma {:induction false} ArrivalsAppend(ids: seq<string>, a: seq<Record>, b: seq<Record>)
    ensures Arrivals(ids, a + b) == Arrivals(Arrivals(ids, a), b)
    decreases |a|
  {
    if a == [] {
      assert a + b == b;
    } else {
      assert (a + b)[0] == a[0] && (a + b)[1..] == a[1..] + b;
      ArrivalsAppend(Arrive(ids, a[0]), a[1..], b);
    }
  }

  /** Loading one kind's records lists their new identifiers in order of first appearance. */
  lemma {:induction false} InsertAllIds(d: Directory, k: Kind, rs: seq<Record>)
    requires WellFormedDirectory(d) && AllIdentified(rs)
    ensures InsertAll(d, k, rs).ids == Arrivals(d.ids, rs)
    decreases |rs|
  {
    if rs != [] {
      var id := Identifier(rs[0]).value;
      InsertWellFormed(d, id, k, rs[0]);
      assert Insert(d, id, k, rs[0]).ids == Arrive(d.ids, rs[0]);
      assert AllIdentified(rs[1..]) by {
        forall i | 0 <= i < |rs| - 1 ensures Identifier(rs[1..][i]).Some? { assert rs[1..][i] == rs[i + 1]; }
      }
      InsertAllIds(Insert(d, id, k, rs[0]), k, rs[1..]);
    }
  }

  /** The records of the readable files among `kinds`, file after file. */
  function LoadedRecords(loads: Loads, kinds: seq<Kind>): (rs: seq<Record>)
    decreases |kinds|
  {
    if kinds == [] then []
    else (match loads(kinds[0]) case Success(rs) => rs case Failure(_) => []) + LoadedRecords(loads, kinds[1..])
  }

  lemma {:induction false} BuildFromIds(d: Directory, loads: Loads, kinds: seq<Kind>)
    requires WellFormedDirectory(d) && BuildFrom(d, loads, kinds).Success?
    ensures BuildFrom(d, loads, kinds).value.ids == Arrivals(d.ids, LoadedRecords(loads, kinds))
    decreases |kinds|
  {
    if kinds == [] {
    } else {
      BuildFromStep(d, loads, kinds);
      var rest := LoadedRecords(loads, kinds[1..]);
      match loads(kinds[0])
      case Failure(_) =>
        assert LoadedRecords(loads, kinds) == [] + rest;
        assert [] + rest == rest;
        BuildFromIds(d, loads, kinds[1..]);
      case Success(rs) =>
        assert LoadedRecords(loads, kinds) == rs + rest;
        InsertAllIds(d, kinds[0], rs);
        InsertAllWellFormed(d, kinds[0], rs);
        BuildFromIds(InsertAll(d, kinds[0], rs), loads, kinds[1..]);
        ArrivalsAppend(d.ids, rs, rest);
    }
  }

  /**
   * The built collection lists identifiers in the order they are first seen
   * reading the files header, amateur, entity, vanity, each top to bottom.
   */
  lemma BuildIds(folder: Folder)
    requires Build(folder).Success?
    ensures Build(folder).value.ids == Arrivals([], LoadedRecords(Outcomes(folder), RecordTypes))
  {
    BuildFromIds(EmptyDirectory, Outcomes(folder), RecordTypes);
  }

  lemma {:induction false} BuildFromFails(d: Directory, loads: Loads, kinds: seq<Kind>)
    ensures BuildFrom(d, loads, kinds).Failure? <==> exists i :: 0 <= i < |kinds| && Fatal(loads, kinds[i])
    decreases |kinds|
  {
    if kinds != [] {
      var k := kinds[0];
      var later := exists i :: 0 <= i < |kinds| - 1 && Fatal(loads, kinds[1..][i]);
      assert later <==> exists i :: 1 <= i < |kinds| && Fatal(loads, kinds[i]) by {
        if later {
          var i :| 0 <= i < |kinds| - 1 && Fatal(loads, kinds[1..][i]);
          assert Fatal(loads, kinds[i + 1]);
        }
        if exists i :: 1 <= i < |kinds| && Fatal(loads, kinds[i]) {
          var i :| 1 <= i < |kinds| && Fatal(loads, kinds[i]);
          assert kinds[1..][i - 1] == kinds[i];
        }
      }
      match loads(k)
      case Failure(_) =>
        BuildFromFails(d, loads, kinds[1..]);
      case Success(rs) =>
        BuildFromFails(InsertAll(d, k, rs), loads, kinds[1..]);
    }
  }

  /**
   * The build fails exactly when some kind's file is undecodable or holds a
   * record without an identifier; missing or unreadable files never make it fail.
   */
  lemma BuildFails(folder: Folder)
    ensures Build(folder).Failure? <==> exists k :: Fatal(Outcomes(folder), k)
  {
    BuildFromFails(EmptyDirectory, Outcomes(folder), RecordTypes);
    if exists k :: Fatal(Outcomes(folder), k) {
      var k :| Fatal(Outcomes(folder), k);
      assert RecordTypes[Rank(k)] == k;
    }
  }

  /** The person's buckets were created in strictly increasing load order, all before kind number `n`. */
  ghost predicate OrderedBelow(p: PersonState, n: nat)
  {
    && (forall i, j :: 0 <= i < j < |p.order| ==> Rank(p.order[i]) < Rank(p.order[j]))
    && (forall i :: 0 <= i < |p.order| ==> Rank(p.order[i]) < n)
  }

  /** Every person is well formed and its buckets were created in load order, before kind number `n`. */
  ghost predicate AllOrderedBelow(d: Directory, n: nat)
  {
    forall id :: id in d.persons ==> WellFormedPerson(d.persons[id]) && OrderedBelow(d.persons[id], n)
  }

  lemma AddRecordOrdered(p: PersonState, k: Kind, r: Record)
    requires WellFormedPerson(p) && OrderedBelow(p, Rank(k) + 1)
    ensures WellFormedPerson(AddRecord(p, k, r)) && OrderedBelow(AddRecord(p, k, r), Rank(k) + 1)
  {
    AddRecordEffect(p, k, r);
    if k !in p.order {
      forall i | 0 <= i < |p.order|
        ensures Rank(p.order[i]) < Rank(k)
      {
        assert p.order[i] != k;
      }
    }
  }

  /** Inserting a record of kind `k` keeps every person ordered below the next kind. */
  lemma InsertOrdered(d: Directory, id: string, k: Kind, r: Record)
    requires AllOrderedBelow(d, Rank(k) + 1)
    ensures AllOrderedBelow(Insert(d, id, k, r), Rank(k) + 1)
  {
    var p := if id in d.persons then d.persons[id] else EmptyPerson;
    AddRecordOrdered(p, k, r);
    assert Insert(d, id, k, r).persons == d.persons[id := AddRecord(p, k, r)];
  }

  lemma {:induction false} InsertAllOrdered(d: Directory, k: Kind, rs: seq<Record>)
    requires AllOrderedBelow(d, Rank(k) + 1)
    ensures AllOrderedBelow(InsertAll(d, k, rs), Rank(k) + 1)
    decreases |rs|
  {
    if rs != [] && Identifier(rs[0]).Some? {
      var id := Identifier(rs[0]).value;
      InsertOrdered(d, id, k, rs[0]);
      InsertAllOrdered(Insert(d, id, k, rs[0]), k, rs[1..]);
    }
  }

  lemma {:induction false} BuildFromOrdered(d: Directory, loads: Loads, s: nat)
    requires s <= |RecordTypes|
    requires AllOrderedBelow(d, s)
    ensures BuildFrom(d, loads, RecordTypes[s..]).Success? ==>
      AllOrderedBelow(BuildFrom(d, loads, RecordTypes[s..]).value, |RecordTypes|)
    decreases |RecordTypes| - s
  {
    var kinds := RecordTypes[s..];
    if s < |RecordTypes| {
      var k := RecordTypes[s];
      assert kinds[0] == k && kinds[1..] == RecordTypes[s + 1..];
      assert Rank(k) == s;
      match loads(k)
      case Failure(_) =>
        BuildFromOrdered(d, loads, s + 1);
      case Success(rs) =>
        InsertAllOrdered(d, k, rs);
        BuildFromOrdered(InsertAll(d, k, rs), loads, s + 1);
    }
  }

  /** Every person's buckets come in the load order header, amateur, entity, vanity. */
  lemma BuildOrdered(folder: Folder)
    requires Build(folder).Success?
    ensures var d := Build(folder).value;
      forall id, i, j :: id in d.persons && 0 <= i < j < |d.persons[id].order| ==>
        Rank(d.persons[id].order[i]) < Rank(d.persons[id].order[j])
  {
    assert RecordTypes[0..] == RecordTypes;
    BuildFromOrdered(EmptyDirectory, Outcomes(folder), 0);
  }
}

/**
 * The aggregator objects: a `Person` whose buckets grow in place as records
 * are added, and the `People` collection that owns one `Person` per unique
 * system identifier. Each method is specified by the value-level functions
 * of `Resolution` and `Collection`.
 */
module Aggregator {
  import opened Wrappers
  import opened Strings
  import opened Schema
  import opened Records
  import opened Resolution
  import opened Collection

  class Person {
    /** Kinds in the order their buckets were created. */
    var order: seq<Kind>
    /** Kind to the records of that kind, in append order. */
    var records: map<Kind, seq<Record>>

    constructor ()
      ensures State() == EmptyPerson
    {
      order := [];
      records := map[];
    }

    function State(): PersonState
      reads this
    {
      PersonState(order, records)
    }

    ghost predicate Valid()
      reads this
    {
      WellFormedPerson(State())
    }

    /** `add_record`: append to the bucket of `k`, creating it on first use. */
    method AddRecord(k: Kind, r: Record)
      modifies this
      ensures State() == Resolution.AddRecord(old(State()), k, r)
    {
      if k in records {
        records := records[k := records[k] + [r]];
      } else {
        order := order + [k];
        records := records[k := [r]];
      }
    }

    /** `__getattr__`: scan the buckets in creation order and stop at the first with a value. */
    method Get(attr: string) returns (v: string)
      requires Valid()
      ensures v == Resolve(State(), attr)
    {
      ghost var bs := Buckets(State());
      var val: Option<string> := None;
      var i := 0;
      while i < |order|
        invariant 0 <= i <= |order|
        invariant First(bs, attr) == First(bs[i..], attr)
      {
        var bucket := records[order[i]];
        assert bucket == bs[i];
        var entries: seq<string> := [];
        for j := 0 to |bucket|
          invariant entries == Candidates(bucket[..j], attr)
        {
          assert bucket[..j + 1][..j] == bucket[..j];
          var record := bucket[j];
          if attr in record.fields {
            var attrVal := record.fields[attr];
            if attrVal != "" {
              entries := entries + [Transform(record.kind, attr, attrVal)];
            }
          }
        }
        assert bucket[..|bucket|] == bucket;
        if entries != [] {
          val := Some(Join(entries, Separator));
          assert bs[i..][0] == bs[i];
          break;
        }
        assert bs[i..][1..] == bs[i + 1..];
        i := i + 1;
      }
      v := if val.None? then Default else val.value;
    }
  }

  class People {
    /** Identifier to person. */
    var people: map<string, Person>
    /** Identifiers in the order they were first used (the dictionary's key order). */
    var ids: seq<string>
    /** The collection as a value. */
    ghost var model: Directory
    /** This object and every person it owns. */
    ghost var Repr: set<object>

    constructor ()
      ensures Valid() && fresh(Repr) && State() == EmptyDirectory && people == map[]
    {
      people := map[];
      ids := [];
      model := EmptyDirectory;
      Repr := {this};
    }

    ghost function State(): Directory
      reads this
    {
      model
    }

    /**
     * The value view matches the objects: identifiers in order, each person's
     * state, a well-formed collection, and distinct identifiers owning distinct objects.
     */
    ghost predicate Valid()
      reads this, Repr
    {
      && this in Repr
      && people.Values <= Repr
      && WellFormedDirectory(model)
      && model.ids == ids
      && (forall id :: id in people <==> id in model.persons)
      && (forall id :: id in people ==> people[id].State() == model.persons[id])
      && (forall a, b :: a in people && b in people && a != b ==> people[a] != people[b])
    }

    /** The person stored under a listed identifier is the collection's person for it. */
    lemma PersonOf(id: string)
      requires Valid() && id in ids
      ensures id in people && id in State().persons
      ensures people[id].Valid() && people[id].State() == State().persons[id]
    {
    }

    /** `people[id].add_record(k, r)` on the defaulting dictionary. */
    method Insert(id: string, k: Kind, r: Record)
      requires Valid()
      modifies Repr
      ensures Valid() && fresh(Repr - old(Repr))
      ensures State() == Collection.Insert(old(State()), id, k, r)
    {
      if id in people {
        AddToExisting(id, k, r);
      } else {
        AddNew(id, k, r);
      }
    }

    /** The identifier already has a person: that person's bucket grows and no one else changes. */
    method AddToExisting(id: string, k: Kind, r: Record)
      requires Valid() && id in people
      modifies Repr
      ensures Valid() && Repr == old(Repr)
      ensures State() == Collection.Insert(old(State()), id, k, r)
    {
      ghost var before := model;
      var person := people[id];
      person.AddRecord(k, r);
      model := Collection.Insert(model, id, k, r);
      InsertWellFormed(before, id, k, r);
      forall id' | id' in people && id' != id
        ensures people[id'].State() == model.persons[id']
      {
        assert people[id'] != person;
      }
    }

    /** The identifier is new: the defaulting dictionary creates an empty person, which takes the record. */
    method AddNew(id: string, k: Kind, r: Record)
      requires Valid() && id !in people
      modifies this
      ensures Valid() && fresh(Repr - old(Repr))
      ensures State() == Collection.Insert(old(State()), id, k, r)
    {
      ghost var before := model;
      var person := new Person();
      person.AddRecord(k, r);
      people := people[id := person];
      ids := ids + [id];
      Repr := Repr + {person};
      model := Collection.Insert(model, id, k, r);
      InsertWellFormed(before, id, k, r);
    }

    /**
     * `load_records`: load the kind's file and insert its records in order; a
     * record without an identifier stops the loop with `MissingIdentifier`.
     */
    method LoadRecords(folder: Folder, k: Kind) returns (outcome: Outcome<Error>)
      requires Valid()
      modifies Repr
      ensures Valid() && fresh(Repr - old(Repr))
      ensures match Load(k, folder)
        case Failure(e) => outcome == Fail(e) && State() == old(State())
        case Success(rs) =>
          && State() == InsertAll(old(State()), k, rs)
          && outcome == (if AllIdentified(rs) then Pass else Fail(MissingIdentifier(k)))
    {
      var loaded := LoadFile(k, folder);
      if loaded.Failure? {
        return Fail(loaded.error);
      }
      outcome := InsertRecords(k, loaded.value);
    }

    /** The loop of `load_records` over the records of one file. */
    method InsertRecords(k: Kind, rs: seq<Record>) returns (outcome: Outcome<Error>)
      requires Valid()
      modifies Repr
      ensures Valid() && fresh(Repr - old(Repr))
      ensures State() == InsertAll(old(State()), k, rs)
      ensures outcome == (if AllIdentified(rs) then Pass else Fail(MissingIdentifier(k)))
    {
      ghost var target := InsertAll(State(), k, rs);
      var i := 0;
      while i < |rs|
        invariant 0 <= i <= |rs|
        invariant Valid()
        invariant fresh(Repr - old(Repr))
        invariant target == InsertAll(State(), k, rs[i..])
        invariant AllIdentified(rs) == AllIdentified(rs[i..])
      {
        var inserted := InsertAt(k, rs, i);
        if !inserted {
          return Fail(MissingIdentifier(k));
        }
        i := i + 1;
      }
      assert rs[i..] == [];
      return Pass;
    }

    /** One turn of `load_records`' loop: record `i` goes to its person, unless it has no identifier. */
    method InsertAt(k: Kind, rs: seq<Record>, i: nat) returns (inserted: bool)
      requires Valid() && i < |rs|
      modifies Repr
      ensures Valid() && fresh(Repr - old(Repr))
      ensures inserted == Identifier(rs[i]).Some?
      ensures inserted ==> InsertAll(old(State()), k, rs[i..]) == InsertAll(State(), k, rs[i + 1..])
      ensures inserted ==> AllIdentified(rs[i..]) == AllIdentified(rs[i + 1..])
      ensures !inserted ==> State() == old(State()) && State() == InsertAll(State(), k, rs[i..])
      ensures !inserted ==> !AllIdentified(rs[i..])
    {
      var id := Identifier(rs[i]);
      AllIdentifiedAt(rs, i);
      InsertAllAt(State(), k, rs, i);
      if id.None? {
        return false;
      }
      Insert(id.value, k, rs[i]);
      return true;
    }

    /**
     * `People.from_folder`: load every kind in the fixed order, skipping a kind
     * whose file cannot be read; any other failure ends the build.
     */
    static method FromFolder(folder: Folder) returns (result: Result<People, Error>)
      ensures result.Success? ==> fresh(result.value) && result.value.Valid()
      ensures match Build(folder)
        case Success(d) => result.Success? && result.value.State() == d
        case Failure(e) => result == Failure(e)
    {
      var collection := new People();
      for i := 0 to |RecordTypes|
        invariant collection.Valid() && fresh(collection.Repr)
        invariant Build(folder) == BuildFrom(collection.State(), Outcomes(folder), RecordTypes[i..])
      {
        var k := RecordTypes[i];
        assert RecordTypes[i..][1..] == RecordTypes[i + 1..];
        var outcome := collection.LoadRecords(folder, k);
        if outcome.Fail? && !outcome.error.RecordNonexistent? {
          return Failure(outcome.error);
        }
      }
      return Success(collection);
    }
  }
}

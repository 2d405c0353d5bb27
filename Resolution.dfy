/**
 * Field resolution on one person: the person's records grouped into one bucket
 * per record kind, and the lookup of a field across those buckets.
 */
module Resolution {
  import opened Wrappers
  import opened Strings
  import opened Schema
  import opened Records

  /** What resolution returns when no bucket has a value. */
  const Default: string := "-"

  /** What the values of one bucket are joined with. */
  const Separator: string := ", "

  /**
   * A person's records: `buckets` maps each kind to its records in append
   * order, and `order` lists the kinds in the order their buckets were created
   * (the iteration order of the source's dictionary).
   */
  datatype PersonState = PersonState(order: seq<Kind>, buckets: map<Kind, seq<Record>>)

  const EmptyPerson: PersonState := PersonState([], map[])

  ghost predicate Distinct<T>(s: seq<T>)
  {
    forall i, j :: 0 <= i < j < |s| ==> s[i] != s[j]
  }

  /** `order` lists each bucket exactly once, and a bucket exists only once it holds a record. */
  ghost predicate WellFormedPerson(p: PersonState)
  {
    && Distinct(p.order)
    && (forall k :: k in p.buckets <==> k in p.order)
    && (forall k :: k in p.buckets ==> p.buckets[k] != [])
  }

  /** `Person.add_record`: append to the kind's bucket, creating the bucket on first use. */
  function AddRecord(p: PersonState, k: Kind, r: Record): (q: PersonState)
  {
    if k in p.buckets then PersonState(p.order, p.buckets[k := p.buckets[k] + [r]])
    else PersonState(p.order + [k], p.buckets[k := [r]])
  }

  /**
   * Adding a record keeps a person well formed, makes the record the last of
   * its kind's bucket, appends the kind to the order only when its bucket is
   * new, and leaves every other bucket as it was.
   */
  lemma AddRecordEffect(p: PersonState, k: Kind, r: Record)
    requires WellFormedPerson(p)
    ensures var q := AddRecord(p, k, r);
      && WellFormedPerson(q)
      && k in q.buckets
      && q.buckets[k] == (if k in p.buckets then p.buckets[k] else []) + [r]
      && q.order == (if k in p.order then p.order else p.order + [k])
      && (forall k' :: k' != k ==> (k' in q.buckets <==> k' in p.buckets))
      && (forall k' :: k' != k && k' in p.buckets ==> q.buckets[k'] == p.buckets[k'])
  {
  }

  /** The buckets in creation order. */
  function Buckets(p: PersonState): (bs: seq<seq<Record>>)
    ensures |bs| == |p.order|
  {
    seq(|p.order|, i requires 0 <= i < |p.order| =>
      if p.order[i] in p.buckets then p.buckets[p.order[i]] else [])
  }

  /** The record has the field (its line reached that column) and the value is not empty. */
  predicate HasValue(r: Record, attr: string)
  {
    attr in r.fields && r.fields[attr] != ""
  }

  /** The field's value as read: passed through the record kind's transform, if it has one. */
  function Transformed(r: Record, attr: string): (v: string)
    requires attr in r.fields
  {
    Transform(r.kind, attr, r.fields[attr])
  }

  /**
   * The `entries` one bucket contributes: the transformed non-empty values, in
   * append order. Emptiness is judged on the stored value, before the transform.
   */
  function Candidates(bucket: seq<Record>, attr: string): (entries: seq<string>)
    decreases |bucket|
  {
    if bucket == [] then []
    else
      var last := bucket[|bucket| - 1];
      Candidates(bucket[..|bucket| - 1], attr) + (if HasValue(last, attr) then [Transformed(last, attr)] else [])
  }

  /** A bucket contributes nothing exactly when none of its records has a value. */
  lemma {:induction false} CandidatesEmpty(bucket: seq<Record>, attr: string)
    ensures Candidates(bucket, attr) == [] <==> forall j :: 0 <= j < |bucket| ==> !HasValue(bucket[j], attr)
    decreases |bucket|
  {
    if bucket != [] {
      var init := bucket[..|bucket| - 1];
      assert forall j :: 0 <= j < |init| ==> init[j] == bucket[j];
      CandidatesEmpty(init, attr);
    }
  }

  /**
   * The resolved value: the `", "`-join of the first bucket that contributes
   * anything; later buckets are not consulted. `None` when no record of any
   * bucket has a non-empty value.
   */
  function First(buckets: seq<seq<Record>>, attr: string): (val: Option<string>)
    decreases |buckets|
  {
    if buckets == [] then None
    else
      var entries := Candidates(buckets[0], attr);
      if entries != [] then Some(Join(entries, Separator))
      else First(buckets[1..], attr)
  }

  /** No bucket yields a value exactly when no record of any bucket has one. */
  lemma {:induction false} FirstNone(buckets: seq<seq<Record>>, attr: string)
    ensures First(buckets, attr).None? <==>
      forall i, j :: 0 <= i < |buckets| && 0 <= j < |buckets[i]| ==> !HasValue(buckets[i][j], attr)
    decreases |buckets|
  {
    if buckets != [] {
      CandidatesEmpty(buckets[0], attr);
      assert forall i :: 0 < i < |buckets| ==> buckets[1..][i - 1] == buckets[i];
      FirstNone(buckets[1..], attr);
    }
  }

  /** A field lookup on a person; `None` stands for "no value". */
  function Lookup(p: PersonState, attr: string): (found: Option<string>)
  {
    First(Buckets(p), attr)
  }

  /** `Person.__getattr__`: the looked-up value, or `"-"`. */
  function Resolve(p: PersonState, attr: string): (v: string)
  {
    Lookup(p, attr).GetOr(Default)
  }

  /** The records of a bucket that have a non-empty value for the field, in append order. */
  function WithValue(bucket: seq<Record>, attr: string): (rs: seq<Record>)
    ensures forall t :: 0 <= t < |rs| ==> HasValue(rs[t], attr)
    decreases |bucket|
  {
    if bucket == [] then []
    else
      var last := bucket[|bucket| - 1];
      WithValue(bucket[..|bucket| - 1], attr) + (if HasValue(last, attr) then [last] else [])
  }

  /** A bucket's entries are exactly its records with a value, filtered first and then transformed. */
  lemma {:induction false} CandidatesAreTransformedValues(bucket: seq<Record>, attr: string)
    ensures var rs, entries := WithValue(bucket, attr), Candidates(bucket, attr);
      |entries| == |rs| && forall t :: 0 <= t < |rs| ==> entries[t] == Transformed(rs[t], attr)
    decreases |bucket|
  {
    if bucket != [] {
      CandidatesAreTransformedValues(bucket[..|bucket| - 1], attr);
    }
  }

  /**
   * The first bucket with a value decides: if bucket `i` contributes entries and
   * no earlier one does, the result is the join of bucket `i`'s entries,
   * whatever the later buckets hold.
   */
  lemma {:induction false} FirstPicksEarliest(buckets: seq<seq<Record>>, attr: string, i: nat)
    requires i < |buckets| && Candidates(buckets[i], attr) != []
    requires forall h :: 0 <= h < i ==> Candidates(buckets[h], attr) == []
    ensures First(buckets, attr) == Some(Join(Candidates(buckets[i], attr), Separator))
    decreases i
  {
    if i > 0 {
      assert Candidates(buckets[0], attr) == [];
      assert forall h :: 0 <= h < i - 1 ==> buckets[1..][h] == buckets[h + 1];
      FirstPicksEarliest(buckets[1..], attr, i - 1);
    }
  }

  /** Buckets after the deciding one are never consulted. */
  lemma {:induction false} LaterBucketsIgnored(buckets: seq<seq<Record>>, later: seq<seq<Record>>, attr: string)
    requires First(buckets, attr).Some?
    ensures First(buckets + later, attr) == First(buckets, attr)
    decreases |buckets|
  {
    assert (buckets + later)[0] == buckets[0];
    if Candidates(buckets[0], attr) == [] {
      assert (buckets + later)[1..] == buckets[1..] + later;
      LaterBucketsIgnored(buckets[1..], later, attr);
    }
  }

  /** The default is returned exactly when no record of the person has a non-empty value for the field. */
  lemma ResolveDefault(p: PersonState, attr: string)
    requires WellFormedPerson(p)
    ensures var none := forall k, j :: k in p.buckets && 0 <= j < |p.buckets[k]| ==> !HasValue(p.buckets[k][j], attr);
      && (Lookup(p, attr).None? <==> none)
      && (none ==> Resolve(p, attr) == Default)
  {
    var bs := Buckets(p);
    FirstNone(bs, attr);
    forall k, j | k in p.buckets && 0 <= j < |p.buckets[k]| && HasValue(p.buckets[k][j], attr)
      ensures Lookup(p, attr).Some?
    {
      var i :| 0 <= i < |p.order| && p.order[i] == k;
      assert bs[i][j] == p.buckets[k][j];
    }
  }

  /**
   * The string result cannot tell "no value" from a stored `"-"`: a person whose only
   * value for the field is `"-"` resolves to the default although the lookup found a value.
   */
  lemma StoredDashLooksLikeDefault()
    ensures var r := Record(Vanity, map["requested_call_sign" := "-"]);
      var p := PersonState([Vanity], map[Vanity := [r]]);
      WellFormedPerson(p) && Lookup(p, "requested_call_sign") == Some("-") && Resolve(p, "requested_call_sign") == Default
  {
    var r := Record(Vanity, map["requested_call_sign" := "-"]);
    var p := PersonState([Vanity], map[Vanity := [r]]);
    assert Buckets(p) == [[r]];
    assert [r][..0] == [];
    assert Candidates([r], "requested_call_sign") == ["-"];
  }

  /** Resolution of a person in terms of its buckets: the first kind in creation order whose bucket has a value. */
  lemma ResolveFirstBucket(p: PersonState, attr: string, i: nat)
    requires WellFormedPerson(p)
    requires i < |p.order| && Candidates(p.buckets[p.order[i]], attr) != []
    requires forall h :: 0 <= h < i ==> Candidates(p.buckets[p.order[h]], attr) == []
    ensures Resolve(p, attr) == Join(Candidates(p.buckets[p.order[i]], attr), Separator)
  {
    var bs := Buckets(p);
    assert forall h :: 0 <= h <= i ==> bs[h] == p.buckets[p.order[h]];
    FirstPicksEarliest(bs, attr, i);
  }
}

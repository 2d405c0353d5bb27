/**
 * The printed table of the `print` command: one row per person, in the order
 * identifiers were first seen, holding four resolved attributes; when an
 * operator class is given, only the people whose resolved operator class is
 * exactly that string are listed.
 */
module Report {
  import opened Wrappers
  import opened Resolution
  import opened Collection
  import Aggregator

  /** The table's columns, in order. */
  const Attributes: seq<string> := ["entity_name", "call_sign", "operator_class", "requested_call_sign"]

  /** The column the filter compares against. */
  const OperatorClassColumn: nat := 2

  /** One row: every column attribute resolved on the person. */
  function Row(p: PersonState): (row: seq<string>)
  {
    [Resolve(p, Attributes[0]), Resolve(p, Attributes[1]), Resolve(p, Attributes[2]), Resolve(p, Attributes[3])]
  }

  /**
   * The `--operator-class` test. An absent or empty option lists everyone;
   * otherwise the resolved operator class (possibly the `"-"` default) must
   * equal the option exactly.
   */
  predicate Keep(p: PersonState, filter: Option<string>)
  {
    filter.None? || filter.value == "" || Resolve(p, Attributes[OperatorClassColumn]) == filter.value
  }

  /** A listed identifier with a person the filter keeps. */
  predicate Listed(d: Directory, id: string, filter: Option<string>)
  {
    id in d.persons && Keep(d.persons[id], filter)
  }

  /** The identifiers among `ids` whose person is listed, in the order of `ids`. */
  function Selected(d: Directory, ids: seq<string>, filter: Option<string>): (kept: seq<string>)
    ensures |kept| <= |ids|
    decreases |ids|
  {
    if ids == [] then []
    else
      var last := ids[|ids| - 1];
      Selected(d, ids[..|ids| - 1], filter) + (if Listed(d, last, filter) then [last] else [])
  }

  /** The rows of the listed people among `ids`, in the order of `ids`. */
  function RowsOf(d: Directory, ids: seq<string>, filter: Option<string>): (rows: seq<seq<string>>)
    ensures |rows| <= |ids|
    decreases |ids|
  {
    if ids == [] then []
    else
      var last := ids[|ids| - 1];
      RowsOf(d, ids[..|ids| - 1], filter) + (if Listed(d, last, filter) then [Row(d.persons[last])] else [])
  }

  /** The whole table over a collection, in the order identifiers were first seen. */
  function Rows(d: Directory, filter: Option<string>): (rows: seq<seq<string>>)
  {
    RowsOf(d, d.ids, filter)
  }

  /** A person is selected exactly when it is among `ids` and kept by the filter. */
  lemma {:induction false} SelectedMember(d: Directory, ids: seq<string>, filter: Option<string>, id: string)
    ensures id in Selected(d, ids, filter) <==> id in ids && Listed(d, id, filter)
    decreases |ids|
  {
    if ids != [] {
      var init := ids[..|ids| - 1];
      assert ids == init + [ids[|ids| - 1]];
      SelectedMember(d, init, filter, id);
    }
  }

  /** The table lists the row of each selected person, in selection order. */
  lemma {:induction false} RowsOfSelected(d: Directory, ids: seq<string>, filter: Option<string>)
    ensures |RowsOf(d, ids, filter)| == |Selected(d, ids, filter)|
    ensures forall i :: 0 <= i < |RowsOf(d, ids, filter)| ==>
      var id := Selected(d, ids, filter)[i];
      id in d.persons && RowsOf(d, ids, filter)[i] == Row(d.persons[id])
    decreases |ids|
  {
    if ids != [] {
      RowsOfSelected(d, ids[..|ids| - 1], filter);
    }
  }

  /** Without an operator class, every person of a well-formed collection is selected, in order. */
  lemma {:induction false} UnfilteredSelectsEveryone(d: Directory, ids: seq<string>, filter: Option<string>)
    requires forall id :: id in ids ==> id in d.persons
    requires filter.None? || filter == Some("")
    ensures Selected(d, ids, filter) == ids
    decreases |ids|
  {
    if ids != [] {
      var init, last := ids[..|ids| - 1], ids[|ids| - 1];
      assert ids == init + [last];
      assert forall id :: id in init ==> id in ids;
      UnfilteredSelectsEveryone(d, init, filter);
      assert Listed(d, last, filter);
      assert Selected(d, ids, filter) == init + [last];
    }
  }

  /** Without an operator class, the table has one row per person, in order. */
  lemma UnfilteredListsEveryone(d: Directory, filter: Option<string>)
    requires WellFormedDirectory(d)
    requires filter.None? || filter == Some("")
    ensures |Rows(d, filter)| == |d.ids|
    ensures forall i :: 0 <= i < |d.ids| ==> d.ids[i] in d.persons && Rows(d, filter)[i] == Row(d.persons[d.ids[i]])
  {
    UnfilteredSelectsEveryone(d, d.ids, filter);
    RowsOfSelected(d, d.ids, filter);
  }

  /** With an operator class given, every row of the table shows that operator class. */
  lemma FilteredRowsMatch(d: Directory, c: string)
    requires c != ""
    ensures forall row :: row in Rows(d, Some(c)) ==> |row| == |Attributes| && row[OperatorClassColumn] == c
  {
    var kept := Selected(d, d.ids, Some(c));
    RowsOfSelected(d, d.ids, Some(c));
    forall i | 0 <= i < |kept|
      ensures kept[i] in d.persons && Resolve(d.persons[kept[i]], Attributes[OperatorClassColumn]) == c
    {
      SelectedMember(d, d.ids, Some(c), kept[i]);
    }
  }

  /** With an operator class given, every listed person whose operator class matches has a row. */
  lemma MatchingPersonListed(d: Directory, c: string, id: string)
    requires id in d.ids && id in d.persons && Resolve(d.persons[id], Attributes[OperatorClassColumn]) == c
    ensures Row(d.persons[id]) in Rows(d, Some(c))
  {
    SelectedMember(d, d.ids, Some(c), id);
    RowsOfSelected(d, d.ids, Some(c));
    var kept := Selected(d, d.ids, Some(c));
    var i :| 0 <= i < |kept| && kept[i] == id;
    assert Rows(d, Some(c))[i] == Row(d.persons[id]);
  }

  /** One more identifier adds its row exactly when the person is listed. */
  lemma RowsOfSnoc(d: Directory, ids: seq<string>, id: string, filter: Option<string>)
    ensures RowsOf(d, ids + [id], filter) ==
      RowsOf(d, ids, filter) + (if Listed(d, id, filter) then [Row(d.persons[id])] else [])
  {
    assert (ids + [id])[..|ids|] == ids;
  }

  /** The row of one person, each column read through `Person.__getattr__`. */
  method PersonRow(person: Aggregator.Person) returns (row: seq<string>)
    requires person.Valid()
    ensures row == Row(person.State())
  {
    row := [];
    for c := 0 to |Attributes|
      invariant |row| == c
      invariant forall j :: 0 <= j < c ==> row[j] == Resolve(person.State(), Attributes[j])
    {
      var v := person.Get(Attributes[c]);
      row := row + [v];
    }
  }

  /** The rows the `i`-th person contributes: its row if the filter keeps it, else none. */
  method KeptRows(people: Aggregator.People, i: nat, filter: Option<string>) returns (rows: seq<seq<string>>)
    requires people.Valid() && i < |people.ids|
    ensures RowsOf(people.State(), people.ids[..i + 1], filter) == RowsOf(people.State(), people.ids[..i], filter) + rows
  {
    var id := people.ids[i];
    people.PersonOf(id);
    assert people.ids[..i + 1] == people.ids[..i] + [id];
    RowsOfSnoc(people.State(), people.ids[..i], id, filter);
    var person := people.people[id];
    var keep := true;
    if filter.Some? && filter.value != "" {
      var operatorClass := person.Get(Attributes[OperatorClassColumn]);
      keep := operatorClass == filter.value;
    }
    rows := [];
    if keep {
      var row := PersonRow(person);
      rows := [row];
    }
  }

  /**
   * `print_data`'s loop over the collection: the table for the people built
   * from the folder, in identifier order, filtered on the operator class.
   */
  method Table(people: Aggregator.People, filter: Option<string>) returns (data: seq<seq<string>>)
    requires people.Valid()
    ensures data == Rows(people.State(), filter)
  {
    data := [];
    for i := 0 to |people.ids|
      invariant data == RowsOf(people.State(), people.ids[..i], filter)
    {
      var rows := KeptRows(people, i, filter);
      data := data + rows;
    }
    assert people.ids[..|people.ids|] == people.State().ids;
  }
}

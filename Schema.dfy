/**
 * The record schema: the four record kinds of the ULS daily archive, the file
 * each one is read from, its positional field list and its read-time transforms.
 * The kind datatype replaces the source's lookup of a class by camel-cased name.
 */
module Schema {

  datatype Kind = Header | Amateur | Entity | Vanity

  /** The fixed order in which the kinds are loaded. */
  const RecordTypes: seq<Kind> := [Header, Amateur, Entity, Vanity]

  /** Position of a kind in the loading order. */
  function Rank(k: Kind): (n: nat)
    ensures n < |RecordTypes| && RecordTypes[n] == k
  {
    match k
    case Header => 0
    case Amateur => 1
    case Entity => 2
    case Vanity => 3
  }

  /** The two-letter record tag, which names the kind's data file. */
  function Tag(k: Kind): (tag: string)
  {
    match k
    case Header => "HD"
    case Amateur => "AM"
    case Entity => "EN"
    case Vanity => "VC"
  }

  /** `<tag>.dat`, the file a kind is loaded from. */
  function FileName(k: Kind): (name: string)
  {
    Tag(k) + ".dat"
  }

  /** Different kinds are read from different files. */
  lemma FileNamesDistinct(a: Kind, b: Kind)
    ensures FileName(a) == FileName(b) <==> a == b
  {
    if FileName(a) == FileName(b) {
      assert FileName(a)[..2] == Tag(a) && FileName(b)[..2] == Tag(b);
    }
  }

  /** The field names, in column order. */
  function Fields(k: Kind): (names: seq<string>)
  {
    match k
    case Header => HeaderFields
    case Amateur => AmateurFields
    case Entity => EntityFields
    case Vanity => VanityFields
  }

  /** Header field list; `reserved` and `broadcast_services` each appear twice. */
  const HeaderFields: seq<string> := HeaderFieldsFront + HeaderFieldsBack

  /** Columns 0 to 19 of a Header line. */
  const HeaderFieldsFront: seq<string> := [
    "record_type", "unique_system_identifier", "uls_file_number", "ebf_number",
    "call_sign", "license_status", "radio_service_code", "grant_date",
    "expired_date", "cancellation_date", "eligibility_rule_num", "reserved",
    "alien", "alien_government", "alien_corporation", "alien_officer",
    "alien_control", "revoked", "convicted", "adjudged"
  ]

  /** Columns 20 to 49 of a Header line. */
  const HeaderFieldsBack: seq<string> := [
    "reserved", "common_carrier", "non_common_carrier", "private_comm",
    "fixed", "mobile", "radiolocation", "satellite",
    "test", "interconnected_service", "certifier_first_name", "certifier_mi",
    "certifier_last_name", "certifier_suffix", "certifier_title", "female",
    "black", "native_american", "hawaiian", "asian",
    "white", "hispanic", "effective_date", "last_action_date",
    "auction_id", "broadcast_services", "band_manager", "broadcast_services",
    "alien_ruling", "licensee_name_change"
  ]

  const AmateurFields: seq<string> := [
    "record_type", "unique_system_identifier", "uls_file_number", "ebf_number",
    "call_sign", "operator_class", "group_code", "region_code",
    "trustee_call_sign", "trustee_indicator", "physician_certification", "ve_signature",
    "systematic_call_sign_change", "vanity_call_sign_change", "vanity_relationship", "previous_call_sign",
    "previous_operator_class", "trustee_name"
  ]

  const EntityFields: seq<string> := [
    "record_type", "unique_system_identifier", "uls_file_number", "ebf_number",
    "call_sign", "entity_type", "licensee_id", "entity_name",
    "first_name", "mi", "last_name", "suffix",
    "phone", "fax", "email", "street_address",
    "city", "state", "zip_code", "po_box",
    "attention_line", "sgin", "fCC_registration_number", "applicant_type_code",
    "applicant_type_code_other", "status_code", "status_date"
  ]

  const VanityFields: seq<string> := [
    "record_type", "unique_system_identifier", "uls_file_number", "ebf_number",
    "order_of_preference", "requested_call_sign"
  ]

  /** The field that keys records to persons. */
  const IdentifierField: string := "unique_system_identifier"

  /** Every kind starts with the record tag column and then the identifier column. */
  lemma LeadingColumns(k: Kind)
    ensures |Fields(k)| >= 2
    ensures Fields(k)[0] == "record_type" && Fields(k)[1] == IdentifierField
  {
    match k
    case Header => assert HeaderFields[0] == "record_type" && HeaderFields[1] == IdentifierField;
    case Amateur => assert AmateurFields[0] == "record_type" && AmateurFields[1] == IdentifierField;
    case Entity => assert EntityFields[0] == "record_type" && EntityFields[1] == IdentifierField;
    case Vanity => assert VanityFields[0] == "record_type" && VanityFields[1] == IdentifierField;
  }

  /** The identifier column is column 1 and no other. */
  lemma IdentifierOnlyInColumnOne(k: Kind, j: nat)
    requires j < |Fields(k)| && j != 1
    ensures Fields(k)[j] != IdentifierField
  {
  }

  /** The Header columns that share a name: 11 and 20 (`reserved`), 45 and 47 (`broadcast_services`). */
  lemma HeaderDuplicateNames()
    ensures |HeaderFields| == 50
    ensures HeaderFields[11] == HeaderFields[20] == "reserved"
    ensures forall j :: 0 <= j < 50 && j != 11 && j != 20 ==> HeaderFields[j] != "reserved"
    ensures HeaderFields[45] == HeaderFields[47] == "broadcast_services"
    ensures forall j :: 0 <= j < 50 && j != 45 && j != 47 ==> HeaderFields[j] != "broadcast_services"
  {
  }

  /** The fields whose values are title-cased when read (the `TRANSFORMS` table). */
  function TransformedFields(k: Kind): (fields: set<string>)
  {
    match k
    case Entity => {"entity_name", "first_name", "last_name"}
    case _ => {}
  }

  /** The value of `field` as read from a record of kind `k`: transformed if the table says so. */
  function Transform(k: Kind, field: string, v: string): (w: string)
  {
    if field in TransformedFields(k) then Titleize(v) else v
  }

  /**
   * An ASCII approximation of the `inflection` library's `titleize`:
   * underscores become spaces, and each run of letters is capitalised
   * (first letter upper case, the rest lower case).
   */
  function Titleize(s: string): (r: string)
    ensures |r| == |s|
  {
    CapitalizeWords(s, true)
  }

  function CapitalizeWords(s: string, atWordStart: bool): (r: string)
    ensures |r| == |s|
    decreases |s|
  {
    if s == [] then []
    else
      var c := if s[0] == '_' then ' ' else s[0];
      var out := if IsLetter(c) then (if atWordStart then ToUpper(c) else ToLower(c)) else c;
      [out] + CapitalizeWords(s[1..], !IsLetter(c))
  }

  predicate IsLetter(c: char)
  {
    ('a' <= c <= 'z') || ('A' <= c <= 'Z')
  }

  function ToUpper(c: char): (u: char)
  {
    if 'a' <= c <= 'z' then (c as int - 'a' as int + 'A' as int) as char else c
  }

  function ToLower(c: char): (l: char)
  {
    if 'A' <= c <= 'Z' then (c as int - 'A' as int + 'a' as int) as char else c
  }

  /** Only Entity has transforms, and only on the three name fields. */
  lemma TransformOnlyOnEntityNames(k: Kind, field: string, v: string)
    ensures Transform(k, field, v) != v ==> k == Entity && field in {"entity_name", "first_name", "last_name"}
  {
  }

  lemma CaseIdempotent(c: char)
    ensures ToUpper(ToUpper(c)) == ToUpper(c) && ToLower(ToLower(c)) == ToLower(c)
    ensures IsLetter(ToUpper(c)) == IsLetter(c) && IsLetter(ToLower(c)) == IsLetter(c)
  {
  }

  /**
   * Title-casing an already title-cased string changes nothing: no `_` is
   * left, and every letter already has the case its position calls for.
   */
  lemma {:induction false} CapitalizeWordsIdempotent(s: string, atWordStart: bool)
    ensures CapitalizeWords(CapitalizeWords(s, atWordStart), atWordStart) == CapitalizeWords(s, atWordStart)
    decreases |s|
  {
    if s != [] {
      var c := if s[0] == '_' then ' ' else s[0];
      var r := CapitalizeWords(s, atWordStart);
      var tail := CapitalizeWords(s[1..], !IsLetter(c));
      CaseIdempotent(c);
      assert r[0] != '_' && IsLetter(r[0]) == IsLetter(c);
      assert r[1..] == tail;
      CapitalizeWordsIdempotent(s[1..], !IsLetter(c));
    }
  }

  /** Text made only of ASCII letters and spaces, the shape of the name fields in the data files. */
  predicate PlainWords(s: string)
  {
    forall i :: 0 <= i < |s| ==> s[i] == ' ' || IsLetter(s[i])
  }

  /**
   * On letters and spaces, every word comes out with its first letter upper
   * case and the others lower case; spaces are kept.
   */
  lemma {:induction false} CapitalizeWordsPointwise(s: string, atWordStart: bool)
    requires PlainWords(s)
    ensures forall i :: 0 <= i < |s| ==>
      CapitalizeWords(s, atWordStart)[i] ==
        if (if i == 0 then atWordStart else s[i - 1] == ' ') then ToUpper(s[i]) else ToLower(s[i])
    decreases |s|
  {
    if s != [] {
      var r := CapitalizeWords(s, atWordStart);
      var tail := s[1..];
      assert PlainWords(tail) by {
        forall i | 0 <= i < |tail| ensures tail[i] == ' ' || IsLetter(tail[i]) {
          assert tail[i] == s[i + 1];
        }
      }
      CapitalizeWordsPointwise(tail, s[0] == ' ');
      assert s[0] == ' ' || IsLetter(s[0]);
      assert r[0] == if atWordStart then ToUpper(s[0]) else ToLower(s[0]);
      assert r[1..] == CapitalizeWords(tail, s[0] == ' ');
      forall i | 0 < i < |s|
        ensures r[i] == if s[i - 1] == ' ' then ToUpper(s[i]) else ToLower(s[i])
      {
        assert r[i] == r[1..][i - 1] && tail[i - 1] == s[i];
        if i > 1 {
          assert tail[i - 2] == s[i - 1];
        }
      }
    }
  }

  /** `titleize` of a name: each word capitalised, the rest of it lower case. */
  lemma TitleizeWords(s: string)
    requires PlainWords(s)
    ensures forall i :: 0 <= i < |s| ==>
      Titleize(s)[i] == if i == 0 || s[i - 1] == ' ' then ToUpper(s[i]) else ToLower(s[i])
  {
    CapitalizeWordsPointwise(s, true);
    forall i | 0 <= i < |s|
      ensures Titleize(s)[i] == if i == 0 || s[i - 1] == ' ' then ToUpper(s[i]) else ToLower(s[i])
    {
      assert (if i == 0 then true else s[i - 1] == ' ') == (i == 0 || s[i - 1] == ' ');
    }
  }

  /** `titleize` is idempotent on names made of letters and spaces. */
  lemma TitleizeIdempotent(s: string)
    requires PlainWords(s)
    ensures Titleize(Titleize(s)) == Titleize(s)
  {
    CapitalizeWordsIdempotent(s, true);
  }
}

/**
 * The record loader: one `|`-delimited line becomes one record, and one data
 * file becomes the records of its non-empty lines, in file order.
 */
module Records {
  import opened Wrappers
  import opened Strings
  import opened Schema

  /** One parsed line: the kind it was read as and the fields the line supplied. */
  datatype Record = Record(kind: Kind, fields: map<string, string>)

  /**
   * `{f: v for f, v in zip(names, cols)}`: the pairs are taken position by
   * position up to the shorter list, and a name that occurs twice keeps the
   * value of its later column.
   */
  function Zip(names: seq<string>, cols: seq<string>): (m: map<string, string>)
    decreases |names|
  {
    var n := Min(|names|, |cols|);
    if n == 0 then map[]
    else Zip(names[..n - 1], cols[..n - 1])[names[n - 1] := cols[n - 1]]
  }

  function Min(a: nat, b: nat): (m: nat)
  {
    if a < b then a else b
  }

  /** The keys of the zipped map are the names of the first `min(#names, #cols)` positions. */
  lemma {:induction false} ZipKeys(names: seq<string>, cols: seq<string>, f: string)
    ensures f in Zip(names, cols) <==> exists i :: 0 <= i < Min(|names|, |cols|) && names[i] == f
    decreases |names|
  {
    var n := Min(|names|, |cols|);
    if n > 0 {
      var names', cols' := names[..n - 1], cols[..n - 1];
      assert Min(|names'|, |cols'|) == n - 1;
      ZipKeys(names', cols', f);
      assert Zip(names, cols) == Zip(names', cols')[names[n - 1] := cols[n - 1]];
      if f in Zip(names, cols) && f != names[n - 1] {
        var i :| 0 <= i < n - 1 && names'[i] == f;
        assert names[i] == f;
      }
      if exists i :: 0 <= i < n && names[i] == f {
        var i :| 0 <= i < n && names[i] == f;
        if i < n - 1 {
          assert names'[i] == f;
        }
      }
    }
  }

  /** A position whose name does not occur again later within the zipped range supplies the value. */
  lemma {:induction false} ZipValue(names: seq<string>, cols: seq<string>, i: nat)
    requires i < Min(|names|, |cols|)
    requires forall j :: i < j < Min(|names|, |cols|) ==> names[j] != names[i]
    ensures names[i] in Zip(names, cols) && Zip(names, cols)[names[i]] == cols[i]
    decreases |names|
  {
    var n := Min(|names|, |cols|);
    var names', cols' := names[..n - 1], cols[..n - 1];
    assert Zip(names, cols) == Zip(names', cols')[names[n - 1] := cols[n - 1]];
    if i < n - 1 {
      assert Min(|names'|, |cols'|) == n - 1;
      assert names'[i] == names[i] && cols'[i] == cols[i];
      assert forall j :: i < j < n - 1 ==> names'[j] == names[j];
      ZipValue(names', cols', i);
    }
  }

  /**
   * `zip` pairs positions up to the shorter list and a later duplicate name
   * overwrites an earlier one: the keys are the names of the first
   * `min(#names, #cols)` positions, and a position whose name does not occur
   * again later within that range supplies the value.
   */
  lemma ZipFields(names: seq<string>, cols: seq<string>)
    ensures var n, m := Min(|names|, |cols|), Zip(names, cols);
      && (forall f :: f in m <==> exists i :: 0 <= i < n && names[i] == f)
      && (forall i :: 0 <= i < n && (forall j :: i < j < n ==> names[j] != names[i])
            ==> names[i] in m && m[names[i]] == cols[i])
  {
    forall f
      ensures f in Zip(names, cols) <==> exists i :: 0 <= i < Min(|names|, |cols|) && names[i] == f
    {
      ZipKeys(names, cols, f);
    }
    forall i | 0 <= i < Min(|names|, |cols|) && (forall j :: i < j < Min(|names|, |cols|) ==> names[j] != names[i])
      ensures names[i] in Zip(names, cols) && Zip(names, cols)[names[i]] == cols[i]
    {
      ZipValue(names, cols, i);
    }
  }

  /** `Record.from_line`: split on `|` and pair the columns with the kind's field list. */
  function FromLine(k: Kind, line: string): (record: Record)
  {
    Record(k, Zip(Fields(k), Split(line, '|')))
  }

  /** The record's `unique_system_identifier`, when its line was long enough to have one. */
  function Identifier(r: Record): (id: Option<string>)
  {
    if IdentifierField in r.fields then Some(r.fields[IdentifierField]) else None
  }

  /** A parsed line has an identifier exactly when it has a second column, and that column is it. */
  lemma FromLineIdentifier(k: Kind, line: string)
    ensures var cols := Split(line, '|');
      Identifier(FromLine(k, line)) == if |cols| >= 2 then Some(cols[1]) else None
  {
    var names, cols := Fields(k), Split(line, '|');
    var n := Min(|names|, |cols|);
    LeadingColumns(k);
    ZipFields(names, cols);
    forall j | 0 <= j < |names| && j != 1
      ensures names[j] != IdentifierField
    {
      IdentifierOnlyInColumnOne(k, j);
    }
    if |cols| >= 2 {
      assert forall j :: 1 < j < n ==> names[j] != names[1];
    } else {
      assert !exists i :: 0 <= i < n && names[i] == IdentifierField;
    }
  }

  /**
   * The value a line gives a field whose name sits at columns `early < late`
   * and nowhere else: the later column when the line reaches it, else the
   * earlier one, else nothing.
   */
  lemma {:induction false} DuplicateNameLaterWins(names: seq<string>, cols: seq<string>, f: string, early: nat, late: nat)
    requires early < late < |names| && names[early] == f && names[late] == f
    requires forall j :: 0 <= j < |names| && j != early && j != late ==> names[j] != f
    ensures var m := Zip(names, cols);
      if |cols| > late then f in m && m[f] == cols[late]
      else if |cols| > early then f in m && m[f] == cols[early]
      else f !in m
  {
    ZipFields(names, cols);
    var n := Min(|names|, |cols|);
    if |cols| > late {
      assert forall j :: late < j < n ==> names[j] != names[late];
    } else if |cols| > early {
      assert forall j :: early < j < n ==> names[j] != names[early];
    } else {
      assert !exists i :: 0 <= i < n && names[i] == f;
    }
  }

  /**
   * At a duplicated Header name the later column wins: `reserved` (columns 11
   * and 20) and `broadcast_services` (columns 45 and 47).
   */
  lemma HeaderLaterDuplicateWins(line: string)
    ensures var cols, fields := Split(line, '|'), FromLine(Header, line).fields;
      && (if |cols| > 20 then "reserved" in fields && fields["reserved"] == cols[20]
          else if |cols| > 11 then "reserved" in fields && fields["reserved"] == cols[11]
          else "reserved" !in fields)
      && (if |cols| > 47 then "broadcast_services" in fields && fields["broadcast_services"] == cols[47]
          else if |cols| > 45 then "broadcast_services" in fields && fields["broadcast_services"] == cols[45]
          else "broadcast_services" !in fields)
  {
    HeaderDuplicateNames();
    DuplicateNameLaterWins(HeaderFields, Split(line, '|'), "reserved", 11, 20);
    DuplicateNameLaterWins(HeaderFields, Split(line, '|'), "broadcast_services", 45, 47);
  }

  /** `zip` stops at the shorter list, so columns past the last name are never paired. */
  lemma ZipIgnoresExtraColumns(names: seq<string>, cols: seq<string>, more: seq<string>)
    requires |cols| >= |names|
    ensures Zip(names, cols + more) == Zip(names, cols)
  {
    var n, wide := |names|, cols + more;
    assert Min(|names|, |wide|) == n && Min(|names|, |cols|) == n;
    if n > 0 {
      var front := names[..n - 1];
      assert wide[..n - 1] == cols[..n - 1];
      calc {
        Zip(names, wide);
        Zip(front, wide[..n - 1])[names[n - 1] := wide[n - 1]];
        Zip(front, cols[..n - 1])[names[n - 1] := cols[n - 1]];
        Zip(names, cols);
      }
    }
  }

  /** Columns beyond the kind's field list are dropped. */
  lemma FromLineDropsExtraColumns(k: Kind, line: string, extra: string)
    requires |Split(line, '|')| >= |Fields(k)|
    ensures FromLine(k, line + "|" + extra) == FromLine(k, line)
  {
    SplitAtSeparator(line, extra, '|');
    ZipIgnoresExtraColumns(Fields(k), Split(line, '|'), Split(extra, '|'));
  }

  /**
   * What Python's text mode does to line ends on reading: `\r\n` and a lone
   * `\r` both become `\n`.
   */
  function UniversalNewlines(raw: string): (text: string)
    ensures '\r' !in text
    decreases |raw|
  {
    if raw == [] then []
    else if raw[0] == '\r' then
      "\n" + UniversalNewlines(if |raw| > 1 && raw[1] == '\n' then raw[2..] else raw[1..])
    else [raw[0]] + UniversalNewlines(raw[1..])
  }

  /** Text without carriage returns is read unchanged. */
  lemma {:induction false} UniversalNewlinesPlain(raw: string)
    requires '\r' !in raw
    ensures UniversalNewlines(raw) == raw
    decreases |raw|
  {
    if raw != [] {
      assert '\r' !in raw[1..] by {
        forall i | 0 <= i < |raw| - 1 ensures raw[1..][i] != '\r' { assert raw[1..][i] == raw[i + 1]; }
      }
      UniversalNewlinesPlain(raw[1..]);
    }
  }

  /** A `\r\n` line end is read as one `\n`; the text before it is unchanged. */
  lemma {:induction false} UniversalNewlinesCrLf(a: string, b: string)
    requires '\r' !in a
    ensures UniversalNewlines(a + "\r\n" + b) == a + "\n" + UniversalNewlines(b)
    decreases |a|
  {
    var raw := a + "\r\n" + b;
    if a == [] {
      assert raw[0] == '\r' && raw[1] == '\n' && raw[2..] == b;
    } else {
      assert raw[0] == a[0] && raw[1..] == a[1..] + "\r\n" + b;
      assert '\r' !in a[1..] by {
        forall i | 0 <= i < |a| - 1 ensures a[1..][i] != '\r' { assert a[1..][i] == a[i + 1]; }
      }
      UniversalNewlinesCrLf(a[1..], b);
      assert a == [a[0]] + a[1..];
    }
  }

  /** A lone `\r`, one not followed by `\n`, is read as `\n`; the text before it is unchanged. */
  lemma {:induction false} UniversalNewlinesLoneCr(a: string, b: string)
    requires '\r' !in a
    requires b == [] || b[0] != '\n'
    ensures UniversalNewlines(a + "\r" + b) == a + "\n" + UniversalNewlines(b)
    decreases |a|
  {
    var raw := a + "\r" + b;
    if a == [] {
      assert raw[0] == '\r' && raw[1..] == b;
    } else {
      assert raw[0] == a[0] && raw[1..] == a[1..] + "\r" + b;
      assert '\r' !in a[1..] by {
        forall i | 0 <= i < |a| - 1 ensures a[1..][i] != '\r' { assert a[1..][i] == a[i + 1]; }
      }
      UniversalNewlinesLoneCr(a[1..], b);
      assert a == [a[0]] + a[1..];
    }
  }

  /** The lines that are not empty, in order. */
  function NonEmptyLines(lines: seq<string>): (kept: seq<string>)
    ensures |kept| <= |lines|
    ensures forall i :: 0 <= i < |kept| ==> kept[i] != "" && kept[i] in lines
    decreases |lines|
  {
    if lines == [] then []
    else
      var last := lines[|lines| - 1];
      var init := NonEmptyLines(lines[..|lines| - 1]);
      assert forall x :: x in lines[..|lines| - 1] ==> x in lines;
      if last == "" then init else init + [last]
  }

  /** One record per line, in order. */
  function ParseLines(k: Kind, lines: seq<string>): (rs: seq<Record>)
    decreases |lines|
  {
    if lines == [] then []
    else ParseLines(k, lines[..|lines| - 1]) + [FromLine(k, lines[|lines| - 1])]
  }

  /** Record `i` is line `i` read as kind `k`. */
  lemma {:induction false} ParseLinesPointwise(k: Kind, lines: seq<string>)
    ensures |ParseLines(k, lines)| == |lines|
    ensures forall i :: 0 <= i < |lines| ==> ParseLines(k, lines)[i] == FromLine(k, lines[i])
    decreases |lines|
  {
    if lines != [] {
      var n := |lines|;
      var init := lines[..n - 1];
      ParseLinesPointwise(k, init);
      var rs := ParseLines(k, lines);
      assert rs == ParseLines(k, init) + [FromLine(k, lines[n - 1])];
      forall i | 0 <= i < n
        ensures rs[i] == FromLine(k, lines[i])
      {
        if i < n - 1 {
          assert rs[i] == ParseLines(k, init)[i];
          assert init[i] == lines[i];
        }
      }
    }
  }

  /** The records of a data file's text: one per non-empty `\n`-separated line. */
  function ParseFile(k: Kind, text: string): (records: seq<Record>)
  {
    ParseLines(k, NonEmptyLines(Split(text, '\n')))
  }

  /** What opening and reading a data file yields. */
  datatype FileRead =
    | Text(raw: string)  // the decoded characters of the file
    | OsError            // open or read failed with an OSError (permissions, not a regular file, ...)
    | DecodeError        // the bytes are not valid in the text encoding

  /** A data folder: file name to what reading it yields; a name that is absent is a missing file. */
  type Folder = map<string, FileRead>

  datatype Error =
    | RecordNonexistent(file: string)  // the file could not be opened or read
    | Undecodable(file: string)       // the file is not valid text
    | MissingIdentifier(kind: Kind)   // a record has no unique_system_identifier

  /**
   * `Record.load_file`: the records of the kind's file, or
   * `RecordNonexistent` for any OS-level failure (a missing file included).
   */
  function Load(k: Kind, folder: Folder): (result: Result<seq<Record>, Error>)
  {
    var name := FileName(k);
    if name !in folder then Failure(RecordNonexistent(name))
    else match folder[name]
      case OsError => Failure(RecordNonexistent(name))
      case DecodeError => Failure(Undecodable(name))
      case Text(raw) => Success(ParseFile(k, UniversalNewlines(raw)))
  }

  /** `Record.load_file`: the failures of opening and decoding the file, then its lines parsed. */
  method LoadFile(k: Kind, folder: Folder) returns (result: Result<seq<Record>, Error>)
    ensures result == Load(k, folder)
    ensures result.Failure? ==> result.error.RecordNonexistent? || result.error.Undecodable?
    ensures result.Success? ==> forall i :: 0 <= i < |result.value| ==> result.value[i].kind == k
  {
    var name := FileName(k);
    if name !in folder || folder[name].OsError? {
      return Failure(RecordNonexistent(name));
    }
    if folder[name].DecodeError? {
      return Failure(Undecodable(name));
    }
    var records := ParseText(k, UniversalNewlines(folder[name].raw));
    return Success(records);
  }

  /** The loop of `Record.load_file` over a file's lines: one record per non-empty line. */
  method ParseText(k: Kind, text: string) returns (records: seq<Record>)
    ensures records == ParseFile(k, text)
    ensures forall i :: 0 <= i < |records| ==> records[i].kind == k
  {
    var lines := Split(text, '\n');
    records := [];
    for i := 0 to |lines|
      invariant records == ParseLines(k, NonEmptyLines(lines[..i]))
    {
      ghost var kept := NonEmptyLines(lines[..i]);
      assert lines[..i + 1][..i] == lines[..i];
      if lines[i] != "" {
        assert (kept + [lines[i]])[..|kept|] == kept;
        records := records + [FromLine(k, lines[i])];
      }
    }
    assert lines[..|lines|] == lines;
    ParseLinesPointwise(k, NonEmptyLines(lines));
    forall i | 0 <= i < |records|
      ensures records[i].kind == k
    {
      assert records[i] == FromLine(k, NonEmptyLines(lines)[i]);
    }
  }

  /** Filtering distributes over concatenation, so it keeps the order of the lines. */
  lemma {:induction false} NonEmptyLinesAppend(a: seq<string>, b: seq<string>)
    ensures NonEmptyLines(a + b) == NonEmptyLines(a) + NonEmptyLines(b)
    decreases |b|
  {
    if b == [] {
      assert a + b == a;
    } else {
      var b' := b[..|b| - 1];
      assert (a + b)[..|a + b| - 1] == a + b';
      NonEmptyLinesAppend(a, b');
    }
  }

  /** A single line is kept exactly when it is not empty. */
  lemma NonEmptyLinesSingle(line: string)
    ensures NonEmptyLines([line]) == if line == "" then [] else [line]
  {
    assert [line][..0] == [];
  }

  /** The number of records is the number of non-empty lines. */
  lemma {:induction false} NonEmptyLinesCount(lines: seq<string>)
    ensures |NonEmptyLines(lines)| == |lines| - multiset(lines)[""]
    decreases |lines|
  {
    if lines != [] {
      var init := lines[..|lines| - 1];
      NonEmptyLinesCount(init);
      assert lines == init + [lines[|lines| - 1]];
      assert multiset(lines) == multiset(init) + multiset{lines[|lines| - 1]};
    }
  }

  /** A file of lines joined by `\n` yields one record per non-empty line, in order. */
  lemma FileOfLines(k: Kind, lines: seq<string>)
    requires |lines| >= 1
    requires forall i :: 0 <= i < |lines| ==> '\n' !in lines[i]
    ensures ParseFile(k, Join(lines, "\n")) == ParseLines(k, NonEmptyLines(lines))
  {
    assert "\n" == ['\n'];
    SplitJoin(lines, '\n');
  }

  /** A trailing newline adds an empty last line, which yields no record. */
  lemma TrailingNewlineIgnored(k: Kind, text: string)
    ensures ParseFile(k, text + "\n") == ParseFile(k, text)
  {
    SplitTrailingSeparator(text, '\n');
    NonEmptyLinesAppend(Split(text, '\n'), [""]);
    NonEmptyLinesSingle("");
    assert NonEmptyLines(Split(text, '\n')) + [] == NonEmptyLines(Split(text, '\n'));
  }
}

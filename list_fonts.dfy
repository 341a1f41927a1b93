/** Reading family and subfamily names out of font files and grouping the
    files by family (fonty/lib/list_fonts.py, `parse_fonts`).

    A font file is seen only through its 'name' table: `nameTable(path)` is
    the sequence of its name records, in table order. Turning a subfamily
    string into the long variant name (`FontAttribute.parse(s).print(long=True)`)
    is the parameter `describe`, which gives None when the string does not
    parse. */
module ListFonts {
  import opened Base

  /** Name IDs of the OpenType 'name' table (chapter "name — Naming Table",
      subsection "Name IDs", of the OpenType specification). */
  const FamilyId: int := 1
  const SubfamilyId: int := 2
  const TypographicFamilyId: int := 16
  const TypographicSubfamilyId: int := 17

  /** One name record: its Name ID and its decoded text, `str(record)`. */
  datatype NameRecord = NameRecord(nameId: int, text: string)

  // ---------------------------------------------------------------------
  // Choosing the family and subfamily of one font
  // ---------------------------------------------------------------------

  /** Position of the first record with Name ID `id`. */
  function FirstWithId(rs: seq<NameRecord>, id: int): (r: Option<nat>)
    ensures r.Some? ==> r.value < |rs| && rs[r.value].nameId == id
    ensures r.Some? ==> forall j :: 0 <= j < r.value ==> rs[j].nameId != id
    ensures r.None? ==> forall j :: 0 <= j < |rs| ==> rs[j].nameId != id
  {
    if rs == [] then None
    else if rs[0].nameId == id then Some(0)
    else match FirstWithId(rs[1..], id)
      case None => None
      case Some(j) => Some(j + 1)
  }

  /** One more record at the end changes the first match only when there was
      none. */
  lemma {:induction false} FirstWithIdSnoc(rs: seq<NameRecord>, r: NameRecord, id: int)
    ensures FirstWithId(rs + [r], id) ==
      if FirstWithId(rs, id).Some? then FirstWithId(rs, id)
      else if r.nameId == id then Some(|rs|)
      else None
  {
    if rs != [] {
      assert (rs + [r])[1..] == rs[1..] + [r];
      FirstWithIdSnoc(rs[1..], r, id);
    }
  }

  /** Position of the last record with Name ID `id`. */
  function LastWithId(rs: seq<NameRecord>, id: int): (r: Option<nat>)
    ensures r.Some? ==> r.value < |rs| && rs[r.value].nameId == id
    ensures r.Some? ==> forall j :: r.value < j < |rs| ==> rs[j].nameId != id
    ensures r.None? ==> forall j :: 0 <= j < |rs| ==> rs[j].nameId != id
  {
    if rs == [] then None
    else if rs[|rs| - 1].nameId == id then Some(|rs| - 1)
    else LastWithId(rs[..|rs| - 1], id)
  }

  /** The family a font is filed under: the last typographic family record
      (ID 16) if there is one, else the first legacy family record (ID 1),
      else None. */
  function ChosenFamily(rs: seq<NameRecord>): Option<string>
  {
    match LastWithId(rs, TypographicFamilyId)
    case Some(i) => Some(rs[i].text)
    case None =>
      match FirstWithId(rs, FamilyId)
      case Some(i) => Some(rs[i].text)
      case None => None
  }

  /** The lower-cased subfamily: the last typographic subfamily record
      (ID 17) if there is one, else the first legacy subfamily record (ID 2),
      else None. */
  function ChosenSubfamily(rs: seq<NameRecord>): Option<string>
  {
    match LastWithId(rs, TypographicSubfamilyId)
    case Some(i) => Some(Lower(rs[i].text))
    case None =>
      match FirstWithId(rs, SubfamilyId)
      case Some(i) => Some(Lower(rs[i].text))
      case None => None
  }

  /** A family is chosen exactly when the font has a family record of either
      kind, and the chosen family is the text of one of them; likewise the
      subfamily, lower-cased. */
  lemma ChosenNamesComeFromRecords(rs: seq<NameRecord>)
    ensures ChosenFamily(rs).Some? <==>
      exists i :: 0 <= i < |rs| && (rs[i].nameId == FamilyId || rs[i].nameId == TypographicFamilyId)
    ensures ChosenFamily(rs).Some? ==>
      exists i :: && 0 <= i < |rs| && (rs[i].nameId == FamilyId || rs[i].nameId == TypographicFamilyId)
                  && ChosenFamily(rs).value == rs[i].text
    ensures ChosenSubfamily(rs).Some? <==>
      exists i :: 0 <= i < |rs| && (rs[i].nameId == SubfamilyId || rs[i].nameId == TypographicSubfamilyId)
    ensures ChosenSubfamily(rs).Some? ==>
      exists i :: && 0 <= i < |rs| && (rs[i].nameId == SubfamilyId || rs[i].nameId == TypographicSubfamilyId)
                  && ChosenSubfamily(rs).value == Lower(rs[i].text)
  {
    var f16, f1 := LastWithId(rs, TypographicFamilyId), FirstWithId(rs, FamilyId);
    if f16.Some? {
      assert rs[f16.value].nameId == TypographicFamilyId;
    } else if f1.Some? {
      assert rs[f1.value].nameId == FamilyId;
    }
    var s17, s2 := LastWithId(rs, TypographicSubfamilyId), FirstWithId(rs, SubfamilyId);
    if s17.Some? {
      assert rs[s17.value].nameId == TypographicSubfamilyId;
    } else if s2.Some? {
      assert rs[s2.value].nameId == SubfamilyId;
    }
  }

  /** The scan over a font's name records: a legacy record is taken only
      while nothing has been chosen yet, a typographic record always
      overrides. The result is the closed form above. */
  method SelectNames(records: seq<NameRecord>) returns (family: Option<string>, variant: Option<string>)
    ensures family == ChosenFamily(records)
    ensures variant == ChosenSubfamily(records)
  {
    family, variant := None, None;
    for i := 0 to |records|
      invariant family == ChosenFamily(records[..i])
      invariant variant == ChosenSubfamily(records[..i])
    {
      var record := records[i];
      assert records[..i + 1] == records[..i] + [record];
      FirstWithIdSnoc(records[..i], record, FamilyId);
      FirstWithIdSnoc(records[..i], record, SubfamilyId);
      if record.nameId == FamilyId && family.None? {
        family := Some(record.text);
      } else if record.nameId == TypographicFamilyId {
        family := Some(record.text);
      } else if record.nameId == SubfamilyId && variant.None? {
        variant := Some(Lower(record.text));
      } else if record.nameId == TypographicSubfamilyId {
        variant := Some(Lower(record.text));
      }
    }
    assert records[..|records|] == records;
  }

  // ---------------------------------------------------------------------
  // One entry per font file
  // ---------------------------------------------------------------------

  /** The family key of a group; fonts without any family record are filed
      under None. */
  type Family = Option<string>

  /** One font of a group: its path and its variant label. */
  datatype Entry = Entry(path: string, variant: Option<string>)

  /** The failure of `FontAttribute.parse` on a subfamily string. */
  datatype ParseError = InvalidVariant(subfamily: string)

  /** The variant label of a font: None without a subfamily; otherwise the
      long variant name, `--`, and the lower-cased subfamily itself. */
  function VariantLabel(subfamily: Option<string>, describe: string -> Option<string>)
    : (r: Result<Option<string>, ParseError>)
    ensures subfamily.None? ==> r == Ok(None)
    ensures subfamily.Some? ==>
      (r.Err? <==> describe(subfamily.value).None?) &&
      (r.Err? ==> r.error == InvalidVariant(subfamily.value))
    ensures subfamily.Some? && r.Ok? ==>
      && r.value.Some?
      && |r.value.value| >= |subfamily.value| + 2
      && r.value.value[|r.value.value| - |subfamily.value| - 2..] == "--" + subfamily.value
  {
    match subfamily
    case None => Ok(None)
    case Some(s) =>
      match describe(s)
      case None => Err(InvalidVariant(s))
      case Some(long) => Ok(Some(long + "--" + s))
  }

  /** What one font file contributes: its family key and its entry. */
  datatype Row = Row(family: Family, entry: Entry)

  /** The body of the loop over paths, up to the grouping: read the name
      records, choose family and subfamily, build the variant label. */
  method ReadFont(path: string, nameTable: string -> seq<NameRecord>, describe: string -> Option<string>)
    returns (r: Result<Row, ParseError>)
    ensures r == Examine(path, nameTable, describe)
  {
    var family, subfamily := SelectNames(nameTable(path));
    var variant := VariantLabel(subfamily, describe);
    if variant.Err? {
      return Err(variant.error);
    }
    return Ok(Row(family, Entry(path, variant.value)));
  }

  /** One font file in closed form: its chosen family and its entry, or the
      error of its variant label. */
  function Examine(path: string, nameTable: string -> seq<NameRecord>, describe: string -> Option<string>)
    : Result<Row, ParseError>
  {
    var names := nameTable(path);
    match VariantLabel(ChosenSubfamily(names), describe)
    case Err(e) => Err(e)
    case Ok(tag) => Ok(Row(ChosenFamily(names), Entry(path, tag)))
  }

  /** The rows of all paths in order, or the error of the first path whose
      subfamily does not parse. */
  function Rows(paths: seq<string>, nameTable: string -> seq<NameRecord>, describe: string -> Option<string>)
    : Result<seq<Row>, ParseError>
  {
    if paths == [] then Ok([])
    else
      var last := paths[|paths| - 1];
      match Rows(paths[..|paths| - 1], nameTable, describe)
      case Err(e) => Err(e)
      case Ok(rows) =>
        match Examine(last, nameTable, describe)
        case Err(e) => Err(e)
        case Ok(row) => Ok(rows + [row])
  }

  /** The rows are the examined paths one for one, and they exist exactly
      when every path examines without error. */
  lemma {:induction false} RowsAreExamined(paths: seq<string>,
                                           nameTable: string -> seq<NameRecord>, describe: string -> Option<string>)
    ensures Rows(paths, nameTable, describe).Ok? <==>
      forall i :: 0 <= i < |paths| ==> Examine(paths[i], nameTable, describe).Ok?
    ensures Rows(paths, nameTable, describe).Ok? ==>
      && |Rows(paths, nameTable, describe).value| == |paths|
      && forall i :: 0 <= i < |paths| ==>
           Examine(paths[i], nameTable, describe) == Ok(Rows(paths, nameTable, describe).value[i])
  {
    if paths != [] {
      var prefix := paths[..|paths| - 1];
      RowsAreExamined(prefix, nameTable, describe);
      assert forall i :: 0 <= i < |prefix| ==> prefix[i] == paths[i];
    }
  }

  /** An error of the rows is the error of the first path that fails. */
  lemma {:induction false} RowsErrorIsFirst(paths: seq<string>,
                                            nameTable: string -> seq<NameRecord>, describe: string -> Option<string>)
    requires Rows(paths, nameTable, describe).Err?
    ensures exists i :: && 0 <= i < |paths|
                        && Examine(paths[i], nameTable, describe) == Err(Rows(paths, nameTable, describe).error)
                        && forall j :: 0 <= j < i ==> Examine(paths[j], nameTable, describe).Ok?
  {
    var prefix := paths[..|paths| - 1];
    var n := |prefix|;
    assert forall i :: 0 <= i < n ==> prefix[i] == paths[i];
    if Rows(prefix, nameTable, describe).Err? {
      RowsErrorIsFirst(prefix, nameTable, describe);
      var i :| && 0 <= i < n
               && Examine(prefix[i], nameTable, describe) == Err(Rows(prefix, nameTable, describe).error)
               && forall j :: 0 <= j < i ==> Examine(prefix[j], nameTable, describe).Ok?;
      assert Examine(paths[i], nameTable, describe).Err?;
    } else {
      RowsAreExamined(prefix, nameTable, describe);
      assert Examine(paths[n], nameTable, describe).Err?;
    }
  }

  /** Once a prefix of the paths fails, so does the whole list, with the
      same error. */
  lemma {:induction false} RowsErrorPersists(paths: seq<string>, n: nat,
                                             nameTable: string -> seq<NameRecord>, describe: string -> Option<string>)
    requires n <= |paths|
    requires Rows(paths[..n], nameTable, describe).Err?
    ensures Rows(paths, nameTable, describe) == Rows(paths[..n], nameTable, describe)
  {
    if n < |paths| {
      var prefix := paths[..|paths| - 1];
      assert prefix[..n] == paths[..n];
      RowsErrorPersists(prefix, n, nameTable, describe);
    } else {
      assert paths[..n] == paths;
    }
  }

  /** One more path either fails with its own error or adds its row. */
  lemma RowsExtend(paths: seq<string>, i: nat, rows: seq<Row>,
                   nameTable: string -> seq<NameRecord>, describe: string -> Option<string>)
    requires i < |paths|
    requires Rows(paths[..i], nameTable, describe) == Ok(rows)
    ensures Examine(paths[i], nameTable, describe).Err? ==>
      Rows(paths[..i + 1], nameTable, describe) == Err(Examine(paths[i], nameTable, describe).error)
    ensures Examine(paths[i], nameTable, describe).Ok? ==>
      Rows(paths[..i + 1], nameTable, describe) == Ok(rows + [Examine(paths[i], nameTable, describe).value])
  {
    assert paths[..i + 1][..i] == paths[..i];
  }

  // ---------------------------------------------------------------------
  // Grouping by family
  // ---------------------------------------------------------------------

  /** An insertion-ordered dictionary of groups: `order` lists the keys in
      the order they were first inserted; each group carries its key as its
      'name'. */
  datatype Group = Group(name: Family, fonts: seq<Entry>)
  datatype Typefaces = Typefaces(order: seq<Family>, groups: map<Family, Group>)

  /** The family of each row, in order. */
  function Keys(rows: seq<Row>): (r: seq<Family>)
    ensures |r| == |rows|
  {
    if rows == [] then [] else Keys(rows[..|rows| - 1]) + [rows[|rows| - 1].family]
  }

  /** The distinct elements of `s`, each at the place it first occurs. */
  function FirstOccurrences<T(==)>(s: seq<T>): seq<T>
  {
    if s == [] then []
    else
      var d := FirstOccurrences(s[..|s| - 1]);
      if s[|s| - 1] in d then d else d + [s[|s| - 1]]
  }

  /** The entries of the rows filed under `k`, in the order of the rows. */
  function EntriesOf(rows: seq<Row>, k: Family): seq<Entry>
  {
    if rows == [] then []
    else
      var last := rows[|rows| - 1];
      EntriesOf(rows[..|rows| - 1], k) + (if last.family == k then [last.entry] else [])
  }

  /** `t` is the dictionary that grouping `rows` builds: one group per
      distinct family, keyed and named by it and listed in first-occurrence
      order, holding the entries of that family in row order. */
  ghost predicate IsGrouping(t: Typefaces, rows: seq<Row>)
  {
    && t.order == FirstOccurrences(Keys(rows))
    && (forall k :: k in t.groups <==> k in Keys(rows))
    && (forall k :: k in t.groups ==> t.groups[k] == Group(k, EntriesOf(rows, k)))
  }

  /** The number of entries over the groups listed in `ks`. */
  function Total(ks: seq<Family>, groups: map<Family, Group>): nat
  {
    if ks == [] then 0
    else Total(ks[..|ks| - 1], groups) + (if ks[|ks| - 1] in groups then |groups[ks[|ks| - 1]].fonts| else 0)
  }

  /** All font entries of a dictionary, summed over its keys. */
  function TotalEntries(t: Typefaces): nat
  {
    Total(t.order, t.groups)
  }

  /** The number of rows filed under the families in `ks`. */
  function Filed(ks: seq<Family>, rows: seq<Row>): nat
  {
    if ks == [] then 0 else Filed(ks[..|ks| - 1], rows) + |EntriesOf(rows, ks[|ks| - 1])|
  }

  lemma KeysSnoc(rows: seq<Row>, row: Row)
    ensures Keys(rows + [row]) == Keys(rows) + [row.family]
  {
    assert (rows + [row])[..|rows|] == rows;
  }

  lemma EntriesOfSnoc(rows: seq<Row>, row: Row, k: Family)
    ensures EntriesOf(rows + [row], k) == EntriesOf(rows, k) + (if row.family == k then [row.entry] else [])
  {
    assert (rows + [row])[..|rows|] == rows;
  }

  /** A family no row has collects no entries. */
  lemma {:induction false} EntriesOfAbsent(rows: seq<Row>, k: Family)
    requires k !in Keys(rows)
    ensures EntriesOf(rows, k) == []
  {
    if rows != [] {
      var prefix := rows[..|rows| - 1];
      KeysSnoc(prefix, rows[|rows| - 1]);
      assert rows == prefix + [rows[|rows| - 1]];
      EntriesOfAbsent(prefix, k);
    }
  }

  /** FirstOccurrences keeps exactly the elements of `s`. */
  lemma {:induction false} FirstOccurrencesElements(s: seq<Family>)
    ensures forall x :: x in FirstOccurrences(s) <==> x in s
  {
    if s != [] {
      var prefix := s[..|s| - 1];
      FirstOccurrencesElements(prefix);
      assert s == prefix + [s[|s| - 1]];
    }
  }

  /** FirstOccurrences lists no element twice. */
  lemma {:induction false} FirstOccurrencesDistinct(s: seq<Family>)
    ensures Distinct(FirstOccurrences(s))
  {
    if s != [] {
      FirstOccurrencesDistinct(s[..|s| - 1]);
    }
  }

  /** The dictionary after appending a row's entry to the group of its
      family. */
  function Appended(t: Typefaces, row: Row): Typefaces
    requires row.family in t.groups
  {
    var g := t.groups[row.family];
    Typefaces(t.order, t.groups[row.family := g.(fonts := g.fonts + [row.entry])])
  }

  /** One step of the grouping loop for a family seen before: the entry is
      appended to its group. */
  lemma GroupStepKnown(rows: seq<Row>, row: Row, t: Typefaces)
    requires IsGrouping(t, rows)
    requires row.family in t.groups
    ensures row.family in t.order
    ensures IsGrouping(Appended(t, row), rows + [row])
  {
    var f := row.family;
    var rows' := rows + [row];
    KeysSnoc(rows, row);
    FirstOccurrencesElements(Keys(rows));
    assert Keys(rows')[..|rows|] == Keys(rows);
    assert FirstOccurrences(Keys(rows')) == t.order;
    var g := Appended(t, row).groups;
    forall k | k in g ensures g[k] == Group(k, EntriesOf(rows', k)) {
      EntriesOfSnoc(rows, row, k);
    }
  }

  /** One step of the grouping loop for a new family: it is inserted at the
      end with an empty group, and the entry is appended to that group. */
  lemma GroupStepNew(rows: seq<Row>, row: Row, t: Typefaces)
    requires IsGrouping(t, rows)
    requires row.family !in t.groups
    ensures row.family !in t.order
    ensures IsGrouping(Appended(Typefaces(t.order + [row.family], t.groups[row.family := Group(row.family, [])]), row),
                       rows + [row])
  {
    var f := row.family;
    var rows' := rows + [row];
    KeysSnoc(rows, row);
    FirstOccurrencesElements(Keys(rows));
    assert Keys(rows')[..|rows|] == Keys(rows);
    assert FirstOccurrences(Keys(rows')) == t.order + [f];
    EntriesOfAbsent(rows, f);
    var g := Appended(Typefaces(t.order + [f], t.groups[f := Group(f, [])]), row).groups;
    assert [] + [row.entry] == [row.entry];
    forall k | k in g ensures g[k] == Group(k, EntriesOf(rows', k)) {
      EntriesOfSnoc(rows, row, k);
    }
  }

  /** Adding one row adds one to the count of a list of distinct families
      that includes its family, and nothing otherwise. */
  lemma {:induction false} FiledSnoc(ks: seq<Family>, rows: seq<Row>, row: Row)
    requires Distinct(ks)
    ensures Filed(ks, rows + [row]) == Filed(ks, rows) + (if row.family in ks then 1 else 0)
  {
    if ks != [] {
      var prefix := ks[..|ks| - 1];
      var x := ks[|ks| - 1];
      assert ks == prefix + [x];
      FiledSnoc(prefix, rows, row);
      EntriesOfSnoc(rows, row, x);
      if row.family == x {
        assert row.family !in prefix by {
          forall i | 0 <= i < |prefix| ensures prefix[i] != x {
            assert ks[i] == prefix[i];
          }
        }
      }
    }
  }

  /** Every row is filed exactly once across the distinct families. */
  lemma {:induction false} EveryRowFiledOnce(rows: seq<Row>)
    ensures Filed(FirstOccurrences(Keys(rows)), rows) == |rows|
  {
    if rows != [] {
      var prefix := rows[..|rows| - 1];
      var row := rows[|rows| - 1];
      var f := row.family;
      assert rows == prefix + [row];
      EveryRowFiledOnce(prefix);
      KeysSnoc(prefix, row);
      EntriesOfSnoc(prefix, row, f);
      var d := FirstOccurrences(Keys(prefix));
      assert Keys(rows)[..|rows| - 1] == Keys(prefix);
      FirstOccurrencesDistinct(Keys(prefix));
      FirstOccurrencesElements(Keys(prefix));
      FiledSnoc(d, prefix, row);
      if f !in d {
        assert FirstOccurrences(Keys(rows)) == d + [f];
        EntriesOfAbsent(prefix, f);
        assert (d + [f])[..|d|] == d;
      }
    }
  }

  /** Summing the groups' sizes over the keys of a grouping is counting the
      rows filed under those keys. */
  lemma {:induction false} TotalIsFiled(ks: seq<Family>, t: Typefaces, rows: seq<Row>)
    requires IsGrouping(t, rows)
    requires forall k :: k in ks ==> k in Keys(rows)
    ensures Total(ks, t.groups) == Filed(ks, rows)
  {
    if ks != [] {
      TotalIsFiled(ks[..|ks| - 1], t, rows);
    }
  }

  /** The dictionary holds exactly as many entries as there were rows. */
  lemma GroupingCountsEveryRow(t: Typefaces, rows: seq<Row>)
    requires IsGrouping(t, rows)
    ensures TotalEntries(t) == |rows|
  {
    FirstOccurrencesElements(Keys(rows));
    TotalIsFiled(t.order, t, rows);
    EveryRowFiledOnce(rows);
  }

  /** The keys of a grouping are its distinct families, each listed once,
      and every listed key has its group. */
  lemma GroupingShape(t: Typefaces, rows: seq<Row>)
    requires IsGrouping(t, rows)
    ensures Distinct(t.order)
    ensures forall k :: k in t.order <==> k in Keys(rows)
    ensures forall k :: k in t.groups <==> k in t.order
  {
    FirstOccurrencesDistinct(Keys(rows));
    FirstOccurrencesElements(Keys(rows));
  }

  /** Each row's entry sits in the group of its family. */
  lemma {:induction false} EntryInItsGroup(rows: seq<Row>, i: nat)
    requires i < |rows|
    ensures rows[i].entry in EntriesOf(rows, rows[i].family)
  {
    var prefix := rows[..|rows| - 1];
    if i < |rows| - 1 {
      assert prefix[i] == rows[i];
      EntryInItsGroup(prefix, i);
    }
  }

  /** A group holds only entries of rows of its family. */
  lemma {:induction false} EntriesBelong(rows: seq<Row>, k: Family)
    ensures forall e :: e in EntriesOf(rows, k) ==>
      exists i :: 0 <= i < |rows| && rows[i].family == k && rows[i].entry == e
  {
    if rows != [] {
      var prefix := rows[..|rows| - 1];
      EntriesBelong(prefix, k);
      forall e | e in EntriesOf(prefix, k)
        ensures exists i :: 0 <= i < |rows| && rows[i].family == k && rows[i].entry == e
      {
        var i :| 0 <= i < |prefix| && prefix[i].family == k && prefix[i].entry == e;
        assert rows[i] == prefix[i];
      }
    }
  }

  // ---------------------------------------------------------------------
  // parse_fonts
  // ---------------------------------------------------------------------

  /** `parse_fonts`: choose each file's family and variant, then append the
      file to its family's group, creating the group on the family's first
      occurrence. A subfamily that does not parse aborts the whole call. */
  method ParseFonts(paths: seq<string>, nameTable: string -> seq<NameRecord>, describe: string -> Option<string>)
    returns (r: Result<Typefaces, ParseError>)
    ensures Rows(paths, nameTable, describe).Err? ==> r == Err(Rows(paths, nameTable, describe).error)
    ensures Rows(paths, nameTable, describe).Ok? ==> r.Ok? && IsGrouping(r.value, Rows(paths, nameTable, describe).value)
    ensures r.Ok? ==> TotalEntries(r.value) == |paths|
  {
    var order: seq<Family> := [];
    var groups: map<Family, Group> := map[];
    ghost var rows: seq<Row> := [];
    for i := 0 to |paths|
      invariant Rows(paths[..i], nameTable, describe) == Ok(rows)
      invariant |rows| == i
      invariant IsGrouping(Typefaces(order, groups), rows)
    {
      var path := paths[i];
      RowsExtend(paths, i, rows, nameTable, describe);
      var read := ReadFont(path, nameTable, describe);
      if read.Err? {
        RowsErrorPersists(paths, i + 1, nameTable, describe);
        return Err(read.error);
      }
      var family, entry := read.value.family, read.value.entry;
      ghost var row := read.value;
      if family !in groups {
        GroupStepNew(rows, row, Typefaces(order, groups));
        order := order + [family];
        groups := groups[family := Group(family, [])];
      } else {
        GroupStepKnown(rows, row, Typefaces(order, groups));
      }
      assert Appended(Typefaces(order, groups), row).groups
          == groups[family := groups[family].(fonts := groups[family].fonts + [entry])];
      groups := groups[family := groups[family].(fonts := groups[family].fonts + [entry])];
      rows := rows + [row];
    }
    assert paths[..|paths|] == paths;
    GroupingCountsEveryRow(Typefaces(order, groups), rows);
    return Ok(Typefaces(order, groups));
  }
}

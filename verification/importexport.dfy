/** Task import and export: reading spreadsheet rows into task fields (column aliases,
    category and tag normalisation, validation), renaming imported tasks whose names clash,
    adding them to the store, and the rows a task is exported as. */
module ImportExport {

  import opened Wrappers
  import opened Text
  import opened Seqs
  import opened Entities
  import Storage

  // ---------------------------------------------------------------------------------------
  // Reading a row
  // ---------------------------------------------------------------------------------------

  /** A parsed spreadsheet row: (column header, cell text) in column order. */
  type Row = seq<(string, string)>

  datatype Field = NameField | DescriptionField | SystemField | UserField | CategoryField | TagsField

  /** The column headers the importer understands, Chinese and English. */
  function FieldOf(column: string): Option<Field> {
    if column == "任务名称" || column == "name" then Some(NameField)
    else if column == "任务描述" || column == "description" then Some(DescriptionField)
    else if column == "System Prompt" || column == "system_prompt" || column == "systemPrompt" then Some(SystemField)
    else if column == "User Prompt" || column == "user_prompt" || column == "userPrompt" then Some(UserField)
    else if column == "分类" || column == "category" then Some(CategoryField)
    else if column == "标签" || column == "tags" then Some(TagsField)
    else None
  }

  /** Column `c` gives key `f` its value and no later column gives `f` one. */
  predicate GivenLast<F(==)>(row: Row, keyOf: string -> Option<F>, f: F, c: int) {
    0 <= c < |row| && keyOf(row[c].0) == Some(f) &&
    forall d | c < d < |row| :: keyOf(row[d].0) != Some(f)
  }

  /** The last value given to each key, with `keyOf` deciding which column feeds which key
      (columns it maps to nothing are ignored). */
  function LastWins<F(==)>(row: Row, keyOf: string -> Option<F>): map<F, string>
    decreases |row|
  {
    if |row| == 0 then map[]
    else
      var m := LastWins(row[..|row| - 1], keyOf);
      match keyOf(row[|row| - 1].0)
      case Some(f) => m[f := row[|row| - 1].1]
      case None => m
  }

  /** The keys given a value are exactly those some column feeds, and each holds the value
      of the last column that feeds it. */
  lemma {:induction false} LastWinsSpec<F(!new)>(row: Row, keyOf: string -> Option<F>)
    ensures forall f :: f in LastWins(row, keyOf) <==> exists c :: 0 <= c < |row| && keyOf(row[c].0) == Some(f)
    ensures forall f | f in LastWins(row, keyOf) :: exists c :: GivenLast(row, keyOf, f, c) && LastWins(row, keyOf)[f] == row[c].1
  {
    LastWinsKeys(row, keyOf);
    LastWinsValues(row, keyOf);
  }

  lemma {:induction false} LastWinsKeys<F(!new)>(row: Row, keyOf: string -> Option<F>)
    ensures forall f :: f in LastWins(row, keyOf) <==> exists c :: 0 <= c < |row| && keyOf(row[c].0) == Some(f)
    decreases |row|
  {
    if |row| > 0 {
      var init := row[..|row| - 1];
      var last := row[|row| - 1];
      LastWinsKeys(init, keyOf);
      var r := LastWins(row, keyOf);
      forall f
        ensures f in r <==> exists c :: 0 <= c < |row| && keyOf(row[c].0) == Some(f)
      {
        if f in r && keyOf(last.0) != Some(f) {
          var c :| 0 <= c < |init| && keyOf(init[c].0) == Some(f);
          assert row[c] == init[c];
        }
        if exists c :: 0 <= c < |row| && keyOf(row[c].0) == Some(f) {
          var c :| 0 <= c < |row| && keyOf(row[c].0) == Some(f);
          if c < |init| {
            assert init[c] == row[c];
          }
        }
      }
    }
  }

  lemma {:induction false} LastWinsValues<F(!new)>(row: Row, keyOf: string -> Option<F>)
    ensures forall f | f in LastWins(row, keyOf) :: exists c :: GivenLast(row, keyOf, f, c) && LastWins(row, keyOf)[f] == row[c].1
    decreases |row|
  {
    if |row| > 0 {
      var init := row[..|row| - 1];
      var last := row[|row| - 1];
      LastWinsValues(init, keyOf);
      var m := LastWins(init, keyOf);
      var r := LastWins(row, keyOf);
      forall f | f in r
        ensures exists c :: GivenLast(row, keyOf, f, c) && r[f] == row[c].1
      {
        if keyOf(last.0) == Some(f) {
          assert GivenLast(row, keyOf, f, |row| - 1);
        } else {
          var c :| GivenLast(init, keyOf, f, c) && m[f] == init[c].1;
          assert init[c] == row[c];
          assert GivenLast(row, keyOf, f, c);
        }
      }
    }
  }

  /** The row's cells by field. Several columns mapping to one field overwrite each other:
      the rightmost wins. */
  function MapFields(row: Row): (r: map<Field, string>)
    ensures forall f :: f in r <==> exists c :: 0 <= c < |row| && FieldOf(row[c].0) == Some(f)
    ensures forall f | f in r :: exists c :: GivenLast(row, FieldOf, f, c) && r[f] == row[c].1
  {
    LastWinsSpec(row, FieldOf);
    LastWins(row, FieldOf)
  }

  /** A field's text; a missing field reads like an empty one everywhere it is used. */
  function Cell(data: map<Field, string>, f: Field): string {
    if f in data then data[f] else ""
  }

  /** Category names and ids accepted in the category column. */
  function CategoryAlias(s: string): (r: Option<Id>)
    ensures r.Some? ==> BuiltinCategoryName(r.value).Some?
  {
    if s == "翻译" || s == "translation" then Some("translation")
    else if s == "写作" || s == "writing" then Some("writing")
    else if s == "分析" || s == "analysis" then Some("analysis")
    else if s == "编程" || s == "coding" then Some("coding")
    else if s == "通用" || s == "general" then Some("general")
    else if s == "其他" || s == "other" then Some("other")
    else None
  }

  function UnknownCategoryWarning(category: string): string {
    "未知分类\"" + category + "\"，将使用默认分类"
  }

  /** The category id a cell stands for, and the warning it raises. An empty cell means the
      general category; otherwise the trimmed text is a built-in alias, else the name or id
      of a custom category, else unknown (general, with a warning). */
  function ResolveCategory(raw: string, custom: seq<CustomCategory>): (r: (Id, Option<string>))
    ensures raw == "" ==> r == ("general", None)
    ensures raw != "" && CategoryAlias(Trim(raw)).Some? ==> r == (CategoryAlias(Trim(raw)).value, None)
    ensures raw != "" && CategoryAlias(Trim(raw)).None? ==>
              var named := Find(custom, (c: CustomCategory) => c.name == Trim(raw) || c.id == Trim(raw));
              (named.Some? ==> r == (named.value.id, None)) &&
              (named.None? ==> r == ("general", Some(UnknownCategoryWarning(Trim(raw)))))
    ensures r.1.None? ==> r.0 == "general" || BuiltinCategoryName(r.0).Some? || exists c :: c in custom && c.id == r.0
    ensures r.1.Some? ==> r == ("general", Some(UnknownCategoryWarning(Trim(raw))))
  {
    if raw == "" then ("general", None)
    else
      var category := Trim(raw);
      match CategoryAlias(category)
      case Some(id) => (id, None)
      case None =>
        match Find(custom, (c: CustomCategory) => c.name == category || c.id == category)
        case Some(c) => (c.id, None)
        case None => ("general", Some(UnknownCategoryWarning(category)))
  }

  /** `;`, `；`, `,` and `，`. */
  const TagSeparators: set<char> := {';', '；', ',', '，'}

  function TrimAll(parts: seq<string>): (r: seq<string>)
    ensures |r| == |parts|
    ensures forall k | 0 <= k < |r| :: r[k] == Trim(parts[k])
  {
    seq(|parts|, k requires 0 <= k < |parts| => Trim(parts[k]))
  }

  function NonEmpty(s: string): bool {
    s != ""
  }

  /** Trimming a piece free of separators leaves it free of them. */
  lemma TrimKeepsFree(p: string, seps: set<char>)
    requires FreeOf(p, seps)
    ensures FreeOf(Trim(p), seps)
  {
    var t := Trim(p);
    var i :| TrimmedAt(p, t, i);
    FreeOfSlice(p, seps, i, i + |t|);
  }

  lemma FreeOfSlice(p: string, seps: set<char>, a: nat, b: nat)
    requires a <= b <= |p| && FreeOf(p, seps)
    ensures FreeOf(p[a..b], seps)
  {
    forall j | 0 <= j < b - a
      ensures p[a..b][j] !in seps
    {
      assert p[a..b][j] == p[a + j];
    }
  }

  /** Pieces free of separators, each trimmed: still free of them, and trimmed. */
  lemma TrimAllClean(parts: seq<string>, seps: set<char>)
    requires forall k | 0 <= k < |parts| :: FreeOf(parts[k], seps)
    ensures forall k | 0 <= k < |parts| :: IsTrimmed(TrimAll(parts)[k]) && FreeOf(TrimAll(parts)[k], seps)
  {
    forall k | 0 <= k < |parts|
      ensures FreeOf(TrimAll(parts)[k], seps)
    {
      TrimKeepsFree(parts[k], seps);
    }
  }

  /** The pieces of a split are free of the separators. */
  lemma SplitPiecesFree(s: string, seps: set<char>)
    ensures forall k | 0 <= k < |Split(s, seps)| :: FreeOf(Split(s, seps)[k], seps)
  {
  }

  /** Dropping the empty pieces of clean pieces leaves non-empty clean pieces. */
  lemma KeptPiecesClean(pieces: seq<string>, seps: set<char>)
    requires forall k | 0 <= k < |pieces| :: IsTrimmed(pieces[k]) && FreeOf(pieces[k], seps)
    ensures var r := Filter(pieces, NonEmpty);
            forall k | 0 <= k < |r| :: r[k] != "" && IsTrimmed(r[k]) && FreeOf(r[k], seps)
  {
    var r := Filter(pieces, NonEmpty);
    forall k | 0 <= k < |r|
      ensures r[k] != "" && IsTrimmed(r[k]) && FreeOf(r[k], seps)
    {
      var j :| 0 <= j < |pieces| && pieces[j] == r[k];
    }
  }

  /** The pieces of `s` between separators, each trimmed, the empty ones dropped. */
  function CleanPieces(s: string, seps: set<char>): (r: seq<string>)
    ensures forall k | 0 <= k < |r| :: r[k] != "" && IsTrimmed(r[k]) && FreeOf(r[k], seps)
  {
    SplitPiecesFree(s, seps);
    TrimAllClean(Split(s, seps), seps);
    KeptPiecesClean(TrimAll(Split(s, seps)), seps);
    Filter(TrimAll(Split(s, seps)), NonEmpty)
  }

  /** The pieces of a split, trimmed: each is trimmed and free of separators. */
  function TrimmedPieces(t: string): (r: seq<string>)
    ensures forall k | 0 <= k < |r| :: IsTrimmed(r[k]) && FreeOf(r[k], TagSeparators)
  {
    SplitPiecesFree(t, TagSeparators);
    TrimAllClean(Split(t, TagSeparators), TagSeparators);
    TrimAll(Split(t, TagSeparators))
  }

  /** The tag list a cell stands for: the trimmed text split at any separator, each piece
      trimmed, empty pieces dropped. */
  function ParseTags(raw: string): (r: seq<string>)
    ensures forall k | 0 <= k < |r| :: r[k] != "" && IsTrimmed(r[k]) && FreeOf(r[k], TagSeparators)
    ensures AllSpace(raw) ==> r == []
  {
    TrimBlank(raw);
    var t := Trim(raw);
    if t == "" then []
    else
      KeptPiecesClean(TrimmedPieces(t), TagSeparators);
      Filter(TrimmedPieces(t), NonEmpty)
  }

  /** Trimming the cell first changes nothing: the tags are the pieces of the whole cell at
      every separator, each trimmed, the empty ones dropped. */
  lemma ParseTagsSplitsCell(raw: string)
    ensures ParseTags(raw) == CleanPieces(raw, TagSeparators)
  {
    TrimBlank(raw);
    SeparatorsNotSpace();
    if Trim(raw) == "" {
      BlankPieces(raw, TagSeparators);
    } else {
      TrimmedCellPieces(raw, TagSeparators);
    }
  }

  /** No tag separator is white space. */
  lemma SeparatorsNotSpace()
    ensures forall c | c in TagSeparators :: !IsSpace(c)
  {
    assert !IsSpace(';') && !IsSpace('；') && !IsSpace(',') && !IsSpace('，');
  }

  /** A blank text splits into blank pieces only, so no piece survives trimming and
      dropping empties. */
  lemma BlankPieces(raw: string, seps: set<char>)
    requires AllSpace(raw)
    requires forall c | c in seps :: !IsSpace(c)
    ensures CleanPieces(raw, seps) == []
  {
    SpaceFree(raw, seps);
    SplitFree(raw, seps);
    TrimBlank(raw);
    var pieces := TrimAll(Split(raw, seps));
    assert |pieces| == 1 && pieces[0] == Trim(raw) == "";
    assert !NonEmpty(pieces[0]) && pieces[1..] == [];
    assert Filter(pieces, NonEmpty) == Filter(pieces[1..], NonEmpty);
  }

  /** Splitting a text and trimming the pieces gives what splitting its trimmed middle gives,
      when no separator is white space. */
  lemma TrimmedCellPieces(raw: string, seps: set<char>)
    requires forall c | c in seps :: !IsSpace(c)
    ensures TrimAll(Split(Trim(raw), seps)) == TrimAll(Split(raw, seps))
  {
    SplitTrimmedTrims(raw, seps);
  }

  /** A validated row: rejected with errors, or accepted with warnings and task fields. */
  datatype Checked =
    | Rejected(rowNumber: nat, errors: seq<string>)
    | Accepted(rowNumber: nat, warnings: seq<string>, fields: TaskFields, isDuplicate: bool)

  const MissingNameError: string := "缺少任务名称"
  const DuplicateNameWarning: string := "任务名称重复，将自动重命名"

  /** An unknown-category warning is never the duplicate-name warning. */
  lemma WarningsDiffer(category: string)
    ensures UnknownCategoryWarning(category) != DuplicateNameWarning
  {
    assert UnknownCategoryWarning(category)[0] != DuplicateNameWarning[0];
  }

  /** The duplicate-name warning when flagged, then the category warning if any. */
  function Warnings(duplicate: bool, category: Option<string>): (r: seq<string>)
    requires category.Some? ==> category.value != DuplicateNameWarning
    ensures DuplicateNameWarning in r <==> duplicate
    ensures forall w | w in r :: w == DuplicateNameWarning || Some(w) == category
    ensures category.Some? ==> category.value in r
  {
    (if duplicate then [DuplicateNameWarning] else []) +
    (match category case Some(w) => [w] case None => [])
  }

  /** `validateTaskRow`: a row without a (trimmed) name is rejected; otherwise its fields are
      trimmed, its category resolved and its tags parsed, and a name already in the store
      (ignoring case) is flagged. */
  function ValidateTaskRow(row: Row, rowNumber: nat, existingNames: seq<string>, custom: seq<CustomCategory>): (r: Checked)
    ensures r.rowNumber == rowNumber
    ensures r.Rejected? <==> Trim(Cell(MapFields(row), NameField)) == ""
    ensures r.Rejected? ==> r.errors == [MissingNameError]
    ensures r.Accepted? ==>
              var data := MapFields(row);
              var category := ResolveCategory(Cell(data, CategoryField), custom);
              r.fields == TaskFields(Trim(Cell(data, NameField)), Trim(Cell(data, DescriptionField)),
                                     Trim(Cell(data, SystemField)), Trim(Cell(data, UserField)),
                                     category.0, ParseTags(Cell(data, TagsField))) &&
              (r.isDuplicate <==> LowerStr(r.fields.name) in existingNames) &&
              (DuplicateNameWarning in r.warnings <==> r.isDuplicate) &&
              (forall w | w in r.warnings :: w == DuplicateNameWarning || Some(w) == category.1) &&
              (category.1.Some? ==> category.1.value in r.warnings)
  {
    var data := MapFields(row);
    var name := Trim(Cell(data, NameField));
    if name == "" then Rejected(rowNumber, [MissingNameError])
    else
      var duplicate := LowerStr(name) in existingNames;
      var category := ResolveCategory(Cell(data, CategoryField), custom);
      WarningsDiffer(Trim(Cell(data, CategoryField)));
      Accepted(rowNumber, Warnings(duplicate, category.1),
               TaskFields(name, Trim(Cell(data, DescriptionField)), Trim(Cell(data, SystemField)),
                          Trim(Cell(data, UserField)), category.0, ParseTags(Cell(data, TagsField))),
               duplicate)
  }

  /** The store's names, lower-cased. */
  function ExistingNames(tasks: seq<Task>): (r: seq<string>)
    ensures |r| == |tasks|
    ensures forall k | 0 <= k < |tasks| :: r[k] == LowerStr(tasks[k].fields.name)
  {
    seq(|tasks|, k requires 0 <= k < |tasks| => LowerStr(tasks[k].fields.name))
  }

  /** `previewImportData`: every row validated, numbered as the spreadsheet numbers it (the
      header is row 1). */
  function PreviewImportData(rows: seq<Row>, tasks: seq<Task>, custom: seq<CustomCategory>): (r: seq<Checked>)
    ensures |r| == |rows|
    ensures forall k | 0 <= k < |r| :: r[k].rowNumber == k + 2 && r[k] == ValidateTaskRow(rows[k], k + 2, ExistingNames(tasks), custom)
  {
    seq(|rows|, k requires 0 <= k < |rows| => ValidateTaskRow(rows[k], k + 2, ExistingNames(tasks), custom))
  }

  // ---------------------------------------------------------------------------------------
  // Renaming clashing names
  // ---------------------------------------------------------------------------------------

  /** The `k`-th name tried for `base`: the name itself first, then `base(2)`, `base(3)`, .... */
  function Candidate(base: string, k: nat): string {
    if k < 2 then base else base + "(" + NatToString(k) + ")"
  }

  lemma LowerCandidate(base: string, k: nat)
    requires k >= 2
    ensures LowerStr(Candidate(base, k)) == LowerStr(base) + "(" + NatToString(k) + ")"
  {
    LowerAppend(base, "(" + NatToString(k) + ")");
    var suffix := "(" + NatToString(k) + ")";
    assert forall j | 0 <= j < |suffix| :: Lower(suffix[j]) == suffix[j];
  }

  /** Different tries never clash with each other, even ignoring case. */
  lemma CandidatesDistinct(base: string, j: nat, k: nat)
    requires 1 <= j < k
    ensures LowerStr(Candidate(base, j)) != LowerStr(Candidate(base, k))
  {
    LowerCandidate(base, k);
    if j >= 2 {
      LowerCandidate(base, j);
      var a, b := LowerStr(Candidate(base, j)), LowerStr(Candidate(base, k));
      if a == b {
        var n := |LowerStr(base)| + 1;
        assert a[n..|a| - 1] == NatToString(j);
        assert b[n..|b| - 1] == NatToString(k);
        NatToStringInjective(j, k);
      }
    }
  }

  /** The lower-cased tries 1 to `k`. */
  function Tried(base: string, k: nat): set<string> {
    set j | 1 <= j <= k :: LowerStr(Candidate(base, j))
  }

  lemma {:induction false} TriedSize(base: string, k: nat)
    ensures |Tried(base, k)| == k
    decreases k
  {
    if k > 0 {
      TriedSize(base, k - 1);
      var c := LowerStr(Candidate(base, k));
      assert Tried(base, k) == Tried(base, k - 1) + {c};
      forall j | 1 <= j <= k - 1
        ensures LowerStr(Candidate(base, j)) != c
      {
        CandidatesDistinct(base, j, k);
      }
      assert c !in Tried(base, k - 1);
    } else {
      assert Tried(base, 0) == {};
    }
  }

  lemma SubsetSize<T>(a: set<T>, b: set<T>)
    requires a <= b
    ensures |a| <= |b|
  {
    assert b == a + (b - a);
  }

  /** The first try, from the `k`-th on, whose lower-cased form is not taken. It exists
      because the taken names are finitely many and the tries are all different. */
  function FreeIndex(base: string, taken: set<string>, k: nat): (r: nat)
    requires k >= 1
    requires forall j | 1 <= j < k :: LowerStr(Candidate(base, j)) in taken
    ensures r >= k && LowerStr(Candidate(base, r)) !in taken
    ensures forall j | 1 <= j < r :: LowerStr(Candidate(base, j)) in taken
    decreases |taken| + 1 - k
  {
    if LowerStr(Candidate(base, k)) !in taken then k
    else
      assert Tried(base, k) <= taken;
      TriedSize(base, k);
      SubsetSize(Tried(base, k), taken);
      FreeIndex(base, taken, k + 1)
  }

  /** What `handleDuplicates` does to one task: its name is the first try not taken. */
  function FreeName(base: string, taken: set<string>): (r: string)
    ensures LowerStr(r) !in taken
    ensures LowerStr(base) !in taken ==> r == base
    ensures exists k :: k >= 1 && r == Candidate(base, k) &&
                        forall j | 1 <= j < k :: LowerStr(Candidate(base, j)) in taken
  {
    Candidate(base, FreeIndex(base, taken, 1))
  }

  /** An imported task: its fields and the `_renamed` flag. */
  datatype Imported = Imported(fields: TaskFields, renamed: bool)

  /** The lower-cased names of imported tasks. */
  function NamesOf(items: seq<Imported>): set<string> {
    set j | 0 <= j < |items| :: LowerStr(items[j].fields.name)
  }

  /** The renaming loop over the tasks to import, with `taken` holding the lower-cased names
      already in use (the store's and the ones given so far). */
  function RenameAll(datas: seq<TaskFields>, taken: set<string>): (r: seq<Imported>)
    ensures |r| == |datas|
    decreases |datas|
  {
    if |datas| == 0 then []
    else
      var name := FreeName(datas[0].name, taken);
      [Imported(datas[0].(name := name), name != datas[0].name)] + RenameAll(datas[1..], taken + {LowerStr(name)})
  }

  /** Each renamed task keeps its other fields, avoids every taken name and every other
      imported name (ignoring case), and is flagged exactly when its name changed. */
  lemma RenameAllFresh(datas: seq<TaskFields>, taken: set<string>)
    ensures var r := RenameAll(datas, taken);
            (forall k | 0 <= k < |r| ::
               r[k].fields == datas[k].(name := r[k].fields.name) &&
               LowerStr(r[k].fields.name) !in taken &&
               (r[k].renamed <==> r[k].fields.name != datas[k].name)) &&
            forall j, k | 0 <= j < k < |r| :: LowerStr(r[j].fields.name) != LowerStr(r[k].fields.name)
  {
    RenameAllAvoids(datas, taken);
    RenameAllDistinct(datas, taken);
  }

  lemma {:induction false} RenameAllAvoids(datas: seq<TaskFields>, taken: set<string>)
    ensures var r := RenameAll(datas, taken);
            forall k | 0 <= k < |r| ::
              r[k].fields == datas[k].(name := r[k].fields.name) &&
              LowerStr(r[k].fields.name) !in taken &&
              (r[k].renamed <==> r[k].fields.name != datas[k].name)
    decreases |datas|
  {
    if |datas| > 0 {
      var name := FreeName(datas[0].name, taken);
      var rest := RenameAll(datas[1..], taken + {LowerStr(name)});
      RenameAllAvoids(datas[1..], taken + {LowerStr(name)});
      var r := RenameAll(datas, taken);
      assert r == [Imported(datas[0].(name := name), name != datas[0].name)] + rest;
      forall k | 1 <= k < |r|
        ensures r[k].fields == datas[k].(name := r[k].fields.name) && LowerStr(r[k].fields.name) !in taken &&
                (r[k].renamed <==> r[k].fields.name != datas[k].name)
      {
        assert r[k] == rest[k - 1] && datas[k] == datas[1..][k - 1];
      }
    }
  }

  lemma {:induction false} RenameAllDistinct(datas: seq<TaskFields>, taken: set<string>)
    ensures var r := RenameAll(datas, taken);
            forall j, k | 0 <= j < k < |r| :: LowerStr(r[j].fields.name) != LowerStr(r[k].fields.name)
    decreases |datas|
  {
    if |datas| > 0 {
      var name := FreeName(datas[0].name, taken);
      var rest := RenameAll(datas[1..], taken + {LowerStr(name)});
      RenameAllDistinct(datas[1..], taken + {LowerStr(name)});
      RenameAllAvoids(datas[1..], taken + {LowerStr(name)});
      var r := RenameAll(datas, taken);
      assert forall k | 1 <= k < |r| :: r[k] == rest[k - 1];
    }
  }

  lemma NamesOfPrefix(first: Imported, rest: seq<Imported>, k: nat)
    requires 1 <= k <= |rest| + 1
    ensures NamesOf(([first] + rest)[..k]) == {LowerStr(first.fields.name)} + NamesOf(rest[..k - 1])
  {
    var p := ([first] + rest)[..k];
    var q := rest[..k - 1];
    assert forall j | 1 <= j < k :: p[j] == q[j - 1];
    forall x | x in NamesOf(q)
      ensures x in NamesOf(p)
    {
      var j :| 0 <= j < |q| && LowerStr(q[j].fields.name) == x;
      assert p[j + 1] == q[j];
    }
    assert p[0] == first;
  }

  /** Each task's name is the first try free of the taken names and of the names given to
      the tasks before it. */
  lemma {:induction false} RenameAllFirstFree(datas: seq<TaskFields>, taken: set<string>)
    ensures var r := RenameAll(datas, taken);
            forall k | 0 <= k < |r| :: r[k].fields.name == FreeName(datas[k].name, taken + NamesOf(r[..k]))
    decreases |datas|
  {
    if |datas| > 0 {
      var name := FreeName(datas[0].name, taken);
      var first := Imported(datas[0].(name := name), name != datas[0].name);
      var rest := RenameAll(datas[1..], taken + {LowerStr(name)});
      RenameAllFirstFree(datas[1..], taken + {LowerStr(name)});
      var r := RenameAll(datas, taken);
      assert r == [first] + rest;
      forall k | 0 <= k < |r|
        ensures r[k].fields.name == FreeName(datas[k].name, taken + NamesOf(r[..k]))
      {
        if k == 0 {
          assert NamesOf(r[..0]) == {};
          assert taken + NamesOf(r[..0]) == taken;
        } else {
          assert datas[k] == datas[1..][k - 1];
          FirstFreeLater(first, rest, datas[k], taken, k);
        }
      }
    }
  }

  /** The first try free of the names taken after the first import is the first try free
      of the original names and the names given before it. */
  lemma FirstFreeLater(first: Imported, rest: seq<Imported>, d: TaskFields, taken: set<string>, k: nat)
    requires 1 <= k <= |rest|
    requires rest[k - 1].fields.name == FreeName(d.name, (taken + {LowerStr(first.fields.name)}) + NamesOf(rest[..k - 1]))
    ensures ([first] + rest)[k].fields.name == FreeName(d.name, taken + NamesOf(([first] + rest)[..k]))
  {
    NamesOfPrefix(first, rest, k);
    assert taken + NamesOf(([first] + rest)[..k]) == (taken + {LowerStr(first.fields.name)}) + NamesOf(rest[..k - 1]);
  }

  /** `handleDuplicates`: every imported task gets the first of `name`, `name(2)`, ... that
      clashes (ignoring case) neither with the store nor with an earlier import; it is
      flagged as renamed exactly when its name changed. */
  function HandleDuplicates(datas: seq<TaskFields>, existing: seq<Task>): (r: seq<Imported>)
    ensures |r| == |datas|
    ensures forall k | 0 <= k < |r| ::
              r[k].fields == datas[k].(name := r[k].fields.name) &&
              LowerStr(r[k].fields.name) !in ExistingNames(existing) &&
              (r[k].renamed <==> r[k].fields.name != datas[k].name)
    ensures forall j, k | 0 <= j < k < |r| :: LowerStr(r[j].fields.name) != LowerStr(r[k].fields.name)
    ensures forall k | 0 <= k < |r| ::
              r[k].fields.name == FreeName(datas[k].name, (set n | n in ExistingNames(existing)) + NamesOf(r[..k]))
    ensures forall k | 0 <= k < |r| && LowerStr(datas[k].name) !in ExistingNames(existing) &&
                       LowerStr(datas[k].name) !in NamesOf(r[..k]) ::
              r[k] == Imported(datas[k], false)
  {
    var taken := set n | n in ExistingNames(existing);
    RenameAllFresh(datas, taken);
    RenameAllFirstFree(datas, taken);
    RenameAll(datas, taken)
  }

  // ---------------------------------------------------------------------------------------
  // Importing
  // ---------------------------------------------------------------------------------------

  function IsAccepted(c: Checked): bool {
    c.Accepted?
  }

  function AcceptedFields(checked: seq<Checked>): (r: seq<TaskFields>)
    requires forall k | 0 <= k < |checked| :: checked[k].Accepted?
    ensures |r| == |checked|
    ensures forall k | 0 <= k < |r| :: r[k] == checked[k].fields
  {
    seq(|checked|, k requires 0 <= k < |checked| => checked[k].fields)
  }

  /** How `executeImport` ends: nothing pending, nothing valid, or the new store and the
      message shown. */
  datatype ImportRun = NothingPending | NothingValid | Done(tasks: seq<Task>, imported: nat, renamed: nat, message: string)

  /** `成功导入 N 个任务`, with `，其中 M 个任务已自动重命名` appended when some were renamed. */
  function ImportMessage(imported: nat, renamed: nat): string {
    "成功导入 " + NatToString(imported) + " 个任务" +
    (if renamed > 0 then "，其中 " + NatToString(renamed) + " 个任务已自动重命名" else "")
  }

  /** Appends the imported tasks to the store, one `addTask` each. */
  function AddAll(tasks: seq<Task>, items: seq<Imported>, ids: nat -> Id, now: Timestamp): (r: seq<Task>)
    ensures |r| == |tasks| + |items|
    ensures r[..|tasks|] == tasks
    ensures forall k | 0 <= k < |items| :: r[|tasks| + k] == Task(ids(k), items[k].fields, now, now)
    decreases |items|
  {
    if |items| == 0 then tasks
    else
      var init := AddAll(tasks, items[..|items| - 1], ids, now);
      var k := |items| - 1;
      Storage.AddTask(init, ids(k), items[k].fields, now)
  }

  /** `executeImport`: the accepted rows are renamed against the store and appended in
      order; the counts report how many were added and how many renamed. */
  function ExecuteImport(pending: Option<seq<Checked>>, tasks: seq<Task>, ids: nat -> Id, now: Timestamp): (r: ImportRun)
    ensures pending.None? <==> r.NothingPending?
    ensures r.NothingValid? <==> pending.Some? && Count(pending.value, IsAccepted) == 0
    ensures r.Done? ==>
              var valid := Filter(pending.value, IsAccepted);
              var items := HandleDuplicates(AcceptedFields(valid), tasks);
              r.imported == |valid| && r.imported > 0 &&
              r.renamed == Count(items, (i: Imported) => i.renamed) &&
              r.tasks == AddAll(tasks, items, ids, now) &&
              r.message == ImportMessage(r.imported, r.renamed)
  {
    match pending
    case None => NothingPending
    case Some(checked) =>
      var valid := Filter(checked, IsAccepted);
      if |valid| == 0 then NothingValid
      else
        var items := HandleDuplicates(AcceptedFields(valid), tasks);
        var renamed := Count(items, (i: Imported) => i.renamed);
        Done(AddAll(tasks, items, ids, now), |valid|, renamed, ImportMessage(|valid|, renamed))
  }

  /** Names in a store are distinct when no two differ only in case. */
  predicate NamesDistinct(tasks: seq<Task>) {
    forall j, k | 0 <= j < k < |tasks| :: LowerStr(tasks[j].fields.name) != LowerStr(tasks[k].fields.name)
  }

  /** Appending tasks whose names clash neither with the store nor with each other keeps
      the store's names distinct. */
  lemma AddAllDistinct(tasks: seq<Task>, items: seq<Imported>, ids: nat -> Id, now: Timestamp)
    requires NamesDistinct(tasks)
    requires forall k | 0 <= k < |items| :: LowerStr(items[k].fields.name) !in ExistingNames(tasks)
    requires forall j, k | 0 <= j < k < |items| :: LowerStr(items[j].fields.name) != LowerStr(items[k].fields.name)
    ensures NamesDistinct(AddAll(tasks, items, ids, now))
  {
    var r := AddAll(tasks, items, ids, now);
    var n := |tasks|;
    assert forall k | 0 <= k < n :: r[k] == tasks[k];
    forall j, k | 0 <= j < k < |r|
      ensures LowerStr(r[j].fields.name) != LowerStr(r[k].fields.name)
    {
      if k >= n {
        assert r[k].fields == items[k - n].fields;
        if j < n {
          assert ExistingNames(tasks)[j] == LowerStr(r[j].fields.name);
        } else {
          assert r[j].fields == items[j - n].fields;
        }
      }
    }
  }

  /** An import keeps the store's names distinct, ignoring case. */
  lemma ImportKeepsNamesDistinct(pending: Option<seq<Checked>>, tasks: seq<Task>, ids: nat -> Id, now: Timestamp)
    requires NamesDistinct(tasks)
    ensures var r := ExecuteImport(pending, tasks, ids, now);
            r.Done? ==> NamesDistinct(r.tasks) && |r.tasks| == |tasks| + r.imported
  {
    match pending
    case None =>
    case Some(checked) =>
      var valid := Filter(checked, IsAccepted);
      if |valid| > 0 {
        RenamedImportDistinct(AcceptedFields(valid), tasks, ids, now);
      }
  }

  /** The renamed tasks appended to a store with distinct names keep them distinct. */
  lemma RenamedImportDistinct(datas: seq<TaskFields>, tasks: seq<Task>, ids: nat -> Id, now: Timestamp)
    requires NamesDistinct(tasks)
    ensures var r := AddAll(tasks, HandleDuplicates(datas, tasks), ids, now);
            NamesDistinct(r) && |r| == |tasks| + |datas|
  {
    AddAllDistinct(tasks, HandleDuplicates(datas, tasks), ids, now);
  }

  // ---------------------------------------------------------------------------------------
  // Exporting
  // ---------------------------------------------------------------------------------------

  /** `getCategoryName`: a built-in id's Chinese name, else the name of the custom category
      with that id, else the id itself. */
  function GetCategoryName(category: string, custom: seq<CustomCategory>): (r: string)
    ensures BuiltinCategoryName(category).Some? ==> r == BuiltinCategoryName(category).value
    ensures BuiltinCategoryName(category).None? ==>
              var named := Find(custom, (c: CustomCategory) => c.id == category);
              (named.Some? ==> r == named.value.name) && (named.None? ==> r == category)
  {
    match BuiltinCategoryName(category)
    case Some(name) => name
    case None =>
      match Find(custom, (c: CustomCategory) => c.id == category)
      case Some(c) => c.name
      case None => category
  }

  /** The fields of the exported columns, in column order. */
  const ExportOrder: seq<Field> := [NameField, DescriptionField, SystemField, UserField, CategoryField, TagsField]

  /** The row `exportTasks` writes for a task: one column per field, each headed by a name
      the importer reads back as that field. */
  function ExportRow(t: Task, custom: seq<CustomCategory>): (r: Row)
    ensures |r| == 6
    ensures forall c | 0 <= c < 6 :: FieldOf(r[c].0) == Some(ExportOrder[c])
    ensures forall c, d | 0 <= c < d < 6 :: FieldOf(r[c].0) != FieldOf(r[d].0)
  {
    [("任务名称", t.fields.name),
     ("任务描述", t.fields.description),
     ("System Prompt", t.fields.systemPrompt),
     ("User Prompt", t.fields.userPrompt),
     ("分类", GetCategoryName(t.fields.category, custom)),
     ("标签", Join(t.fields.tags, ";"))]
  }

  /** A column whose field no other column feeds gives that field its value. */
  lemma CellOfOnlyColumn(row: Row, c: nat)
    requires c < |row| && FieldOf(row[c].0).Some?
    requires forall d | 0 <= d < |row| && d != c :: FieldOf(row[d].0) != FieldOf(row[c].0)
    ensures Cell(MapFields(row), FieldOf(row[c].0).value) == row[c].1
  {
    var f := FieldOf(row[c].0).value;
    var data := MapFields(row);
    assert f in data;
    var c' :| GivenLast(row, FieldOf, f, c') && data[f] == row[c'].1;
  }

  /** Every field of an exported row reaches the field it came from. */
  lemma ExportRowFields(t: Task, custom: seq<CustomCategory>)
    ensures var data := MapFields(ExportRow(t, custom));
            Cell(data, NameField) == t.fields.name &&
            Cell(data, DescriptionField) == t.fields.description &&
            Cell(data, SystemField) == t.fields.systemPrompt &&
            Cell(data, UserField) == t.fields.userPrompt &&
            Cell(data, CategoryField) == GetCategoryName(t.fields.category, custom) &&
            Cell(data, TagsField) == Join(t.fields.tags, ";")
  {
    var row := ExportRow(t, custom);
    CellOfOnlyColumn(row, 0);
    CellOfOnlyColumn(row, 1);
    CellOfOnlyColumn(row, 2);
    CellOfOnlyColumn(row, 3);
    CellOfOnlyColumn(row, 4);
    CellOfOnlyColumn(row, 5);
  }

  lemma {:induction false} JoinTrimmed(parts: seq<string>, sep: string)
    requires |parts| >= 1
    requires forall k | 0 <= k < |parts| :: parts[k] != "" && IsTrimmed(parts[k])
    ensures |Join(parts, sep)| > 0 && IsTrimmed(Join(parts, sep))
    ensures Join(parts, sep)[0] == parts[0][0]
    ensures Join(parts, sep)[|Join(parts, sep)| - 1] == parts[|parts| - 1][|parts[|parts| - 1]| - 1]
    decreases |parts|
  {
    if |parts| > 1 {
      JoinTrimmed(parts[1..], sep);
      var rest := Join(parts[1..], sep);
      var j := Join(parts, sep);
      assert j == parts[0] + sep + rest;
      assert j[0] == parts[0][0];
      assert j[|j| - 1] == rest[|rest| - 1];
      assert parts[1..][|parts| - 2] == parts[|parts| - 1];
    }
  }

  /** A cell that is already trimmed and not empty is split as it stands. */
  lemma ParseTagsOfTrimmed(t: string)
    requires t != "" && IsTrimmed(t)
    ensures ParseTags(t) == Filter(TrimmedPieces(t), NonEmpty)
  {
    TrimIdentity(t);
  }

  lemma TrimAllTrimmed(parts: seq<string>)
    requires forall k | 0 <= k < |parts| :: IsTrimmed(parts[k])
    ensures TrimAll(parts) == parts
  {
    forall k | 0 <= k < |parts|
      ensures Trim(parts[k]) == parts[k]
    {
      TrimIdentity(parts[k]);
    }
  }

  /** Tags survive export and re-import: joined with `;` and parsed again they come back,
      provided each is non-empty, trimmed and free of separators, as parsed tags are. */
  lemma TagsRoundTrip(tags: seq<string>)
    requires forall k | 0 <= k < |tags| :: tags[k] != "" && IsTrimmed(tags[k]) && FreeOf(tags[k], TagSeparators)
    ensures ParseTags(Join(tags, ";")) == tags
  {
    if |tags| > 0 {
      var joined := Join(tags, ";");
      JoinTrimmed(tags, ";");
      ParseTagsOfTrimmed(joined);
      SplitJoin(tags, ';', TagSeparators);
      assert Split(joined, TagSeparators) == tags;
      TrimAllTrimmed(tags);
      assert TrimmedPieces(joined) == tags;
      Storage.FilterAllKept(tags, NonEmpty);
    } else {
      assert Join(tags, ";") == "";
      TrimBlank("");
    }
  }

  /** The Chinese name of a built-in category reads back as its id, without a warning. */
  lemma BuiltinNameResolves(id: Id, custom: seq<CustomCategory>)
    requires BuiltinCategoryName(id).Some?
    ensures ResolveCategory(BuiltinCategoryName(id).value, custom) == (id, None)
  {
    var shown := BuiltinCategoryName(id).value;
    AliasOfBuiltinName(id);
    TrimIdentity(shown);
    assert Trim(shown) == shown;
    assert |shown| > 0;
    assert CategoryAlias(Trim(shown)) == Some(id);
  }

  /** Each built-in category's Chinese name is a trimmed alias of its id. */
  lemma AliasOfBuiltinName(id: Id)
    requires BuiltinCategoryName(id).Some?
    ensures var shown := BuiltinCategoryName(id).value;
            IsTrimmed(shown) && CategoryAlias(shown) == Some(id)
  {
    var shown := BuiltinCategoryName(id).value;
    if id == "general" {
      assert CategoryAlias("通用") == Some("general");
    } else if id == "translation" {
      assert CategoryAlias("翻译") == Some("translation");
    } else if id == "writing" {
      assert CategoryAlias("写作") == Some("writing");
    } else if id == "analysis" {
      assert CategoryAlias("分析") == Some("analysis");
    } else if id == "coding" {
      assert CategoryAlias("编程") == Some("coding");
    } else {
      assert CategoryAlias("其他") == Some("other");
    }
    assert |shown| == 2 && IsIdeograph(shown[0]) && IsIdeograph(shown[1]);
    IdeographNotSpace(shown[0]);
    IdeographNotSpace(shown[1]);
  }

  /** A CJK unified ideograph. */
  predicate IsIdeograph(c: char) {
    '\U{4E00}' <= c <= '\U{9FFF}'
  }

  lemma IdeographNotSpace(c: char)
    requires IsIdeograph(c)
    ensures !IsSpace(c)
  {
  }

  /** A task exported and imported again (into a store where its name is free) comes back
      with the same fields, provided its fields are as an import leaves them: trimmed, a
      non-empty name, a built-in category, tags as parsed. */
  lemma ExportImportRoundTrip(t: Task, existingNames: seq<string>, custom: seq<CustomCategory>, n: nat)
    requires t.fields.name != "" && IsTrimmed(t.fields.name)
    requires IsTrimmed(t.fields.description) && IsTrimmed(t.fields.systemPrompt) && IsTrimmed(t.fields.userPrompt)
    requires BuiltinCategoryName(t.fields.category).Some?
    requires forall k | 0 <= k < |t.fields.tags| ::
               t.fields.tags[k] != "" && IsTrimmed(t.fields.tags[k]) && FreeOf(t.fields.tags[k], TagSeparators)
    requires LowerStr(t.fields.name) !in existingNames
    ensures ValidateTaskRow(ExportRow(t, custom), n, existingNames, custom) == Accepted(n, [], t.fields, false)
  {
    ExportedCellsRead(t, custom);
    ValidateAcceptsFields(ExportRow(t, custom), n, existingNames, custom, t.fields);
  }

  /** The cells of an exported row read back, trimmed and parsed, as the task's fields. */
  lemma ExportedCellsRead(t: Task, custom: seq<CustomCategory>)
    requires IsTrimmed(t.fields.name)
    requires IsTrimmed(t.fields.description) && IsTrimmed(t.fields.systemPrompt) && IsTrimmed(t.fields.userPrompt)
    requires BuiltinCategoryName(t.fields.category).Some?
    requires forall k | 0 <= k < |t.fields.tags| ::
               t.fields.tags[k] != "" && IsTrimmed(t.fields.tags[k]) && FreeOf(t.fields.tags[k], TagSeparators)
    ensures var data := MapFields(ExportRow(t, custom));
            Trim(Cell(data, NameField)) == t.fields.name &&
            Trim(Cell(data, DescriptionField)) == t.fields.description &&
            Trim(Cell(data, SystemField)) == t.fields.systemPrompt &&
            Trim(Cell(data, UserField)) == t.fields.userPrompt &&
            ResolveCategory(Cell(data, CategoryField), custom) == (t.fields.category, None) &&
            ParseTags(Cell(data, TagsField)) == t.fields.tags
  {
    ExportRowFields(t, custom);
    TrimIdentity(t.fields.name);
    TrimIdentity(t.fields.description);
    TrimIdentity(t.fields.systemPrompt);
    TrimIdentity(t.fields.userPrompt);
    TagsRoundTrip(t.fields.tags);
    BuiltinNameResolves(t.fields.category, custom);
  }

  /** A row whose cells read as the fields `f`, with a fresh name and a known category, is
      accepted with exactly those fields and no warning. */
  lemma ValidateAcceptsFields(row: Row, n: nat, existingNames: seq<string>, custom: seq<CustomCategory>, f: TaskFields)
    requires var data := MapFields(row);
             f.name != "" && Trim(Cell(data, NameField)) == f.name &&
             Trim(Cell(data, DescriptionField)) == f.description &&
             Trim(Cell(data, SystemField)) == f.systemPrompt &&
             Trim(Cell(data, UserField)) == f.userPrompt &&
             ResolveCategory(Cell(data, CategoryField), custom) == (f.category, None) &&
             ParseTags(Cell(data, TagsField)) == f.tags
    requires LowerStr(f.name) !in existingNames
    ensures ValidateTaskRow(row, n, existingNames, custom) == Accepted(n, [], f, false)
  {
    var r := ValidateTaskRow(row, n, existingNames, custom);
    assert r.Accepted? && r.fields == f && !r.isDuplicate;
  }
}

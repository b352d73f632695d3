/** Building the question/answer dictionary from already-decoded CSV files:
    each file is a list of rows, each row a list of cells, the first row the
    header. This module states what loading produces; `App.Store.Load` is the
    loop that produces it. */
module Corpus {
  import opened Text
  import opened OrderedTable

  /** The positions of the `question` and `answer` columns in a file's header. */
  datatype Columns = Columns(question: nat, answer: nat)

  /** One question/answer pair taken from a data row. */
  datatype Entry = Entry(question: string, answer: string)

  /** A stored key: non-empty, without white space at either end and without
      upper-case letters, which makes it its own normal form (`KeyIsNormal`). */
  predicate IsKey(k: string) {
    k != [] && Trimmed(k) && forall i :: 0 <= i < |k| ==> !IsUpper(k[i])
  }

  /** A stored answer: non-empty and without white space at either end. */
  predicate IsAnswer(v: string) {
    v != [] && Trimmed(v)
  }

  /** A stored key is its own normal form, so it is found by exact lookup. */
  lemma KeyIsNormal(k: string)
    requires IsKey(k)
    ensures Normalize(k) == k
  {
  }

  /** A loaded dictionary: a valid ordered table of normalised keys and stripped answers. */
  ghost predicate WellFormed(t: Table) {
    && Valid(t)
    && (forall k :: k in t.vals ==> IsKey(k) && IsAnswer(t.vals[k]))
  }

  /** `xs.index(x)`: the first position holding `x`, or `None` where Python raises `ValueError`. */
  function IndexOf(xs: seq<string>, x: string): (r: Option<nat>)
    ensures r.Some? ==> r.value < |xs| && xs[r.value] == x
    ensures r.Some? ==> forall j :: 0 <= j < r.value ==> xs[j] != x
    ensures r.None? <==> x !in xs
  {
    if xs == [] then None
    else if xs[0] == x then Some(0)
    else
      match IndexOf(xs[1..], x)
      case None => None
      case Some(i) => Some(i + 1)
  }

  /** The header row with every cell lower-cased and stripped. */
  function NormalizeHeader(header: seq<string>): (r: seq<string>)
    ensures |r| == |header|
    ensures forall i :: 0 <= i < |header| ==> r[i] == NormalizeHeaderCell(header[i])
  {
    seq(|header|, i requires 0 <= i < |header| => NormalizeHeaderCell(header[i]))
  }

  /** `i` is the first header cell whose normalised text is `name`. */
  predicate FirstNamed(header: seq<string>, name: string, i: nat) {
    var names := NormalizeHeader(header);
    i < |names| && names[i] == name && (forall j :: 0 <= j < i ==> names[j] != name)
  }

  /** Some header cell's normalised text is `name`. */
  predicate HasColumn(header: seq<string>, name: string) {
    name in NormalizeHeader(header)
  }

  /** Locating the two columns of a file; `None` when the file is to be skipped. */
  function HeaderColumns(header: seq<string>): (r: Option<Columns>)
    ensures r.None? <==> !HasColumn(header, "question") || !HasColumn(header, "answer")
    ensures r.Some? ==> FirstNamed(header, "question", r.value.question)
    ensures r.Some? ==> FirstNamed(header, "answer", r.value.answer)
  {
    var names := NormalizeHeader(header);
    var q := IndexOf(names, "question");
    var a := IndexOf(names, "answer");
    if q.Some? && a.Some? then Some(Columns(q.value, a.value)) else None
  }

  /** What a data row contributes: the normalised question and the stripped
      answer when the row reaches both columns and neither field is empty. */
  function RowEntry(cols: Columns, row: seq<string>): (r: Option<Entry>)
    ensures r.Some? <==> (&& |row| > cols.question && |row| > cols.answer
                          && Strip(row[cols.question]) != [] && Strip(row[cols.answer]) != [])
    ensures r.Some? ==> r.value.question == Normalize(row[cols.question])
    ensures r.Some? ==> r.value.answer == Strip(row[cols.answer])
    ensures r.Some? ==> IsKey(r.value.question) && IsAnswer(r.value.answer)
  {
    if |row| > if cols.question < cols.answer then cols.answer else cols.question then
      var question := Normalize(row[cols.question]);
      var answer := Strip(row[cols.answer]);
      if question != [] && answer != [] then
        NormalizeTrimmed(row[cols.question]);
        StripFramed(row[cols.answer]);
        Some(Entry(question, answer))
      else
        None
    else
      None
  }

  /** The dictionary after one data row has been written into `t`. */
  function AddRow(t: Table, cols: Columns, row: seq<string>): (r: Table)
    requires Valid(t)
    ensures Valid(r)
    ensures (|| |row| <= cols.question || |row| <= cols.answer
             || Strip(row[cols.question]) == [] || Strip(row[cols.answer]) == [])
            ==> r == t
    ensures RowEntry(cols, row).Some?
            ==> r == Insert(t, RowEntry(cols, row).value.question, RowEntry(cols, row).value.answer)
  {
    match RowEntry(cols, row)
    case None => t
    case Some(e) => Insert(t, e.question, e.answer)
  }

  /** The dictionary after the data rows `rows` have been written into `t` in order. */
  function LoadRows(t: Table, cols: Columns, rows: seq<seq<string>>): (r: Table)
    requires Valid(t)
    ensures Valid(r)
    decreases |rows|
  {
    if rows == [] then t
    else AddRow(LoadRows(t, cols, rows[..|rows| - 1]), cols, rows[|rows| - 1])
  }

  /** The dictionary after one decoded file has been read into `t`: an empty
      file (one that failed to decode) or one without both columns adds nothing. */
  function LoadFile(t: Table, file: seq<seq<string>>): (r: Table)
    requires Valid(t)
    ensures Valid(r)
    ensures file == [] || !HasColumn(file[0], "question") || !HasColumn(file[0], "answer") ==> r == t
    ensures file != [] && HeaderColumns(file[0]).Some?
            ==> r == LoadRows(t, HeaderColumns(file[0]).value, file[1..])
  {
    if file == [] then t
    else
      match HeaderColumns(file[0])
      case None => t
      case Some(cols) => LoadRows(t, cols, file[1..])
  }

  /** The dictionary a full load builds from the decoded files, starting from `{}`. */
  function LoadFiles(files: seq<seq<seq<string>>>): (r: Table)
    ensures Valid(r)
    decreases |files|
  {
    if files == [] then Empty
    else LoadFile(LoadFiles(files[..|files| - 1]), files[|files| - 1])
  }

  /** Writing rows keeps every stored key normalised and every answer stripped and non-empty. */
  lemma {:induction false} LoadRowsWellFormed(t: Table, cols: Columns, rows: seq<seq<string>>)
    requires WellFormed(t)
    ensures WellFormed(LoadRows(t, cols, rows))
    decreases |rows|
  {
    if rows != [] {
      LoadRowsWellFormed(t, cols, rows[..|rows| - 1]);
    }
  }

  /** Whatever the files hold, every loaded key is a non-empty normalised question
      and every loaded answer is non-empty and stripped. */
  lemma {:induction false} LoadFilesWellFormed(files: seq<seq<seq<string>>>)
    ensures WellFormed(LoadFiles(files))
    decreases |files|
  {
    if files != [] {
      var before := LoadFiles(files[..|files| - 1]);
      LoadFilesWellFormed(files[..|files| - 1]);
      var file := files[|files| - 1];
      if file != [] && HeaderColumns(file[0]).Some? {
        LoadRowsWellFormed(before, HeaderColumns(file[0]).value, file[1..]);
      }
    }
  }

  /** A key is stored after the rows are written exactly when it was stored
      before or some row contributes it. */
  lemma {:induction false} LoadRowsDomain(t: Table, cols: Columns, rows: seq<seq<string>>, k: string)
    requires Valid(t)
    ensures k in LoadRows(t, cols, rows).vals <==> k in t.vals || SomeRowContributes(cols, rows, k)
    decreases |rows|
  {
    if rows != [] {
      LoadRowsDomain(t, cols, rows[..|rows| - 1], k);
      SomeRowSplit(cols, rows, k);
    }
  }

  /** The data row `row` writes the key `k`. */
  predicate Contributes(cols: Columns, row: seq<string>, k: string) {
    RowEntry(cols, row).Some? && RowEntry(cols, row).value.question == k
  }

  /** Some data row among `rows` writes the key `k`. */
  ghost predicate SomeRowContributes(cols: Columns, rows: seq<seq<string>>, k: string) {
    exists i :: 0 <= i < |rows| && Contributes(cols, rows[i], k)
  }

  lemma SomeRowSplit(cols: Columns, rows: seq<seq<string>>, k: string)
    requires rows != []
    ensures SomeRowContributes(cols, rows, k)
            <==> SomeRowContributes(cols, rows[..|rows| - 1], k) || Contributes(cols, rows[|rows| - 1], k)
  {
  }

  /** Writing rows never reorders what was already stored: the old iteration
      order is a prefix of the new one, even when a row overwrites an old key. */
  lemma {:induction false} LoadRowsKeepsOrder(t: Table, cols: Columns, rows: seq<seq<string>>)
    requires Valid(t)
    ensures t.keys <= LoadRows(t, cols, rows).keys
    decreases |rows|
  {
    if rows != [] {
      LoadRowsKeepsOrder(t, cols, rows[..|rows| - 1]);
    }
  }

  /** The last row that contributes a question decides its stored answer. */
  lemma {:induction false} LastRowWins(t: Table, cols: Columns, rows: seq<seq<string>>, i: nat)
    requires Valid(t)
    requires i < |rows| && RowEntry(cols, rows[i]).Some?
    requires forall j :: i < j < |rows| && RowEntry(cols, rows[j]).Some?
               ==> RowEntry(cols, rows[j]).value.question != RowEntry(cols, rows[i]).value.question
    ensures RowEntry(cols, rows[i]).value.question in LoadRows(t, cols, rows).vals
    ensures LoadRows(t, cols, rows).vals[RowEntry(cols, rows[i]).value.question] == RowEntry(cols, rows[i]).value.answer
    decreases |rows|
  {
    if i < |rows| - 1 {
      var init := rows[..|rows| - 1];
      assert init[i] == rows[i];
      assert forall j :: i < j < |init| ==> init[j] == rows[j];
      LastRowWins(t, cols, init, i);
    }
  }

  /** The decoded file `file` has both columns and one of its data rows writes the key `k`. */
  ghost predicate FileContributes(file: seq<seq<string>>, k: string) {
    && file != [] && HeaderColumns(file[0]).Some?
    && SomeRowContributes(HeaderColumns(file[0]).value, file[1..], k)
  }

  /** Some file among `files` writes the key `k`. */
  ghost predicate SomeFileContributes(files: seq<seq<seq<string>>>, k: string)
    decreases |files|
  {
    files != [] && (SomeFileContributes(files[..|files| - 1], k) || FileContributes(files[|files| - 1], k))
  }

  /** After a full load, a key is stored exactly when some data row of some file
      with both columns contributes it. */
  lemma {:induction false} LoadFilesDomain(files: seq<seq<seq<string>>>, k: string)
    ensures k in LoadFiles(files).vals <==> SomeFileContributes(files, k)
    decreases |files|
  {
    if files != [] {
      var init := files[..|files| - 1];
      var file := files[|files| - 1];
      LoadFilesDomain(init, k);
      if file != [] && HeaderColumns(file[0]).Some? {
        LoadRowsDomain(LoadFiles(init), HeaderColumns(file[0]).value, file[1..], k);
      }
    }
  }

  /** A later file overrides earlier ones: in the last file read, the last data
      row that contributes a question decides its answer after the full load,
      whatever earlier files stored for it. */
  lemma LaterFileWins(files: seq<seq<seq<string>>>, file: seq<seq<string>>, i: nat)
    requires file != [] && HeaderColumns(file[0]).Some?
    requires i < |file[1..]| && RowEntry(HeaderColumns(file[0]).value, file[1..][i]).Some?
    requires forall j :: i < j < |file[1..]| && RowEntry(HeaderColumns(file[0]).value, file[1..][j]).Some?
               ==> RowEntry(HeaderColumns(file[0]).value, file[1..][j]).value.question
                   != RowEntry(HeaderColumns(file[0]).value, file[1..][i]).value.question
    ensures var e := RowEntry(HeaderColumns(file[0]).value, file[1..][i]).value;
            e.question in LoadFiles(files + [file]).vals && LoadFiles(files + [file]).vals[e.question] == e.answer
  {
    assert (files + [file])[..|files|] == files;
    LastRowWins(LoadFiles(files), HeaderColumns(file[0]).value, file[1..], i);
  }

  /** A stored key that no row writes keeps its answer: `qa_data[question] = answer`
      touches only the row's own question. */
  lemma {:induction false} LoadRowsFrame(t: Table, cols: Columns, rows: seq<seq<string>>, k: string)
    requires Valid(t) && k in t.vals && !SomeRowContributes(cols, rows, k)
    ensures k in LoadRows(t, cols, rows).vals && LoadRows(t, cols, rows).vals[k] == t.vals[k]
    decreases |rows|
  {
    if rows != [] {
      SomeRowSplit(cols, rows, k);
      LoadRowsFrame(t, cols, rows[..|rows| - 1], k);
    }
  }

  /** A file that writes no row for a loaded key leaves that key's answer alone. */
  lemma LoadFileFrame(files: seq<seq<seq<string>>>, file: seq<seq<string>>, k: string)
    requires k in LoadFiles(files).vals && !FileContributes(file, k)
    ensures k in LoadFiles(files + [file]).vals
    ensures LoadFiles(files + [file]).vals[k] == LoadFiles(files).vals[k]
  {
    assert (files + [file])[..|files|] == files;
    if file != [] && HeaderColumns(file[0]).Some? {
      LoadRowsFrame(LoadFiles(files), HeaderColumns(file[0]).value, file[1..], k);
    }
  }
}

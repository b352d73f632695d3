/** The server's global dictionary `qa_data`, the loader that rebuilds it and
    the `/chat` handler that reads it. */
module App {
  import opened Text
  import opened OrderedTable
  import opened Corpus
  import opened Matcher

  /** `qa_data`: a dictionary whose iteration order is `keys`. */
  class Store {
    var keys: seq<string>
    var vals: map<string, string>

    /** The dictionary's current value. */
    function Snapshot(): Table
      reads this
    {
      Table(keys, vals)
    }

    ghost predicate Valid()
      reads this
    {
      OrderedTable.Valid(Snapshot())
    }

    /** `qa_data = {}` at start-up. */
    constructor ()
      ensures Valid() && Snapshot() == Empty
    {
      keys, vals := [], map[];
    }

    /** `qa_data[question] = answer`. */
    method Put(question: string, answer: string)
      requires Valid()
      modifies this
      ensures Valid()
      ensures Snapshot() == Insert(old(Snapshot()), question, answer)
    {
      if question !in vals {
        keys := keys + [question];
      }
      vals := vals[question := answer];
    }

    /** `load_csv_data()`, given the decoded rows of each CSV file in listing
        order (a file that no encoding could decode, or an empty file, is `[]`).
        The old contents are discarded first, so the result depends on the
        files alone. */
    method Load(files: seq<seq<seq<string>>>)
      modifies this
      ensures Valid() && WellFormed(Snapshot())
      ensures Snapshot() == LoadFiles(files)
    {
      keys, vals := [], map[];
      for f := 0 to |files|
        invariant Valid() && Snapshot() == LoadFiles(files[..f])
      {
        assert files[..f + 1][..f] == files[..f];
        var rows := files[f];
        if rows == [] {
          continue;
        }
        var cols := HeaderColumns(rows[0]);
        if cols.None? {
          continue;
        }
        ReadRows(cols.value, rows[1..]);
      }
      assert files[..|files|] == files;
      LoadFilesWellFormed(files);
    }

    /** The loop over the data rows of one file whose columns are `cols`. */
    method ReadRows(cols: Columns, rows: seq<seq<string>>)
      requires Valid()
      modifies this
      ensures Valid() && Snapshot() == LoadRows(old(Snapshot()), cols, rows)
    {
      for r := 0 to |rows|
        invariant Valid() && Snapshot() == LoadRows(old(Snapshot()), cols, rows[..r])
      {
        assert rows[..r + 1][..r] == rows[..r];
        ReadRow(cols, rows[r]);
      }
      assert rows[..|rows|] == rows;
    }

    /** One data row: skip it when it is too short or either field is empty
        after trimming, otherwise store the normalised question's answer. */
    method ReadRow(cols: Columns, row: seq<string>)
      requires Valid()
      modifies this
      ensures Valid() && Snapshot() == AddRow(old(Snapshot()), cols, row)
    {
      if |row| > if cols.question < cols.answer then cols.answer else cols.question {
        var question := Normalize(row[cols.question]);
        var answer := Strip(row[cols.answer]);
        if question != [] && answer != [] {
          Put(question, answer);
        }
      }
    }

    /** The `/chat` handler on an already extracted `message`: reject an empty
        message, look the normalised message up, else scan the keys in order
        for the first that contains it or is contained in it. */
    method Chat(message: string) returns (r: Reply)
      requires Valid()
      ensures r == Respond(Snapshot(), message)
    {
      var query := Normalize(message);
      if query == [] {
        return EmptyInput;
      }
      if query in vals {
        return Answer(vals[query]);
      }
      for i := 0 to |keys|
        invariant forall j :: 0 <= j < i ==> !Hit(keys[j], query)
      {
        var question := keys[i];
        if Contains(query, question) || Contains(question, query) {
          assert FirstHitAt(keys, query, i);
          return Answer(vals[question]);
        }
      }
      return NoAnswer;
    }
  }
}

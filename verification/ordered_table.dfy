/** The value of the chatbot's question/answer dictionary: a Python `dict`
    from question to answer, which iterates its keys in first-insertion order. */
module OrderedTable {

  datatype Option<T> = None | Some(value: T)

  /** `keys` is the iteration order of the dictionary, `vals` its contents. */
  datatype Table = Table(keys: seq<string>, vals: map<string, string>)

  /** The empty dictionary `{}`. */
  const Empty: Table := Table([], map[])

  /** Every key is listed exactly once in the iteration order, and only keys are listed. */
  ghost predicate Valid(t: Table) {
    && (forall i, j :: 0 <= i < j < |t.keys| ==> t.keys[i] != t.keys[j])
    && (forall k :: k in t.vals <==> k in t.keys)
  }

  /** `d[k] = v`: a new key goes to the end of the iteration order; an existing
      key gets the new value and keeps its position. */
  function Insert(t: Table, k: string, v: string): (r: Table)
    requires Valid(t)
    ensures Valid(r)
    ensures k in r.vals && r.vals[k] == v
    ensures forall j :: j != k ==> (j in r.vals <==> j in t.vals)
    ensures forall j :: j != k && j in t.vals ==> r.vals[j] == t.vals[j]
    ensures |r.keys| == if k in t.vals then |t.keys| else |t.keys| + 1
    ensures forall i :: 0 <= i < |t.keys| ==> r.keys[i] == t.keys[i]
  {
    Table(if k in t.vals then t.keys else t.keys + [k], t.vals[k := v])
  }
}

/** The `/chat` matcher: normalise the message, then an exact lookup, then the
    first key in iteration order that contains or is contained in the message,
    then a fixed fallback. */
module Matcher {
  import opened Text
  import opened OrderedTable
  import opened Corpus

  /** What the matcher decides for one message. */
  datatype Reply = EmptyInput | Answer(text: string) | NoAnswer

  /** Body of the 400 response to an empty message. */
  const PleaseAsk: string := "Please ask a question."

  /** Body of the 200 response when nothing matches. */
  const NoAnswerYet: string := "Sorry, I don't have an answer for that yet."

  /** `key in query or query in key`: one is a contiguous substring of the other. */
  predicate Hit(key: string, query: string)
    ensures Hit(key, query) <==> IsSubstring(key, query) || IsSubstring(query, key)
  {
    Contains(query, key) || Contains(key, query)
  }

  /** `keys[i]` is the first key, in iteration order, that hits `query`. */
  predicate FirstHitAt(keys: seq<string>, query: string, i: int) {
    0 <= i < |keys| && Hit(keys[i], query) && forall j :: 0 <= j < i ==> !Hit(keys[j], query)
  }

  /** The position of the first key at or after `from` that hits `query`. */
  function FirstHit(keys: seq<string>, query: string, from: nat): (r: Option<nat>)
    requires from <= |keys|
    ensures r.Some? ==> from <= r.value < |keys| && Hit(keys[r.value], query)
    ensures r.Some? ==> forall j :: from <= j < r.value ==> !Hit(keys[j], query)
    ensures r.None? ==> forall j :: from <= j < |keys| ==> !Hit(keys[j], query)
    decreases |keys| - from
  {
    if from == |keys| then None
    else if Hit(keys[from], query) then Some(from)
    else FirstHit(keys, query, from + 1)
  }

  /** The reply to `message` given the dictionary `t`. */
  function Respond(t: Table, message: string): (r: Reply)
    requires Valid(t)
    ensures r == EmptyInput <==> Normalize(message) == []
    ensures Normalize(message) != [] && Normalize(message) in t.vals
            ==> r == Answer(t.vals[Normalize(message)])
    ensures Normalize(message) != [] && Normalize(message) !in t.vals
            ==> forall i :: FirstHitAt(t.keys, Normalize(message), i) ==> r == Answer(t.vals[t.keys[i]])
    ensures r == NoAnswer <==> && Normalize(message) != [] && Normalize(message) !in t.vals
                               && forall i :: 0 <= i < |t.keys| ==> !Hit(t.keys[i], Normalize(message))
    ensures r.Answer? ==> r.text in t.vals.Values
  {
    var query := Normalize(message);
    if query == [] then EmptyInput
    else if query in t.vals then Answer(t.vals[query])
    else
      match FirstHit(t.keys, query, 0)
      case Some(i) =>
        assert FirstHitAt(t.keys, query, i);
        Answer(t.vals[t.keys[i]])
      case None => NoAnswer
  }

  /** The HTTP status and the `response` text the handler sends for a reply. */
  function Render(r: Reply): (resp: (nat, string))
    ensures resp.0 == 400 <==> r.EmptyInput?
    ensures resp.0 != 400 ==> resp.0 == 200
    ensures r.EmptyInput? ==> resp.1 == PleaseAsk
    ensures r.Answer? ==> resp.1 == r.text
    ensures r.NoAnswer? ==> resp.1 == NoAnswerYet
  {
    match r
    case EmptyInput => (400, PleaseAsk)
    case Answer(text) => (200, text)
    case NoAnswer => (200, NoAnswerYet)
  }

  /** A message that is only white space is rejected with 400 whatever is loaded. */
  lemma BlankMessageRejected(t: Table, message: string)
    requires Valid(t)
    requires AllSpace(message)
    ensures Respond(t, message) == EmptyInput
    ensures Render(Respond(t, message)) == (400, PleaseAsk)
  {
    StripPadding(message, [], []);
    assert message + [] + [] == message;
  }

  /** Any padding or upper-casing of a stored key is answered with that key's
      answer, even when an earlier key would also hit it as a substring. */
  lemma StoredKeyAnswered(t: Table, k: string, lead: string, s: string, trail: string)
    requires WellFormed(t)
    requires k in t.vals
    requires AllSpace(lead) && AllSpace(trail) && ToLower(s) == k
    ensures Respond(t, lead + s + trail) == Answer(t.vals[k])
  {
    assert IsKey(k);
    assert Trimmed(s) by {
      assert Lower(s[0]) == k[0] && Lower(s[|s| - 1]) == k[|k| - 1];
    }
    StripPadding(lead, s, trail);
  }

  /** In a loaded dictionary every answer the matcher gives is a non-empty,
      stripped answer read from the files. */
  lemma AnswersAreStored(t: Table, message: string)
    requires WellFormed(t)
    ensures Respond(t, message).Answer? ==> IsAnswer(Respond(t, message).text)
  {
  }

  /** End to end: after a load, asking any question read from the files, in
      any casing and with any surrounding white space, gives its stored answer. */
  lemma LoadedQuestionAnswered(files: seq<seq<seq<string>>>, k: string, lead: string, s: string, trail: string)
    requires k in LoadFiles(files).vals
    requires AllSpace(lead) && AllSpace(trail) && ToLower(s) == k
    ensures Respond(LoadFiles(files), lead + s + trail) == Answer(LoadFiles(files).vals[k])
  {
    LoadFilesWellFormed(files);
    StoredKeyAnswered(LoadFiles(files), k, lead, s, trail);
  }

  /** A worked case: a trailing `?` is not stripped, so "What Is The Deadline?"
      misses the exact lookup and is answered by the substring scan, through
      the first key it contains. */
  lemma PunctuatedQuestionFallsToSubstring()
    ensures Normalize("What Is The Deadline?") == "what is the deadline?"
    ensures var t := Table(["what is the deadline", "how do i apply"],
                           map["what is the deadline" := "May 1", "how do i apply" := "Online portal"]);
            && "what is the deadline?" !in t.vals
            && FirstHitAt(t.keys, "what is the deadline?", 0)
            && Respond(t, "What Is The Deadline?") == Answer("May 1")
  {
    var t := Table(["what is the deadline", "how do i apply"],
                   map["what is the deadline" := "May 1", "how do i apply" := "Online portal"]);
    var query := "what is the deadline?";
    KeepsQuestionMark();
    assert query !in t.vals;
    assert Hit(t.keys[0], query) by {
      assert t.keys[0] <= query;
    }
    assert FirstHitAt(t.keys, query, 0);
  }

  /** Normalising the worked message lower-cases it and keeps its `?`. */
  lemma KeepsQuestionMark()
    ensures Normalize("What Is The Deadline?") == "what is the deadline?"
  {
    StripTrimmed("What Is The Deadline?");
  }
}

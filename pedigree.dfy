/**
 * The pedigree route (routes/pedigree.js): request two generations of the
 * signed-in user's ancestry from the gateway, forward a transport or status
 * error, or index the returned persons by ascendancy number and render them.
 */
module Pedigree {
  import opened Wrappers
  import opened Gateway
  import opened RestError

  // ---------------------------------------------------------------------
  // Request path
  // ---------------------------------------------------------------------

  /** The part of the path that fixes the endpoint and the generation count. */
  const GenerationsTwoQuery: string := "/platform/tree/ancestry?generations=2&"

  /** Everything of the request path that precedes the person id. */
  const AncestryQueryPrefix: string := GenerationsTwoQuery + "person="

  /** The path requested for a person: the id is appended without encoding. */
  function AncestryPath(personId: string): (path: string)
    ensures |path| == |AncestryQueryPrefix| + |personId|
    ensures path[..|AncestryQueryPrefix|] == AncestryQueryPrefix
    ensures path[|AncestryQueryPrefix|..] == personId
  {
    AncestryQueryPrefix + personId
  }

  /** Reads the person id back from a path built by `AncestryPath`. */
  function PersonIdOf(path: string): (id: Option<string>)
    ensures id.Some? ==> AncestryPath(id.value) == path
  {
    if |AncestryQueryPrefix| <= |path| && path[..|AncestryQueryPrefix|] == AncestryQueryPrefix
    then Some(path[|AncestryQueryPrefix|..])
    else None
  }

  /** The id is recovered from the path, so distinct ids give distinct paths. */
  lemma PersonIdRoundTrip(personId: string)
    ensures PersonIdOf(AncestryPath(personId)) == Some(personId)
  {
  }

  /**
   * Whatever the id, the path is the ancestry endpoint whose first query
   * parameter is `generations=2`.
   */
  lemma AncestryPathAsksTwoGenerations(personId: string)
    ensures GenerationsTwoQuery <= AncestryPath(personId)
  {
  }

  // ---------------------------------------------------------------------
  // Ancestry index
  // ---------------------------------------------------------------------

  /**
   * The property name under which a person is stored: its ascendancy
   * number as given, or "undefined" when the number is absent (a JavaScript
   * object stringifies the key).
   */
  function PropertyKey(p: Person): (k: string)
    ensures p.display.ascendancyNumber.Some? ==> k == p.display.ascendancyNumber.value
    ensures p.display.ascendancyNumber.None? ==> k == "undefined"
  {
    match p.display.ascendancyNumber
    case Some(n) => n
    case None => "undefined"
  }

  /** The keys of all persons of the list. */
  ghost function KeysOf(persons: seq<Person>): set<string> {
    set i | 0 <= i < |persons| :: PropertyKey(persons[i])
  }

  /** Person `i` is the last one in the list with its key. */
  ghost predicate IsLastOfKey(persons: seq<Person>, i: int) {
    && 0 <= i < |persons|
    && forall j :: i < j < |persons| ==> PropertyKey(persons[j]) != PropertyKey(persons[i])
  }

  /** No two persons of the list share a key. */
  ghost predicate DistinctKeys(persons: seq<Person>) {
    forall i, j :: 0 <= i < j < |persons| ==> PropertyKey(persons[i]) != PropertyKey(persons[j])
  }

  /**
   * Last write wins, stated without a fold: the map has exactly the keys of
   * the list, and each key maps to the last person carrying it.
   */
  ghost predicate LastWriteWins(persons: seq<Person>, m: map<string, Person>) {
    && m.Keys == KeysOf(persons)
    && forall i :: IsLastOfKey(persons, i) ==> m[PropertyKey(persons[i])] == persons[i]
  }

  /** The dictionary after writing every person, in list order, into an empty one. */
  ghost function AncestryOf(persons: seq<Person>): map<string, Person>
    decreases |persons|
  {
    if persons == [] then map[]
    else
      var last := persons[|persons| - 1];
      AncestryOf(persons[..|persons| - 1])[PropertyKey(last) := last]
  }

  /** Appending a person adds exactly its key to the keys of the list. */
  lemma KeysOfSnoc(init: seq<Person>, last: Person)
    ensures KeysOf(init + [last]) == KeysOf(init) + {PropertyKey(last)}
  {
    var persons := init + [last];
    forall k | k in KeysOf(persons) ensures k in KeysOf(init) + {PropertyKey(last)} {
      var i :| 0 <= i < |persons| && PropertyKey(persons[i]) == k;
      if i < |init| { assert init[i] == persons[i]; }
    }
    forall k | k in KeysOf(init) ensures k in KeysOf(persons) {
      var i :| 0 <= i < |init| && PropertyKey(init[i]) == k;
      assert persons[i] == init[i];
    }
    assert persons[|init|] == last;
  }

  /** The fold stores exactly the keys of the list. */
  lemma {:induction false} AncestryKeys(persons: seq<Person>)
    ensures AncestryOf(persons).Keys == KeysOf(persons)
    decreases |persons|
  {
    if persons != [] {
      var n := |persons| - 1;
      AncestryKeys(persons[..n]);
      assert persons == persons[..n] + [persons[n]];
      KeysOfSnoc(persons[..n], persons[n]);
    }
  }

  /** A last occurrence before the final person is also last in the list without it. */
  lemma LastOfKeyInInit(persons: seq<Person>, i: int)
    requires IsLastOfKey(persons, i) && i < |persons| - 1
    ensures IsLastOfKey(persons[..|persons| - 1], i)
    ensures PropertyKey(persons[i]) != PropertyKey(persons[|persons| - 1])
  {
    var init := persons[..|persons| - 1];
    forall j | i < j < |init| ensures PropertyKey(init[j]) != PropertyKey(init[i]) {
      assert init[j] == persons[j] && init[i] == persons[i];
    }
  }

  /** The fold maps the key of each last occurrence to that person. */
  lemma {:induction false} AncestryLastValues(persons: seq<Person>)
    ensures forall i :: IsLastOfKey(persons, i) ==>
              PropertyKey(persons[i]) in AncestryOf(persons) && AncestryOf(persons)[PropertyKey(persons[i])] == persons[i]
    decreases |persons|
  {
    if persons != [] {
      var n := |persons| - 1;
      var init, last := persons[..n], persons[n];
      var m := AncestryOf(init);
      assert AncestryOf(persons) == m[PropertyKey(last) := last];
      AncestryLastValues(init);
      forall i | IsLastOfKey(persons, i)
        ensures PropertyKey(persons[i]) in AncestryOf(persons) && AncestryOf(persons)[PropertyKey(persons[i])] == persons[i]
      {
        if i < n {
          LastOfKeyInInit(persons, i);
          assert persons[i] == init[i];
        }
      }
    }
  }

  /** The fold produces the last-write-wins dictionary. */
  lemma AncestryOfLastWriteWins(persons: seq<Person>)
    ensures LastWriteWins(persons, AncestryOf(persons))
  {
    AncestryKeys(persons);
    AncestryLastValues(persons);
  }

  /** Every key of the list has a last occurrence at or after any of its occurrences. */
  lemma {:induction false} LastOccurrence(persons: seq<Person>, i: int) returns (j: int)
    requires 0 <= i < |persons|
    ensures i <= j && IsLastOfKey(persons, j) && PropertyKey(persons[j]) == PropertyKey(persons[i])
    decreases |persons| - i
  {
    if IsLastOfKey(persons, i) {
      j := i;
    } else {
      var later :| i < later < |persons| && PropertyKey(persons[later]) == PropertyKey(persons[i]);
      j := LastOccurrence(persons, later);
    }
  }

  /** Last write wins determines the dictionary: only the fold satisfies it. */
  lemma {:induction false} LastWriteWinsUnique(persons: seq<Person>, m: map<string, Person>)
    requires LastWriteWins(persons, m)
    ensures m == AncestryOf(persons)
  {
    var f := AncestryOf(persons);
    AncestryOfLastWriteWins(persons);
    forall k | k in m ensures m[k] == f[k] {
      var i :| 0 <= i < |persons| && PropertyKey(persons[i]) == k;
      var j := LastOccurrence(persons, i);
    }
  }

  /** Every stored person is an element of the input list. */
  lemma {:induction false} AncestryValuesFromInput(persons: seq<Person>)
    ensures forall k :: k in AncestryOf(persons) ==> AncestryOf(persons)[k] in persons
    decreases |persons|
  {
    if persons != [] {
      var n := |persons| - 1;
      AncestryValuesFromInput(persons[..n]);
      forall k | k in AncestryOf(persons) ensures AncestryOf(persons)[k] in persons {
        if k != PropertyKey(persons[n]) {
          assert AncestryOf(persons)[k] in persons[..n];
        }
      }
    }
  }

  /** Appending a person keeps the keys distinct exactly when its key is new. */
  lemma DistinctKeysSnoc(init: seq<Person>, last: Person)
    ensures DistinctKeys(init + [last]) <==> DistinctKeys(init) && PropertyKey(last) !in KeysOf(init)
  {
    var persons := init + [last];
    var n := |init|;
    assert persons[n] == last;
    if DistinctKeys(persons) {
      forall i, j | 0 <= i < j < n ensures PropertyKey(init[i]) != PropertyKey(init[j]) {
        assert persons[i] == init[i] && persons[j] == init[j];
      }
    }
    if PropertyKey(last) in KeysOf(init) {
      var i :| 0 <= i < n && PropertyKey(init[i]) == PropertyKey(last);
      assert persons[i] == init[i];
      assert !DistinctKeys(persons);
    }
    if DistinctKeys(init) && PropertyKey(last) !in KeysOf(init) {
      forall i, j | 0 <= i < j < |persons| ensures PropertyKey(persons[i]) != PropertyKey(persons[j]) {
        assert persons[i] == init[i];
        if j < n { assert persons[j] == init[j]; }
      }
    }
  }

  /**
   * A list has at most as many keys as persons, and exactly as many
   * precisely when no two persons share a key.
   */
  lemma {:induction false} KeysOfSize(persons: seq<Person>)
    ensures |KeysOf(persons)| <= |persons|
    ensures |KeysOf(persons)| == |persons| <==> DistinctKeys(persons)
    decreases |persons|
  {
    if persons != [] {
      var n := |persons| - 1;
      var init, last := persons[..n], persons[n];
      assert persons == init + [last];
      KeysOfSize(init);
      KeysOfSnoc(init, last);
      DistinctKeysSnoc(init, last);
    } else {
      assert KeysOf(persons) == {};
    }
  }

  /**
   * The dictionary has at most one entry per person, and exactly one per
   * person precisely when no two persons share a key.
   */
  lemma AncestrySize(persons: seq<Person>)
    ensures |AncestryOf(persons)| <= |persons|
    ensures |AncestryOf(persons)| == |persons| <==> DistinctKeys(persons)
  {
    AncestryKeys(persons);
    KeysOfSize(persons);
  }

  /** With distinct keys, every person is found under its own key. */
  lemma DistinctKeysIndexEveryPerson(persons: seq<Person>, i: int)
    requires DistinctKeys(persons) && 0 <= i < |persons|
    ensures PropertyKey(persons[i]) in AncestryOf(persons)
    ensures AncestryOf(persons)[PropertyKey(persons[i])] == persons[i]
  {
    AncestryOfLastWriteWins(persons);
    assert IsLastOfKey(persons, i);
  }

  /** The `forEach` over the persons, writing each into a fresh dictionary. */
  method BuildAncestry(persons: seq<Person>) returns (ancestry: map<string, Person>)
    ensures ancestry == AncestryOf(persons)
    ensures LastWriteWins(persons, ancestry)
  {
    ancestry := map[];
    var i := 0;
    while i < |persons|
      invariant 0 <= i <= |persons|
      invariant ancestry == AncestryOf(persons[..i])
    {
      var person := persons[i];
      ancestry := ancestry[PropertyKey(person) := person];
      assert persons[..i + 1][..i] == persons[..i];
      i := i + 1;
    }
    assert persons[..i] == persons;
    AncestryOfLastWriteWins(persons);
  }

  // ---------------------------------------------------------------------
  // The route handler
  // ---------------------------------------------------------------------

  /** An error passed to `next`: the transport error or a REST error. */
  datatype ForwardedError = Transport(transport: TransportError) | Rest(rest: RestError)

  /** The locals handed to the view: the ancestry dictionary and nothing else. */
  datatype PedigreeLocals = PedigreeLocals(ancestry: map<string, Person>)

  /** The two ends of a request: `next(err)` or `res.render(view, locals)`. */
  datatype Outcome = Forward(err: ForwardedError) | Render(view: string, locals: PedigreeLocals)

  const PedigreeView: string := "pedigree"

  /**
   * `error || restError(response)`, taken when `error || statusCode !== 200`:
   * a transport error wins over any response; otherwise any status other
   * than exactly 200 is refused with the REST error built from the response.
   */
  function Rejection(error: Option<TransportError>, response: Response): (f: Option<ForwardedError>)
    ensures f.None? <==> error.None? && response.statusCode == 200
    ensures error.Some? ==> f == Some(Transport(error.value))
    ensures error.None? && f.Some? ==> f == Some(Rest(ToRestError(response)))
    // corollary of the clause above and ToRestError's contract, stated for callers
    ensures error.None? && f.Some? ==> f.value.rest.status == response.statusCode
  {
    if error.Some? || response.statusCode != 200 then
      Some(if error.Some? then Transport(error.value) else Rest(ToRestError(response)))
    else
      None
  }

  /** The gateway callback: forward the rejection, or index and render. */
  method HandleAncestryResponse(error: Option<TransportError>, response: Response) returns (o: Outcome)
    ensures error.Some? ==> o == Forward(Transport(error.value))
    ensures error.None? && response.statusCode != 200 ==> o == Forward(Rest(ToRestError(response)))
    ensures o.Render? <==> error.None? && response.statusCode == 200
    ensures o.Render? ==> o.view == PedigreeView && LastWriteWins(response.data.persons, o.locals.ancestry)
  {
    var rejection := Rejection(error, response);
    if rejection.Some? {
      return Forward(rejection.value);
    }
    var ancestry := BuildAncestry(response.data.persons);
    o := Render(PedigreeView, PedigreeLocals(ancestry));
  }

  /**
   * The whole request: ask the gateway for the ancestry path of the user's
   * person id and handle its reply. Returns the path requested as well.
   */
  method GetPedigree(personId: string, gateway: string -> Reply) returns (requested: string, o: Outcome)
    ensures requested == AncestryPath(personId)
    // corollaries of the clause above, stated for callers
    ensures PersonIdOf(requested) == Some(personId)
    ensures GenerationsTwoQuery <= requested
    ensures gateway(requested).error.Some? ==> o == Forward(Transport(gateway(requested).error.value))
    ensures o.Render? <==> gateway(requested).error.None? && gateway(requested).response.statusCode == 200
    ensures o.Forward? ==> Some(o.err) == Rejection(gateway(requested).error, gateway(requested).response)
    ensures o.Render? ==> o.view == PedigreeView
    ensures o.Render? ==> LastWriteWins(gateway(requested).response.data.persons, o.locals.ancestry)
  {
    requested := AncestryPath(personId);
    PersonIdRoundTrip(personId);
    AncestryPathAsksTwoGenerations(personId);
    var reply := gateway(requested);
    o := HandleAncestryResponse(reply.error, reply.response);
  }
}

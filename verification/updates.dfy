/** The branching of `handleGetUpdates`: the prompted string is stored when it
    is a valid address, rejected with an error notice when it is a non-empty
    invalid string, and ignored when the prompt was cancelled or left empty. */
module Updates {
  import opened Wrappers
  import opened Email
  import opened Subscriptions

  /** What one get-updates request does. */
  datatype Outcome =
    | Stored(subs: seq<string>)  // success notice; the list now in storage
    | Invalid                    // error notice; storage untouched
    | Ignored                    // no notice; storage untouched

  /** JavaScript truthiness of the prompt's result: `null` (a cancelled
      prompt) and the empty string are falsy. A falsy input is never a valid
      address, so the test discards nothing the validator would accept. */
  predicate Truthy(input: Option<string>)
    ensures input.Some? && IsValidEmail(input.value) ==> Truthy(input)
  {
    input.Some? && input.value != ""
  }

  /** `handleGetUpdates`, given the prompt's result and the stored list. */
  function GetUpdates(input: Option<string>, stored: Option<seq<string>>): (o: Outcome)
    ensures o.Stored? <==> input.Some? && IsValidEmail(input.value)
    ensures o.Invalid? <==> input.Some? && input.value != "" && !IsValidEmail(input.value)
    ensures o.Ignored? <==> input.None? || input.value == ""
    ensures o.Stored? ==> o.subs == Store(Load(stored), input.value)
    ensures o.Stored? ==> input.value in o.subs && Load(stored) <= o.subs
  {
    if Truthy(input) && IsValidEmail(input.value) then
      Stored(StoreEmailSubscription(stored, input.value))
    else if Truthy(input) then
      Invalid
    else
      Ignored
  }

  /** The empty string is never a valid address, so the truthiness test in
      front of the validator never changes the outcome for it. */
  lemma EmptyNeverValid()
    ensures !IsValidEmail("")
  {
    if IsValidEmail("") {
      ShortestAccepted("");
    }
  }

  /** The storage state after one request: only a stored outcome writes. */
  function Step(stored: Option<seq<string>>, input: Option<string>): (r: Option<seq<string>>)
    ensures !(input.Some? && IsValidEmail(input.value)) ==> r == stored
    ensures input.Some? && IsValidEmail(input.value) ==>
      r == Some(Store(Load(stored), input.value))
    ensures input.Some? && IsValidEmail(input.value) ==>
      r.Some? && Members(r.value) == Members(Load(stored)) + {input.value}
    ensures Load(stored) <= Load(r)
  {
    match GetUpdates(input, stored)
    case Stored(subs) => Some(subs)
    case Invalid => stored
    case Ignored => stored
  }

  /** The storage state after a sequence of requests, oldest first: the
      stored list only ever grows at its end, and a session without a valid
      address leaves storage untouched. */
  function Session(stored: Option<seq<string>>, inputs: seq<Option<string>>): (r: Option<seq<string>>)
    ensures Load(stored) <= Load(r)
    ensures (forall k :: 0 <= k < |inputs| ==> !(inputs[k].Some? && IsValidEmail(inputs[k].value)))
      ==> r == stored
    decreases |inputs|
  {
    if |inputs| == 0 then stored else Session(Step(stored, inputs[0]), inputs[1..])
  }

  /** Every stored address is valid. */
  predicate AllValid(subs: seq<string>) {
    forall k :: 0 <= k < |subs| ==> IsValidEmail(subs[k])
  }

  /** `x` was entered at some request of the session and was valid. */
  predicate Accepted(x: string, inputs: seq<Option<string>>) {
    exists k :: 0 <= k < |inputs| && inputs[k] == Some(x) && IsValidEmail(x)
  }

  /** Repeating a request is the same as making it once. */
  lemma StepIdempotent(stored: Option<seq<string>>, input: Option<string>)
    ensures Step(Step(stored, input), input) == Step(stored, input)
  {
    if input.Some? && IsValidEmail(input.value) {
      StoreIdempotent(Load(stored), input.value);
    }
  }

  /** One request keeps a well-formed list well formed: duplicate-free and
      holding only valid addresses. */
  lemma StepPreservesInvariant(stored: Option<seq<string>>, input: Option<string>)
    requires NoDuplicates(Load(stored)) && AllValid(Load(stored))
    ensures NoDuplicates(Load(Step(stored, input))) && AllValid(Load(Step(stored, input)))
  {
    if input.Some? && IsValidEmail(input.value) {
      StorePreservesNoDuplicates(Load(stored), input.value);
    }
  }

  /** Over a whole session, whatever was stored before: the members of the
      list are exactly the original ones plus every valid address entered. */
  lemma {:induction false} SessionMembers(stored: Option<seq<string>>, inputs: seq<Option<string>>)
    ensures forall x :: x in Load(Session(stored, inputs)) <==> x in Load(stored) || Accepted(x, inputs)
    decreases |inputs|
  {
    if |inputs| > 0 {
      var next := Step(stored, inputs[0]);
      SessionMembers(next, inputs[1..]);
      var final := Load(Session(stored, inputs));
      assert final == Load(Session(next, inputs[1..]));
      forall x
        ensures x in final <==> x in Load(stored) || Accepted(x, inputs)
      {
        if Accepted(x, inputs[1..]) {
          var k :| 0 <= k < |inputs[1..]| && inputs[1..][k] == Some(x) && IsValidEmail(x);
          assert inputs[k + 1] == Some(x);
        }
        if Accepted(x, inputs) {
          var k :| 0 <= k < |inputs| && inputs[k] == Some(x) && IsValidEmail(x);
          if k > 0 {
            assert inputs[1..][k - 1] == Some(x);
          }
        }
        assert x in Load(next) <==> x in Load(stored) || (inputs[0] == Some(x) && IsValidEmail(x)) by {
          assert x in Load(next) <==> x in Members(Load(next));
        }
      }
    }
  }

  /** Over a whole session, starting from a well-formed list, the list stays
      duplicate-free and holds only valid addresses. */
  lemma {:induction false} SessionInvariant(stored: Option<seq<string>>, inputs: seq<Option<string>>)
    requires NoDuplicates(Load(stored)) && AllValid(Load(stored))
    ensures NoDuplicates(Load(Session(stored, inputs)))
    ensures AllValid(Load(Session(stored, inputs)))
    decreases |inputs|
  {
    if |inputs| > 0 {
      StepPreservesInvariant(stored, inputs[0]);
      SessionInvariant(Step(stored, inputs[0]), inputs[1..]);
    }
  }
}

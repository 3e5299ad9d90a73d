/** The part of the AI documentation service that the insertion engine depends on:
    how the assistant id is chosen when the service is built, and how the reply of a
    finished assistant run is cleaned before it is handed back as a docstring.
    The remote assistant itself (assistant creation, threads, messages, polling) is
    represented by the functions of a `Client` value. */
module AutodocService {

  /** Stand-in for the remote assistant API. `createAssistant` gives the id of a newly
      created assistant for the given instructions; `runStatus` and `latestMessage` give,
      for the source text of one unit, the final status of the polled run and the text of
      the newest message in its thread. */
  datatype Client = Client(
    createAssistant: string -> string,
    runStatus: string -> string,
    latestMessage: string -> string)

  /** The fields `__client`, `__assistant_id` and `__prompt`; set once, never updated. */
  datatype Service = Service(client: Client, assistantId: string, prompt: string)

  /** The status value that marks a finished run. */
  const Completed: string := "completed"

  /** `__init__`: a supplied id that is non-empty is kept; otherwise a new assistant is created.
      Python's falsy `None` for a missing id is represented by "". */
  function NewService(client: Client, assistantId: string, instructions: string, prompt: string): (s: Service)
    ensures s.client == client && s.prompt == prompt
    ensures assistantId != "" ==> s.assistantId == assistantId
    ensures assistantId == "" ==> s.assistantId == client.createAssistant(instructions)
  {
    if assistantId != "" then Service(client, assistantId, prompt)
    else Service(client, client.createAssistant(instructions), prompt)
  }

  /** `get_assistant_id`. */
  function GetAssistantId(s: Service): string
  {
    s.assistantId
  }

  /** A supplied non-empty id is exactly what the service reports afterwards. */
  lemma SuppliedIdIsKept(client: Client, assistantId: string, instructions: string, prompt: string)
    requires assistantId != ""
    ensures GetAssistantId(NewService(client, assistantId, instructions, prompt)) == assistantId
  {
  }

  /** Without a supplied id, the service reports the id of the assistant it created from
      the instructions. */
  lemma CreatedIdIsReported(client: Client, instructions: string, prompt: string)
    ensures GetAssistantId(NewService(client, "", instructions, prompt)) == client.createAssistant(instructions)
  {
  }

  predicate IsDelimiter(c: char)
  {
    c == '"' || c == '`'
  }

  predicate NoDelimiters(s: string)
  {
    forall i :: 0 <= i < |s| ==> !IsDelimiter(s[i])
  }

  /** `s.replace(c, "")`: every occurrence of `c` dropped, nothing else touched. */
  function Remove(s: string, c: char): (r: string)
    ensures c !in r
    ensures |r| <= |s|
    ensures forall x :: x in r ==> x in s
  {
    if s == [] then []
    else (if s[0] == c then [] else [s[0]]) + Remove(s[1..], c)
  }

  /** Removal works piece by piece: this, with `Remove([x], c) == [x]` for `x != c`,
      says the kept characters stay in their original order. */
  lemma {:induction false} RemoveAppend(a: string, b: string, c: char)
    ensures Remove(a + b, c) == Remove(a, c) + Remove(b, c)
  {
    if a == [] {
      assert a + b == b;
    } else {
      assert (a + b)[1..] == a[1..] + b;
      RemoveAppend(a[1..], b, c);
    }
  }

  /** Every character other than `c` occurs as often after the removal as before. */
  lemma {:induction false} RemoveKeepsOthers(s: string, c: char)
    ensures multiset(Remove(s, c))[c] == 0
    ensures forall x :: x != c ==> multiset(Remove(s, c))[x] == multiset(s)[x]
  {
    if s != [] {
      RemoveKeepsOthers(s[1..], c);
      assert s == [s[0]] + s[1..];
    }
  }

  /** A string without `c` is left as it is. */
  lemma {:induction false} RemoveAbsent(s: string, c: char)
    requires c !in s
    ensures Remove(s, c) == s
  {
    if s != [] {
      assert c !in s[1..];
      RemoveAbsent(s[1..], c);
    }
  }

  /** The two chained replacements of `generate_docstring`. */
  function Clean(s: string): (r: string)
    ensures NoDelimiters(r)
    ensures |r| <= |s|
  {
    Remove(Remove(s, '"'), '`')
  }

  /** Cleaning keeps every non-delimiter character with its multiplicity, and drops
      exactly the quotes and back-ticks. */
  lemma CleanKeepsOthers(s: string)
    ensures forall x :: !IsDelimiter(x) ==> multiset(Clean(s))[x] == multiset(s)[x]
    ensures |Clean(s)| == |s| - multiset(s)['"'] - multiset(s)['`']
  {
    RemoveKeepsOthers(s, '"');
    RemoveKeepsOthers(Remove(s, '"'), '`');
    var m, m' := multiset(s), multiset(Clean(s));
    assert m'['"'] == 0 && m'['`'] == 0;
    MultisetSizeWithout(Clean(s), s);
  }

  /** |t| is |s| minus the quotes and back-ticks of `s` when `t` has none of them and
      agrees with `s` on every other character count. */
  lemma MultisetSizeWithout(t: string, s: string)
    requires forall x :: !IsDelimiter(x) ==> multiset(t)[x] == multiset(s)[x]
    requires multiset(t)['"'] == 0 && multiset(t)['`'] == 0
    ensures |t| == |s| - multiset(s)['"'] - multiset(s)['`']
  {
    var q := multiset{}[ '"' := multiset(s)['"'] ][ '`' := multiset(s)['`'] ];
    assert multiset(s) == multiset(t) + q by {
      forall x ensures multiset(s)[x] == (multiset(t) + q)[x] {
        if !IsDelimiter(x) { assert q[x] == 0; }
      }
    }
    assert |q| == multiset(s)['"'] + multiset(s)['`'] by {
      var q1 := multiset{}[ '"' := multiset(s)['"'] ];
      assert q == q1 + multiset{}[ '`' := multiset(s)['`'] ];
    }
  }

  /** Cleaning works piece by piece, so the surviving characters keep their order. */
  lemma CleanAppend(a: string, b: string)
    ensures Clean(a + b) == Clean(a) + Clean(b)
  {
    RemoveAppend(a, b, '"');
    RemoveAppend(Remove(a, '"'), Remove(b, '"'), '`');
  }

  /** A string is left unchanged by cleaning exactly when it has no quote and no back-tick. */
  lemma CleanFixedIff(s: string)
    ensures Clean(s) == s <==> NoDelimiters(s)
  {
    if NoDelimiters(s) {
      assert '"' !in s;
      RemoveAbsent(s, '"');
      assert '`' !in s;
      RemoveAbsent(s, '`');
    }
  }

  /** Applying the two replacements again changes nothing. */
  lemma CleanIdempotent(s: string)
    ensures Clean(Clean(s)) == Clean(s)
  {
    CleanFixedIff(Clean(s));
  }

  /** `generate_docstring(node)`: the cleaned newest message of a completed run, and
      the empty string (the engine's "no docstring") for any other run status. */
  function GenerateDocstring(s: Service, node: string): (r: string)
    ensures NoDelimiters(r)
    ensures s.client.runStatus(node) != Completed ==> r == ""
    ensures s.client.runStatus(node) == Completed ==> |r| <= |s.client.latestMessage(node)|
  {
    if s.client.runStatus(node) == Completed then Clean(s.client.latestMessage(node)) else ""
  }

  /** A completed run hands back its message with only the quotes and back-ticks removed. */
  lemma CompletedReplyKeepsText(s: Service, node: string)
    requires s.client.runStatus(node) == Completed
    ensures var m := s.client.latestMessage(node);
      forall x :: !IsDelimiter(x) ==> multiset(GenerateDocstring(s, node))[x] == multiset(m)[x]
  {
    CleanKeepsOthers(s.client.latestMessage(node));
  }
}

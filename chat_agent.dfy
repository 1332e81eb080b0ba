/** The conversation state of `ChatAgent`: the message list and the primary
    directive, the token budget over an abstract token-length function, the
    pairing of conversation turns, and the save-file name rule. The language
    model, the tokenizer and the files are not part of this model; the
    tokenizer appears as `encodeLength` and model replies as inputs. */
module Chat {
  import opened Wrappers
  import opened Text

  const SYSTEM := "system"
  const USER := "user"
  const ASSISTANT := "assistant"
  const SUMMARY_PREFIX := "The following has been previously discussed ... "
  const TXT := ".txt"
  const PICKLE := ".pickle"

  /** A message dict: its `role`, and its `content` when that key is present. */
  datatype Message = Message(role: string, content: Option<string>)

  /** Python truthiness of an optional string: present and non-empty. */
  predicate Truthy(s: Option<string>) {
    s.Some? && |s.value| > 0
  }

  // ---------------------------------------------------------------------------
  // Save-file names

  /** The name `save_as_txt` writes to. */
  function TxtFilename(filename: string): (r: string)
    ensures Contains(r, TXT)
    ensures r == filename <==> Contains(filename, TXT)
    ensures !Contains(filename, TXT) ==> r == filename + TXT
    ensures WithSuffix(r, TXT) == r
  {
    WithSuffix(filename, TXT)
  }

  /** The name `save_as_pickle` writes to. */
  function PickleFilename(filename: string): (r: string)
    ensures Contains(r, PICKLE)
    ensures r == filename <==> Contains(filename, PICKLE)
    ensures !Contains(filename, PICKLE) ==> r == filename + PICKLE
    ensures WithSuffix(r, PICKLE) == r
  {
    WithSuffix(filename, PICKLE)
  }

  // ---------------------------------------------------------------------------
  // Tokens

  /** Every message has a `content` key. */
  predicate AllHaveContent(ms: seq<Message>) {
    forall i :: 0 <= i < |ms| ==> ms[i].content.Some?
  }

  /** The summed token lengths of the messages' contents. */
  function TokenSum(enc: string -> nat, ms: seq<Message>): nat
    requires AllHaveContent(ms)
    decreases |ms|
  {
    if |ms| == 0 then 0 else TokenSum(enc, ms[..|ms| - 1]) + enc(ms[|ms| - 1].content.value)
  }

  /** `count_tokens`: the sum, or a `KeyError` for a message without content. */
  function TokenCount(enc: string -> nat, ms: seq<Message>): Result<nat> {
    if AllHaveContent(ms) then Ok(TokenSum(enc, ms)) else Err(KeyError)
  }

  /** Token counts add up over concatenation. */
  lemma {:induction false} TokenSumAppend(enc: string -> nat, a: seq<Message>, b: seq<Message>)
    requires AllHaveContent(a) && AllHaveContent(b)
    ensures AllHaveContent(a + b)
    ensures TokenSum(enc, a + b) == TokenSum(enc, a) + TokenSum(enc, b)
    decreases |b|
  {
    assert AllHaveContent(a + b) by {
      forall i | 0 <= i < |a + b| ensures (a + b)[i].content.Some? {
        if i >= |a| {
          assert (a + b)[i] == b[i - |a|];
        }
      }
    }
    if |b| == 0 {
      assert a + b == a;
    } else {
      var b' := b[..|b| - 1];
      TokenSumAppend(enc, a, b');
      assert (a + b)[..|a + b| - 1] == a + b';
    }
  }

  /** `send_message` refreshes the session exactly when the conversation's
      tokens plus the new message's exceed the limit. */
  predicate NeedsRefresh(count: int, userTokens: nat, tokenLimit: int) {
    count + userTokens > tokenLimit
  }

  // ---------------------------------------------------------------------------
  // Contents and words

  /** The contents of the messages that have one, in order. */
  function Contents(ms: seq<Message>): (r: seq<string>)
    ensures |r| <= |ms|
    ensures AllHaveContent(ms) ==> |r| == |ms|
    decreases |ms|
  {
    if |ms| == 0 then []
    else (if ms[0].content.Some? then [ms[0].content.value] else []) + Contents(ms[1..])
  }

  /** `Contents` is a filter: it distributes over concatenation, keeping each
      part's contents in order. */
  lemma {:induction false} ContentsAppend(a: seq<Message>, b: seq<Message>)
    ensures Contents(a + b) == Contents(a) + Contents(b)
    decreases |a|
  {
    if |a| > 0 {
      assert (a + b)[1..] == a[1..] + b;
      ContentsAppend(a[1..], b);
    } else {
      assert a + b == b;
    }
  }

  /** One message contributes its content when it has one, and nothing otherwise. */
  lemma ContentsOne(m: Message)
    ensures Contents([m]) == if m.content.Some? then [m.content.value] else []
  {
    assert [m][1..] == [];
  }

  /** When every message has content, `Contents` lists them one for one. */
  lemma {:induction false} ContentsAll(ms: seq<Message>)
    requires AllHaveContent(ms)
    ensures |Contents(ms)| == |ms|
    ensures forall i :: 0 <= i < |ms| ==> Contents(ms)[i] == ms[i].content.value
    decreases |ms|
  {
    if |ms| > 0 {
      assert AllHaveContent(ms[1..]) by {
        forall i | 0 <= i < |ms[1..]| ensures ms[1..][i].content.Some? {
          assert ms[1..][i] == ms[i + 1];
        }
      }
      ContentsAll(ms[1..]);
      forall i | 0 <= i < |ms| ensures Contents(ms)[i] == ms[i].content.value {
        if i > 0 {
          assert ms[1..][i - 1] == ms[i];
        }
      }
    }
  }

  /** `extract_messages_content`: the contents joined by single spaces. */
  function ExtractContent(ms: seq<Message>): string {
    Join(Contents(ms), " ")
  }

  /** `words_in_messages`: the number of pieces of the content split on " ". */
  function WordsIn(ms: seq<Message>): (r: nat)
    ensures r >= 1
  {
    |Split(ExtractContent(ms), ' ')|
  }

  /** The word count is the number of spaces inside the contents plus the
      number of contents, and 1 when there is no content at all. */
  lemma WordsInCount(ms: seq<Message>)
    ensures WordsIn(ms) == OccurrencesIn(Contents(ms), ' ') + (if |Contents(ms)| == 0 then 1 else |Contents(ms)|)
  {
    var parts := Contents(ms);
    assert " " == [' '];
    SplitCount(ExtractContent(ms), ' ');
    if |parts| > 0 {
      JoinOccurrences(parts, ' ');
    } else {
      assert OccurrencesIn(parts, ' ') == 0;
    }
  }

  /** With no spaces inside the contents, splitting the extracted text gives
      back the contents. */
  lemma ExtractContentSplits(ms: seq<Message>)
    requires |Contents(ms)| >= 1
    requires forall k :: 0 <= k < |Contents(ms)| ==> ' ' !in Contents(ms)[k]
    ensures Split(ExtractContent(ms), ' ') == Contents(ms)
  {
    assert " " == [' '];
    SplitJoin(Contents(ms), ' ');
  }

  // ---------------------------------------------------------------------------
  // Pairing turns

  /** A pair by message indices: the pending system entry, if any, the user
      entry and the assistant entry that closed it. */
  datatype IdxPair = IdxPair(sys: Option<nat>, user: nat, assistant: nat)

  /** The loop state of `split_messages_into_pairs`, by indices. */
  datatype ScanState = ScanState(pairs: seq<IdxPair>, sys: Option<nat>, user: Option<nat>)

  /** Every index in the pairs is below `n`. */
  predicate PairsBelow(ps: seq<IdxPair>, n: nat) {
    forall k :: 0 <= k < |ps| ==>
      ps[k].user < ps[k].assistant < n && (ps[k].sys.Some? ==> ps[k].sys.value < n)
  }

  /** Every index in the state is below `n`. */
  predicate Below(st: ScanState, n: nat) {
    && PairsBelow(st.pairs, n)
    && (st.sys.Some? ==> st.sys.value < n)
    && (st.user.Some? ==> st.user.value < n)
  }

  /** One iteration of the loop, on entry `i`. */
  function Step(ms: seq<Message>, i: nat, st: ScanState): ScanState
    requires i < |ms|
  {
    if ms[i].role == SYSTEM then st.(sys := Some(i))
    else if ms[i].role == USER then st.(user := Some(i))
    else if ms[i].role == ASSISTANT && st.user.Some? then
      ScanState(st.pairs + [IdxPair(st.sys, st.user.value, i)], None, None)
    else st
  }

  /** The loop state after the first `n` entries. */
  function Scan(ms: seq<Message>, n: nat): (st: ScanState)
    requires n <= |ms|
    ensures Below(st, n)
    decreases n
  {
    if n == 0 then ScanState([], None, None) else Step(ms, n - 1, Scan(ms, n - 1))
  }

  /** No entry strictly between `lo` and `hi` has `role`. */
  predicate NoRoleBetween(ms: seq<Message>, lo: int, hi: int, role: string) {
    forall j :: lo < j < hi && 0 <= j < |ms| ==> ms[j].role != role
  }

  /** Where pair `k` starts looking: after the previous pair's assistant entry. */
  function Prev(ps: seq<IdxPair>, k: nat): int
    requires k <= |ps|
  {
    if k == 0 then -1 else ps[k - 1].assistant
  }

  /** Pair `k` is well formed: a user entry, then the assistant entry that
      closes it with no user or assistant entry in between; its system entry
      is the last one since the previous pair, or there was none. */
  predicate PairOk(ms: seq<Message>, ps: seq<IdxPair>, k: nat)
    requires k < |ps|
  {
    var p := ps[k];
    var lo := Prev(ps, k);
    && lo < p.user < p.assistant < |ms|
    && ms[p.user].role == USER && ms[p.assistant].role == ASSISTANT
    && NoRoleBetween(ms, p.user, p.assistant, USER)
    && NoRoleBetween(ms, p.user, p.assistant, ASSISTANT)
    && (p.sys.Some? ==>
          lo < p.sys.value < p.assistant && ms[p.sys.value].role == SYSTEM
          && NoRoleBetween(ms, p.sys.value, p.assistant, SYSTEM))
    && (p.sys.None? ==> NoRoleBetween(ms, lo, p.assistant, SYSTEM))
  }

  /** The invariant of the loop after `n` entries. */
  predicate WellScanned(ms: seq<Message>, n: nat, st: ScanState)
    requires n <= |ms|
  {
    var lo := Prev(st.pairs, |st.pairs|);
    && (forall k :: 0 <= k < |st.pairs| ==> PairOk(ms, st.pairs, k))
    && (forall k, k' :: 0 <= k < k' < |st.pairs| ==> st.pairs[k].assistant < st.pairs[k'].assistant)
    && lo < n
    && (st.user.Some? ==>
          lo < st.user.value < n && ms[st.user.value].role == USER
          && NoRoleBetween(ms, st.user.value, n, USER) && NoRoleBetween(ms, st.user.value, n, ASSISTANT))
    && (st.user.None? ==> NoRoleBetween(ms, lo, n, USER))
    && (st.sys.Some? ==>
          lo < st.sys.value < n && ms[st.sys.value].role == SYSTEM
          && NoRoleBetween(ms, st.sys.value, n, SYSTEM))
    && (st.sys.None? ==> NoRoleBetween(ms, lo, n, SYSTEM))
  }

  /** The three roles the loop tests are different strings. */
  lemma RolesDistinct()
    ensures SYSTEM != USER && SYSTEM != ASSISTANT && USER != ASSISTANT
  {
    assert SYSTEM[0] != USER[0] && SYSTEM[0] != ASSISTANT[0] && USER[0] != ASSISTANT[0];
  }

  /** One iteration keeps the invariant. */
  lemma StepWell(ms: seq<Message>, n: nat, st: ScanState)
    requires n < |ms| && WellScanned(ms, n, st)
    ensures WellScanned(ms, n + 1, Step(ms, n, st))
  {
    RolesDistinct();
    if ms[n].role == SYSTEM {
      StepSystemWell(ms, n, st);
    } else if ms[n].role == USER {
      StepUserWell(ms, n, st);
    } else if ms[n].role == ASSISTANT && st.user.Some? {
      StepEmitWell(ms, n, st);
    } else {
      StepSkipWell(ms, n, st);
    }
  }

  /** A system entry becomes the pending system entry. */
  lemma StepSystemWell(ms: seq<Message>, n: nat, st: ScanState)
    requires n < |ms| && WellScanned(ms, n, st) && ms[n].role == SYSTEM
    ensures WellScanned(ms, n + 1, st.(sys := Some(n)))
  {
    RolesDistinct();
  }

  /** A user entry becomes the pending user entry. */
  lemma StepUserWell(ms: seq<Message>, n: nat, st: ScanState)
    requires n < |ms| && WellScanned(ms, n, st) && ms[n].role == USER
    ensures WellScanned(ms, n + 1, st.(user := Some(n)))
  {
    RolesDistinct();
  }

  /** Any other entry, or an assistant entry with no pending user, changes nothing. */
  lemma StepSkipWell(ms: seq<Message>, n: nat, st: ScanState)
    requires n < |ms| && WellScanned(ms, n, st)
    requires ms[n].role != SYSTEM && ms[n].role != USER && (ms[n].role == ASSISTANT ==> st.user.None?)
    ensures WellScanned(ms, n + 1, st)
  {
  }

  /** An assistant entry with a pending user entry emits a pair and resets both slots. */
  lemma StepEmitWell(ms: seq<Message>, n: nat, st: ScanState)
    requires n < |ms| && WellScanned(ms, n, st) && ms[n].role == ASSISTANT && st.user.Some?
    ensures WellScanned(ms, n + 1, ScanState(st.pairs + [IdxPair(st.sys, st.user.value, n)], None, None))
  {
    RolesDistinct();
    var p := IdxPair(st.sys, st.user.value, n);
    var ps := st.pairs + [p];
    forall k | 0 <= k < |ps| ensures PairOk(ms, ps, k) {
      if k < |st.pairs| {
        PairOkExtend(ms, st.pairs, p, k);
      } else {
        assert Prev(ps, k) == Prev(st.pairs, |st.pairs|);
      }
    }
  }

  /** Appending a pair keeps the earlier pairs well formed. */
  lemma PairOkExtend(ms: seq<Message>, ps: seq<IdxPair>, p: IdxPair, k: nat)
    requires k < |ps| && PairOk(ms, ps, k)
    ensures PairOk(ms, ps + [p], k)
  {
    assert (ps + [p])[k] == ps[k];
    assert Prev(ps + [p], k) == Prev(ps, k);
  }

  /** The loop state after every prefix satisfies the invariant. */
  lemma {:induction false} ScanWell(ms: seq<Message>, n: nat)
    requires n <= |ms|
    ensures WellScanned(ms, n, Scan(ms, n))
    decreases n
  {
    if n > 0 {
      ScanWell(ms, n - 1);
      StepWell(ms, n - 1, Scan(ms, n - 1));
    }
  }

  /** Entry `a` is an assistant entry with a user entry before it and no
      assistant entry in between. */
  predicate Closes(ms: seq<Message>, a: nat)
    requires a < |ms|
  {
    ms[a].role == ASSISTANT
    && exists j :: 0 <= j < a && ms[j].role == USER && NoRoleBetween(ms, j, a, ASSISTANT)
  }

  /** Some pair is closed by entry `a`. */
  predicate ClosedBy(ps: seq<IdxPair>, a: nat) {
    exists k :: 0 <= k < |ps| && ps[k].assistant == a
  }

  /** The pairs are closed exactly by the assistant entries that have a user
      entry before them with no assistant entry in between. */
  lemma {:induction false} ScanComplete(ms: seq<Message>, n: nat)
    requires n <= |ms|
    ensures forall a :: 0 <= a < n ==> (Closes(ms, a) <==> ClosedBy(Scan(ms, n).pairs, a))
    decreases n
  {
    if n > 0 {
      var i := n - 1;
      var st := Scan(ms, i);
      var st' := Scan(ms, n);
      ScanComplete(ms, i);
      ScanWell(ms, i);
      assert st' == Step(ms, i, st);
      assert SYSTEM != ASSISTANT && USER != ASSISTANT by {
        assert SYSTEM[0] != ASSISTANT[0] && USER[0] != ASSISTANT[0];
      }
      // The pairs only grow, and any new pair is closed by entry i.
      assert st'.pairs == st.pairs || st'.pairs == st.pairs + [IdxPair(st.sys, st.user.value, i)];
      forall a | 0 <= a < i ensures Closes(ms, a) <==> ClosedBy(st'.pairs, a) {
        if ClosedBy(st'.pairs, a) {
          var k :| 0 <= k < |st'.pairs| && st'.pairs[k].assistant == a;
          assert k < |st.pairs| && st.pairs[k] == st'.pairs[k];
        }
        if ClosedBy(st.pairs, a) {
          var k :| 0 <= k < |st.pairs| && st.pairs[k].assistant == a;
          assert st'.pairs[k] == st.pairs[k];
        }
      }
      ClosesAtStep(ms, i, st);
    }
  }

  /** Entry `i` closes a pair exactly when the loop reaches it with a pending user entry. */
  lemma ClosesAtStep(ms: seq<Message>, i: nat, st: ScanState)
    requires i < |ms| && WellScanned(ms, i, st) && Below(st, i)
    ensures Closes(ms, i) <==> ClosedBy(Step(ms, i, st).pairs, i)
  {
    assert SYSTEM != ASSISTANT && USER != ASSISTANT by {
      assert SYSTEM[0] != ASSISTANT[0] && USER[0] != ASSISTANT[0];
    }
    var st' := Step(ms, i, st);
    if ClosedBy(st'.pairs, i) {
      var k :| 0 <= k < |st'.pairs| && st'.pairs[k].assistant == i;
      assert ms[i].role == ASSISTANT && st.user.Some?;
      assert NoRoleBetween(ms, st.user.value, i, ASSISTANT);
    }
    if Closes(ms, i) {
      var j :| 0 <= j < i && ms[j].role == USER && NoRoleBetween(ms, j, i, ASSISTANT);
      PendingUser(ms, i, st, j);
      assert st'.pairs[|st.pairs|].assistant == i;
    }
  }

  /** A user entry with no assistant entry after it is still pending. */
  lemma PendingUser(ms: seq<Message>, i: nat, st: ScanState, j: nat)
    requires i <= |ms| && WellScanned(ms, i, st)
    requires j < i && ms[j].role == USER && NoRoleBetween(ms, j, i, ASSISTANT)
    ensures st.user.Some?
  {
    assert USER != ASSISTANT by {
      assert USER[0] != ASSISTANT[0];
    }
    if |st.pairs| > 0 {
      assert PairOk(ms, st.pairs, |st.pairs| - 1);
    }
  }

  /** Number of entries among the first `n` with `role`. */
  function CountRole(ms: seq<Message>, n: nat, role: string): nat
    requires n <= |ms|
    decreases n
  {
    if n == 0 then 0 else CountRole(ms, n - 1, role) + (if ms[n - 1].role == role then 1 else 0)
  }

  /** There are no more pairs than assistant entries. */
  lemma {:induction false} PairsAtMostAssistants(ms: seq<Message>, n: nat)
    requires n <= |ms|
    ensures |Scan(ms, n).pairs| <= CountRole(ms, n, ASSISTANT)
    decreases n
  {
    if n > 0 {
      PairsAtMostAssistants(ms, n - 1);
      assert SYSTEM != ASSISTANT && USER != ASSISTANT by {
        assert SYSTEM[0] != ASSISTANT[0] && USER[0] != ASSISTANT[0];
      }
    }
  }

  /** No entry is used by two pairs: the user entries, the assistant entries
      and the system entries of different pairs are different. */
  lemma PairsUseEntriesOnce(ms: seq<Message>)
    ensures var ps := Scan(ms, |ms|).pairs;
            forall k, k' :: 0 <= k < k' < |ps| ==>
              && ps[k].user != ps[k'].user
              && ps[k].assistant != ps[k'].assistant
              && (ps[k].sys.Some? && ps[k'].sys.Some? ==> ps[k].sys.value != ps[k'].sys.value)
  {
    var ps := Scan(ms, |ms|).pairs;
    ScanWell(ms, |ms|);
    forall k, k' | 0 <= k < k' < |ps|
      ensures && ps[k].user != ps[k'].user
              && ps[k].assistant != ps[k'].assistant
              && (ps[k].sys.Some? && ps[k'].sys.Some? ==> ps[k].sys.value != ps[k'].sys.value)
    {
      assert PairOk(ms, ps, k) && PairOk(ms, ps, k');
      if k < k' - 1 {
        assert ps[k].assistant < ps[k' - 1].assistant;
      }
      assert ps[k].assistant <= Prev(ps, k');
    }
  }

  /** Pairs come in message order: each pair's assistant entry comes before
      the next pair's user and system entries. */
  lemma PairsInMessageOrder(ms: seq<Message>)
    ensures var ps := Scan(ms, |ms|).pairs;
            forall k, k' :: 0 <= k < k' < |ps| ==>
              && ps[k].assistant < ps[k'].user
              && (ps[k'].sys.Some? ==> ps[k].assistant < ps[k'].sys.value)
  {
    var ps := Scan(ms, |ms|).pairs;
    ScanWell(ms, |ms|);
    forall k, k' | 0 <= k < k' < |ps|
      ensures && ps[k].assistant < ps[k'].user
              && (ps[k'].sys.Some? ==> ps[k].assistant < ps[k'].sys.value)
    {
      assert PairOk(ms, ps, k');
      if k < k' - 1 {
        assert ps[k].assistant < ps[k' - 1].assistant;
      }
    }
  }

  /** A pair as the source returns it: `[system_entry, user_entry, assistant_entry]`. */
  datatype Pair = Pair(system: Option<Message>, user: Message, assistant: Message)

  /** The entry at an optional index. */
  function EntryAt(ms: seq<Message>, o: Option<nat>): Option<Message>
    requires o.Some? ==> o.value < |ms|
  {
    if o.Some? then Some(ms[o.value]) else None
  }

  /** The pairs as entries. */
  function PairsOf(ms: seq<Message>, ps: seq<IdxPair>): seq<Pair>
    requires PairsBelow(ps, |ms|)
  {
    seq(|ps|, k requires 0 <= k < |ps| => Pair(EntryAt(ms, ps[k].sys), ms[ps[k].user], ms[ps[k].assistant]))
  }

  /** `split_messages_into_pairs` on `ms`, as a value. */
  function PairsSpec(ms: seq<Message>): seq<Pair> {
    PairsOf(ms, Scan(ms, |ms|).pairs)
  }

  /** Every returned pair is a user entry and an assistant entry, with either
      no system entry or a system entry. */
  lemma PairsRoles(ms: seq<Message>)
    ensures forall k :: 0 <= k < |PairsSpec(ms)| ==>
              && PairsSpec(ms)[k].user.role == USER
              && PairsSpec(ms)[k].assistant.role == ASSISTANT
              && (PairsSpec(ms)[k].system.Some? ==> PairsSpec(ms)[k].system.value.role == SYSTEM)
  {
    ScanWell(ms, |ms|);
    var ps := Scan(ms, |ms|).pairs;
    forall k | 0 <= k < |ps|
      ensures && PairsSpec(ms)[k].user.role == USER
              && PairsSpec(ms)[k].assistant.role == ASSISTANT
              && (PairsSpec(ms)[k].system.Some? ==> PairsSpec(ms)[k].system.value.role == SYSTEM)
    {
      assert PairOk(ms, ps, k);
    }
  }

  // ---------------------------------------------------------------------------
  // The agent

  /** `ChatAgent`'s conversation state. */
  class ChatAgent {
    /** `len(self.enc.encode(text))`. */
    const encodeLength: string -> nat
    var messages: seq<Message>
    var primaryDirective: Option<string>
    var tokenLimit: int
    var summarySize: Option<int>

    /** A stored directive is always a non-empty string. */
    predicate Valid()
      reads this
    {
      primaryDirective.None? || Truthy(primaryDirective)
    }

    /** `__init__`: the given messages (none by default), no directive. */
    constructor (enc: string -> nat, messages0: Option<seq<Message>>, tokenLimit0: int, summarySize0: Option<int>)
      ensures Valid()
      ensures encodeLength == enc
      ensures messages == (if messages0.Some? then messages0.value else [])
      ensures primaryDirective.None? && tokenLimit == tokenLimit0 && summarySize == summarySize0
    {
      encodeLength := enc;
      messages := if messages0.Some? then messages0.value else [];
      primaryDirective := None;
      tokenLimit := tokenLimit0;
      summarySize := summarySize0;
    }

    /** `set_primary_directive`: a new non-empty prompt is appended and
        stored; with no prompt the stored directive is appended again;
        otherwise nothing changes. */
    method SetPrimaryDirective(systemPrompt: Option<string>)
      requires Valid()
      modifies this
      ensures Valid()
      ensures tokenLimit == old(tokenLimit) && summarySize == old(summarySize)
      ensures Truthy(systemPrompt) ==>
                messages == old(messages) + [Message(SYSTEM, systemPrompt)] && primaryDirective == systemPrompt
      ensures systemPrompt.None? && old(primaryDirective).Some? ==>
                messages == old(messages) + [Message(SYSTEM, old(primaryDirective))]
                && primaryDirective == old(primaryDirective)
      ensures !Truthy(systemPrompt) && !(systemPrompt.None? && old(primaryDirective).Some?) ==>
                messages == old(messages) && primaryDirective == old(primaryDirective)
    {
      var prompt := systemPrompt;
      if prompt.None? && primaryDirective.Some? {
        prompt := primaryDirective;
      }
      if Truthy(prompt) {
        messages := messages + [Message(SYSTEM, prompt)];
        primaryDirective := prompt;
      }
    }

    /** `add_context`: a non-empty prompt is appended as a system message. */
    method AddContext(systemPrompt: Option<string>)
      requires Valid()
      modifies this
      ensures Valid()
      ensures primaryDirective == old(primaryDirective)
      ensures tokenLimit == old(tokenLimit) && summarySize == old(summarySize)
      ensures messages == if Truthy(systemPrompt) then old(messages) + [Message(SYSTEM, systemPrompt)] else old(messages)
    {
      if Truthy(systemPrompt) {
        messages := messages + [Message(SYSTEM, systemPrompt)];
      }
    }

    /** `count_tokens`: the token lengths of all contents, summed in order. */
    method CountTokens() returns (r: Result<nat>)
      ensures r == TokenCount(encodeLength, messages)
    {
      var numTokens := 0;
      for i := 0 to |messages|
        invariant AllHaveContent(messages[..i])
        invariant numTokens == TokenSum(encodeLength, messages[..i])
      {
        if messages[i].content.None? {
          assert !AllHaveContent(messages);
          return Err(KeyError);
        }
        assert messages[..i + 1][..i] == messages[..i];
        numTokens := numTokens + encodeLength(messages[i].content.value);
      }
      assert messages[..|messages|] == messages;
      r := Ok(numTokens);
    }

    /** `is_within_token_limit`: the count is at most the given limit, or
        the agent's own when none is given. */
    method IsWithinTokenLimit(limit: Option<int>) returns (r: Result<bool>)
      ensures r.Err? <==> !AllHaveContent(messages)
      ensures r.Err? ==> r.error == KeyError
      ensures r.Ok? ==>
                (r.value <==> TokenSum(encodeLength, messages) <= if limit.Some? then limit.value else tokenLimit)
    {
      var l := if limit.Some? then limit.value else tokenLimit;
      var count := CountTokens();
      if count.Err? {
        return Err(count.error);
      }
      r := Ok(count.value <= l);
    }

    /** `tokens_left`: the agent's limit minus the count. */
    method TokensLeft() returns (r: Result<int>)
      ensures r.Err? <==> !AllHaveContent(messages)
      ensures r.Err? ==> r.error == KeyError
      ensures r.Ok? ==> r.value == tokenLimit - TokenSum(encodeLength, messages)
    {
      var count := CountTokens();
      if count.Err? {
        return Err(count.error);
      }
      r := Ok(tokenLimit - count.value);
    }

    /** `extract_messages_content` on the agent's messages. */
    function ExtractMessagesContent(): (r: string)
      reads this
      ensures |Contents(messages)| >= 1 && (forall k :: 0 <= k < |Contents(messages)| ==> ' ' !in Contents(messages)[k]) ==>
                Split(r, ' ') == Contents(messages)
    {
      if |Contents(messages)| >= 1 && (forall k :: 0 <= k < |Contents(messages)| ==> ' ' !in Contents(messages)[k]) then
        ExtractContentSplits(messages);
        ExtractContent(messages)
      else
        ExtractContent(messages)
    }

    /** `words_in_messages` on the agent's messages. */
    function WordsInMessages(): (r: nat)
      reads this
      ensures r >= 1
      ensures r == OccurrencesIn(Contents(messages), ' ') + (if |Contents(messages)| == 0 then 1 else |Contents(messages)|)
    {
      WordsInCount(messages);
      WordsIn(messages)
    }

    /** `split_messages_into_pairs`: the given messages, or the agent's own. */
    method SplitMessagesIntoPairs(msgs: Option<seq<Message>>) returns (pairs: seq<Pair>)
      ensures pairs == PairsSpec(if msgs.Some? then msgs.value else messages)
    {
      var ms := if msgs.Some? then msgs.value else messages;
      pairs := [];
      var tempUser: Option<Message> := None;
      var tempSystem: Option<Message> := None;
      for i := 0 to |ms|
        invariant var st := Scan(ms, i);
                  && pairs == PairsOf(ms, st.pairs)
                  && tempUser == EntryAt(ms, st.user)
                  && tempSystem == EntryAt(ms, st.sys)
      {
        ghost var st := Scan(ms, i);
        var entry := ms[i];
        if entry.role == SYSTEM {
          tempSystem := Some(entry);
        } else if entry.role == USER {
          tempUser := Some(entry);
        } else if entry.role == ASSISTANT && tempUser.Some? {
          pairs := pairs + [Pair(tempSystem, tempUser.value, entry)];
          tempUser := None;
          tempSystem := None;
        }
        assert Scan(ms, i + 1) == Step(ms, i, st);
      }
    }

    /** `refresh_session`, given the summary the model would return: with
        no summary size the word count is halved as a method, which fails;
        the conversation is saved to memory, which fails when it has no
        complete turn (an empty insert); then the messages restart from the
        primary directive and the summary. */
    method RefreshSession(summary: string) returns (r: Result<()>)
      requires Valid()
      modifies this
      ensures Valid()
      ensures primaryDirective == old(primaryDirective)
      ensures tokenLimit == old(tokenLimit) && summarySize == old(summarySize)
      ensures old(summarySize).None? ==> r == Err(TypeError) && messages == old(messages)
      ensures old(summarySize).Some? && |PairsSpec(old(messages))| == 0 ==>
                r == Err(IndexError) && messages == old(messages)
      ensures r.Ok? <==> old(summarySize).Some? && |PairsSpec(old(messages))| > 0
      ensures r.Ok? ==>
                messages == (if old(primaryDirective).Some? then [Message(SYSTEM, old(primaryDirective))] else [])
                            + [Message(SYSTEM, Some(SUMMARY_PREFIX + summary))]
    {
      if summarySize.None? {
        return Err(TypeError);
      }
      var pairs := SplitMessagesIntoPairs(None);
      if |pairs| == 0 {
        return Err(IndexError);
      }
      messages := [];
      SetPrimaryDirective(None);
      AddContext(Some(SUMMARY_PREFIX + summary));
      r := Ok(());
    }

    /** `send_message`, given the summary and the reply the model would
        return: count the tokens, refresh first when the new message would
        go over the limit, then append the user message and the reply. */
    method SendMessage(userMessage: string, summary: string, reply: string) returns (r: Result<string>)
      requires Valid()
      modifies this
      ensures Valid()
      ensures primaryDirective == old(primaryDirective)
      ensures tokenLimit == old(tokenLimit) && summarySize == old(summarySize)
      ensures !AllHaveContent(old(messages)) ==> r == Err(KeyError) && messages == old(messages)
      ensures AllHaveContent(old(messages)) &&
              !NeedsRefresh(TokenSum(encodeLength, old(messages)), encodeLength(userMessage), tokenLimit) ==>
                r == Ok(reply)
                && messages == old(messages) + [Message(USER, Some(userMessage)), Message(ASSISTANT, Some(reply))]
      ensures AllHaveContent(old(messages)) &&
              NeedsRefresh(TokenSum(encodeLength, old(messages)), encodeLength(userMessage), tokenLimit) ==>
                if old(summarySize).None? then
                  r == Err(TypeError) && messages == old(messages)
                else if |PairsSpec(old(messages))| == 0 then
                  r == Err(IndexError) && messages == old(messages)
                else
                  r == Ok(reply)
                  && messages == (if old(primaryDirective).Some? then [Message(SYSTEM, old(primaryDirective))] else [])
                                 + [Message(SYSTEM, Some(SUMMARY_PREFIX + summary)),
                                    Message(USER, Some(userMessage)), Message(ASSISTANT, Some(reply))]
    {
      var tokensUsedUser := encodeLength(userMessage);
      var count := CountTokens();
      if count.Err? {
        return Err(count.error);
      }
      if count.value + tokensUsedUser > tokenLimit {
        var refreshed := RefreshSession(summary);
        if refreshed.Err? {
          return Err(refreshed.error);
        }
      }
      messages := messages + [Message(USER, Some(userMessage))];
      messages := messages + [Message(ASSISTANT, Some(reply))];
      r := Ok(reply);
    }
  }

  /** A turn without refresh adds exactly the tokens of the user message and the reply. */
  lemma SendAddsTokens(enc: string -> nat, ms: seq<Message>, userMessage: string, reply: string)
    requires AllHaveContent(ms)
    ensures var ms' := ms + [Message(USER, Some(userMessage)), Message(ASSISTANT, Some(reply))];
            AllHaveContent(ms') && TokenSum(enc, ms') == TokenSum(enc, ms) + enc(userMessage) + enc(reply)
  {
    var tail := [Message(USER, Some(userMessage)), Message(ASSISTANT, Some(reply))];
    TokenSumAppend(enc, ms, tail);
    assert TokenSum(enc, tail) == enc(userMessage) + enc(reply) by {
      var first := [tail[0]];
      assert tail[..|tail| - 1] == first;
      assert first[..0] == [];
      assert TokenSum(enc, first) == enc(userMessage);
    }
  }
}

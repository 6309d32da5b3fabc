/**
 * The task runner of spell-checker_runner.c, as a sequential state machine.
 *
 * Callers push messages at the tail of a queue (csrPushMsg); one worker
 * (thread_runner) repeatedly removes the head message and applies it to the
 * trie. The mutex, the condition variable and the thread itself are not
 * modelled: a push and a worker step are atomic transitions, and a worker
 * that waits on an empty queue is a worker with no step enabled.
 *
 * The spell-check callback is a function pointer chosen by the caller; it is
 * modelled by a number, and each invocation is recorded as a `Report`
 * carrying the token exactly as strtok returned it.
 */
module SpellRunner {
  import opened Bytes
  import opened Trie
  import opened Tokenizer

  datatype Option<T> = None | Some(value: T)

  /** Identifies a caller-supplied SpellCheckerCallback. */
  type Callback = nat

  /** ScrMsg with its payload: SCR_MSG_ADD, SCR_MSG_SPELL_CHECK, SCR_MSG_FINALIZE. */
  datatype Msg = Add(word: CStr) | SpellCheck(text: CStr, callback: Callback) | Finalize

  /** One call `callback(word)` made by scrDoSpellCheck. */
  datatype Report = Report(callback: Callback, word: seq<Byte>)

  /**
   * struct _SpellCheckerRunner without its thread primitives: the message
   * queue from head to tail, the isRunning flag and the trie, plus the
   * history of callback invocations.
   */
  datatype State = State(queue: seq<Msg>, running: bool, trie: Node, reported: seq<Report>)

  /** scrInit: an empty trie, an empty queue, running. */
  function Start(): (s: State)
    ensures s.running && s.queue == [] && s.reported == []
    ensures Invariant(s.trie)
    ensures forall w: seq<Byte> :: Has(s.trie, w) <==> w == []
  {
    LemmaInitInvariant();
    State([], true, Init(), [])
  }

  /** The tokens of `ts` that the trie does not hold, in order, duplicates kept. */
  function Unknown(t: Node, ts: seq<seq<Byte>>): seq<seq<Byte>>
  {
    if |ts| == 0 then []
    else (if Has(t, ts[0]) then [] else [ts[0]]) + Unknown(t, ts[1..])
  }

  /**
   * Only tokens the trie lacks are reported, and nothing is reported iff
   * every token is present.
   */
  lemma {:induction false} LemmaUnknownSound(t: Node, ts: seq<seq<Byte>>)
    ensures |Unknown(t, ts)| <= |ts|
    ensures forall j :: 0 <= j < |Unknown(t, ts)| ==> Unknown(t, ts)[j] in ts && !Has(t, Unknown(t, ts)[j])
    ensures (forall j :: 0 <= j < |ts| ==> Has(t, ts[j])) <==> Unknown(t, ts) == []
  {
    if |ts| != 0 {
      LemmaUnknownSound(t, ts[1..]);
      var r := Unknown(t, ts);
      var rest := Unknown(t, ts[1..]);
      assert r == (if Has(t, ts[0]) then [] else [ts[0]]) + rest;
      forall j | 0 <= j < |rest| ensures rest[j] in ts {
        assert rest[j] in ts[1..];
      }
      if forall j :: 0 <= j < |ts| ==> Has(t, ts[j]) {
        assert forall j :: 0 <= j < |ts| - 1 ==> Has(t, ts[1..][j]) by {
          forall j | 0 <= j < |ts| - 1 ensures Has(t, ts[1..][j]) {
            assert ts[1..][j] == ts[j + 1];
          }
        }
      }
      if r == [] {
        forall j | 0 <= j < |ts| ensures Has(t, ts[j]) {
          if j > 0 {
            assert ts[j] == ts[1..][j - 1];
          }
        }
      }
    }
  }

  /** The words scrDoSpellCheck passes to its callback for `text`. */
  function Misspelled(t: Node, text: seq<Byte>): seq<seq<Byte>>
  {
    Unknown(t, Tokens(text))
  }

  function Tag(cb: Callback, ws: seq<seq<Byte>>): (r: seq<Report>)
    ensures |r| == |ws|
    ensures forall j :: 0 <= j < |ws| ==> r[j] == Report(cb, ws[j])
  {
    seq(|ws|, j requires 0 <= j < |ws| => Report(cb, ws[j]))
  }

  /**
   * scrDoSpellCheck: the strtok loop. Each call of strtok skips the
   * delimiters in front of the next token and ends the token at the next
   * delimiter; a token the trie does not hold is passed on unchanged.
   */
  method DoSpellCheck(t: Node, text: CStr) returns (reported: seq<seq<Byte>>)
    ensures reported == Misspelled(t, text)
  {
    reported := [];
    var i := 0;
    while i < |text|
      invariant 0 <= i <= |text|
      invariant reported + Misspelled(t, text[i..]) == Misspelled(t, text)
    {
      var j, out := CheckNextToken(t, text, i);
      assert reported + (out + Misspelled(t, text[j..])) == (reported + out) + Misspelled(t, text[j..]);
      reported := reported + out;
      i := j;
    }
    assert text[i..] == [];
  }

  /**
   * One turn of the strtok loop from offset `i`: skip delimiters, and if a
   * token follows, look it up and report it when absent.
   */
  method CheckNextToken(t: Node, text: CStr, i: nat) returns (j: nat, out: seq<seq<Byte>>)
    requires i < |text|
    ensures i < j <= |text|
    ensures |out| <= 1
    ensures Misspelled(t, text[i..]) == out + Misspelled(t, text[j..])
  {
    var k := i;
    while k < |text| && IsDelimiter(text[k])
      invariant i <= k <= |text|
      invariant Misspelled(t, text[i..]) == Misspelled(t, text[k..])
    {
      LemmaMisspelledDelimiter(t, text, k);
      k := k + 1;
    }
    if k == |text| {
      assert i < k;
      return k, [];
    }
    j := TokenEnd(text, k);
    LemmaSliceNoNul(text, k, j);
    var word: CStr := text[k..j];
    LemmaMisspelledToken(t, text, k, j);
    var found := HasWord(t, word);
    out := if found then [] else [word];
  }

  /** The scan strtok makes for the end of the token starting at `i`. */
  method TokenEnd(text: CStr, i: nat) returns (j: nat)
    requires i < |text| && !IsDelimiter(text[i])
    ensures i < j <= |text|
    ensures j - i == Span(text[i..])
  {
    j := i;
    while j < |text| && !IsDelimiter(text[j])
      invariant i <= j <= |text|
      invariant Span(text[i..]) == (j - i) + Span(text[j..])
    {
      assert text[j..][1..] == text[j + 1..];
      j := j + 1;
    }
  }

  /** A delimiter in front of the remaining text is skipped. */
  lemma LemmaMisspelledDelimiter(t: Node, text: CStr, i: nat)
    requires i < |text| && IsDelimiter(text[i])
    ensures Misspelled(t, text[i..]) == Misspelled(t, text[i + 1..])
  {
    assert text[i..][1..] == text[i + 1..];
  }

  /** A token at the front of the remaining text is reported first, if unknown. */
  lemma LemmaMisspelledToken(t: Node, text: CStr, i: nat, j: nat)
    requires i < j <= |text|
    requires j - i == Span(text[i..])
    ensures Misspelled(t, text[i..]) ==
      (if Has(t, text[i..j]) then [] else [text[i..j]]) + Misspelled(t, text[j..])
  {
    var s := text[i..];
    assert s[..j - i] == text[i..j] && s[j - i..] == text[j..];
    assert Tokens(s) == [text[i..j]] + Tokens(text[j..]);
    assert Tokens(s)[1..] == Tokens(text[j..]);
  }

  /** The body of the switch in thread_runner, for one message. */
  function Apply(s: State, m: Msg): State
  {
    match m
    case Add(w) => s.(trie := AddWord(s.trie, w).trie)
    case SpellCheck(text, cb) => s.(reported := s.reported + Tag(cb, Misspelled(s.trie, text)))
    case Finalize => s.(running := false)
  }

  /** The worker loop makes progress when isRunning is set and the queue is not empty. */
  predicate Enabled(s: State)
  {
    s.running && |s.queue| > 0
  }

  /**
   * One turn of thread_runner: apply the head message and unlink it. Only
   * FINALIZE touches isRunning, only ADD touches the trie, and only
   * SPELL_CHECK adds reports, which are the misspelled tokens of its text.
   */
  function Step(s: State): (r: State)
    requires Enabled(s)
    ensures r.queue == s.queue[1..]
    ensures r.running <==> !s.queue[0].Finalize?
    ensures !s.queue[0].Add? ==> r.trie == s.trie
    ensures s.queue[0].Add? ==> r.trie == AddWord(s.trie, s.queue[0].word).trie
    ensures !s.queue[0].SpellCheck? ==> r.reported == s.reported
    ensures s.queue[0].SpellCheck? ==>
      r.reported == s.reported + Tag(s.queue[0].callback, Misspelled(s.trie, s.queue[0].text))
  {
    Apply(s.(queue := s.queue[1..]), s.queue[0])
  }

  /**
   * csrPushMsg: link a new message after the tail (or make it the head of
   * an empty queue). Everything already queued stays where it was.
   */
  function Push(s: State, m: Msg): (r: State)
    ensures |r.queue| == |s.queue| + 1
    ensures r.queue[..|s.queue|] == s.queue && r.queue[|s.queue|] == m
    ensures s.queue == [] ==> r.queue == [m]
    ensures r.running == s.running && r.trie == s.trie && r.reported == s.reported
  {
    s.(queue := s.queue + [m])
  }

  /** The worker runs until it waits on an empty queue or has left its loop. */
  function Drain(s: State): (r: State)
    ensures !Enabled(r)
    decreases |s.queue|
  {
    if Enabled(s) then Drain(Step(s)) else s
  }

  /** A worker turn keeps the trie's structural invariant: only ADD changes the trie, through scdAddWord. */
  lemma LemmaStepKeepsInvariant(s: State)
    requires Enabled(s)
    requires Invariant(s.trie)
    ensures Invariant(Step(s).trie)
  {
    if s.queue[0].Add? {
      LemmaAddWordInvariant(s.trie, s.queue[0].word);
    }
  }

  /** Running the worker for any number of turns keeps the trie's structural invariant. */
  lemma {:induction false} LemmaDrainKeepsInvariant(s: State)
    requires Invariant(s.trie)
    ensures Invariant(Drain(s).trie)
    decreases |s.queue|
  {
    if Enabled(s) {
      LemmaStepKeepsInvariant(s);
      LemmaDrainKeepsInvariant(Step(s));
    }
  }

  /** The messages `ms` applied one after the other, in order. */
  function ApplyAll(s: State, ms: seq<Msg>): State
    decreases |ms|
  {
    if |ms| == 0 then s else ApplyAll(Apply(s, ms[0]), ms[1..])
  }

  /** The outcome of an API call: its return code and the runner afterwards (None for a NULL handle). */
  datatype Reply = Reply(status: int, runner: Option<State>)

  /**
   * scrAddWord: NULL arguments give -1; a stopped runner gives 0 and
   * queues nothing; otherwise the word is queued and 0 is returned whether
   * or not the trie will accept it.
   */
  function ScrAddWord(h: Option<State>, word: Option<CStr>): (r: Reply)
    ensures h.None? || word.None? ==> r.status == -1 && r.runner == h
    ensures h.Some? && word.Some? ==> r.status == 0
    ensures h.Some? && word.Some? && !h.value.running ==> r.runner == h
    ensures h.Some? && word.Some? && h.value.running ==>
      r.runner.Some? && r.runner.value.queue == h.value.queue + [Add(word.value)]
    ensures h.Some? && word.Some? && h.value.running ==>
      r.runner.Some? && r.runner.value.running
      && r.runner.value.trie == h.value.trie && r.runner.value.reported == h.value.reported
  {
    if h.None? || word.None? then Reply(-1, h)
    else if !h.value.running then Reply(0, h)
    else Reply(0, Some(Push(h.value, Add(word.value))))
  }

  /**
   * scrRunSpellCheck: NULL runner, text or callback give -1; a stopped
   * runner gives 0 and queues nothing; otherwise the text and callback are
   * queued and 0 is returned.
   */
  function ScrRunSpellCheck(h: Option<State>, text: Option<CStr>, cb: Option<Callback>): (r: Reply)
    ensures h.None? || text.None? || cb.None? ==> r.status == -1 && r.runner == h
    ensures h.Some? && text.Some? && cb.Some? ==> r.status == 0
    ensures h.Some? && text.Some? && cb.Some? && !h.value.running ==> r.runner == h
    ensures h.Some? && text.Some? && cb.Some? && h.value.running ==>
      r.runner.Some? && r.runner.value.queue == h.value.queue + [SpellCheck(text.value, cb.value)]
    ensures h.Some? && text.Some? && cb.Some? && h.value.running ==>
      r.runner.Some? && r.runner.value.running
      && r.runner.value.trie == h.value.trie && r.runner.value.reported == h.value.reported
  {
    if h.None? || text.None? || cb.None? then Reply(-1, h)
    else if !h.value.running then Reply(0, h)
    else Reply(0, Some(Push(h.value, SpellCheck(text.value, cb.value))))
  }

  /**
   * scrFinalize: NULL gives -1; a stopped runner gives 0 untouched;
   * otherwise FINALIZE is queued and the call waits for the worker to leave
   * its loop (pthread_join), so the state returned is one the worker has
   * stopped in. The memory is then released, which is not modelled.
   */
  function ScrFinalize(h: Option<State>): (r: Reply)
    ensures h.None? ==> r.status == -1 && r.runner == h
    ensures h.Some? ==> r.status == 0
    ensures h.Some? && !h.value.running ==> r.runner == h
    ensures h.Some? && h.value.running ==> r.runner.Some? && !r.runner.value.running
  {
    if h.None? then Reply(-1, h)
    else if !h.value.running then Reply(0, h)
    else
      var s := Push(h.value, Finalize);
      LemmaDrainReachesFinalize(s, |s.queue| - 1);
      Reply(0, Some(Drain(s)))
  }

  /** A queued FINALIZE is always reached: draining a runner that holds one stops it. */
  lemma {:induction false} LemmaDrainReachesFinalize(s: State, k: nat)
    requires k < |s.queue| && s.queue[k] == Finalize
    ensures !Drain(s).running
    decreases |s.queue|
  {
    if Enabled(s) && k > 0 {
      LemmaDrainReachesFinalize(Step(s), k - 1);
    }
  }

  /** Applying a message does not look at or change the queue. */
  lemma LemmaApplyIgnoresQueue(s: State, m: Msg, q: seq<Msg>)
    ensures Apply(s.(queue := q), m) == Apply(s, m).(queue := q)
    ensures Apply(s, m).queue == s.queue
  {
  }

  lemma {:induction false} LemmaApplyAllAppend(s: State, a: seq<Msg>, b: seq<Msg>)
    ensures ApplyAll(s, a + b) == ApplyAll(ApplyAll(s, a), b)
    decreases |a|
  {
    if |a| == 0 {
      assert a + b == b;
    } else {
      assert (a + b)[1..] == a[1..] + b;
      LemmaApplyAllAppend(Apply(s, a[0]), a[1..], b);
    }
  }

  lemma {:induction false} LemmaApplyAllIgnoresQueue(s: State, ms: seq<Msg>, q: seq<Msg>)
    ensures ApplyAll(s.(queue := q), ms) == ApplyAll(s, ms).(queue := q)
    decreases |ms|
  {
    if |ms| != 0 {
      LemmaApplyIgnoresQueue(s, ms[0], q);
      LemmaApplyAllIgnoresQueue(Apply(s, ms[0]), ms[1..], q);
    }
  }

  /**
   * FIFO: with no FINALIZE queued, the worker applies every queued message
   * in enqueue order and ends waiting on an empty queue, still running.
   */
  lemma {:induction false} LemmaDrainInOrder(s: State)
    requires s.running
    requires Finalize !in s.queue
    ensures Drain(s) == ApplyAll(s.(queue := []), s.queue)
    ensures Drain(s).running && Drain(s).queue == []
    decreases |s.queue|
  {
    if |s.queue| != 0 {
      var q := s.queue;
      assert q[0] in q;
      assert Finalize !in q[1..] by {
        forall j | 0 <= j < |q| - 1 ensures q[1..][j] != Finalize {
          assert q[1..][j] == q[j + 1] && q[j + 1] in q;
        }
      }
      LemmaDrainInOrder(Step(s));
      LemmaApplyIgnoresQueue(s.(queue := []), q[0], q[1..]);
      LemmaApplyAllIgnoresQueue(Apply(s.(queue := []), q[0]), q[1..], []);
      assert Step(s).(queue := []) == Apply(s.(queue := []), q[0]);
    }
  }

  /**
   * The cut-off at FINALIZE: the messages up to and including the first
   * FINALIZE are applied in order, the worker stops, and every message
   * queued behind it stays in the queue, never applied.
   */
  lemma {:induction false} LemmaDrainStopsAtFinalize(s: State, k: nat)
    requires s.running
    requires k < |s.queue| && s.queue[k] == Finalize
    requires Finalize !in s.queue[..k]
    ensures Drain(s) == ApplyAll(s.(queue := s.queue[k + 1..]), s.queue[..k + 1])
    ensures !Drain(s).running && Drain(s).queue == s.queue[k + 1..]
    decreases k
  {
    var q := s.queue;
    LemmaApplyIgnoresQueue(s.(queue := q[k + 1..]), q[0], q[1..]);
    if k == 0 {
      assert q[..1] == [Finalize];
      assert Drain(Step(s)) == Step(s);
    } else {
      assert q[0] in q[..k];
      var front := q[1..][..k - 1];
      assert Finalize !in front by {
        forall j | 0 <= j < |front| ensures front[j] != Finalize {
          assert front[j] == q[..k][j + 1];
        }
      }
      assert q[1..][k - 1 + 1..] == q[k + 1..];
      assert q[..k + 1][1..] == q[1..][..k - 1 + 1];
      LemmaDrainStopsAtFinalize(Step(s), k - 1);
      LemmaApplyIgnoresQueue(s.(queue := []), q[0], q[k + 1..]);
      assert Step(s).(queue := q[k + 1..]) == Apply(s.(queue := q[k + 1..]), q[0]);
    }
  }

  /**
   * A push and a worker step commute: the producer only touches the tail and
   * the worker only the head, so their order does not change the outcome.
   */
  lemma LemmaPushStepCommute(s: State, m: Msg)
    requires Enabled(s)
    ensures Enabled(Push(s, m))
    ensures Step(Push(s, m)) == Push(Step(s), m)
  {
    assert (s.queue + [m])[1..] == s.queue[1..] + [m];
  }

  /**
   * Closing a runner whose queue holds no FINALIZE applies every pending
   * message in order before the worker exits, and leaves nothing queued.
   */
  lemma LemmaFinalizeDrainsPending(s: State)
    requires s.running
    requires Finalize !in s.queue
    ensures ScrFinalize(Some(s)).runner ==
      Some(ApplyAll(s.(queue := []), s.queue).(running := false))
  {
    var p := Push(s, Finalize);
    var k := |s.queue|;
    assert p.queue[..k] == s.queue && p.queue[k + 1..] == [];
    LemmaDrainStopsAtFinalize(p, k);
    assert p.queue[..k + 1] == s.queue + [Finalize];
    LemmaApplyAllAppend(p.(queue := []), s.queue, [Finalize]);
    LemmaApplyAllIgnoresQueue(s, s.queue, []);
  }

  /**
   * scrAddWord answers 0 even for a word the trie refuses, and once the
   * worker has caught up the trie is what it would have been without it.
   */
  lemma LemmaInvalidAddIsSilent(s: State, w: CStr)
    requires s.running
    requires Finalize !in s.queue
    requires !ValidWord(w)
    ensures ScrAddWord(Some(s), Some(w)).status == 0
    ensures Drain(ScrAddWord(Some(s), Some(w)).runner.value).trie == Drain(s).trie
  {
    LemmaAddWordDrains(s, w);
  }

  /** The spell-check reports of one SPELL_CHECK message, split over a delimiter. */
  lemma LemmaMisspelledSplit(t: Node, a: seq<Byte>, d: Byte, b: seq<Byte>)
    requires IsDelimiter(d)
    ensures Misspelled(t, a + [d] + b) == Misspelled(t, a) + Misspelled(t, b)
  {
    LemmaTokensSplit(a, d, b);
    LemmaUnknownAppend(t, Tokens(a), Tokens(b));
  }

  /** Filtering distributes over concatenation: order is kept and duplicates are not merged. */
  lemma {:induction false} LemmaUnknownAppend(t: Node, a: seq<seq<Byte>>, b: seq<seq<Byte>>)
    ensures Unknown(t, a + b) == Unknown(t, a) + Unknown(t, b)
    decreases |a|
  {
    if |a| == 0 {
      assert a + b == b;
    } else {
      assert (a + b)[1..] == a[1..] + b;
      LemmaUnknownAppend(t, a[1..], b);
      var head := if Has(t, a[0]) then [] else [a[0]];
      assert Unknown(t, a + b) == head + Unknown(t, a[1..] + b);
      assert Unknown(t, a) == head + Unknown(t, a[1..]);
    }
  }

  /**
   * What a queued word does: once the worker has caught up, the runner is
   * the one the earlier messages leave, with the word added to its trie.
   */
  lemma LemmaAddWordDrains(s: State, w: CStr)
    requires s.running
    requires Finalize !in s.queue
    ensures var d := Drain(s);
      Drain(ScrAddWord(Some(s), Some(w)).runner.value) == d.(trie := AddWord(d.trie, w).trie)
  {
    var p := Push(s, Add(w));
    assert Finalize !in p.queue;
    LemmaDrainInOrder(s);
    LemmaDrainInOrder(p);
    LemmaApplyAllAppend(p.(queue := []), s.queue, [Add(w)]);
    assert p.(queue := []) == s.(queue := []);
  }

  /**
   * What a queued spell check reports: once the worker has caught up, the
   * callback has received, after every earlier report, the misspelled
   * tokens of the text against the trie the earlier messages built.
   */
  lemma LemmaSpellCheckDrains(s: State, text: CStr, cb: Callback)
    requires s.running
    requires Finalize !in s.queue
    ensures var d := Drain(s);
      Drain(ScrRunSpellCheck(Some(s), Some(text), Some(cb)).runner.value)
        == d.(reported := d.reported + Tag(cb, Misspelled(d.trie, text)))
  {
    var p := Push(s, SpellCheck(text, cb));
    assert Finalize !in p.queue;
    LemmaDrainInOrder(s);
    LemmaDrainInOrder(p);
    LemmaApplyAllAppend(p.(queue := []), s.queue, [SpellCheck(text, cb)]);
    assert p.(queue := []) == s.(queue := []);
  }

  /** A valid word is never reported by the trie that has just accepted it. */
  lemma LemmaAddedWordNotMisspelled(t: Node, w: CStr)
    requires ValidWord(w)
    ensures Misspelled(AddWord(t, w).trie, w) == []
  {
    var t2 := AddWord(t, w).trie;
    LemmaAddedWordPresent(t, w, |w|);
    assert w[..|w|] == w;
    if |w| != 0 {
      LemmaValidNotSplit(w);
      LemmaSingleToken(w);
      assert Unknown(t2, [w]) == [] + Unknown(t2, []);
    }
  }

  /**
   * Round trip: on a running runner with no FINALIZE pending, scrAddWord of
   * a valid word followed by scrRunSpellCheck of that word as the text
   * produces no callback, and the worker ends running with an empty queue.
   */
  lemma LemmaAddThenCheckIsQuiet(s: State, w: CStr, cb: Callback)
    requires s.running
    requires Finalize !in s.queue
    requires ValidWord(w)
    ensures var r1 := ScrAddWord(Some(s), Some(w)).runner.value;
      var r := Drain(ScrRunSpellCheck(Some(r1), Some(w), Some(cb)).runner.value);
      r.reported == Drain(s).reported && r.running && r.queue == []
  {
    var r1 := ScrAddWord(Some(s), Some(w)).runner.value;
    assert Finalize !in r1.queue;
    LemmaDrainInOrder(s);
    LemmaAddWordDrains(s, w);
    LemmaSpellCheckDrains(r1, w, cb);
    LemmaAddedWordNotMisspelled(Drain(s).trie, w);
  }

  /**
   * A token holding a byte that no word may contain (such as '!') is
   * reported whatever words the trie holds, as long as the trie keeps its
   * invariant, which every runner reached from Start does.
   */
  lemma LemmaForeignTokenReported(t: Node, tok: seq<Byte>)
    requires Invariant(t)
    requires |tok| > 0 && NoDelimiter(tok)
    requires !ValidWord(tok)
    ensures Misspelled(t, tok) == [tok]
  {
    LemmaSingleToken(tok);
    LemmaForeignByteAbsent(t, tok);
    assert Unknown(t, [tok]) == [tok] + Unknown(t, []);
  }

  /**
   * The code reports the raw strtok token: on an empty dictionary the text
   * "Foo!bar" yields the single callback word "Foo!bar", upper case and
   * '!' included, since '!' is not in the delimiter string.
   */
  lemma LemmaRawTokenReported()
    ensures var text: CStr := ['F' as int, 'o' as int, 'o' as int, '!' as int, 'b' as int, 'a' as int, 'r' as int];
      Misspelled(Init(), text) == [text]
      && IsUpper(text[0]) && !ValidByte(text[3])
  {
    var text: CStr := ['F' as int, 'o' as int, 'o' as int, '!' as int, 'b' as int, 'a' as int, 'r' as int];
    LemmaSingleToken(text);
    assert !Occupied(Init(), Normalize(text[0]));
    assert Unknown(Init(), [text]) == [text] + Unknown(Init(), []);
  }
}

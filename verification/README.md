# Spell checker: trie word store and task runner

A Dafny model of the core of a small C spell checker. Callers load words into a
dictionary, submit free text, and get a callback for every token the
dictionary does not hold, in text order and with duplicates kept.

The core has two parts.

* **The trie** (`spell-checker_data.c`). Each node has 256 child slots indexed
  by the normalised byte. A slot is occupied iff its `chr` is non-zero.
  `scdAddWord` validates the word, follows the occupied slots it matches, and
  creates the missing tail. `scdHasWord` walks the normalised bytes and answers
  0 at the first empty slot. There is no end-of-word flag, so a word is present
  iff its normalised bytes spell a path from the root. Hence every prefix of an
  added word counts as a word, and so does the empty word.
* **The runner** (`spell-checker_runner.c`). It is a FIFO message queue
  drained by one worker thread. ADD inserts a word and ignores the result.
  SPELL_CHECK tokenises the text with `strtok` and reports unknown tokens.
  FINALIZE clears `isRunning`, which ends the worker loop.

Files:

* `bytes.dfy` (module `Bytes`): bytes, C strings (byte sequences without NUL),
  `scdNormalizeChar` and `scdIsValid`.
* `trie.dfy` (module `Trie`): the node datatype, `scdInit`, `scdAddWord` and
  `scdHasWord`, the path abstraction `Reachable`, and the structural invariant.
* `tokenizer.dfy` (module `Tokenizer`): the `strtok` loop with the fixed
  delimiter string, and its algebraic characterisation.
* `runner.dfy` (module `SpellRunner`): the runner as a state machine. The state
  holds the queue, `isRunning`, the trie and the callback history. The
  transitions are `Push` (enqueue) and `Step` (one worker turn). The file also
  has the API guards of `scrAddWord`, `scrRunSpellCheck` and `scrFinalize`.

Modelling choices:

* A trie node is `Node(chr, kids: map<Byte, Node>)`. A key absent from `kids`
  stands for a calloc'd, unoccupied slot. `Slot` returns `Node(0, map[])` for
  it, so the occupancy test is the source's `chr != 0`.
* The worker is a sequential `Step`. It is enabled when `isRunning` is set and
  the queue is non-empty; on an empty queue the thread would wait.
* `scrFinalize` pushes FINALIZE and then joins the thread. It is modelled as
  that push followed by `Drain`, which runs the worker until it can no longer
  step.
* A callback function pointer is modelled as a number. Each call is
  recorded as `Report(callback, token)`.
* NULL pointers are `Option.None`. Return codes are the source's `int` values
  `0` and `-1`.
* The C `char` is modelled by its byte value. Whether `char` is signed does not
  change `scdNormalizeChar` or `scdIsValid`: a byte at or above 0x80 fails
  every ASCII range test either way.

Where the header comments and the code disagree, the model follows the code:

* The header (`spell-checker.h:18-24`) says callback words are lower-cased and
  contain only `[0-9a-z]` and 0x80-0xFF. The code passes the raw `strtok`
  token (`spell-checker_runner.c:83-84`). Upper-case letters reach the
  callback unchanged.
* The header (`spell-checker.h:97-100`) says every byte other than
  `[0-9a-zA-Z]` and 0x80-0xFF separates words. The code splits only on the 16
  bytes of `" ,.-/';:()[]{}\n\""`. A token such as `Foo!bar` therefore stays
  one token, and it is always reported, because `!` is never stored in the
  trie. The trie invariant holds from `scrInit` on and every worker turn keeps
  it (`SpellRunner.LemmaDrainKeepsInvariant`), and under it such a token is
  reported whatever words were added (`SpellRunner.LemmaForeignTokenReported`,
  `SpellRunner.LemmaRawTokenReported`).
* The header (`spell-checker.h:71-77`) says an invalid word is rejected with
  -1. `scrAddWord` returns 0 for every non-NULL word while running, and the
  worker then drops the invalid word silently
  (`SpellRunner.LemmaInvalidAddIsSilent`).
* The header speaks of the dictionary "containing" a word. The code accepts
  every prefix of an added word, because no node records where a word ends
  (`Trie.LemmaDictionaryContents`).

## Model

| member | source | states |
|---|---|---|
| Bytes.Normalize | spell-checker_data.c:134-139 | the result is never upper case; A-Z moves by the distance from 'A' to 'a' into a-z; every other byte is a fixed point |
| Bytes.NormalizeFixedPoints | spell-checker_data.c:134-139 | a byte is a fixed point iff it is not A-Z, and normalising twice equals normalising once |
| Bytes.NormalizeKeepsClass | spell-checker_data.c:134-155 | normalisation maps 0 to 0 and nothing else to 0; it preserves validity; a byte is valid iff its normalisation is a-z, 0-9 or at least 0x80 |
| Bytes.AcceptsByteIsValidByte | spell-checker_data.c:144-155 | the per-byte test as written, which checks the 0x80-0xFF range on the normalised byte, accepts exactly a-z, A-Z, 0-9 and 0x80-0xFF |
| Bytes.IsValid | spell-checker_data.c:144-155 | the left-to-right scan accepts iff every byte is in a-z, A-Z, 0-9 or 0x80-0xFF, so the empty word is accepted; an accepted word has no NUL |
| Bytes.NormWordIdempotent | spell-checker_data.c:134-139 | normalising a whole word is idempotent |
| Bytes.NormWordIsCStr | spell-checker_data.c:134-139 | the normalisation of a C string contains no NUL, so every byte it stores marks an occupied slot |
| Trie.Init | spell-checker_data.c:101-122 | the new root has chr 0 and no occupied slot, and its only path is the empty one |
| Trie.AddWord | spell-checker_data.c:157-198 | an invalid word gives -1 and the same trie; a valid word gives 0, and the new paths are exactly the old paths plus the prefixes of the normalised word |
| Trie.HasWord | spell-checker_data.c:200-221 | the loop that answers 0 at the first empty slot returns true iff the normalised word is a path of the trie |
| Trie.LemmaChainPaths | spell-checker_data.c:184-195 | the nodes created by the second loop of scdAddWord have exactly the prefixes of the remaining normalised bytes as paths |
| Trie.LemmaInsertReachable | spell-checker_data.c:173-195 | after the walk-then-create insertion, p is a path iff it was a path before or is a prefix of the normalised word |
| Trie.LemmaInsertExisting | spell-checker_data.c:177-182 | when the whole normalised word is already a path, the first loop consumes it and the insertion leaves the trie unchanged |
| Trie.LemmaAddedWordPresent | spell-checker_data.c:157-220 | after scdAddWord returns 0 for w, scdHasWord holds for w and for every prefix of w |
| Trie.LemmaAddWordKeeps | spell-checker_data.c:177-195 | every word present before an add, valid or not, is still present after it |
| Trie.LemmaAddWordIdempotent | spell-checker_data.c:157-198 | adding a word twice gives the same return code and the same trie as adding it once |
| Trie.LemmaHasIgnoresCase | spell-checker_data.c:208-220 | words with equal normalisation get the same membership answer, and a word's answer equals its normalisation's answer |
| Trie.LemmaInitInvariant | spell-checker_data.c:87-122 | the empty root satisfies the structural invariant |
| Trie.LemmaChainWellFormed | spell-checker_data.c:185-195 | nodes created for valid bytes sit at the index equal to their chr, which is a normalised valid byte |
| Trie.LemmaInsertWellFormed | spell-checker_data.c:173-195 | inserting a valid word keeps every occupied slot at index c with chr c, where c is a non-zero, non-upper-case, valid byte |
| Trie.LemmaAddWordInvariant | spell-checker_data.c:157-198 | scdAddWord preserves the invariant: the root's chr is 0 and the subtree is well formed |
| Trie.LemmaReachableValid | spell-checker_data.c:208-220 | in a well-formed trie every path consists of valid, non-zero, non-upper-case bytes |
| Trie.LemmaForeignByteAbsent | spell-checker_data.c:211-214 | a word with any byte outside the valid set (for example punctuation) is never present in a well-formed trie |
| Trie.LemmaAddAllPaths | spell-checker_data.c:173-195 | after a series of adds, p is a path iff it was one before or is a prefix of some accepted word's normalisation; refused words leave no trace |
| Trie.LemmaDictionaryContents | spell-checker_data.c:200-220 | starting from an empty trie, a word is present iff it is empty or its normalisation is a prefix of an accepted word's normalisation |
| Tokenizer.Span | spell-checker_runner.c:80-86 | the token starting at the front ends at the first delimiter or at the end of the text, and holds no delimiter |
| Tokenizer.LemmaTokensShape | spell-checker_runner.c:80-87 | every token strtok yields is non-empty and contains no byte of the delimiter string |
| Tokenizer.LemmaSpanExtend | spell-checker_runner.c:80-86 | where a token ends depends only on the bytes up to the first delimiter, not on what follows it |
| Tokenizer.LemmaValidNotSplit | spell-checker_runner.c:80-86 | no delimiter is a valid word byte, so a valid word never contains a delimiter |
| Tokenizer.LemmaSingleToken | spell-checker_runner.c:80-87 | a non-empty text without delimiters is exactly one token, itself |
| Tokenizer.LemmaTokensSplit | spell-checker_runner.c:80-87 | a delimiter separates the tokens on its left from those on its right, in order; repeated or edge delimiters yield no empty token |
| Tokenizer.LemmaTokensContent | spell-checker_runner.c:80-87 | the tokens, concatenated in order, are the text with every delimiter removed |
| SpellRunner.Start | spell-checker_runner.c:160-188 | a new runner is running, with an empty queue, no reports, and a trie that satisfies the invariant and holds only the empty word |
| SpellRunner.LemmaUnknownSound | spell-checker_runner.c:81-87 | every reported token is one of the tokens and is absent from the trie; there are no more reports than tokens; nothing is reported iff every token is present |
| SpellRunner.TokenEnd | spell-checker_runner.c:80-86 | the scan for the end of a token stops after at least one byte, at the first delimiter or the end |
| SpellRunner.CheckNextToken | spell-checker_runner.c:80-86 | one strtok call and lookup: after skipping delimiters it reports at most the one next token, and the rest of the reports come from the text after that token |
| SpellRunner.DoSpellCheck | spell-checker_runner.c:74-92 | the strtok loop reports exactly the unknown tokens of the text, raw, left to right, with duplicates |
| SpellRunner.Step | spell-checker_runner.c:98-131 | a worker turn removes exactly the head message; only FINALIZE clears isRunning, only ADD changes the trie (by scdAddWord), and only SPELL_CHECK appends reports (its unknown tokens) |
| SpellRunner.Push | spell-checker_runner.c:136-158 | the message is appended at the tail, and the queued messages keep their order and contents; an empty queue becomes a one-element queue; nothing else changes |
| SpellRunner.Drain | spell-checker_runner.c:94-134 | the worker runs until it has stopped or waits on an empty queue |
| SpellRunner.ScrAddWord | spell-checker_runner.c:215-242 | NULL arguments give -1 and no change; a stopped runner gives 0 and queues nothing; a running one queues ADD at the tail, gives 0 for any word, and leaves isRunning, the trie and the reports unchanged |
| SpellRunner.ScrRunSpellCheck | spell-checker_runner.c:244-282 | a NULL runner, text or callback gives -1 and no change; a stopped runner gives 0 and queues nothing; a running one queues SPELL_CHECK at the tail, gives 0, and leaves isRunning, the trie and the reports unchanged |
| SpellRunner.ScrFinalize | spell-checker_runner.c:190-213 | a NULL runner gives -1; a stopped runner gives 0 untouched; otherwise 0 is returned once the worker has stopped |
| SpellRunner.LemmaDrainReachesFinalize | spell-checker_runner.c:114-116 | draining a running runner whose queue holds a FINALIZE always ends with isRunning cleared |
| SpellRunner.LemmaDrainInOrder | spell-checker_runner.c:98-131 | with no FINALIZE queued, the worker applies every queued message in enqueue order and ends running on an empty queue |
| SpellRunner.LemmaDrainStopsAtFinalize | spell-checker_runner.c:98-131 | messages up to the first FINALIZE are applied in order, the worker stops, and the messages behind it stay queued and are never applied |
| SpellRunner.LemmaPushStepCommute | spell-checker_runner.c:136-158 | enqueueing at the tail and a worker turn at the head commute |
| SpellRunner.LemmaFinalizeDrainsPending | spell-checker_runner.c:190-213 | closing a runner applies every pending message, in order, before the worker exits, and leaves the queue empty |
| SpellRunner.LemmaInvalidAddIsSilent | spell-checker_runner.c:215-242 | scrAddWord returns 0 for an invalid word, and once drained the trie is as if the word had never been queued |
| SpellRunner.LemmaUnknownAppend | spell-checker_runner.c:81-87 | reporting distributes over concatenation of token lists, so order is kept and duplicates are not merged |
| SpellRunner.LemmaMisspelledSplit | spell-checker_runner.c:80-87 | the reports for a text split at a delimiter are the reports for the left part followed by those for the right part |
| SpellRunner.LemmaAddWordDrains | spell-checker_runner.c:106-109 | a word queued by scrAddWord is added, once the worker has caught up, to the trie the earlier messages built, and nothing else changes |
| SpellRunner.LemmaSpellCheckDrains | spell-checker_runner.c:110-113 | a text queued by scrRunSpellCheck produces, once the worker has caught up, the misspelled tokens of the text against the trie the earlier messages built, tagged with its callback and after every earlier report |
| SpellRunner.LemmaAddedWordNotMisspelled | spell-checker_runner.c:80-86 | a valid word checked as a text against the trie that has just accepted it produces no report |
| SpellRunner.LemmaAddThenCheckIsQuiet | spell-checker_runner.c:215-282 | with no FINALIZE pending, scrAddWord of a valid word then scrRunSpellCheck of that word adds no callback beyond those the earlier messages produce, and the worker stays running with an empty queue |
| SpellRunner.LemmaStepKeepsInvariant | spell-checker_runner.c:104-128 | a worker turn keeps the trie invariant: chr 0 at the root and every occupied slot at the index of its normalised valid byte |
| SpellRunner.LemmaDrainKeepsInvariant | spell-checker_runner.c:98-131 | any number of worker turns keep the trie invariant |
| SpellRunner.LemmaForeignTokenReported | spell-checker_runner.c:80-86 | under the trie invariant, a token holding a byte no word may contain is reported whatever words were added |
| SpellRunner.LemmaRawTokenReported | spell-checker_runner.c:80-86 | on an empty dictionary, the text "Foo!bar" produces one callback with the raw token "Foo!bar": not lower-cased, and not split at '!' |

## Left out

- Threads: the mutex, the condition variable, thread creation and join (`spell-checker_runner.c:100-103,130,156-157,180-182,206`). Pushes and worker turns are atomic transitions. `LemmaPushStepCommute` shows that their interleaving does not matter. The unlocked reads of `isRunning` in the API functions, and the race between `pthread_create` and the queue's head/tail initialisation, are not modelled.
- Allocation failure: `calloc`/`malloc` failures in `scdInitNode`, `scdCreateNode`, `createScrMsg`, `scrAddWord` and `scrRunSpellCheck`, and the partial path they leave behind, are not modelled. Allocation is total.
- Memory release: `scdDeleteNode`, `scdFinalize` and every `free`. After `ScrFinalize` the real runner is freed. The model still returns its final state so that its contents can be stated. A second `scrFinalize` on the freed handle would read freed memory; the model treats a stopped runner as still readable.
- The NULL-argument branches of `scdAddWord` and `scdHasWord` (`spell-checker_data.c:159-163,202-206`). The runner always passes its live root and a non-NULL word, and the root always has its child array because allocation is total.
- The `default:` branch for an unknown message type (`spell-checker_runner.c:117-120`). The message datatype has exactly three constructors.
- The "Something's wrong" branch of `csrPushMsg` (`spell-checker_runner.c:151-154`). It cannot happen when the queue is a sequence.
- All `printf` logging.
- The facade `spell-checker.c` and the test driver `spell-checker_test.c`. They only forward to the runner, or do file I/O and `sleep`.
- The callback's own behaviour. Each invocation is recorded as a `Report` and nothing else.
- `strtok`'s in-place overwriting of delimiters with NUL, and its hidden static state. Only the sequence of tokens it yields is modelled.
- Trie.Insert: its own contract states only that the root's chr is kept. Its effect on paths is stated by `Trie.LemmaInsertReachable`.

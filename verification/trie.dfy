/**
 * The trie that holds the dictionary (spell-checker_data.c).
 *
 * Every node of the C trie owns an array of 256 child slots indexed by the
 * normalised byte. A slot is occupied iff its `chr` is non-zero; an
 * unoccupied slot is calloc'd memory, that is `chr == 0` and no child array.
 * Here the slot array is a map: a key that is absent stands for an
 * unoccupied slot, and `Slot` returns that zeroed node for it, so the tests
 * below read `chr != 0` exactly as the C code does.
 *
 * There is no end-of-word flag: a word is present iff the path spelled by
 * its normalised bytes exists. The abstraction of a trie is therefore its set
 * of paths, given by `Reachable`.
 */
module Trie {
  import opened Bytes

  datatype Node = Node(chr: Byte, kids: map<Byte, Node>)

  /** The contents of a slot that was never initialised. */
  const EmptySlot: Node := Node(0, map[])

  function Slot(n: Node, c: Byte): Node
  {
    if c in n.kids then n.kids[c] else EmptySlot
  }

  predicate Occupied(n: Node, c: Byte)
  {
    Slot(n, c).chr != 0
  }

  /** `p` spells a path of occupied slots starting at `n`. */
  predicate Reachable(n: Node, p: seq<Byte>)
    decreases |p|
  {
    |p| == 0 || (Occupied(n, p[0]) && Reachable(Slot(n, p[0]), p[1..]))
  }

  /** What scdHasWord decides: the normalised word spells a path from the root. */
  predicate Has(t: Node, w: seq<Byte>)
  {
    Reachable(t, NormWord(w))
  }

  /** scdInit (through scdCreateNode and scdInitNode(0, ...)): a root with chr 0 and every slot empty. */
  function Init(): (r: Node)
    ensures r.chr == 0
    ensures forall c: Byte :: !Occupied(r, c)
    ensures forall p :: Reachable(r, p) <==> p == []
  {
    Node(0, map[])
  }

  /**
   * The second loop of scdAddWord: scdInitNode(c, slot) gives a fresh node
   * with chr `c`, and each remaining byte is placed below the previous one.
   */
  function Chain(c: Byte, rest: seq<Byte>): (r: Node)
    ensures r.chr == c
    decreases |rest|
  {
    if |rest| == 0 then Node(c, map[])
    else
      var d := Normalize(rest[0]);
      Node(c, map[d := Chain(d, rest[1..])])
  }

  /**
   * The two loops of scdAddWord, after validation: follow occupied slots as
   * long as they match, then build the missing tail with `Chain`.
   */
  function Insert(n: Node, w: seq<Byte>): (r: Node)
    ensures r.chr == n.chr
    decreases |w|
  {
    if |w| == 0 then n
    else
      var c := Normalize(w[0]);
      if Occupied(n, c) then n.(kids := n.kids[c := Insert(Slot(n, c), w[1..])])
      else n.(kids := n.kids[c := Chain(c, w[1..])])
  }

  /** The outcome of scdAddWord: its return code and the trie afterwards. */
  datatype AddResult = AddResult(status: int, trie: Node)

  /**
   * scdAddWord: an invalid word is refused with -1 and no change; a valid
   * one is accepted with 0 and its normalised prefixes become paths, and
   * nothing else does.
   */
  function AddWord(t: Node, w: CStr): (r: AddResult)
    ensures !ValidWord(w) ==> r.status == -1 && r.trie == t
    ensures ValidWord(w) ==> r.status == 0
    ensures ValidWord(w) ==> forall p :: Reachable(r.trie, p) <==> Reachable(t, p) || p <= NormWord(w)
  {
    if !IsValid(w) then AddResult(-1, t)
    else
      LemmaInsertPaths(t, w);
      AddResult(0, Insert(t, w))
  }

  /**
   * scdHasWord: walk the normalised bytes and answer 0 at the first empty
   * slot; answer 1 once the whole word has been consumed.
   */
  method HasWord(t: Node, w: CStr) returns (found: bool)
    ensures found == Has(t, w)
  {
    var nw := NormWord(w);
    var node := t;
    var i := 0;
    while i < |w|
      invariant 0 <= i <= |w|
      invariant Reachable(t, nw) <==> Reachable(node, nw[i..])
    {
      var c := Normalize(w[i]);
      assert nw[i..][0] == c && nw[i..][1..] == nw[i + 1..];
      if !Occupied(node, c) {
        return false;
      }
      node := Slot(node, c);
      i := i + 1;
    }
    assert nw[i..] == [];
    return true;
  }

  /** The paths of a freshly built chain are exactly the prefixes of its normalised bytes. */
  lemma {:induction false} LemmaChainPaths(c: Byte, rest: seq<Byte>, p: seq<Byte>)
    requires 0 !in rest
    ensures Reachable(Chain(c, rest), p) <==> p <= NormWord(rest)
    decreases |rest|
  {
    if |p| != 0 && |rest| != 0 {
      var d := Normalize(rest[0]);
      assert rest[0] in rest;
      NormalizeKeepsClass(rest[0]);
      assert NormWord(rest)[1..] == NormWord(rest[1..]);
      assert 0 !in rest[1..] by {
        forall i | 0 <= i < |rest| - 1 ensures rest[1..][i] != 0 {
          assert rest[1..][i] == rest[i + 1] && rest[i + 1] in rest;
        }
      }
      LemmaChainPaths(d, rest[1..], p[1..]);
    }
  }

  /** Insertion adds exactly the prefixes of the normalised word to the paths. */
  lemma {:induction false} LemmaInsertReachable(n: Node, w: seq<Byte>, p: seq<Byte>)
    requires 0 !in w
    ensures Reachable(Insert(n, w), p) <==> Reachable(n, p) || p <= NormWord(w)
    decreases |w|
  {
    if |p| != 0 && |w| != 0 {
      var c := Normalize(w[0]);
      assert w[0] in w;
      NormalizeKeepsClass(w[0]);
      assert NormWord(w)[1..] == NormWord(w[1..]);
      assert 0 !in w[1..] by {
        forall i | 0 <= i < |w| - 1 ensures w[1..][i] != 0 {
          assert w[1..][i] == w[i + 1] && w[i + 1] in w;
        }
      }
      if p[0] == c {
        if Occupied(n, c) {
          LemmaInsertReachable(Slot(n, c), w[1..], p[1..]);
        } else {
          LemmaChainPaths(c, w[1..], p[1..]);
        }
      }
    }
  }

  lemma LemmaInsertPaths(t: Node, w: CStr)
    ensures forall p :: Reachable(Insert(t, w), p) <==> Reachable(t, p) || p <= NormWord(w)
  {
    forall p ensures Reachable(Insert(t, w), p) <==> Reachable(t, p) || p <= NormWord(w) {
      LemmaInsertReachable(t, w, p);
    }
  }

  /** Inserting a word whose path already exists rebuilds the same trie. */
  lemma {:induction false} LemmaInsertExisting(n: Node, w: seq<Byte>)
    requires Reachable(n, NormWord(w))
    ensures Insert(n, w) == n
    decreases |w|
  {
    if |w| != 0 {
      var c := Normalize(w[0]);
      assert NormWord(w)[1..] == NormWord(w[1..]);
      LemmaInsertExisting(Slot(n, c), w[1..]);
      assert n.kids[c := Slot(n, c)] == n.kids;
    }
  }

  /** After scdAddWord returns 0 the word and every prefix of it are present. */
  lemma LemmaAddedWordPresent(t: Node, w: CStr, k: nat)
    requires ValidWord(w)
    requires k <= |w|
    ensures AddWord(t, w).status == 0
    ensures Has(AddWord(t, w).trie, w[..k])
  {
    NormWordPrefix(w, k);
  }

  /** Adding a word keeps every word that was present before. */
  lemma LemmaAddWordKeeps(t: Node, w: CStr, v: seq<Byte>)
    requires Has(t, v)
    ensures Has(AddWord(t, w).trie, v)
  {
  }

  /** Adding the same word twice is adding it once, in result code and in trie. */
  lemma LemmaAddWordIdempotent(t: Node, w: CStr)
    ensures AddWord(AddWord(t, w).trie, w) == AddWord(t, w)
  {
    if ValidWord(w) {
      var t1 := AddWord(t, w).trie;
      assert Reachable(t1, NormWord(w));
      LemmaInsertExisting(t1, w);
    }
  }

  /** Membership is blind to case: words with equal normalisation get the same answer. */
  lemma LemmaHasIgnoresCase(t: Node, w1: seq<Byte>, w2: seq<Byte>)
    requires NormWord(w1) == NormWord(w2)
    ensures Has(t, w1) == Has(t, w2)
    ensures Has(t, w1) == Has(t, NormWord(w1))
  {
    NormWordIdempotent(w1);
  }

  /**
   * The structural invariant scdAddWord keeps: each occupied slot sits at
   * the index equal to its chr, which is a normalised valid byte (never 0,
   * never A-Z).
   */
  ghost predicate WellFormed(n: Node)
  {
    forall c :: c in n.kids ==>
      && n.kids[c].chr == c
      && c != 0
      && !IsUpper(c)
      && ValidByte(c)
      && WellFormed(n.kids[c])
  }

  /** The invariant of a whole trie: a root with chr 0 whose subtree is well formed. */
  ghost predicate Invariant(t: Node)
  {
    t.chr == 0 && WellFormed(t)
  }

  lemma LemmaInitInvariant()
    ensures Invariant(Init())
  {
  }

  lemma {:induction false} LemmaChainWellFormed(c: Byte, rest: seq<Byte>)
    requires ValidWord(rest)
    ensures WellFormed(Chain(c, rest))
    decreases |rest|
  {
    if |rest| != 0 {
      NormalizeKeepsClass(rest[0]);
      LemmaChainWellFormed(Normalize(rest[0]), rest[1..]);
    }
  }

  lemma {:induction false} LemmaInsertWellFormed(n: Node, w: seq<Byte>)
    requires WellFormed(n)
    requires ValidWord(w)
    ensures WellFormed(Insert(n, w))
    decreases |w|
  {
    if |w| != 0 {
      var c := Normalize(w[0]);
      NormalizeKeepsClass(w[0]);
      if Occupied(n, c) {
        LemmaInsertWellFormed(Slot(n, c), w[1..]);
      } else {
        LemmaChainWellFormed(c, w[1..]);
      }
    }
  }

  /** scdAddWord preserves the structural invariant, whether it accepts or refuses. */
  lemma LemmaAddWordInvariant(t: Node, w: CStr)
    requires Invariant(t)
    ensures Invariant(AddWord(t, w).trie)
  {
    if ValidWord(w) {
      LemmaInsertWellFormed(t, w);
    }
  }

  /** In a well-formed trie every path spells a normalised valid word. */
  lemma {:induction false} LemmaReachableValid(n: Node, p: seq<Byte>)
    requires WellFormed(n)
    requires Reachable(n, p)
    ensures ValidWord(p)
    ensures forall i :: 0 <= i < |p| ==> p[i] != 0 && !IsUpper(p[i])
    decreases |p|
  {
    if |p| != 0 {
      LemmaReachableValid(Slot(n, p[0]), p[1..]);
      forall i | 1 <= i < |p| ensures ValidByte(p[i]) && p[i] != 0 && !IsUpper(p[i]) {
        assert p[i] == p[1..][i - 1];
      }
    }
  }

  /**
   * scdHasWord answers 0 for any word holding a byte outside the valid set
   * (punctuation, white space, control bytes): no such byte is ever stored.
   */
  lemma LemmaForeignByteAbsent(t: Node, w: seq<Byte>)
    requires WellFormed(t)
    requires !ValidWord(w)
    ensures !Has(t, w)
  {
    var i :| 0 <= i < |w| && !ValidByte(w[i]);
    NormalizeKeepsClass(w[i]);
    if Has(t, w) {
      LemmaReachableValid(t, NormWord(w));
      assert false;
    }
  }

  /** Adding words one after another, as the worker does, from a given trie. */
  function AddAll(t: Node, ws: seq<CStr>): Node
    decreases |ws|
  {
    if |ws| == 0 then t else AddAll(AddWord(t, ws[0]).trie, ws[1..])
  }

  /**
   * The paths after a series of adds are the paths before, plus every
   * prefix of every accepted word; refused words leave no trace.
   */
  lemma {:induction false} LemmaAddAllPaths(t: Node, ws: seq<CStr>, p: seq<Byte>)
    ensures Reachable(AddAll(t, ws), p) <==>
      Reachable(t, p) || exists i :: 0 <= i < |ws| && ValidWord(ws[i]) && p <= NormWord(ws[i])
    decreases |ws|
  {
    if |ws| != 0 {
      LemmaAddAllPaths(AddWord(t, ws[0]).trie, ws[1..], p);
      if exists i :: 1 <= i < |ws| && ValidWord(ws[i]) && p <= NormWord(ws[i]) {
        var i :| 1 <= i < |ws| && ValidWord(ws[i]) && p <= NormWord(ws[i]);
        assert ws[1..][i - 1] == ws[i];
      }
      if exists i :: 0 <= i < |ws| - 1 && ValidWord(ws[1..][i]) && p <= NormWord(ws[1..][i]) {
        var i :| 0 <= i < |ws| - 1 && ValidWord(ws[1..][i]) && p <= NormWord(ws[1..][i]);
        assert ws[1..][i] == ws[i + 1];
      }
    }
  }

  /**
   * Starting from an empty trie, a word is present iff its normalisation is
   * empty or a prefix of some accepted word's normalisation: prefixes of
   * added words count as words, because there is no end-of-word flag.
   */
  lemma LemmaDictionaryContents(ws: seq<CStr>, v: seq<Byte>)
    ensures Has(AddAll(Init(), ws), v) <==>
      |v| == 0 || exists i :: 0 <= i < |ws| && ValidWord(ws[i]) && NormWord(v) <= NormWord(ws[i])
  {
    LemmaAddAllPaths(Init(), ws, NormWord(v));
  }
}

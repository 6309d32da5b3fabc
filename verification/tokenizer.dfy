/**
 * The tokenisation scrDoSpellCheck performs with strtok (spell-checker_runner.c).
 *
 * strtok with a fixed delimiter string yields, left to right, the maximal
 * runs of bytes outside that string; runs of several delimiters, and
 * delimiters at either end, produce no empty token. Only the sixteen bytes
 * of the delimiter string split words: any other byte, valid in a word or
 * not, stays inside the token.
 */
module Tokenizer {
  import opened Bytes

  /** The delimiter string " ,.-/';:()[]{}\n\"" passed to both strtok calls. */
  predicate IsDelimiter(b: Byte)
  {
    b in {' ' as int, ',' as int, '.' as int, '-' as int, '/' as int, '\'' as int,
          ';' as int, ':' as int, '(' as int, ')' as int, '[' as int, ']' as int,
          '{' as int, '}' as int, '\n' as int, '"' as int}
  }

  ghost predicate NoDelimiter(s: seq<Byte>)
  {
    forall i :: 0 <= i < |s| ==> !IsDelimiter(s[i])
  }

  /** The length of the leading run of non-delimiters: where strtok ends a token. */
  function Span(s: seq<Byte>): (k: nat)
    ensures k <= |s|
    ensures NoDelimiter(s[..k])
    ensures k == |s| || IsDelimiter(s[k])
  {
    if |s| == 0 || IsDelimiter(s[0]) then 0
    else
      var k := 1 + Span(s[1..]);
      assert forall i :: 1 <= i < k ==> s[..k][i] == s[1..][..k - 1][i - 1];
      k
  }

  /** The tokens successive strtok calls return for `s`, in order. */
  function Tokens(s: seq<Byte>): seq<seq<Byte>>
    decreases |s|
  {
    if |s| == 0 then []
    else if IsDelimiter(s[0]) then Tokens(s[1..])
    else
      var k := Span(s);
      [s[..k]] + Tokens(s[k..])
  }

  /** Every token is non-empty and holds no byte of the delimiter string. */
  lemma {:induction false} LemmaTokensShape(s: seq<Byte>)
    ensures forall j :: 0 <= j < |Tokens(s)| ==> |Tokens(s)[j]| > 0 && NoDelimiter(Tokens(s)[j])
    decreases |s|
  {
    if |s| != 0 {
      if IsDelimiter(s[0]) {
        LemmaTokensShape(s[1..]);
      } else {
        LemmaTokensShape(s[Span(s)..]);
      }
    }
  }

  /** The bytes of `s` with every delimiter removed. */
  function Strip(s: seq<Byte>): seq<Byte>
  {
    if |s| == 0 then []
    else if IsDelimiter(s[0]) then Strip(s[1..])
    else [s[0]] + Strip(s[1..])
  }

  function Concat(ts: seq<seq<Byte>>): seq<Byte>
  {
    if |ts| == 0 then [] else ts[0] + Concat(ts[1..])
  }

  /** A non-empty string without delimiters is a single token. */
  lemma {:induction false} LemmaSingleToken(s: seq<Byte>)
    requires |s| > 0
    requires NoDelimiter(s)
    ensures Tokens(s) == [s]
  {
    assert s[..Span(s)] == s;
  }

  /** No delimiter is a valid word byte, so strtok never splits a valid word. */
  lemma LemmaValidNotSplit(w: seq<Byte>)
    requires ValidWord(w)
    ensures NoDelimiter(w)
  {
  }

  /** A token that stops at a delimiter stops there whatever follows the delimiter. */
  lemma {:induction false} LemmaSpanExtend(a: seq<Byte>, b: seq<Byte>)
    requires |b| > 0 && IsDelimiter(b[0])
    ensures Span(a + b) == Span(a)
    decreases |a|
  {
    if |a| != 0 && !IsDelimiter(a[0]) {
      assert (a + b)[1..] == a[1..] + b;
      LemmaSpanExtend(a[1..], b);
    }
  }

  /** What the loop does when the text starts with a token: take the token, continue after it. */
  lemma LemmaTokensCons(s: seq<Byte>, k: nat, tail: seq<Byte>)
    requires |s| > 0 && !IsDelimiter(s[0])
    requires k == Span(s) && tail == s[k..]
    ensures Tokens(s) == [s[..k]] + Tokens(tail)
  {
  }

  /**
   * A delimiter separates tokens: the tokens on its left come first, then
   * those on its right, and nothing is glued across it.
   */
  lemma {:induction false} LemmaTokensSplit(a: seq<Byte>, d: Byte, b: seq<Byte>)
    requires IsDelimiter(d)
    ensures Tokens(a + [d] + b) == Tokens(a) + Tokens(b)
    decreases |a|
  {
    var rest := [d] + b;
    assert a + [d] + b == a + rest;
    if |a| == 0 {
      assert (a + rest)[1..] == b;
    } else if IsDelimiter(a[0]) {
      assert (a + rest)[1..] == a[1..] + [d] + b;
      LemmaTokensSplit(a[1..], d, b);
    } else {
      var k := Span(a);
      LemmaTokensSplit(a[k..], d, b);
      assert a[k..] + [d] + b == a[k..] + rest;
      LemmaTokensSplitAfterToken(a, rest, Tokens(b), k);
    }
  }

  /** The step of LemmaTokensSplit for a text that starts with a token. */
  lemma {:induction false} LemmaTokensSplitAfterToken(a: seq<Byte>, rest: seq<Byte>, after: seq<seq<Byte>>, k: nat)
    requires |rest| > 0 && IsDelimiter(rest[0])
    requires |a| > 0 && !IsDelimiter(a[0])
    requires k == Span(a)
    requires Tokens(a[k..] + rest) == Tokens(a[k..]) + after
    ensures Tokens(a + rest) == Tokens(a) + after
  {
    LemmaFirstTokenBeforeDelimiter(a, rest, k);
    LemmaTokensCons(a, k, a[k..]);
  }

  /** A token that ends before a delimiter is the first token of the longer text too. */
  lemma {:induction false} LemmaFirstTokenBeforeDelimiter(a: seq<Byte>, rest: seq<Byte>, k: nat)
    requires |rest| > 0 && IsDelimiter(rest[0])
    requires |a| > 0 && !IsDelimiter(a[0])
    requires k == Span(a)
    ensures Tokens(a + rest) == [a[..k]] + Tokens(a[k..] + rest)
  {
    var s := a + rest;
    LemmaSpanExtend(a, rest);
    assert s[..k] == a[..k] && s[k..] == a[k..] + rest;
    LemmaTokensCons(s, k, a[k..] + rest);
  }

  lemma {:induction false} LemmaStripAppend(a: seq<Byte>, b: seq<Byte>)
    ensures Strip(a + b) == Strip(a) + Strip(b)
    decreases |a|
  {
    if |a| != 0 {
      assert (a + b)[1..] == a[1..] + b;
      LemmaStripAppend(a[1..], b);
    } else {
      assert a + b == b;
    }
  }

  lemma {:induction false} LemmaStripNoDelimiter(s: seq<Byte>)
    requires NoDelimiter(s)
    ensures Strip(s) == s
    decreases |s|
  {
    if |s| != 0 {
      LemmaStripNoDelimiter(s[1..]);
    }
  }

  /** Tokenising loses exactly the delimiters: the tokens, joined, are the text without them. */
  lemma {:induction false} LemmaTokensContent(s: seq<Byte>)
    ensures Concat(Tokens(s)) == Strip(s)
    decreases |s|
  {
    if |s| != 0 {
      if IsDelimiter(s[0]) {
        LemmaTokensContent(s[1..]);
      } else {
        var k := Span(s);
        var ts := Tokens(s);
        assert ts[0] == s[..k] && ts[1..] == Tokens(s[k..]);
        LemmaTokensContent(s[k..]);
        LemmaStripNoDelimiter(s[..k]);
        assert s == s[..k] + s[k..];
        LemmaStripAppend(s[..k], s[k..]);
      }
    }
  }
}

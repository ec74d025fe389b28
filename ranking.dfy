/**
 * The ordering of the results of `Solver.solve` in src/solver.py:
 * `sorted(found.items(), key=lambda x: len(x[0]), reverse=True)`. Longest
 * words come first, and since Python's sort is stable (also with
 * `reverse=True`), entries whose words have the same length stay in the order
 * the dictionary received them.
 */
module Ranking {
  import opened Search

  /** Word lengths never increase along `s`. */
  predicate LongestFirst(s: seq<Entry>) {
    forall i :: 0 < i < |s| ==> |s[i - 1].word| >= |s[i].word|
  }

  /** The entries of `s` whose word has `n` letters, in their order in `s`. */
  function OfLength(s: seq<Entry>, n: nat): seq<Entry> {
    if s == [] then []
    else (if |s[0].word| == n then [s[0]] else []) + OfLength(s[1..], n)
  }

  /** Puts `e` in front of the first entry of `s` whose word is not longer than its own. */
  function InsertByLength(e: Entry, s: seq<Entry>): (r: seq<Entry>)
    ensures multiset(r) == multiset(s) + multiset{e}
    ensures r != [] && (r[0] == e || (s != [] && r[0] == s[0]))
  {
    if s == [] || |s[0].word| <= |e.word| then [e] + s
    else
      assert s == [s[0]] + s[1..];
      [s[0]] + InsertByLength(e, s[1..])
  }

  /** Inserting into a list sorted longest first keeps it sorted. */
  lemma {:induction false} InsertKeepsOrder(e: Entry, s: seq<Entry>)
    requires LongestFirst(s)
    ensures LongestFirst(InsertByLength(e, s))
  {
    if s != [] && |s[0].word| > |e.word| {
      InsertKeepsOrder(e, s[1..]);
      var rest := InsertByLength(e, s[1..]);
      assert rest[0] == e || rest[0] == s[1];
    }
  }

  /** The sorted list of `solve`: a stable sort of `found` by decreasing word length. */
  function Ranked(found: seq<Entry>): (r: seq<Entry>)
    ensures multiset(r) == multiset(found)
    ensures LongestFirst(r)
  {
    if found == [] then []
    else
      assert found == [found[0]] + found[1..];
      var sorted := Ranked(found[1..]);
      InsertKeepsOrder(found[0], sorted);
      InsertByLength(found[0], sorted)
  }

  lemma {:induction false} OfLengthInsert(e: Entry, s: seq<Entry>, n: nat)
    ensures OfLength(InsertByLength(e, s), n) ==
              (if |e.word| == n then [e] else []) + OfLength(s, n)
  {
    if s == [] || |s[0].word| <= |e.word| {
      assert ([e] + s)[1..] == s;
    } else {
      OfLengthInsert(e, s[1..], n);
      assert ([s[0]] + InsertByLength(e, s[1..]))[1..] == InsertByLength(e, s[1..]);
    }
  }

  /**
   * The sort is stable: for every length, the entries of that length appear
   * in the result in the same order as in `found`.
   */
  lemma {:induction false} RankedIsStable(found: seq<Entry>, n: nat)
    ensures OfLength(Ranked(found), n) == OfLength(found, n)
  {
    if found != [] {
      RankedIsStable(found[1..], n);
      OfLengthInsert(found[0], Ranked(found[1..]), n);
    }
  }

  /** A list of unique words, less its first entry: still unique, and without that entry's word. */
  lemma UniqueTail(s: seq<Entry>)
    requires s != [] && UniqueWords(s)
    ensures UniqueWords(s[1..]) && !HasWord(s[1..], s[0].word)
  {
    var t := s[1..];
    forall i, j | 0 <= i < j < |t| ensures t[i].word != t[j].word {
      assert t[i] == s[i + 1] && t[j] == s[j + 1];
    }
    forall x | x in t ensures x.word != s[0].word {
      var k :| 0 <= k < |t| && t[k] == x;
      assert s[k + 1] == x;
    }
  }

  /** Putting in front an entry whose word is new keeps the words unique. */
  lemma UniqueCons(x: Entry, s: seq<Entry>)
    requires UniqueWords(s) && !HasWord(s, x.word)
    ensures UniqueWords([x] + s)
  {
    var r := [x] + s;
    forall i, j | 0 <= i < j < |r| ensures r[i].word != r[j].word {
      assert r[j] == s[j - 1] && r[j] in s;
      if i > 0 {
        assert r[i] == s[i - 1];
      }
    }
  }

  /** Inserting `e` brings in no word other than its own. */
  lemma InsertAddsOnlyItsWord(e: Entry, s: seq<Entry>, w: string)
    requires !HasWord(s, w) && e.word != w
    ensures !HasWord(InsertByLength(e, s), w)
  {
    forall x | x in InsertByLength(e, s) ensures x.word != w {
      assert x in multiset(InsertByLength(e, s));
    }
  }

  lemma {:induction false} InsertKeepsUnique(e: Entry, s: seq<Entry>)
    requires UniqueWords(s) && !HasWord(s, e.word)
    ensures UniqueWords(InsertByLength(e, s))
  {
    if s == [] || |s[0].word| <= |e.word| {
      UniqueCons(e, s);
    } else {
      UniqueTail(s);
      assert s[0] in s;
      assert !HasWord(s[1..], e.word) by {
        forall x | x in s[1..] ensures x.word != e.word { assert x in s; }
      }
      InsertKeepsUnique(e, s[1..]);
      InsertAddsOnlyItsWord(e, s[1..], s[0].word);
      UniqueCons(s[0], InsertByLength(e, s[1..]));
    }
  }

  /** Ranking keeps the words of the dictionary, each still once. */
  lemma {:induction false} RankedKeepsUniqueWords(found: seq<Entry>)
    requires UniqueWords(found)
    ensures UniqueWords(Ranked(found))
  {
    if found != [] {
      var tail := found[1..];
      UniqueTail(found);
      RankedKeepsUniqueWords(tail);
      assert !HasWord(Ranked(tail), found[0].word) by {
        forall x | x in Ranked(tail) ensures x.word != found[0].word {
          assert x in multiset(Ranked(tail));
        }
      }
      InsertKeepsUnique(found[0], Ranked(tail));
    }
  }
}

/**
 * The prefix tree of dictionary words (`TrieNode` and `Trie` in
 * src/solver.py). Nodes are objects whose `children` map and `isWord` flag
 * are updated in place by `Insert`.
 *
 * The ghost map `NodeAt` labels every node with the string spelled from the
 * root to it; `Words` is the set of inserted words. `Valid()` states that the
 * labels follow the `children` edges, that every node knows the one string
 * it is labelled with, that the labelled strings are exactly the empty string
 * and the prefixes of inserted words, and that `isWord` marks exactly the
 * words.
 */
module Trie {
  import Text

  /** `MIN_WORD_LENGTH`: shorter lines of the word list are skipped. */
  const MinWordLength: nat := 3

  /** Some word of `words` starts with `s`. */
  ghost predicate StartsWord(s: string, words: set<string>) {
    exists w :: w in words && s <= w
  }

  class TrieNode {
    var children: map<char, TrieNode>
    var isWord: bool
    /** The string spelled from the root to this node. */
    ghost const spelled: string

    constructor (ghost spelled: string)
      ensures children == map[] && !isWord && this.spelled == spelled
    {
      children := map[];
      isWord := false;
      this.spelled := spelled;
    }
  }

  class Trie {
    const root: TrieNode
    ghost var NodeAt: map<string, TrieNode>
    ghost var Words: set<string>
    ghost var Repr: set<TrieNode>

    /** The tree shape: labels follow the edges, one node per prefix, all within `Repr`. */
    ghost predicate Shape()
      reads this`NodeAt, this`Repr, Repr`children
    {
      && root in Repr
      && (forall s :: s in NodeAt ==> NodeAt[s] in Repr)
      && [] in NodeAt && NodeAt[[]] == root
      && (forall s, ch {:trigger ch in NodeAt[s].children} ::
            s in NodeAt && ch in NodeAt[s].children ==>
              s + [ch] in NodeAt && NodeAt[s].children[ch] == NodeAt[s + [ch]])
      && (forall s, ch {:trigger s + [ch]} ::
            s + [ch] in NodeAt ==> s in NodeAt && ch in NodeAt[s].children)
      && (forall s :: s in NodeAt ==> NodeAt[s].spelled == s)
    }

    /** `isWord` is set exactly on the nodes of the strings in `words`. */
    ghost predicate Marks(words: set<string>)
      reads this`NodeAt, NodeAt.Values`isWord
    {
      forall s {:trigger NodeAt[s]} :: s in NodeAt ==> (NodeAt[s].isWord <==> s in words)
    }

    ghost predicate Valid()
      reads this, Repr
    {
      && Shape()
      && (forall s {:trigger StartsWord(s, Words)} :: s in NodeAt <==> s == [] || StartsWord(s, Words))
      && Marks(Words)
    }

    /**
     * The node reached by following `children` from the root along the
     * characters of `s`, or `null` when some child is missing: it is the node
     * labelled `s` exactly when `s` is labelled.
     */
    ghost function Follow(s: string): (n: TrieNode?)
      requires Shape()
      reads this, Repr
      ensures n != null <==> s in NodeAt
      ensures n != null ==> n == NodeAt[s]
      decreases |s|
    {
      if s == [] then root
      else
        var up := s[..|s| - 1];
        var ch := s[|s| - 1];
        assert s == up + [ch];
        var p := Follow(up);
        if p != null && ch in p.children then p.children[ch] else null
    }

    /**
     * Following `s` from the root ends on a node marked as a word exactly when
     * `s` was inserted.
     */
    lemma FollowFindsWords(s: string)
      requires Valid()
      ensures Follow(s) != null && Follow(s).isWord <==> s in Words
    {
      if s in Words {
        assert StartsWord(s, Words);
      }
    }

    /**
     * The step `_dfs` takes: the node labelled `s` has a child for `ch`
     * exactly when some word starts with `s + [ch]`, and that child is a word
     * node exactly when `s + [ch]` is a word.
     */
    lemma ChildStep(s: string, ch: char)
      requires Valid() && s in NodeAt
      ensures ch in NodeAt[s].children <==> StartsWord(s + [ch], Words)
      ensures ch in NodeAt[s].children ==>
                NodeAt[s].children[ch] == NodeAt[s + [ch]] && (NodeAt[s + [ch]].isWord <==> s + [ch] in Words)
    {
    }

    /**
     * What a search that only reads the trie needs of it: the root is the
     * node of the empty string, and `ChildStep` holds at every node.
     */
    ghost predicate Navigable()
      reads this, NodeAt.Values
    {
      && [] in NodeAt && NodeAt[[]] == root
      && forall s, ch :: s in NodeAt ==>
           && (ch in NodeAt[s].children <==> StartsWord(s + [ch], Words))
           && (ch in NodeAt[s].children ==>
                 && s + [ch] in NodeAt && NodeAt[s].children[ch] == NodeAt[s + [ch]]
                 && (NodeAt[s + [ch]].isWord <==> s + [ch] in Words))
    }

    /** A valid trie can be searched: `Valid` gives `ChildStep` at every labelled string. */
    lemma ValidIsNavigable()
      requires Valid()
      ensures Navigable()
    {
      forall s, ch | s in NodeAt
        ensures ch in NodeAt[s].children <==> StartsWord(s + [ch], Words)
      {
        ChildStep(s, ch);
      }
    }

    /** `Trie.__init__`: a root and no words. */
    constructor ()
      ensures Valid() && fresh(Repr)
      ensures Words == {} && NodeAt.Keys == {[]}
    {
      var r := new TrieNode([]);
      root := r;
      NodeAt := map[[] := r];
      Words := {};
      Repr := {r};
    }

    /**
     * `node.children.setdefault(ch, TrieNode())` on the node labelled
     * `prefix`: returns the child for `ch`, adding a fresh empty one when
     * there is none. No other node changes, and no `isWord` flag.
     */
    method SetDefault(node: TrieNode, ghost prefix: string, ch: char) returns (next: TrieNode)
      requires Shape() && Marks(Words) && prefix in NodeAt && NodeAt[prefix] == node
      requires prefix + [ch] in NodeAt || prefix + [ch] !in Words
      modifies this, node
      ensures Shape() && Marks(Words) && Words == old(Words)
      ensures NodeAt == old(NodeAt)[prefix + [ch] := next]
      ensures prefix + [ch] in NodeAt && NodeAt[prefix + [ch]] == next
      ensures NodeAt.Keys == old(NodeAt.Keys) + {prefix + [ch]}
      ensures Repr == old(Repr) + {next} && fresh(Repr - old(Repr))
      ensures old(prefix + [ch] in NodeAt) ==> NodeAt == old(NodeAt) && Repr == old(Repr) && unchanged(node)
      ensures old(prefix + [ch] !in NodeAt) ==> fresh(next)
    {
      if ch in node.children {
        next := node.children[ch];
        assert prefix + [ch] in NodeAt && next == NodeAt[prefix + [ch]];
        assert NodeAt == NodeAt[prefix + [ch] := next];
      } else {
        next := AddChild(node, prefix, ch);
        assert Marks(Words) by {
          forall s | s in NodeAt ensures NodeAt[s].isWord <==> s in Words {
            if s != prefix + [ch] {
              assert NodeAt[s] == old(NodeAt[s]);
            }
          }
        }
      }
    }

    /** The missing-child case of `SetDefault`. */
    method AddChild(node: TrieNode, ghost prefix: string, ch: char) returns (next: TrieNode)
      requires Shape() && prefix in NodeAt && NodeAt[prefix] == node
      requires ch !in node.children
      modifies this, node
      ensures Shape() && Words == old(Words)
      ensures NodeAt == old(NodeAt)[prefix + [ch] := next]
      ensures Repr == old(Repr) + {next} && fresh(next)
      ensures node.isWord == old(node.isWord) && !next.isWord
    {
      ghost var t := prefix + [ch];
      next := new TrieNode(t);
      assert t !in NodeAt;
      node.children := node.children[ch := next];
      NodeAt := NodeAt[t := next];
      Repr := Repr + {next};
      assert forall s :: s in NodeAt ==> NodeAt[s] in Repr;
      assert forall s, c {:trigger c in NodeAt[s].children} ::
          s in NodeAt && c in NodeAt[s].children ==>
            s + [c] in NodeAt && NodeAt[s].children[c] == NodeAt[s + [c]]
      by {
        forall s, c | s in NodeAt && c in NodeAt[s].children
          ensures s + [c] in NodeAt && NodeAt[s].children[c] == NodeAt[s + [c]]
        {
          if s == t {
            assert false;
          } else if s == prefix {
            if c != ch {
              assert c in old(node.children);
            }
          } else {
            assert NodeAt[s] == old(NodeAt[s]) != node;
          }
        }
      }
      assert forall s, c {:trigger s + [c]} ::
          s + [c] in NodeAt ==> s in NodeAt && c in NodeAt[s].children
      by {
        forall s, c | s + [c] in NodeAt
          ensures s in NodeAt && c in NodeAt[s].children
        {
          if s + [c] == t {
            SplitLast(s, c, prefix, ch);
          } else {
            assert s + [c] in old(NodeAt);
            assert s in old(NodeAt) && c in old(NodeAt[s].children);
          }
        }
      }
    }

    /**
     * The loop of `Trie.insert(word)`: walks down from the root with
     * `SetDefault` for each character of `word` and returns the node of
     * `word`. The labelled strings gain exactly the prefixes of `word`, no
     * flag changes, and when `word` is already a word no node is added.
     */
    method Descend(word: string) returns (node: TrieNode)
      requires Valid()
      modifies this, Repr
      ensures Shape() && Marks(Words) && Words == old(Words) && fresh(Repr - old(Repr))
      ensures NodeAt.Keys == old(NodeAt.Keys) + PrefixSet(word, |word|)
      ensures forall s :: s in old(NodeAt) ==> NodeAt[s] == old(NodeAt[s])
      ensures word in NodeAt && NodeAt[word] == node
    {
      ghost var keys0 := NodeAt.Keys;
      ghost var prefix: string := [];
      node := root;
      var i := 0;
      while i < |word|
        invariant 0 <= i <= |word| && prefix == word[..i]
        invariant Shape() && Marks(Words) && fresh(Repr - old(Repr))
        invariant Words == old(Words)
        invariant NodeAt.Keys == keys0 + PrefixSet(word, i)
        invariant forall s :: s in old(NodeAt) ==> NodeAt[s] == old(NodeAt[s])
        invariant prefix in NodeAt && NodeAt[prefix] == node
      {
        assert prefix + [word[i]] == word[..i + 1];
        if prefix + [word[i]] in Words || word in Words {
          assert StartsWord(prefix + [word[i]], Words);
        }
        node := SetDefault(node, prefix, word[i]);
        PrefixSetStep(word, i);
        UnionStep(keys0, PrefixSet(word, i), prefix + [word[i]]);
        prefix := prefix + [word[i]];
        i := i + 1;
      }
      assert prefix == word;
    }

    /** `node.is_word = True` on the node labelled `word`, which becomes a word. */
    method MarkWord(node: TrieNode, ghost word: string)
      requires Shape() && Marks(Words) && word in NodeAt && NodeAt[word] == node
      modifies this`Words, node`isWord
      ensures Shape() && Marks(Words) && node.isWord
      ensures Words == old(Words) + {word}
    {
      node.isWord := true;
      Words := Words + {word};
      assert Marks(Words) by {
        forall s | s in NodeAt ensures NodeAt[s].isWord <==> s in Words {
          if s != word {
            assert NodeAt[s] != node;
          }
        }
      }
    }

    /**
     * `Trie.insert(word)`: `Descend`, then mark the node reached as a word.
     * Inserting a word already present adds no node.
     */
    method Insert(word: string)
      requires Valid()
      modifies this, Repr
      ensures Valid() && fresh(Repr - old(Repr))
      ensures Words == old(Words) + {word}
      ensures NodeAt.Keys == old(NodeAt.Keys) + PrefixSet(word, |word|)
      ensures old(word in Words) ==> NodeAt.Keys == old(NodeAt.Keys)
      ensures forall s :: s in old(NodeAt) ==> NodeAt[s] == old(NodeAt[s])
      ensures Follow(word) != null && Follow(word).isWord
    {
      var node := Descend(word);
      if word in old(Words) {
        PrefixesPresent(old(NodeAt.Keys), old(Words), word);
      }
      MarkWord(node, word);
      StartsWordAfterAdd(old(NodeAt.Keys), old(Words), word);
    }

    /** The test and insertion in the body of the loop of `load_wordlist`. */
    method InsertIfKept(word: string)
      requires Valid()
      modifies this, Repr
      ensures Valid() && fresh(Repr - old(Repr))
      ensures Words == old(Words) + (if Keeps(word) then {word} else {})
    {
      if |word| >= MinWordLength && Text.IsAlpha(word) {
        Insert(word);
      }
    }

    /**
     * The filtering loop of `Trie.load_wordlist`, over the lines of the file:
     * each line is stripped and upper-cased, and inserted when it passes
     * `Keeps`; other lines are skipped.
     */
    method LoadWordlist(lines: seq<string>)
      requires Valid()
      modifies this, Repr
      ensures Valid() && fresh(Repr - old(Repr))
      ensures Words == old(Words) + KeptWords(Normalized(lines))
    {
      ghost var words := Normalized(lines);
      var i := 0;
      while i < |lines|
        invariant 0 <= i <= |lines|
        invariant Valid() && fresh(Repr - old(Repr))
        invariant Words == old(Words) + KeptWords(words[..i])
      {
        var word := Normalize(lines[i]);
        InsertIfKept(word);
        assert words[..i + 1][..i] == words[..i];
        i := i + 1;
      }
      assert words[..i] == words;
    }
  }

  /** `line.strip().upper()`. */
  function Normalize(line: string): string {
    Text.Upper(Text.Strip(line))
  }

  /** Every line of the file normalised, in file order. */
  function Normalized(lines: seq<string>): seq<string> {
    seq(|lines|, i requires 0 <= i < |lines| => Normalize(lines[i]))
  }

  /** The test of `load_wordlist`: at least `MinWordLength` characters, all letters. */
  predicate Keeps(word: string) {
    |word| >= MinWordLength && Text.IsAlpha(word)
  }

  /** The words of `words` that pass `Keeps`, added one after the other. */
  function KeptWords(words: seq<string>): set<string> {
    if words == [] then {}
    else
      var word := words[|words| - 1];
      KeptWords(words[..|words| - 1]) + (if Keeps(word) then {word} else {})
  }

  /** A word is kept exactly when it occurs among the words and passes the filter. */
  lemma {:induction false} KeptWordsIff(words: seq<string>, w: string)
    ensures w in KeptWords(words) <==> w in words && Keeps(w)
  {
    if words != [] {
      var init := words[..|words| - 1];
      KeptWordsIff(init, w);
      assert words == init + [words[|words| - 1]];
    }
  }

  /**
   * Every word `load_wordlist` inserts has at least three characters, all
   * upper-case ASCII letters, and is the normalised form of one of the lines.
   */
  lemma AcceptedAreUpperCase(lines: seq<string>, w: string)
    requires w in KeptWords(Normalized(lines))
    ensures |w| >= MinWordLength
    ensures forall j :: 0 <= j < |w| ==> 'A' <= w[j] <= 'Z'
    ensures exists i :: 0 <= i < |lines| && Normalize(lines[i]) == w
  {
    KeptWordsIff(Normalized(lines), w);
    var i :| 0 <= i < |lines| && Normalized(lines)[i] == w;
    forall j | 0 <= j < |w| ensures 'A' <= w[j] <= 'Z' {
      assert Text.IsLetter(w[j]);
      assert w[j] == Text.UpperChar(Text.Strip(lines[i])[j]);
    }
  }

  /** The prefixes of `word` of length at most `i`. */
  ghost function PrefixSet(word: string, i: nat): set<string>
    requires i <= |word|
  {
    set k | 0 <= k <= i :: word[..k]
  }

  // `PrefixSetStep` and `UnionStep` hold without proof; they are called from
  // `Descend` only to hand the verifier these two steps in isolation.

  lemma PrefixSetStep(word: string, i: nat)
    requires i < |word|
    ensures PrefixSet(word, i + 1) == PrefixSet(word, i) + {word[..i + 1]}
  {
  }

  lemma UnionStep<T>(a: set<T>, b: set<T>, x: T)
    ensures a + b + {x} == a + (b + {x})
  {
  }

  /**
   * Adding `word` to the words adds exactly its prefixes to the strings that
   * start some word.
   */
  lemma StartsWordAfterAdd(keys: set<string>, words: set<string>, word: string)
    requires forall s :: s in keys <==> s == [] || StartsWord(s, words)
    ensures forall s :: s in keys + PrefixSet(word, |word|) <==> s == [] || StartsWord(s, words + {word})
  {
    forall s
      ensures s in keys + PrefixSet(word, |word|) <==> s == [] || StartsWord(s, words + {word})
    {
      if s in PrefixSet(word, |word|) {
        var k :| 0 <= k <= |word| && s == word[..k];
        assert s <= word;
      }
      if s <= word {
        assert s == word[..|s|];
      }
      if StartsWord(s, words + {word}) {
        var w :| w in words + {word} && s <= w;
        if w != word {
          assert StartsWord(s, words);
        }
      }
    }
  }

  /** The prefixes of a word already present are already labelled. */
  lemma PrefixesPresent(keys: set<string>, words: set<string>, word: string)
    requires forall s {:trigger StartsWord(s, words)} :: s in keys <==> s == [] || StartsWord(s, words)
    requires word in words
    ensures keys + PrefixSet(word, |word|) == keys
  {
    forall s | s in PrefixSet(word, |word|) ensures s in keys {
      var k :| 0 <= k <= |word| && s == word[..k];
      assert StartsWord(s, words);
    }
  }

  lemma SplitLast(s: string, c: char, t: string, d: char)
    requires s + [c] == t + [d]
    ensures s == t && c == d
  {
    assert s == (s + [c])[..|s|];
  }
}

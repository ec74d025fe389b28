/**
 * What `Solver.solve` and `Solver._dfs` in src/solver.py compute, written as
 * functions of the board and of the set of words in the trie.
 *
 * `Explore` is one call of `_dfs` on a cell, `ExploreFrom` is its loop over
 * the eight directions from index `k` on, and `SearchFrom` is the double loop
 * of `solve` over the 16 cells from cell `(r, c)` on. The found words are a
 * sequence of entries in the order the dictionary receives them; a word that
 * is already there keeps its first path.
 */
module Search {
  import opened Board
  import Trie

  /** `DIRECTIONS`: the eight neighbour offsets, in the order they are tried. */
  const Directions: seq<(int, int)> :=
    [(-1, -1), (-1, 0), (-1, 1),
     (0, -1), (0, 1),
     (1, -1), (1, 0), (1, 1)]

  /** One key/value pair of the `found` dictionary. */
  datatype Entry = Entry(word: string, path: seq<Cell>)

  /** The cell reached from `c` along direction `k`. */
  function Step(c: Cell, k: nat): Cell
    requires k < |Directions|
  {
    Cell(c.row + Directions[k].0, c.col + Directions[k].1)
  }

  /** Two different cells that touch, diagonals included. */
  predicate Adjacent(a: Cell, b: Cell) {
    a != b && -1 <= a.row - b.row <= 1 && -1 <= a.col - b.col <= 1
  }

  predicate AllInBounds(p: seq<Cell>) {
    forall i :: 0 <= i < |p| ==> InBounds(p[i])
  }

  /** A path the rules allow: on the board, no cell twice, each step to a neighbour. */
  predicate ValidPath(p: seq<Cell>) {
    AllInBounds(p)
    && (forall i, j :: 0 <= i < j < |p| ==> p[i] != p[j])
    && (forall i :: 0 < i < |p| ==> Adjacent(p[i - 1], p[i]))
  }

  /** The letters along a path. */
  function Spell(b: Board, p: seq<Cell>): string
    requires AllInBounds(p)
  {
    seq(|p|, i requires 0 <= i < |p| => b.letters[p[i].row][p[i].col])
  }

  /** `word in found` for the dictionary `found`. */
  predicate HasWord(found: seq<Entry>, word: string) {
    exists e | e in found :: e.word == word
  }

  /** The keys of the dictionary `found`. */
  ghost function WordsOf(found: seq<Entry>): set<string> {
    set e | e in found :: e.word
  }

  /** `HasWord`, the test `_dfs` runs, and `WordsOf`, the keys the lemmas speak of, agree. */
  lemma HasWordIsKey(found: seq<Entry>, word: string)
    ensures HasWord(found, word) <==> word in WordsOf(found)
  {
  }

  /** No word is a key twice. */
  predicate UniqueWords(found: seq<Entry>) {
    forall i, j :: 0 <= i < j < |found| ==> found[i].word != found[j].word
  }

  /** The 16 cells of the grid. */
  ghost const AllCells: set<Cell> := set r, c | 0 <= r < Size && 0 <= c < Size :: Cell(r, c)

  /** The cells a path has not used yet; every call of `_dfs` uses one more. */
  ghost function Unvisited(p: seq<Cell>): set<Cell> {
    AllCells - set x | x in p
  }

  lemma VisitShrinks(p: seq<Cell>, c: Cell)
    requires InBounds(c) && c !in p
    ensures Unvisited(p + [c]) < Unvisited(p)
  {
    assert c == Cell(c.row, c.col);
    assert c in Unvisited(p) && c !in Unvisited(p + [c]);
  }

  /**
   * `_dfs(c, node, word, path, visited, found)` where `node` is the trie node
   * of `word` and `visited` marks the cells of `path`: the new `found`.
   */
  ghost function Explore(b: Board, W: set<string>, c: Cell, word: string, path: seq<Cell>,
                         found: seq<Entry>): seq<Entry>
    requires InBounds(c) && c !in path
    decreases Unvisited(path), 0
  {
    var w := word + [b.letters[c.row][c.col]];
    if !Trie.StartsWord(w, W) then found
    else
      var p := path + [c];
      var f := if w in W && !HasWord(found, w) then found + [Entry(w, p)] else found;
      VisitShrinks(path, c);
      ExploreFrom(b, W, c, w, p, f, 0)
  }

  /** The loop over `DIRECTIONS` in `_dfs`, from direction `k` on. */
  ghost function ExploreFrom(b: Board, W: set<string>, c: Cell, word: string, path: seq<Cell>,
                             found: seq<Entry>, k: nat): seq<Entry>
    requires k <= |Directions|
    decreases Unvisited(path), 1, |Directions| - k
  {
    if k == |Directions| then found
    else
      var n := Step(c, k);
      var f := if InBounds(n) && n !in path then Explore(b, W, n, word, path, found) else found;
      ExploreFrom(b, W, c, word, path, f, k + 1)
  }

  /** `(r, c)` is a position of the loops of `solve`; `(4, 0)` is past the last cell. */
  predicate LoopPos(r: int, c: int) {
    (0 <= r < Size && 0 <= c <= Size) || (r == Size && c == 0)
  }

  /**
   * The loops of `solve` from row `r`, column `c` on: one call of `_dfs` per
   * cell, in row-major order, each with the root, an empty word and an empty path.
   */
  ghost function SearchFrom(b: Board, W: set<string>, r: int, c: int, found: seq<Entry>): seq<Entry>
    requires LoopPos(r, c)
    decreases Size - r, Size - c
  {
    if r == Size then found
    else if c == Size then SearchFrom(b, W, r + 1, 0, found)
    else SearchFrom(b, W, r, c + 1, Explore(b, W, Cell(r, c), [], [], found))
  }

  /**
   * The inner loop of `solve` on row `r`, from column `c` to the end of the
   * row: one call of `_dfs` per cell, left to right.
   */
  ghost function RowFrom(b: Board, W: set<string>, r: int, c: int, found: seq<Entry>): seq<Entry>
    requires 0 <= r < Size && 0 <= c <= Size
    decreases Size - c
  {
    if c == Size then found
    else RowFrom(b, W, r, c + 1, Explore(b, W, Cell(r, c), [], [], found))
  }

  /** The double loop from `(r, c)` is the rest of row `r`, then the rows below it. */
  lemma {:induction false} SearchFromRow(b: Board, W: set<string>, r: int, c: int, found: seq<Entry>)
    requires 0 <= r < Size && 0 <= c <= Size
    ensures SearchFrom(b, W, r, c, found) == SearchFrom(b, W, r + 1, 0, RowFrom(b, W, r, c, found))
    decreases Size - c
  {
    if c < Size {
      SearchFromRow(b, W, r, c + 1, Explore(b, W, Cell(r, c), [], [], found));
    }
  }

  /** The dictionary `found` at the end of the loops of `solve`. */
  ghost function Found(b: Board, W: set<string>): seq<Entry> {
    SearchFrom(b, W, 0, 0, [])
  }

  // ---------------------------------------------------------------------------
  // Directions
  // ---------------------------------------------------------------------------

  /** The eight directions reach exactly the neighbours of a cell. */
  lemma DirectionsAreNeighbours(c: Cell, n: Cell)
    ensures Adjacent(c, n) <==> exists k :: 0 <= k < |Directions| && Step(c, k) == n
  {
    if Adjacent(c, n) {
      var dr, dc := n.row - c.row, n.col - c.col;
      var k := if dr == -1 then dc + 1 else if dr == 0 then (if dc == -1 then 3 else 4) else dc + 6;
      assert Step(c, k) == n;
    }
  }

  // ---------------------------------------------------------------------------
  // The dictionary only grows: existing keys keep their first path
  // ---------------------------------------------------------------------------

  lemma {:induction false} ExploreExtends(b: Board, W: set<string>, c: Cell, word: string, path: seq<Cell>,
                                          found: seq<Entry>)
    requires InBounds(c) && c !in path
    ensures found <= Explore(b, W, c, word, path, found)
    decreases Unvisited(path), 0
  {
    var w := word + [b.letters[c.row][c.col]];
    if Trie.StartsWord(w, W) {
      var p := path + [c];
      var f := if w in W && !HasWord(found, w) then found + [Entry(w, p)] else found;
      VisitShrinks(path, c);
      ExploreFromExtends(b, W, c, w, p, f, 0);
    }
  }

  lemma {:induction false} ExploreFromExtends(b: Board, W: set<string>, c: Cell, word: string, path: seq<Cell>,
                                              found: seq<Entry>, k: nat)
    requires k <= |Directions|
    ensures found <= ExploreFrom(b, W, c, word, path, found, k)
    decreases Unvisited(path), 1, |Directions| - k
  {
    if k < |Directions| {
      var n := Step(c, k);
      var f := if InBounds(n) && n !in path then Explore(b, W, n, word, path, found) else found;
      if InBounds(n) && n !in path {
        ExploreExtends(b, W, n, word, path, found);
      }
      ExploreFromExtends(b, W, c, word, path, f, k + 1);
    }
  }

  lemma {:induction false} SearchFromExtends(b: Board, W: set<string>, r: int, c: int, found: seq<Entry>)
    requires LoopPos(r, c)
    ensures found <= SearchFrom(b, W, r, c, found)
    decreases Size - r, Size - c
  {
    if r < Size && c == Size {
      SearchFromExtends(b, W, r + 1, 0, found);
    } else if r < Size {
      ExploreExtends(b, W, Cell(r, c), [], [], found);
      SearchFromExtends(b, W, r, c + 1, Explore(b, W, Cell(r, c), [], [], found));
    }
  }

  lemma PrefixWords(f: seq<Entry>, g: seq<Entry>)
    requires f <= g
    ensures WordsOf(f) <= WordsOf(g)
  {
    forall w | w in WordsOf(f) ensures w in WordsOf(g) {
      var e :| e in f && e.word == w;
      assert e in g;
    }
  }

  // ---------------------------------------------------------------------------
  // Soundness: every entry is a word spelled along a valid path
  // ---------------------------------------------------------------------------

  /** An entry `solve` may return: a trie word and a valid path that spells it. */
  ghost predicate GoodEntry(b: Board, W: set<string>, e: Entry) {
    e.word in W && e.path != [] && ValidPath(e.path) && Spell(b, e.path) == e.word
  }

  ghost predicate Consistent(b: Board, W: set<string>, found: seq<Entry>) {
    (forall e :: e in found ==> GoodEntry(b, W, e)) && UniqueWords(found)
  }

  lemma SpellAppend(b: Board, p: seq<Cell>, c: Cell)
    requires AllInBounds(p) && InBounds(c)
    ensures AllInBounds(p + [c])
    ensures Spell(b, p + [c]) == Spell(b, p) + [b.letters[c.row][c.col]]
  {
    assert AllInBounds(p + [c]);
  }

  lemma ExtendPath(p: seq<Cell>, n: Cell)
    requires ValidPath(p) && p != [] && Adjacent(p[|p| - 1], n) && InBounds(n) && n !in p
    ensures ValidPath(p + [n])
  {
    var q := p + [n];
    forall i, j | 0 <= i < j < |q| ensures q[i] != q[j] {
      if j < |p| {
        assert q[i] == p[i] && q[j] == p[j];
      } else {
        assert q[i] == p[i];
      }
    }
  }

  lemma {:induction false} ExploreSound(b: Board, W: set<string>, c: Cell, word: string, path: seq<Cell>,
                                        found: seq<Entry>)
    requires InBounds(c) && c !in path && ValidPath(path + [c])
    requires AllInBounds(path) && word == Spell(b, path)
    requires Consistent(b, W, found)
    ensures Consistent(b, W, Explore(b, W, c, word, path, found))
    decreases Unvisited(path), 0
  {
    var w := word + [b.letters[c.row][c.col]];
    if Trie.StartsWord(w, W) {
      var p := path + [c];
      SpellAppend(b, path, c);
      var f := if w in W && !HasWord(found, w) then found + [Entry(w, p)] else found;
      assert Consistent(b, W, f);
      VisitShrinks(path, c);
      ExploreFromSound(b, W, c, w, p, f, 0);
    }
  }

  lemma {:induction false} ExploreFromSound(b: Board, W: set<string>, c: Cell, word: string, path: seq<Cell>,
                                            found: seq<Entry>, k: nat)
    requires k <= |Directions|
    requires path != [] && path[|path| - 1] == c && ValidPath(path) && word == Spell(b, path)
    requires Consistent(b, W, found)
    ensures Consistent(b, W, ExploreFrom(b, W, c, word, path, found, k))
    decreases Unvisited(path), 1, |Directions| - k
  {
    if k < |Directions| {
      var n := Step(c, k);
      var f := if InBounds(n) && n !in path then Explore(b, W, n, word, path, found) else found;
      if InBounds(n) && n !in path {
        DirectionsAreNeighbours(c, n);
        ExtendPath(path, n);
        ExploreSound(b, W, n, word, path, found);
      }
      ExploreFromSound(b, W, c, word, path, f, k + 1);
    }
  }

  lemma {:induction false} SearchFromSound(b: Board, W: set<string>, r: int, c: int, found: seq<Entry>)
    requires LoopPos(r, c)
    requires Consistent(b, W, found)
    ensures Consistent(b, W, SearchFrom(b, W, r, c, found))
    decreases Size - r, Size - c
  {
    if r < Size && c == Size {
      SearchFromSound(b, W, r + 1, 0, found);
    } else if r < Size {
      assert ValidPath([] + [Cell(r, c)]);
      ExploreSound(b, W, Cell(r, c), [], [], found);
      SearchFromSound(b, W, r, c + 1, Explore(b, W, Cell(r, c), [], [], found));
    }
  }

  // ---------------------------------------------------------------------------
  // Completeness: every word spelled along a valid path is found
  // ---------------------------------------------------------------------------

  lemma SpellPrefix(b: Board, p: seq<Cell>, q: seq<Cell>)
    requires AllInBounds(p + q)
    ensures AllInBounds(p) && Spell(b, p) <= Spell(b, p + q)
  {
    assert forall i :: 0 <= i < |p| ==> p[i] == (p + q)[i];
  }

  lemma {:induction false} ExploreComplete(b: Board, W: set<string>, c: Cell, word: string, path: seq<Cell>,
                                           found: seq<Entry>, q: seq<Cell>)
    requires InBounds(c) && c !in path
    requires AllInBounds(path) && word == Spell(b, path)
    requires q != [] && q[0] == c && ValidPath(path + q) && Spell(b, path + q) in W
    ensures Spell(b, path + q) in WordsOf(Explore(b, W, c, word, path, found))
    decreases Unvisited(path), 0
  {
    var target := Spell(b, path + q);
    var w := word + [b.letters[c.row][c.col]];
    var p := path + [c];
    assert path + q == p + q[1..];
    SpellAppend(b, path, c);
    SpellPrefix(b, p, q[1..]);
    assert Trie.StartsWord(w, W);
    var f := if w in W && !HasWord(found, w) then found + [Entry(w, p)] else found;
    VisitShrinks(path, c);
    if |q| == 1 {
      assert path + q == p;
      assert w in WordsOf(f);
      ExploreFromExtends(b, W, c, w, p, f, 0);
      PrefixWords(f, ExploreFrom(b, W, c, w, p, f, 0));
    } else {
      var q' := q[1..];
      assert Adjacent(c, q'[0]) by {
        assert (p + q')[|path|] == c && (p + q')[|path| + 1] == q'[0];
      }
      DirectionsAreNeighbours(c, q'[0]);
      var j :| 0 <= j < |Directions| && Step(c, j) == q'[0];
      ExploreFromComplete(b, W, c, w, p, f, 0, q', j);
    }
  }

  lemma {:induction false} ExploreFromComplete(b: Board, W: set<string>, c: Cell, word: string, path: seq<Cell>,
                                               found: seq<Entry>, k: nat, q: seq<Cell>, j: nat)
    requires k <= j < |Directions|
    requires AllInBounds(path) && word == Spell(b, path)
    requires q != [] && q[0] == Step(c, j) && ValidPath(path + q) && Spell(b, path + q) in W
    ensures Spell(b, path + q) in WordsOf(ExploreFrom(b, W, c, word, path, found, k))
    decreases Unvisited(path), 1, |Directions| - k
  {
    var n := Step(c, k);
    var f := if InBounds(n) && n !in path then Explore(b, W, n, word, path, found) else found;
    if k == j {
      assert InBounds(n) && n !in path by {
        assert (path + q)[|path|] == n;
        forall i | 0 <= i < |path| ensures path[i] != n {
          assert (path + q)[i] == path[i];
        }
      }
      ExploreComplete(b, W, n, word, path, found, q);
      ExploreFromExtends(b, W, c, word, path, f, k + 1);
      PrefixWords(f, ExploreFrom(b, W, c, word, path, f, k + 1));
    } else {
      ExploreFromComplete(b, W, c, word, path, f, k + 1, q, j);
    }
  }

  /** The call of `_dfs` that `solve` starts on the first cell of a path finds its word. */
  lemma StartComplete(b: Board, W: set<string>, found: seq<Entry>, q: seq<Cell>)
    requires q != [] && ValidPath(q) && Spell(b, q) in W
    ensures Spell(b, q) in WordsOf(Explore(b, W, q[0], [], [], found))
  {
    assert [] + q == q;
    ExploreComplete(b, W, q[0], [], [], found, q);
  }

  lemma {:induction false} SearchFromComplete(b: Board, W: set<string>, r: int, c: int, found: seq<Entry>,
                                              q: seq<Cell>)
    requires q != [] && ValidPath(q) && Spell(b, q) in W
    requires LoopPos(r, c) && (r < q[0].row || (r == q[0].row && c <= q[0].col))
    ensures Spell(b, q) in WordsOf(SearchFrom(b, W, r, c, found))
    decreases Size - r, Size - c
  {
    if c == Size {
      SearchFromComplete(b, W, r + 1, 0, found, q);
    } else if Cell(r, c) == q[0] {
      StartComplete(b, W, found, q);
      var f := Explore(b, W, q[0], [], [], found);
      SearchFromExtends(b, W, r, c + 1, f);
      PrefixWords(f, SearchFrom(b, W, r, c + 1, f));
    } else {
      SearchFromComplete(b, W, r, c + 1, Explore(b, W, Cell(r, c), [], [], found), q);
    }
  }

  // ---------------------------------------------------------------------------
  // What `solve` finds
  // ---------------------------------------------------------------------------

  /**
   * Every entry found is a trie word together with a valid path that spells
   * it, and no word is found twice.
   */
  lemma SearchSound(b: Board, W: set<string>)
    ensures forall e :: e in Found(b, W) ==> GoodEntry(b, W, e)
    ensures UniqueWords(Found(b, W))
  {
    SearchFromSound(b, W, 0, 0, []);
  }

  /**
   * A word is found exactly when it is in the trie and some valid path on the
   * board spells it.
   */
  lemma SearchFindsExactly(b: Board, W: set<string>, w: string)
    ensures w in WordsOf(Found(b, W)) <==>
              w in W && exists p :: p != [] && ValidPath(p) && Spell(b, p) == w
  {
    SearchSound(b, W);
    if w in WordsOf(Found(b, W)) {
      var e :| e in Found(b, W) && e.word == w;
      assert GoodEntry(b, W, e);
    }
    if w in W && exists p :: p != [] && ValidPath(p) && Spell(b, p) == w {
      var p :| p != [] && ValidPath(p) && Spell(b, p) == w;
      SearchFromComplete(b, W, 0, 0, [], p);
    }
  }

  /**
   * A trie without words finds nothing: every call of `_dfs` from `solve`
   * returns at its first child lookup.
   */
  lemma {:induction false} EmptyTrieFindsNothing(b: Board, r: int, c: int)
    requires LoopPos(r, c)
    ensures SearchFrom(b, {}, r, c, []) == []
    decreases Size - r, Size - c
  {
    if r < Size && c == Size {
      EmptyTrieFindsNothing(b, r + 1, 0);
    } else if r < Size {
      assert !Trie.StartsWord([b.letters[r][c]], {});
      EmptyTrieFindsNothing(b, r, c + 1);
    }
  }

  /**
   * `_dfs` records any trie word, whatever its length; only the filter of
   * the word list keeps short words out. With a trie filled from the word
   * list, every found word and its path have at least `MinWordLength` letters.
   */
  lemma FoundWordsAreLong(b: Board, W: set<string>)
    requires forall w :: w in W ==> |w| >= Trie.MinWordLength
    ensures forall e :: e in Found(b, W) ==> |e.word| >= Trie.MinWordLength && |e.path| == |e.word|
  {
    SearchSound(b, W);
  }
}

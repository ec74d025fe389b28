/**
 * `Solver` in src/solver.py: a depth-first search from every cell of the
 * board that follows the trie, marks the cells of the current path in a 4x4
 * `visited` grid, and records each trie word the first time a path spells it.
 *
 * The Python lists and dictionary that `_dfs` mutates and shares between its
 * recursive calls are objects here: the path is a `CellList`, the `found`
 * dictionary a `FoundWords` holding its entries in insertion order, and
 * `visited` a two-dimensional array. Each method is proved against the
 * functions of the `Search` and `Ranking` modules.
 */
module Solver {
  import opened Board
  import opened Search
  import Trie
  import Ranking

  /** The `path` list: a cell is appended on the way down and popped on the way up. */
  class CellList {
    var cells: seq<Cell>

    constructor ()
      ensures cells == []
    {
      cells := [];
    }
  }

  /** The `found` dictionary, as its key/value pairs in insertion order. */
  class FoundWords {
    var entries: seq<Entry>

    constructor ()
      ensures entries == []
    {
      entries := [];
    }
  }

  /** `visited[r][c]` holds exactly for the cells on `path`. */
  ghost predicate VisitedIsPath(visited: array2<bool>, path: seq<Cell>)
    reads visited
    requires visited.Length0 == Size && visited.Length1 == Size
  {
    forall r, c {:trigger visited[r, c]} :: 0 <= r < Size && 0 <= c < Size ==> (visited[r, c] <==> Cell(r, c) in path)
  }

  /** `path.append((row, col))` and `visited[row][col] = True`. */
  method Enter(cell: Cell, path: CellList, visited: array2<bool>)
    requires InBounds(cell) && cell !in path.cells
    requires visited.Length0 == Size && visited.Length1 == Size
    requires VisitedIsPath(visited, path.cells)
    modifies path, visited
    ensures path.cells == old(path.cells) + [cell]
    ensures VisitedIsPath(visited, path.cells)
  {
    path.cells := path.cells + [cell];
    visited[cell.row, cell.col] := true;
  }

  /** `path.pop()` and `visited[row][col] = False`, undoing `Enter`. */
  method Leave(cell: Cell, path: CellList, visited: array2<bool>)
    requires InBounds(cell) && path.cells != [] && path.cells[|path.cells| - 1] == cell
    requires cell !in path.cells[..|path.cells| - 1]
    requires visited.Length0 == Size && visited.Length1 == Size
    requires VisitedIsPath(visited, path.cells)
    modifies path, visited
    ensures path.cells == old(path.cells)[..|old(path.cells)| - 1]
    ensures VisitedIsPath(visited, path.cells)
  {
    path.cells := path.cells[..|path.cells| - 1];
    visited[cell.row, cell.col] := false;
  }

  class Solver {
    const board: Board
    const trie: Trie.Trie

    constructor (board: Board, trie: Trie.Trie)
      ensures this.board == board && this.trie == trie
    {
      this.board := board;
      this.trie := trie;
    }

    /**
     * `_dfs`: extends `currentWord`, spelled by the trie node `node`, with the
     * letter at (`row`, `col`). Afterwards `path` and `visited` are as before
     * and `found` is what `Explore` says.
     */
    method Dfs(row: int, col: int, node: Trie.TrieNode, currentWord: string,
               path: CellList, visited: array2<bool>, found: FoundWords)
      requires trie.Navigable()
      requires currentWord in trie.NodeAt && trie.NodeAt[currentWord] == node
      requires InBounds(Cell(row, col)) && Cell(row, col) !in path.cells
      requires visited.Length0 == Size && visited.Length1 == Size
      requires VisitedIsPath(visited, path.cells)
      modifies path, visited, found
      ensures path.cells == old(path.cells)
      ensures VisitedIsPath(visited, path.cells)
      ensures found.entries ==
                Explore(board, trie.Words, Cell(row, col), currentWord, old(path.cells), old(found.entries))
      decreases Unvisited(path.cells), 0
    {
      var letter := LetterAt(board, row, col).value;
      if letter !in node.children {
        return;
      }
      var child := node.children[letter];
      var word := currentWord + [letter];
      var cell := Cell(row, col);
      VisitShrinks(path.cells, cell);
      Enter(cell, path, visited);
      if child.isWord && !HasWord(found.entries, word) {
        found.entries := found.entries + [Entry(word, path.cells)];
      }
      Neighbours(cell, child, word, path, visited, found);
      Leave(cell, path, visited);
    }

    /** The loop of `_dfs` over `DIRECTIONS` from `cell`, the last cell of `path`. */
    method Neighbours(cell: Cell, node: Trie.TrieNode, word: string,
                      path: CellList, visited: array2<bool>, found: FoundWords)
      requires trie.Navigable()
      requires word in trie.NodeAt && trie.NodeAt[word] == node
      requires InBounds(cell)
      requires visited.Length0 == Size && visited.Length1 == Size
      requires VisitedIsPath(visited, path.cells)
      modifies path, visited, found
      ensures path.cells == old(path.cells)
      ensures VisitedIsPath(visited, path.cells)
      ensures found.entries == ExploreFrom(board, trie.Words, cell, word, old(path.cells), old(found.entries), 0)
      decreases Unvisited(path.cells), 1
    {
      ghost var W := trie.Words;
      ghost var p := path.cells;
      ghost var f := found.entries;
      var k := 0;
      while k < |Directions|
        invariant 0 <= k <= |Directions|
        invariant path.cells == p
        invariant VisitedIsPath(visited, p)
        invariant ExploreFrom(board, W, cell, word, p, found.entries, k) == ExploreFrom(board, W, cell, word, p, f, 0)
      {
        var (dr, dc) := Directions[k];
        var next := Cell(cell.row + dr, cell.col + dc);
        assert next == Step(cell, k);
        ghost var before := found.entries;
        if InBounds(next) && !visited[next.row, next.col] {
          Dfs(next.row, next.col, node, word, path, visited, found);
        }
        assert found.entries == if InBounds(next) && next !in p then Explore(board, W, next, word, p, before) else before;
        k := k + 1;
      }
    }

    /**
     * The loops of `solve`: a search from every cell in row-major order, each
     * with the root, an empty word and a fresh empty path, sharing `found`
     * and `visited`.
     */
    method SearchAll() returns (entries: seq<Entry>)
      requires trie.Navigable()
      ensures entries == Found(board, trie.Words)
    {
      var found := new FoundWords();
      var visited := new bool[Size, Size]((_, _) => false);
      var r := 0;
      while r < Size
        invariant 0 <= r <= Size
        invariant VisitedIsPath(visited, [])
        invariant SearchFrom(board, trie.Words, r, 0, found.entries) == Found(board, trie.Words)
      {
        SearchFromRow(board, trie.Words, r, 0, found.entries);
        SearchRow(r, visited, found);
        r := r + 1;
      }
      entries := found.entries;
    }

    /** The inner loop of `solve`: a search from each cell of row `r`, left to right. */
    method SearchRow(r: int, visited: array2<bool>, found: FoundWords)
      requires trie.Navigable()
      requires 0 <= r < Size
      requires visited.Length0 == Size && visited.Length1 == Size
      requires VisitedIsPath(visited, [])
      modifies visited, found
      ensures VisitedIsPath(visited, [])
      ensures found.entries == RowFrom(board, trie.Words, r, 0, old(found.entries))
    {
      ghost var W := trie.Words;
      ghost var f := found.entries;
      var c := 0;
      while c < Size
        invariant 0 <= c <= Size
        invariant VisitedIsPath(visited, [])
        invariant RowFrom(board, W, r, c, found.entries) == RowFrom(board, W, r, 0, f)
      {
        var path := new CellList();
        ghost var before := found.entries;
        Dfs(r, c, trie.root, "", path, visited, found);
        assert found.entries == Explore(board, W, Cell(r, c), [], [], before);
        c := c + 1;
      }
    }

    /**
     * `solve`: the found words sorted longest first. The result holds every
     * trie word some valid path spells, each once, with a path that spells it.
     */
    method Solve() returns (results: seq<Entry>)
      requires trie.Valid()
      ensures results == Ranking.Ranked(Found(board, trie.Words))
      ensures Ranking.LongestFirst(results)
      ensures UniqueWords(results)
      ensures forall e :: e in results ==> GoodEntry(board, trie.Words, e)
      ensures trie.Words == {} ==> results == []
    {
      trie.ValidIsNavigable();
      var entries := SearchAll();
      results := Ranking.Ranked(entries);
      SearchSound(board, trie.Words);
      Ranking.RankedKeepsUniqueWords(entries);
      assert forall e :: e in results ==> e in multiset(entries);
      if trie.Words == {} {
        EmptyTrieFindsNothing(board, 0, 0);
      }
    }
  }
}

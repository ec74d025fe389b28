# Word Hunt solver — a verified Dafny model

This project models the solving core of a 4×4 Word Hunt (Boggle-style) bot:

- the letter grid of `src/board.py`;
- the prefix tree (trie) of dictionary words of `src/solver.py`;
- the word-list filter that fills the trie;
- the depth-first backtracking search of `Solver.solve` / `Solver._dfs`;
- the final sort of `solve`, longest words first.

Modules, one per concern:

- `Text` (`text.dfy`): the Python string operations the core uses. These are `str.strip()`, `str.upper()` and `str.isalpha()`.
- `Board` (`board.dfy`): the grid, as a value. The constructor and the two lookups are functions returning a `Result`, and the errors are modelled as values: `ValueError` for a grid that is not 4×4, `IndexError` for a lookup outside `-4..3`.
- `Trie` (`trie.dfy`): `TrieNode` and `Trie` are classes whose `children` maps and `isWord` flags are updated in place.
  - A ghost map `NodeAt` labels every node with the string it spells.
  - A ghost set `Words` holds the inserted words.
  - `Valid()` ties the heap to these two.
  - `Insert` walks and extends the tree with `setdefault`.
  - `LoadWordlist` is the filtering loop of `load_wordlist`, run over a sequence of lines.
- `Search` (`search.dfy`): what the search computes, as ghost functions of the board and the set of trie words.
  - `Explore` is one call of `_dfs`.
  - `ExploreFrom` is its loop over `DIRECTIONS`.
  - `SearchFrom` / `Found` are the row-major double loop of `solve`.
  - The lemmas prove the following:
    - every found entry is a trie word spelled along a valid path;
    - every such word is found;
    - each word is found once, with its first path;
    - an empty trie finds nothing.
- `Ranking` (`ranking.dfy`): `sorted(found.items(), key=lambda x: len(x[0]), reverse=True)` (the word's length) as a stable insertion sort. It is proved to be a permutation, ordered by non-increasing length, stable for equal lengths, and to keep the words unique.
- `Solver` (`solver.dfy`): the imperative search.
  - The shared `path` list and `found` dictionary are objects (`CellList`, `FoundWords`) mutated in place, and `visited` is a 4×4 `array2<bool>`.
  - `Dfs` follows `_dfs`. Its pushes and pops are `Enter` / `Leave`, and its direction loop is `Neighbours`. `Dfs` is proved to leave `path` and `visited` as it found them, and to update `found` exactly as `Explore` says.
  - `SearchAll` / `SearchRow` are the loops of `solve`. `SearchRow` is proved to leave `found` exactly as `RowFrom` says, and `SearchAll` to return exactly `Found`.
  - `Solve` adds the sort.

`Solve` modifies nothing and its result is a function of the board and the trie's words, so calling it twice gives the same result.

## Model

| member | source | states |
|---|---|---|
| Text.IsSpace | src/solver.py:47 | definition: the whitespace `str.strip()` removes (Python's `str.isspace` set); described by `Text.TrimStartSpec`, `Text.TrimEndSpec`, `Text.StripSpec` |
| Text.Strip | src/solver.py:47 | definition of `str.strip()`, as `TrimEnd(TrimStart(s))`; described by `Text.StripSpec` |
| Text.IsAlpha | src/solver.py:48 | definition of `str.isalpha()` on ASCII letters: non-empty and letters only; used by `Trie.Keeps`, described by `Trie.AcceptedAreUpperCase` |
| Trie.MinWordLength | src/solver.py:14 | definition: `MIN_WORD_LENGTH`, 3; used by `Trie.Keeps`, `Trie.AcceptedAreUpperCase`, `Search.FoundWordsAreLong` |
| Trie.Normalize | src/solver.py:47 | definition of `line.strip().upper()`; described by `Text.StripSpec`, `Text.Upper`, `Trie.AcceptedAreUpperCase` |
| Trie.Keeps | src/solver.py:48 | definition of the filter test `len(word) >= MIN_WORD_LENGTH and word.isalpha()`; described by `Trie.Trie.InsertIfKept`, `Trie.KeptWordsIff` |
| Trie.KeptWords | src/solver.py:46-49 | definition: the set of words the loop of `load_wordlist` inserts, line by line; described by `Trie.KeptWordsIff`, `Trie.AcceptedAreUpperCase`, `Trie.Trie.LoadWordlist` |
| Search.Directions | src/solver.py:17-19 | definition: `DIRECTIONS`, the eight offsets in source order; described by `Search.DirectionsAreNeighbours` |
| Search.Explore | src/solver.py:88-106 | definition: the `found` one call of `_dfs` produces (lookup, prune, append path, record first path, recurse over directions); described by `Search.ExploreExtends`, `Search.ExploreSound`, `Search.ExploreComplete`, and implemented by `Solver.Solver.Dfs` |
| Search.ExploreFrom | src/solver.py:100-103 | definition: the loop of `_dfs` over `DIRECTIONS` from a given index on, recursing into in-bounds unvisited neighbours; described by `Search.ExploreFromExtends`, `Search.ExploreFromSound`, `Search.ExploreFromComplete`, implemented by `Solver.Solver.Neighbours` |
| Search.SearchFrom | src/solver.py:70-72 | definition: the row-major double loop of `solve` from a given cell on, one `_dfs` per cell from the root with an empty word and path; described by `Search.SearchFromSound`, `Search.SearchFromComplete`, `Search.EmptyTrieFindsNothing`, `Search.SearchFromRow`, implemented by `Solver.Solver.SearchAll` |
| Search.RowFrom | src/solver.py:71-72 | definition: the inner loop of `solve` on one row, from a given column to the end of the row; described by `Search.SearchFromRow`, implemented by `Solver.Solver.SearchRow` |
| Search.SearchFromRow | src/solver.py:70-72 | the double loop from a cell is the rest of that row, then the double loop from the start of the next row |
| Search.HasWordIsKey | src/solver.py:97 | the test `current_word not in found` agrees with membership in the keys of `found` |
| Search.Found | src/solver.py:67-72 | definition: the `found` dictionary after the loops of `solve`; described by `Search.SearchSound`, `Search.SearchFindsExactly`, `Search.FoundWordsAreLong`, implemented by `Solver.Solver.SearchAll` |
| Text.UpperChar | src/solver.py:47 | upper-casing yields no lower-case letter, maps a lower-case ASCII letter to its upper-case form, leaves every other character alone, and keeps letters letters |
| Text.Upper | src/solver.py:47 | on the ASCII-only model of `str.upper()`, the length is kept and each character is upper-cased in place (Python itself can lengthen a string, e.g. `"ß"` to `"SS"`) |
| Text.TrimStartSpec | src/solver.py:47 | stripping on the left keeps a suffix with no leading whitespace, and drops only whitespace |
| Text.TrimEndSpec | src/solver.py:47 | stripping on the right keeps a prefix with no trailing whitespace, and drops only whitespace |
| Text.StripSpec | src/solver.py:47 | `str.strip()` returns a contiguous slice of the line, with only whitespace removed around it and no whitespace left at either end |
| Board.New | src/board.py:9-22 | letters that are not 4×4 give `ValueError` first, then coords that are not 4×4 do; otherwise the board holds every letter upper-cased and the coords unchanged |
| Board.ListIndex | src/board.py:24-28 | Python list indexing on 4 items succeeds exactly for `-4..3`, and a negative index counts from the end |
| Board.LetterAt | src/board.py:24-25 | `letter_at` succeeds exactly when both indices are in `-4..3`, and returns `letters[row][col]` for in-range indices |
| Board.CoordAt | src/board.py:27-28 | `coord_at` succeeds exactly when both indices are in `-4..3`, and returns `coords[row][col]` for in-range indices |
| Board.LookupWrapsNegative | src/board.py:24-28 | a negative index reads the same cell as that index plus 4, for letters and coords |
| Board.NewIsIdempotent | src/board.py:21 | the stored letters are already upper-case, so building a board again from them gives the same board |
| Trie.TrieNode.constructor | src/solver.py:29-31 | a new node has no children and is not a word |
| Trie.Trie.constructor | src/solver.py:35-36 | a new trie is valid, holds no words, and its only node is the root |
| Trie.Trie.Follow | src/solver.py:39-41 | walking `children` from the root along a string reaches a node exactly when that string is labelled, and then reaches the node labelled with it |
| Trie.Trie.FollowFindsWords | src/solver.py:38-42 | in a valid trie, walking the characters of a string from the root ends on an `is_word` node exactly when the string was inserted |
| Trie.Trie.ChildStep | src/solver.py:88-98 | a node has a child for a letter exactly when some inserted word starts with the extended string; that child is the node of the extended string, and it is a word node exactly when that string is a word |
| Trie.Trie.ValidIsNavigable | src/solver.py:88-98 | a valid trie gives `ChildStep` at every node, which is all the search needs of it |
| Trie.Trie.SetDefault | src/solver.py:41 | `setdefault` returns the child for `ch`; when it was missing, a freshly allocated node is added and labelled with the extended string, otherwise nothing changes; every other label keeps its node and no `is_word` flag changes |
| Trie.Trie.AddChild | src/solver.py:41 | adding a missing child keeps the tree shape, labels the fresh node with the extended string, and leaves all flags alone |
| Trie.Trie.Descend | src/solver.py:39-41 | the walk of `insert` ends on the node of the word, adds exactly the word's missing prefixes to the tree, and reuses existing children: every string labelled before keeps its node |
| Trie.Trie.MarkWord | src/solver.py:42 | setting `is_word` on the word's node adds exactly that word to the words, keeps the tree shape and keeps `is_word` marking exactly the words; `Insert` then re-establishes full validity |
| Trie.Trie.Insert | src/solver.py:38-42 | `insert(w)` adds exactly `w` to the words and keeps all earlier ones; it adds exactly the prefixes of `w` as nodes and every earlier node stays where it was; re-inserting a word adds no node; afterwards the walk along `w` ends on an `is_word` node |
| Trie.Trie.InsertIfKept | src/solver.py:47-49 | a normalised line is inserted exactly when it has at least 3 characters and all of them are letters |
| Trie.Trie.LoadWordlist | src/solver.py:44-49 | after the loop, the words are the old words plus exactly the kept normalised lines, and the trie is still valid |
| Trie.KeptWordsIff | src/solver.py:46-49 | a word is kept from the lines exactly when it is one of the normalised lines and passes the length-and-letters test |
| Trie.AcceptedAreUpperCase | src/solver.py:47-48 | every word the word list contributes has at least 3 characters, all upper-case ASCII letters, and is the stripped, upper-cased form of one of the lines |
| Search.DirectionsAreNeighbours | src/solver.py:17-19 | the eight `DIRECTIONS` reach exactly the 8-adjacent cells of a cell |
| Search.ExploreExtends | src/solver.py:97-98 | `_dfs` only appends to `found`: earlier entries and their paths are never replaced |
| Search.ExploreSound | src/solver.py:88-103 | every entry `_dfs` adds is a trie word with a valid path spelling it, and the words stay unique |
| Search.ExploreComplete | src/solver.py:88-103 | `_dfs` on the first cell of a valid continuation of the current path finds the trie word that the whole path spells |
| Search.SearchSound | src/solver.py:67-72 | every entry found by the loops of `solve` is a trie word spelled along an in-bounds, repetition-free, 8-adjacent path, and no word is found twice |
| Search.SearchFindsExactly | src/solver.py:67-72 | a word is found exactly when it is in the trie and some valid path on the board spells it |
| Search.EmptyTrieFindsNothing | src/solver.py:89-91 | with no words in the trie, every call of `_dfs` returns at its first lookup and nothing is found |
| Search.FoundWordsAreLong | src/solver.py:97-98 | when every trie word has at least 3 letters, every found word has at least 3 letters, and its path has one cell per letter |
| Ranking.InsertByLength | src/solver.py:75 | one insertion step of the sort adds exactly the given entry |
| Ranking.InsertKeepsOrder | src/solver.py:75 | inserting into a list ordered by non-increasing word length keeps it ordered |
| Ranking.Ranked | src/solver.py:75 | the sorted result is a permutation of `found`, ordered by non-increasing word length |
| Ranking.RankedIsStable | src/solver.py:75 | for every length, the entries of that length keep their discovery order |
| Ranking.RankedKeepsUniqueWords | src/solver.py:75 | sorting keeps each word once |
| Solver.CellList.constructor | src/solver.py:72 | the path passed from `solve` starts empty |
| Solver.FoundWords.constructor | src/solver.py:67 | `found` starts empty |
| Solver.Enter | src/solver.py:94-95 | appending the cell to `path` and marking it visited keeps `visited` marking exactly the cells of `path` |
| Solver.Leave | src/solver.py:105-106 | popping the cell and clearing its mark restores `path` to its state before `Enter`, with `visited` still marking exactly its cells |
| Solver.Solver.constructor | src/solver.py:58-60 | the solver keeps the given board and trie |
| Solver.Solver.Dfs | src/solver.py:78-106 | `_dfs` leaves `path` and `visited` exactly as it found them, and updates `found` as the reference search `Explore` does |
| Solver.Solver.Neighbours | src/solver.py:100-103 | the direction loop restores `path` and `visited`, and updates `found` as `ExploreFrom` does |
| Solver.Solver.SearchRow | src/solver.py:71-72 | after one row of the double loop, `found` is exactly what the reference row loop `RowFrom` gives from its old contents, and `visited` is all clear again |
| Solver.Solver.SearchAll | src/solver.py:67-72 | the loops of `solve` produce exactly the reference dictionary `Found` |
| Solver.Solver.Solve | src/solver.py:62-76 | the result is the sorted reference dictionary: longest words first, each word once, each a trie word with a valid path spelling it; an empty trie gives an empty result |

## Left out

- Reading the word-list file (`open`) and the `print` in `load_wordlist` are I/O. `LoadWordlist` takes the file's lines as a sequence of strings.
- `Board.display` prints and is not modelled. The screen scanner, mouse player, entry point, helper tools and coordinate constants are also not part of this model. The screen coordinates are an opaque 4×4 argument (`Point`).
- A grid cell is one character. The source stores each cell as a string, while trie keys are single characters (`for ch in word`). For a multi-character tile such as `"QU"`, `node.children.get("QU")` never matches, so no word can pass through that cell. This behaviour is not modelled.
- Text.UpperChar: models `str.upper()` on ASCII letters only. Python also upper-cases non-ASCII letters, sometimes into several characters (`"ß"` becomes `"SS"`); that is not modelled.
- Text.IsAlpha is ASCII letters only. Python's `str.isalpha()` also accepts non-ASCII letters.
- The `found` dictionary is a sequence of (word, path) entries in insertion order. This is the order Python dictionaries keep. Its keys are `WordsOf`.
- Solver.Solver.Dfs: requires the cell to be in bounds and not on the current path. `_dfs` itself does not check this; its callers only call it for such cells.
- One might expect `letter_at` and `coord_at` to fail on any index outside the grid, but they use Python list indexing, so `-4..-1` wrap around to the last rows and columns. The model follows the code: `LetterAt` / `CoordAt` fail only outside `-4..3`.
- `_dfs` records any trie word whatever its length. `MIN_WORD_LENGTH` is enforced only by the word-list filter, so short words inserted directly with `insert` would be found. `Search.FoundWordsAreLong` states the length bound under that assumption.
- The recursion depth and running time of the search are not modelled. Termination is proved: every call of `_dfs` uses one more of the 16 cells.

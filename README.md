# file-tree, modelled in Dafny

`createFileTree` builds a collapsible file-tree view. It keeps two pieces of
state:

- `flatFileList`: the visible rows, top to bottom.
- `openedDirectory`: the set of directory paths remembered as open.

Rows come from a data source, `readDirectory(path)`. The source returns the
entries of a directory as a name plus a directory flag. A row's path is its
parent's path, a slash and its name. The root directory's path is the empty
string.

Three operations change the state:

- `openDirectory(p)` remembers `p` as open. It sorts the entries of `p` with
  directories first, then by lower-cased name. It splices their rows in right
  after the row of `p`, or at the top when no row has path `p`. Then it
  re-opens every remembered-open subdirectory among them.
- `closeDirectory(p)` forgets `p`. It drops, in place, every row whose path
  starts with `p` and is longer, using `filterInPlace`.
- The click handler opens a closed directory or closes an open one, then
  flips the row's flag.

The model has these modules:

- `Text`: ASCII lower-casing and string `<`, compared character by character.
- `Paths`: child paths, `split("/")`, depth and displayed name.
- `Ordering`: the sort comparator and a sort proved sorted and a
  permutation.
- `Filtering`: `filterInPlace` on an array, proved against `Filter`/`Reject`.
- `Rows`: rows, `findIndex`, `splice` and the list invariant.
- `Listing`: the rows built for one directory.
- `Reconciler`: what opening and closing do to the list, stated on values.
  It contains the algorithm (`OpenResult`), an independent pre-order
  flattening (`Subtree`), and proofs that the two agree.
- `Tree`: the class `FileTree`, whose methods are proved against
  `Reconciler`.

## Model

| member | source | states |
|---|---|---|
| Filtering.FilterInPlace | index.ts:232-253 | The first `len` array slots hold exactly the kept elements in their original order. `removed` holds the rejected ones in order. Together they account for the whole array. |
| Filtering.PartitionCounts | index.ts:239-250 | Kept and rejected elements together are a permutation of the input: the counts add up and the multisets sum to the input's. |
| Filtering.FilterMembers | index.ts:242-243 | An element survives iff it was present and the condition accepts it. |
| Filtering.RejectMembers | index.ts:244-245 | An element is returned as removed iff it was present and the condition rejects it. |
| Filtering.FilterAppend | index.ts:240-248 | The single left-to-right pass filters each part of a concatenation independently. |
| Text.Lower | index.ts:186 | `toLowerCase` keeps the length, turns each upper-case ASCII letter into its lower-case partner, keeps every other character, and leaves no upper-case ASCII letter. |
| Text.LowerEqualIff | index.ts:186 | Two names get the same sort key iff they differ only in the case of ASCII letters, such as "README" and "readme". |
| Text.LowerIdempotent | index.ts:186 | Lower-casing an already lower-cased name changes nothing. |
| Text.LexLess | index.ts:186 | String `<` in code-point order. It has no contract of its own; the four lemmas below prove it a strict total order. |
| Text.LexIrreflexive | index.ts:186 | No string is `<` itself. |
| Text.LexAsymmetric | index.ts:186 | `a < b` and `b < a` never both hold. |
| Text.LexTotal | index.ts:186 | Two different strings are always ordered one way or the other. |
| Text.LexTransitive | index.ts:186 | String `<` is transitive. |
| Text.NotBeforeTransitive | index.ts:186 | "not less than" is transitive. |
| Ordering.Compare | index.ts:180-188 | The comparator only ever answers -1 or 1, never 0. |
| Ordering.CompareAgrees | index.ts:180-188 | A negative answer puts a first and a positive one puts b first, both consistent with "directories first, then lower-cased name". |
| Ordering.CompareOnTies | index.ts:186 | Two same-kind entries with equal lower-cased names are each reported greater than the other. |
| Ordering.InOrderTransitive | index.ts:180-188 | The listing order is transitive. |
| Ordering.InsertSorted | index.ts:180-188 | Inserting an entry into a sorted listing keeps it sorted. |
| Ordering.Insert | index.ts:179-180 | Insertion adds exactly one occurrence of the new entry: the result's multiset is the input's plus that entry. |
| Ordering.SortEntries | index.ts:178-188 | Sorts the listing by the comparator. Its own contract states that the result is a permutation of the input; `Ordering.SortEntriesSorted` states the order. |
| Ordering.SortEntriesSorted | index.ts:178-188 | The sorted listing is a permutation of `readDirectory(path)`. Every directory precedes every file. Lower-cased names are non-decreasing within each kind. |
| Ordering.SortKeepsListingGood | index.ts:178-188 | Sorting a listing with slash-free, distinct names keeps it so. |
| Paths.Split | index.ts:98 | `split("/")`: there is always at least one piece, and no piece contains a slash. `Paths.PathOfPieces` gives the pieces of every path built from names. |
| Paths.Depth | index.ts:98 | The indentation level, the piece count minus 2. It is never below -1, the value for the root. `Paths.ChildPieces` states that a child is one level deeper. |
| Paths.DisplayName | index.ts:127 | The last piece of the path. It never contains a slash. `Paths.ChildPieces` states that a child displays its own name. |
| Paths.PathOfPieces | index.ts:98 | The item reached through names n1..nk splits into "", n1, …, nk. Its indentation depth is k-1 and its displayed name is nk. The depth is computed as in line 98 and the name as in line 127. |
| Paths.ChildPieces | index.ts:190 | A child path `parent + "/" + name` has one more piece than its parent, is one level deeper, and displays `name`. |
| Paths.ChildPathIsChild | index.ts:190 | A child path lies directly inside its parent, and what follows the parent and slash is the name. |
| Paths.PrefixIsNotUnder | index.ts:219 | A path such as "/ab" starts with "/a" and is longer, yet is not inside "/a". |
| Paths.SiblingsApart | index.ts:190 | Nothing lies in the families of two different children of one directory. |
| Rows.IndexOf | index.ts:176 | Returns -1 iff no row has the path; otherwise the position of the first row that does. |
| Rows.Splice | index.ts:208 | `splice(at, 0, ...items)`: the result is as long as both together. `Rows.SpliceParts` states where every row ends up. |
| Rows.SpliceParts | index.ts:208 | Splicing at `at` keeps the rows before `at` in front, inserts the items, then keeps the rest in order. |
| Listing.Items | index.ts:189-207 | The `map` over the sorted entries: one row per entry, row i built from entry i by `Listing.ItemFor`. |
| Listing.ItemFor | index.ts:189-206 | A row's path is `path + "/" + name` and its kind is the entry's. A directory row is flagged open iff its path is in `openedDirectory`. |
| Listing.Content | index.ts:178-207 | As many rows as entries. Each row is longer than its directory's path. Each directory flag matches `openedDirectory`. |
| Listing.ContentChildren | index.ts:189-207 | Every content row is a direct child of `path`, no path appears twice, and the flags match `openedDirectory`. |
| Listing.ContentCoversListing | index.ts:178-207 | Every entry returned by `readDirectory(path)` has its row in the content. |
| Listing.ContentOrdered | index.ts:180-188 | In the inserted content every directory precedes every file. Within each kind the lower-cased displayed names are non-decreasing. |
| Listing.ContentDepthAndName | index.ts:98 | Each content row is one level deeper than its directory and displays its entry's name. |
| Reconciler.RowsOfWellListed | index.ts:178-207 | For every directory, the rows built from a well-formed source are its children, with distinct paths and flags matching the open set. |
| Reconciler.ToReopen | index.ts:192-194 | Every collected subdirectory is an open directory row of the content. |
| Reconciler.ToReopenInOrder | index.ts:177-209 | Because no path repeats, the `Set` drops nothing. Subdirectories are re-opened in row order. |
| Reconciler.DeeperShrinks | index.ts:209 | Re-opening a subdirectory descends to a longer open path, so the recursion ends. |
| Reconciler.OpenResult | index.ts:174-213 | The list after `openDirectory(p)`, computed as the code does: find the row of `p`, splice in the sorted content after it, then re-open each collected subdirectory. It has no contract of its own; `Reconciler.OpenIsSplice` and `Reconciler.OpenKeepsOutside` state what it yields. |
| Reconciler.ReopenAll | index.ts:209 | Opens each collected subdirectory in turn on the growing list. It has no contract of its own; `Reconciler.DeeperShrinks` shows that the recursion ends, and `Reconciler.OpenIsSplice` states the combined result. |
| Reconciler.OpenIsSplice | index.ts:174-213 | When nothing is yet shown inside `p`, the algorithm's result equals the pre-order subtree of `p` spliced in after the first row of `p`, or at position 0 when there is none. In the subtree each remembered-open directory is followed by its own subtree. |
| Reconciler.OpenKeepsOutside | index.ts:176-208 | Opening keeps every row up to and including `p`, places the subtree right after it, and keeps later rows in their old order. Index -1 puts the subtree at the top. |
| Reconciler.SubtreeShowsOpenChild | index.ts:192-209 | In the subtree of `p`, each child directory in `openedDirectory` is flagged open and directly followed by its own subtree. |
| Reconciler.OpenOnEmpty | index.ts:225 | Opening the root on an empty list shows exactly the root's subtree. |
| Reconciler.SubtreeFacts | index.ts:174-213 | A subtree lies strictly inside its directory, never shows a path twice, flags match the open set, and nothing appears inside a closed directory. |
| Reconciler.FlattenAppend | index.ts:209 | Flattening the children run by run gives the concatenation of the runs. |
| Reconciler.KeepAfterClose | index.ts:219 | The condition `closeDirectory` filters by: keep a row unless its path starts with `p` and is longer. It has no contract of its own; the three lemmas below state what it keeps and removes. |
| Reconciler.CloseResult | index.ts:215-220 | The list after `closeDirectory(p)`: the rows `KeepAfterClose(p)` accepts, in order. It has no contract of its own; `Reconciler.CloseKeepsExactly` states its members. |
| Reconciler.CloseKeepsExactly | index.ts:215-220 | A row survives closing iff it was present and does not both start with `p` and have a longer path. |
| Reconciler.CloseRemovesInside | index.ts:219 | Every row strictly inside `p` is removed. |
| Reconciler.CloseRemovesPrefixSibling | index.ts:219 | A row whose path merely extends the text of `p` (such as "/ab" for "/a") is also removed, though it is not inside `p`. |
| Reconciler.CloseAround | index.ts:215-220 | Closing the directory at row i keeps that row in place and filters the rows before and after it separately. |
| Reconciler.OpenCloseRoundTrip | index.ts:174-223 | Opening `p` and then closing it restores the list it was opened on, provided no row began with `p` before. |
| Reconciler.CloseAfterOpen | index.ts:174-223 | Opening `p` and then closing it gives the same list as closing `p` alone, whenever nothing is shown inside `p` before. This includes lists with a prefix sibling such as "/ab" for "/a". |
| Reconciler.CloseOfSplice | index.ts:232-253 | Filtering out exactly the inserted block gives back the list around it. |
| Reconciler.InitialInvariant | index.ts:225 | The root's subtree keeps the list invariant and lies inside the root. |
| Reconciler.OpenKeepsInvariant | index.ts:130-137 | Clicking a closed directory row keeps the list invariant: distinct paths, flags matching the open set, nothing inside a closed directory. |
| Reconciler.CloseKeepsInvariant | index.ts:130-137 | Clicking an open directory row keeps the list invariant. |
| Reconciler.FilterKeepsInvariant | index.ts:217-220 | Closing keeps no path twice and nothing inside a closed directory. |
| Tree.FileTree.constructor | index.ts:225 | The initial state remembers only the root as open. The visible rows are the root's subtree, and the invariant holds. |
| Tree.FileTree.OpenDirectory | index.ts:174-213 | The open set gains `path`, and the list becomes the algorithm's result on the old list. |
| Tree.FileTree.ListContent | index.ts:178-207 | The loop builds the sorted rows of `path` and collects the open subdirectories once each, in order. |
| Tree.FileTree.ReopenEach | index.ts:209 | Each collected subdirectory is re-opened in turn. The open set is unchanged. |
| Tree.FileTree.CloseDirectory | index.ts:215-223 | The open set loses `path`, and the list keeps exactly the rows the close condition accepts, in order. |
| Tree.FileTree.Click | index.ts:130-143 | A file click changes nothing. An open directory is closed and flagged closed, and only rows starting with its path are dropped around it. A closed directory is opened, flagged open, and its subtree appears right below it. The invariant is preserved in every case. |
| Tree.OpenedRowStays | index.ts:135-137 | After opening, the clicked row is still at its position and is the first row with its path, so flipping the flag rewrites that row. |
| Tree.ClosedRowStays | index.ts:133-137 | After closing, the clicked row is the first row with its path, right after the surviving rows before it. |

## Left out

- Rendering is not modelled: `createItemElements`, `renderDirectoryIcon`, `renderList`, `setActive`, CSS, the DOM elements and their removal at line 221. Only the depth and name they display are modelled, as `Paths.Depth` and `Paths.DisplayName`.
- The display options are not modelled: `iconPrefix`, `actionSuffix`, `directoryIcons`, `itemHeight` and `indentWidth`.
- The `rerender` flag of `openDirectory` only controls rendering, so it is not modelled.
- `index.js` is not part of this model. It is a demo page: it imports `createFileTree`, starts the `eruda` console and builds random listings with `Math.random`.
- Text.Lower: maps ASCII letters only; full Unicode `toLowerCase` is not modelled.
- Text.LexLess: compares by Unicode code point. JavaScript `<` compares UTF-16 code units, so the two orders agree unless a name holds a character above U+FFFF, which JavaScript places before characters in U+E000–U+FFFF.
- Ordering.SortEntries: the JavaScript engine's sort algorithm is not modelled. The model uses an insertion sort that places each entry by the same comparator. Because the comparator never answers 0, equal lower-cased names of one kind can end in an engine-dependent order; the model proves only the order the comparator implies.
- Filtering.FilterInPlace: the condition's extra `(i, arr)` arguments are not passed, because closing does not use them. The final truncation `a.length = j` is modelled as a returned length, and the caller keeps `a[..len]`.
- The in-place row objects are not modelled. Rows are values, so the clicked `fileItem` is found again by its path, and flipping `opened` rewrites that row. With distinct paths this is the same row.
- `readDirectory` is modelled as a deterministic function of the path. The proofs assume each listing has slash-free, distinct names (`Listing.GoodSource`). A source that breaks this is not covered.
- The JavaScript `Set` `openedSubDirectories` is modelled as a sequence without duplicates, in insertion order.
- Reconciler.OpenIsSplice: assumes no row is shown inside `p` before opening. This holds for every click on a closed directory that keeps the invariant. Opening an already open directory directly, which duplicates rows, is not described.
- Tree.FileTree.Click: does not model `setActive` or the icon replacement.

Two behaviours of `index.ts` that look unintended are modelled as written:

- Closing uses a plain prefix test, so a sibling such as "/ab" disappears when "/a" is closed (`Reconciler.CloseRemovesPrefixSibling`).
- The sort comparator never returns 0 (`Ordering.CompareOnTies`).

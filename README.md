# Skip list (SkipList.h) in Dafny

This project models the skip list of `SkipList.h`: the `Node` record, the
`LinkedList` level with its forward search and guarded splice, and the
`SkipList` built from those levels, with its search and its randomised
insert. Everything is proved about the model.

The model is imperative, like the source.

- **Arena** (`arena.dfy`) is the C++ heap of `Node` and `LinkedList` objects.
  A pointer is a `Ref`: `Nil`, or the index of a record in `Heap.nodes` or
  `Heap.lists`. A node's four links and a level's `head`/`up`/`down` are
  record fields.
  - `Heap.NewNode` and `Heap.NewList` are the two constructors.
  - `Heap.Search` is `LinkedList::search`, a cursor loop.
  - `Heap.Insert` is `LinkedList::insert`, the guarded splice that rewrites
    `next`/`prev` in place.
  - A ghost sequence of node indices (a level's *spine*) names the nodes of
    one level, head first.
  - `Chain` says that the `next`/`prev` links of the spine are mutually
    inverse.
  - `Values` reads the level's values.
- **SkipLists** (`skiplist.dfy`) holds the class `SkipList`.
  - It has `topList`, the sentinel values and the arena, plus ghost spines
    for every level (bottom level first) and a ghost map from each node to
    its level.
  - `Valid()` is the skip-list invariant: every level is well linked, every
    level is strictly increasing between the two sentinels, every value of a
    level is also in the level below, and a set `down` link leads to the
    same value one level down.
  - `Search` is the descent loop of `SkipList::search`.
  - `Insert` runs the five steps of `SkipList::insert`: the duplicate test,
    the coin-flip loop (`DrawHeight`), the level-count walk (`CountLevels`),
    and the loop that grows the structure (`AddLevel`) and splices into each
    level bottom-up (`BuildTower`, `Round`, `InsertInLevel`).
- **Levels** (`levels.dfy`) and **Towers** (`towers.dfy`) are the
  specification the methods are proved against. They are pure functions on
  level values.
  - `ScanIndex` is the forward scan.
  - `LevelInsert` is the splice at the place the scan lands.
  - `TowerHeight` is the coin-flip count.
  - `Grown` is the growth step.
  - `SkipInsert` is the whole insert on the values of all levels.
  - The lemmas beside them prove the promised properties: ordering and
    sentinels kept, each value's levels forming a prefix from the bottom,
    the level count after an insert, and where a new value ends up.

Behaviour kept as the code has it:

- **Growth.** The growth test on SkipList.h:287 compares the tower height
  `i`, not the round `h`, with the height counted before the loop. When `i`
  exceeds it, every one of the `i` rounds adds a sentinel-only level, so the
  structure ends with `height + i` levels (`Towers.Grown`,
  `Towers.GrowthExample`).
- **No vertical links.** Nothing sets `Node::up` or `Node::down`. So
  `SkipList::search` never descends, and the duplicate test looks only at
  the top level. A value that is in the lower levels but not in the top one:
  - is not found by `search`;
  - is offered to the bottom `i` levels again when it is re-inserted. The
    levels that already hold it refuse the splice, and the others gain it
    (`Towers.DuplicateBelowTopExample`).

  The source's own comments promise otherwise. SkipList.h:230-231 says
  `search` returns the node holding x when x exists, or its predecessor in
  the bottom-most list; SkipList.h:256 says an insert of a value already in
  the skip list does nothing. The code does neither, because it only ever
  scans `topList`. The model follows the code (`Towers.SkipInsert`), and
  states the intended insert beside it (`Towers.IntendedInsert`, whose
  duplicate test is membership in the bottom level); see "## Findings".
  Down links are still arena state, so the descent loop of `Search` is
  modelled in full.

## Model

| member | source | states |
|---|---|---|
| Arena.Heap.NewNode | SkipList.h:79-86 | a new node holds the value and all four of its links are null; nothing else changes |
| Arena.Heap.NewList | SkipList.h:107-115 | exactly two new nodes, head minVal and tail maxVal, with head.next the tail and tail.prev the head and every other link null; the new level record has that head and null up/down; they form a level whose values are [minVal, maxVal] |
| Arena.Heap.Search | SkipList.h:135-142 | from a node of a level the loop lands where the forward scan of the level's values from that position lands; from null it gives null |
| Levels.ScanIndex | SkipList.h:137-139 | the scan never moves backward, every value it stepped onto is at most x, and it stops at the tail or in front of a value greater than x |
| Levels.ScanFindsPredecessor | SkipList.h:132-142 | on a strictly increasing level, started at a value at most x, the scan stops at the last value at most x, and x is in the level exactly when it stops on x |
| Levels.ScanFromHead | SkipList.h:132-142 | started from the head of a strictly increasing level, the scan lands on the greatest value at most x, or on the head when none is |
| SkipLists.ScanLands | SkipList.h:135-142 | on a linked level, the node the scan lands on holds at most x when the start did, and its next is null or holds more than x |
| Arena.Heap.Insert | SkipList.h:147-159 | when location and its next exist and location.data < x <= next.data, a new node holding x is spliced in between them (the new arena is `Spliced`) and returned; otherwise null is returned and no node or link changes |
| Arena.SpliceChain | SkipList.h:150-155 | after the splice the level is still linked with next/prev mutually inverse, and its values are the old ones with x put right after position k |
| Levels.InsertAtIncreasing | SkipList.h:149-155 | a splice between two neighbours that strictly bracket x keeps the level strictly increasing |
| Levels.LevelInsertRefused | SkipList.h:147-159 | a search-then-insert on a sentinel level leaves it unchanged when x is already there or lies outside the sentinels |
| Levels.LevelInsertAdds | SkipList.h:147-155 | when x lies strictly between the sentinels and is absent, the scan lands on the last value below x, the next value is strictly above x (so equality with next.data cannot occur), and x is spliced in between them |
| Levels.LevelInsertSpec | SkipList.h:297-298 | search-then-insert keeps a level strictly increasing with the same ends; the level is unchanged exactly when x is present or outside the sentinels; its values are the old ones plus x when x lies strictly between the sentinels |
| Levels.LevelInsertAccepts | SkipList.h:297-298 | the guard of LinkedList::insert at the node found by the search holds exactly when x lies strictly between the two ends and is not in the level |
| SkipLists.SkipList.constructor | SkipList.h:193-198 | one level holding only the two sentinels, with null up and down; the invariant holds and no node has a vertical link |
| SkipLists.SkipList.Search | SkipList.h:233-248 | the result holds at most x (when x is not below the sentinels), and its next is null or holds more than x; when no node has a down link, it is the node that LinkedList::search from the top level's head returns |
| SkipLists.DownStep | SkipList.h:241-244 | a set down link leads one level down, to a node of that level holding the same value |
| Towers.TowerHeight | SkipList.h:262-276 | the height is 1 plus the number of 1-flips before the first 0-flip, so at least 1 |
| SkipLists.DrawHeight | SkipList.h:262-276 | the coin-flip loop computes TowerHeight of the flips |
| SkipLists.SkipList.CountLevels | SkipList.h:278-284 | the walk down from topList ends at the bottom level and counts every level |
| SkipLists.SkipList.AddLevel | SkipList.h:288-295 | a new sentinel-only level goes on top as the new topList, linked to the old top level both ways; old levels, their values and the invariant of the levels are kept |
| SkipLists.GrowStep | SkipList.h:288-295 | putting a new level record and its two sentinel nodes on top keeps every old level in place with its values, and the new level holds [lo, hi] |
| SkipLists.SkipList.InsertInLevel | SkipList.h:297-298 | one round's splice: level b becomes LevelInsert of what it was, the other levels and the level records are unchanged, and the result is a node of level b holding x exactly when x lay strictly between the sentinels and was absent (LevelRound) |
| SkipLists.SpliceStep | SkipList.h:150-154 | splicing a node into one level keeps every level in place, and only that level's values change, to InsertAt |
| SkipLists.SpliceRound | SkipList.h:297-298 | a round whose splice succeeds gives LevelRound with the spliced arena and the new node |
| SkipLists.RefusedRound | SkipList.h:297-298 | a round whose splice is refused gives LevelRound with nothing changed and a null result |
| SkipLists.SkipList.Round | SkipList.h:287-298 | optional growth, then the splice into level b; the bottom b + 1 levels are done, every old level other than b keeps its nodes, and the result is a node of level b holding x exactly when x lay strictly between the sentinels of that level and was absent |
| SkipLists.SkipList.BuildTower | SkipList.h:286-300 | after the loop all grown levels are present, the bottom i have had x spliced in, the rest are untouched, and the result is the bottom splice's node, which exists exactly when x lay strictly between the sentinels and was absent |
| SkipLists.SkipList.Insert | SkipList.h:252-303 | the levels become SkipInsert of the old ones for the drawn height, and the invariant is kept; the result is a new bottom node holding x exactly when x lies strictly between the sentinels and was absent from the bottom level; a value in the top level gives null and changes nothing |
| Towers.FoundAtTopIff | SkipList.h:254-256 | the duplicate test succeeds exactly when x is in the top level |
| Towers.InBottom | SkipList.h:286-300 | in a towered structure a value of any level is in the bottom level |
| Towers.SkipInsertKeepsShape | SkipList.h:252-303 | insert keeps every level strictly increasing between the sentinels, and keeps each value's levels a prefix from the bottom |
| Towers.InsertTowerShape | SkipList.h:286-300 | the same, for the grow-and-splice loop alone |
| Towers.InsertTowerLevel | SkipList.h:286-300 | each level after the loop is a sentinel level; from i up it is the grown level; below i it holds the grown level's values plus x when x lies strictly between the sentinels |
| Towers.InsertTowerLink | SkipList.h:286-300 | after the loop every value of a level above the bottom is in the level below |
| Towers.GrownLevelShape | SkipList.h:287-295 | every level of the grown structure is a sentinel level lying in the one below |
| Towers.SkipInsertLevels | SkipList.h:254-300 | a value in the top level changes nothing; otherwise there are height + i levels when i exceeds height and height levels if not, levels from i up are unchanged, and a level below i gains exactly x when x lies strictly between the sentinels |
| Towers.SkipInsertFreshTower | SkipList.h:286-300 | a new value strictly between the sentinels ends up in exactly the bottom i levels |
| Towers.SkipInsertBottom | SkipList.h:252-303 | the bottom level gains x exactly when x lies strictly between the sentinels, and no other value comes or goes, so a duplicate leaves it unchanged |
| Towers.GrowthExample | SkipList.h:286-295 | a height-2 tower on a one-level structure adds two sentinel-only levels, giving three levels with x in the bottom two |
| Towers.DuplicateBelowTopExample | SkipList.h:254-300 | a value present only below the top is not caught by the duplicate test, and re-inserting it adds it to the level above |
| SkipLists.FlatDescents | SkipList.h:79-86 | with no down link set, the down-link part of the invariant holds trivially |
| Levels.LevelInsert | SkipList.h:297-298 | one level's search-then-insert: the splice behind the node the scan from the head lands on, refused unless that node holds less than x and its next holds at least x |
| Arena.Spliced | SkipList.h:150-154 | the arena after the splice: a new node holding x appended, with prev the location and next the old next, the location's next and the old next's prev pointing at it |
| Towers.Grown | SkipList.h:287-295 | when the tower height exceeds the level count, each round puts a sentinel-only level on top |
| Towers.InsertTower | SkipList.h:286-300 | the grown levels, with the bottom i levels each given the level's search-then-insert of x |
| Towers.FoundAtTop | SkipList.h:254-256 | the duplicate test: the node the search returns holds x, the search scanning only the top level |
| Towers.SkipInsert | SkipList.h:252-303 | the whole insert on the levels' values: unchanged when the duplicate test succeeds, else the grow-and-splice loop |
| Towers.IntendedInsert | SkipList.h:254-256 | the insert the comments at SkipList.h:256 and SkipList.h:230-231 describe: the duplicate test is membership in the bottom level, otherwise the grow-and-splice loop |
| Towers.IntendedInsertNoDuplicate | SkipList.h:256 | the insert with the duplicate test on the bottom level leaves a towered structure unchanged when x is in any level, as the comment promises |
| Towers.IntendedInsertAgrees | SkipList.h:254-256 | the insert as written and the intended one agree except when x is in the bottom level and not in the top one |
| Towers.IntendedInsertKeepsShape | SkipList.h:252-303 | the intended insert keeps every level a sentinel level and each value's levels a prefix from the bottom |

## Findings

| source | as written | input that shows it | evidently intended | confidence | as-written member | corrected member |
|---|---|---|---|---|---|---|
| SkipList.h:254-256 | the duplicate test checks the node returned by `search`, which scans only the top level because no down link is ever set | from the constructor with sentinels 0 and 10: insert 3 with height 2, insert 5 with height 1, then insert 5 again with height 2; the last insert adds 5 to level 1 (levels 1 and 2 carry `INT_MIN`/`INT_MAX` as sentinels in the source rather than 0 and 10, which does not change the outcome) | an insert of a value already in the skip list does nothing (comment at SkipList.h:256; `search` reaching the bottom-most list, SkipList.h:230-231) | not executed | Towers.DuplicateBelowTopExample | Towers.IntendedInsertNoDuplicate |

## Left out

- Printing (`printData`/`print` of all three classes, SkipList.h:88-100, 161-185, 307-327): console output only.
- Destructors (SkipList.h:117-130, 200-228): memory release has no counterpart in the arena, where records are never freed.
- Randomness (`getRand`, `srand(randSeed)`, `rand() % 2`, SkipList.h:64, 69-71, 194, 265): the coin flips are a parameter of `Insert`. The sequence must contain a 0, so that the flip loop ends. Claims about the probability of tower heights are not modelled.
- Genericity over `T`: values are `int`, as line 289 forces. They are unbounded mathematical integers. The source only compares values and never does arithmetic on them, so the 32-bit range plays no part.
- New-level sentinels: line 289 builds new levels with `INT_MIN`/`INT_MAX`. The model stores the constructor's minVal/maxVal and uses them for new levels too. The two agree when the list is built with `INT_MIN`/`INT_MAX`. With other sentinels the source differs: a value above maxVal (or below minVal) is refused by the levels built with minVal/maxVal but accepted by a grown level, so a grown level can hold a value the level below lacks. In the model every level refuses it (for example, inserting 20 with height 2 into `[[0, 10]]` gives three levels `[0, 10]`).
- SkipLists.SkipList.Insert: the return at line 302 gives back an uninitialised pointer. The model returns what the bottom-level splice returned: the new node, or null when the bottom level refused x.
- SkipLists.SkipList.Insert: requires that no node has an up or down link. The source never sets one, so every reachable state meets this. Insert on a structure with vertical links is not modelled; Search is modelled with them.
- SkipLists.SkipList.constructor: requires minVal < maxVal. The source's arguments are meant as -infinity and +infinity.
- `Node::up` is carried as a field but never set; it is read only by the destructor (SkipList.h:206, 222) and by `Node::print` (SkipList.h:99), both left out.
- Allocation failure (`new` throwing) is not modelled.

# A verified model of the CityGenerator wave function collapse solver

CityGenerator builds a city out of prefab blocks ("modules") on a 3-D grid of
cells. It uses a wave function collapse solver. Every cell starts with every
module of the catalog as a candidate. Collapsing a cell picks one candidate and
removes the others. Each removal propagates to the neighbours through per-cell
"health" counters: `moduleHealth[d][x]` counts the candidates of the neighbour
across direction `d` that allow module `x` from the opposite side. A candidate
whose counter reaches zero is queued for removal and later drained. Every
removal is recorded in a bounded history, so that `Undo` can give it back. When
a cell runs out of candidates, the solver backtracks by undoing an exponentially
growing number of collapses.

The repository holds the solver twice, and this model covers both:

- **The newer six-way solver:** `Cell`, `MapBase`, `TileMap`,
  `MapGeneration/InfiniteMap`, `Directions` and `ModuleScripts/*`. The opposite
  of direction `d` is `(d + 3) % 6`.
- **The older four-way solver:** `Slot`, `AbstractMap`, `TilingMap`,
  `InfiniteMap`, `Orienations`, and the root `Module` and `ModuleSet`. The
  opposite of direction `d` is `(d + 2) % 4`.

The propagation is written once, over a `Layout` that is `SixWay` or `FourWay`
(module `Catalogs`).

| file | module | models |
|---|---|---|
| `basics.dfy` | `Basics` | C#'s truncating `%`, `Array.IndexOf`, the `Option` and `Vec3` values |
| `directions.dfy` | `Directions` | six-way direction constants, `Rotate`, `IsHorizontal`, `GetIndex`, unit vectors |
| `orientations.dfy` | `Orientations` | four-way `Rotate`, `GetIndex` and unit vectors |
| `catalog.dfy` | `Catalogs` | the module catalog (`possibleNeighbours`), layouts, opposites, support counts, `CreateEntropy` / `CreateInitialModuleHealth` |
| `modules.dfy` | `Modules` | `Module.Fits` and `GetFace` over face records |
| `legacy_modules.dfy` | `LegacyModules` | the four-way `Module.Fits` and `GetFace` |
| `words.dfy` | `Words` | the 64-bit `long` words of the bitset, each as its 64 bits |
| `module_set.dfy` | `ModuleSets` | the `ModuleSet` bitset class with its entropy cache |
| `ring_buffer.dfy` | `RingBuffers` | the `RingBuffer` history stack, as a value and as a class over an array |
| `queue_dictionary.dfy` | `QueueDictionaries` | the `QueueDictionary` removal queue, as a value and as a class |
| `grids.dfy` | `Grids` | wrapping lookup of the periodic maps, box enumeration, the range limit |
| `propagation.dfy` | `Propagation` | `RemoveModules`, `FinishRemovalQueue`, `AddModules`, `Collapse`, `Undo` as functions of the solver state |
| `law.dfy` | `HealthLaw` | the health counting law of a periodic map, and that every operation keeps it |
| `restoring.dfy` | `Restoring` | what `Undo` gives back after `Collapse`: the collapse's record holds exactly what was removed, and one undo step restores it |
| `narrowing.dfy` | `Narrowing` | `Enforce`, `EnforceWalkway`, `EnforceConnector`, `ExcludeConnector`, `ApplyConstraints` |
| `areas.dfy` | `Areas` | the work area of `Collapse(targets)`, and the backtrack amount |
| `maps.dfy` | `Maps` | the map class: every operation above as a method with its loops, proved to end in the state the functions compute |

Three kinds of map share one class, `Maps.Map`, told apart by a `Kind`:

- **Periodic box:** `TileMap` / `TilingMap`. It holds one cell per position of its box and wraps `x` and `z`.
- **Lazy unbounded map:** `InfiniteMap`. It creates cells on first use from a default column, which is itself a one-cell-wide periodic map.
- **Default column:** that one-cell-wide map, owned by the lazy map.

Cells are values in a map from position to cell. A method of `Cell`/`Slot` becomes a method of the map that takes the cell's position.

## Model

| member | source | states |
|---|---|---|
| Basics.Rem | Assets/Scripts/MapGeneration/TileMap.cs:37-39 | C#'s truncating `%`: the remainder lies strictly between `-n` and `n` and takes the sign of the dividend |
| Basics.IndexOf | Assets/Scripts/Directions.cs:67 | `Array.IndexOf`: -1 exactly when the value is absent; otherwise the first position holding it |
| Directions.Rotate | Assets/Scripts/Directions.cs:61-68 | the result is a direction; DOWN and UP are left alone |
| Directions.RotateReadsTable | Assets/Scripts/Directions.cs:61-68 | for an amount >= 0 the index the source computes stays in 0..3 and `Rotate` is the table entry there; a negative amount gives index -1 |
| Directions.GetIndex | Assets/Scripts/Directions.cs:75-101 | the index is a direction |
| Directions.GetIndexInvertsVector | Assets/Scripts/Directions.cs:75-101 | `GetIndex` of the unit vector of a direction is that direction |
| Directions.RotateKeepsKind | Assets/Scripts/Directions.cs:61-73 | rotation maps horizontal directions to horizontal ones and fixes the vertical ones |
| Directions.RotateStep | Assets/Scripts/Directions.cs:59-68 | one more quarter turn moves one place along the cycle 0, 2, 3, 5 |
| Directions.RotateFullTurn | Assets/Scripts/Directions.cs:61-68 | four quarter turns give back the direction |
| Directions.RotateCompose | Assets/Scripts/Directions.cs:61-68 | rotating by `a` and then by `b` is rotating by `a + b` |
| Directions.RotateResidue | Assets/Scripts/Directions.cs:61-68 | only the amount modulo four matters |
| Directions.OppositeIsNegation | Assets/Scripts/Cell.cs:121 | the opposite `(d + 3) % 6` is a direction whose vector is the negated vector of `d` |
| Directions.CycleOpposite | Assets/Scripts/Directions.cs:59-68 | two places along the cycle is the opposite direction, at any offset |
| Directions.RotateCommutesWithOpposite | Assets/Scripts/Directions.cs:61-68 | rotating the opposite is the opposite of rotating |
| Directions.IsHorizontal | Assets/Scripts/Directions.cs:59-73 | the definition of `IsHorizontal`; `Directions.HorizontalIsTable` proves it holds exactly for the entries of the `horizontal` table |
| Directions.HorizontalIsTable | Assets/Scripts/Directions.cs:59-73 | `IsHorizontal` holds exactly for the entries of `horizontal`, that is for every direction but DOWN and UP |
| Orientations.Rotate | Assets/Scripts/Orienations.cs:58-61 | the result is one of the four directions |
| Orientations.RotateReadsTable | Assets/Scripts/Orienations.cs:58-61 | the index the source computes stays inside `PossibleDirections` and the entry there is `Rotate` |
| Orientations.DirectionIndex | Assets/Scripts/Orienations.cs:64-82 | the corrected index is a direction |
| Orientations.GetIndex | Assets/Scripts/Orienations.cs:64-82 | the definition of `GetIndex` as written; `Orientations.GetIndexCases` gives the sign test behind each value, and `Orientations.GetIndexSwapsLeftAndRight` shows it does not invert the table |
| Orientations.GetIndexCases | Assets/Scripts/Orienations.cs:64-82 | `GetIndex` as written returns 0..3, each value exactly under its sign test |
| Orientations.GetIndexSwapsLeftAndRight | Assets/Scripts/Orienations.cs:64-82 | as written, forward and back are inverted correctly but LEFT maps to RIGHT and RIGHT to LEFT |
| Orientations.DirectionIndexInvertsVector | Assets/Scripts/Orienations.cs:44-52 | the corrected index inverts the direction table for all four directions |
| Orientations.OppositeIsNegation | Assets/Scripts/AbstractMap.cs:88 | the opposite `(d + 2) % 4` is a direction whose vector is the negated vector of `d` |
| Catalogs.OppBack | Assets/Scripts/Cell.cs:119-122 | in either layout the opposite is an involution that negates the vector, so a step and a step back land where they started |
| Catalogs.OppNegates | Assets/Scripts/Slot.cs:40-43 | the opposite of a direction is a direction, an involution, and the negated vector |
| Catalogs.OppPairs | Assets/Scripts/Cell.cs:119-122 | `e` is the opposite of `d` exactly when `d` is the opposite of `e` |
| Catalogs.HistorySize | Assets/Scripts/MapGeneration/MapBase.cs:11 | 10000 entries in the six-way solver, 3000 in the four-way one |
| Catalogs.Below | Assets/Scripts/MapGeneration/MapBase.cs:185 | holds exactly the module indices below `k` |
| Catalogs.SupportInsert | Assets/Scripts/MapGeneration/MapBase.cs:185-190 | adding a module to a set adds one supporter of `x` exactly when it allows `x` |
| Catalogs.SupportDiff | Assets/Scripts/Cell.cs:134-150 | removing a subset takes away exactly its supporters |
| Catalogs.RaiseAll | Assets/Scripts/MapGeneration/MapBase.cs:187-190 | every module of the listing gains one count, every other keeps its count |
| Catalogs.CountSupport | Assets/Scripts/MapGeneration/MapBase.cs:184-191 | entry `x` of the row is the number of catalogue modules that allow `x` in direction `o` |
| Catalogs.CreateEntropy | Assets/Scripts/MapGeneration/MapBase.cs:179-192 | the matrix is the initial health: entry `[i][x]` counts the modules that allow `x` across the opposite of `i` |
| Catalogs.InitialHealthPointwise | Assets/Scripts/AbstractMap.cs:228-246 | a matrix holding the initial count in every entry is the initial matrix |
| Catalogs.CheckReachable | Assets/Scripts/MapGeneration/MapBase.cs:194-206 | passes exactly when no initial counter is zero |
| Catalogs.UnreachableFromNowhere | Assets/Scripts/MapGeneration/MapBase.cs:194-206 | an initial counter is zero exactly when no module allows that module from that side |
| Grids.Wrap | Assets/Scripts/MapGeneration/TileMap.cs:37-39 | the wrapped coordinate lies in `[0, n)` |
| Grids.WrapIsMod | Assets/Scripts/TilingMap.cs:45-46 | the wrapped coordinate is the Euclidean remainder of the coordinate |
| Grids.WrapIsRemainder | Assets/Scripts/TilingMap.cs:45-46 | the wrap is the source's formula `p % n + (p % n < 0 ? n : 0)` over C#'s truncating remainder |
| Grids.WrapPeriodic | Assets/Scripts/MapGeneration/TileMap.cs:37-39 | shifting a coordinate by whole periods does not change where it wraps to |
| Grids.Locate | Assets/Scripts/MapGeneration/TileMap.cs:30-40 | the definition of `GetCell` on a periodic map; `Grids.LocateInBox`, `Grids.LocatePeriodic` and `Grids.LocateBack` state what it hands out |
| Grids.LocateInBox | Assets/Scripts/MapGeneration/TileMap.cs:30-40 | `GetCell` is null exactly when `y` is outside the map; otherwise it hands out a position of the box, and a position of the box is its own lookup |
| Grids.LocatePeriodic | Assets/Scripts/TilingMap.cs:37-49 | the lookup is periodic in x and z |
| Grids.WrapBack | Assets/Scripts/MapGeneration/TileMap.cs:37-39 | a step, a wrap, the step back and a wrap return a coordinate that was in range |
| Grids.LocateBack | Assets/Scripts/MapGeneration/TileMap.cs:30-40 | from a stored position, a step and the opposite step lead back to the same stored position |
| Grids.LayerExactly | Assets/Scripts/MapGeneration/TileMap.cs:63-76 | the double loop over one layer visits exactly the positions of that height inside the box |
| Grids.SlabBounds | Assets/Scripts/MapGeneration/TileMap.cs:20-26 | every position the two inner loops produce has the given x and lies in range |
| Grids.SlabAscending | Assets/Scripts/MapGeneration/TileMap.cs:20-26 | the two inner loops produce positions in ascending order |
| Grids.SlabComplete | Assets/Scripts/MapGeneration/TileMap.cs:20-26 | the two inner loops produce every position of their slab |
| Grids.SlabLength | Assets/Scripts/MapGeneration/TileMap.cs:20-26 | the two inner loops produce `sy * sz` positions |
| Grids.BoxBounds | Assets/Scripts/MapGeneration/TileMap.cs:18-27 | every position of the triple loop lies in the box |
| Grids.BoxAscending | Assets/Scripts/MapGeneration/TileMap.cs:18-27 | the triple loop produces positions in ascending x, y, z order |
| Grids.BoxComplete | Assets/Scripts/MapGeneration/TileMap.cs:18-27 | every position of the box is produced |
| Grids.BoxLength | Assets/Scripts/MapGeneration/TileMap.cs:18-27 | the triple loop produces `sx * sy * sz` positions |
| Grids.BoxShape | Assets/Scripts/MapGeneration/TileMap.cs:44-53 | the enumeration is exactly the box, ascending and so without repeats, with `size.x * size.y * size.z` positions |
| Grids.AscendingDistinct | Assets/Scripts/MapGeneration/TileMap.cs:44-53 | an ascending enumeration never lists a position twice |
| Grids.Translate | Assets/Scripts/MapGeneration/MapBase.cs:151 | adding `start` keeps the length of the list |
| Grids.TranslateConcat | Assets/Scripts/MapGeneration/MapBase.cs:151 | translating a concatenation is concatenating the translations |
| Grids.AppendRow | Assets/Scripts/MapGeneration/MapBase.cs:149-152 | the innermost loop appends `start + (x, y, z)` for every `z` of the row, in order |
| Grids.AppendSlab | Assets/Scripts/MapGeneration/MapBase.cs:147-153 | the middle loop appends the translated slab, in order |
| Grids.Enumerate | Assets/Scripts/MapGeneration/MapBase.cs:142-156 | `Collapse(start, size)` targets the box translated by `start`, x outermost and z innermost |
| Grids.IsOutOfRange | Assets/Scripts/MapGeneration/InfiniteMap.cs:52-55 | the definition of the range test on integer coordinates; `Grids.RangeShape` states its shape |
| Grids.RangeShape | Assets/Scripts/MapGeneration/InfiniteMap.cs:52-55 | the centre is in range exactly when the limit is not negative, a larger limit keeps every position a smaller one keeps, and only the offset from the centre matters |
| Grids.ConstraintLayer | Assets/Scripts/MapGeneration/InfiniteMap.cs:61-65 | a non-negative `yLocal` is the layer itself; a negative one counts down from the top |
| RingBuffers.Empty | Assets/Scripts/RingBuffer.cs:27-33 | a new buffer keeps the shape, holds nothing and has a `TotalCount` of 0 |
| RingBuffers.Next | Assets/Scripts/RingBuffer.cs:39 | the slot after `p` is `p + 1`, wrapping to 0 after the last slot |
| RingBuffers.Back | Assets/Scripts/RingBuffer.cs:86 | the slot before `p` is `p - 1`, wrapping to the last slot before 0 |
| RingBuffers.Evicted | Assets/Scripts/RingBuffer.cs:41-46 | a push hands an item to the overflow callback exactly when the buffer is full |
| RingBuffers.Top | Assets/Scripts/RingBuffer.cs:61-70 | the top is absent exactly on an empty buffer, and is otherwise the newest item |
| RingBuffers.PushPopKeepInv | Assets/Scripts/RingBuffer.cs:50-56 | push and pop keep `0 <= Count <= Size`; a push adds one item unless the buffer is full, a pop takes one |
| RingBuffers.PopReturnsLastPushed | Assets/Scripts/RingBuffer.cs:36-93 | the item just pushed is the one `Pop` returns |
| RingBuffers.PushThenPop | Assets/Scripts/RingBuffer.cs:36-93 | a push and a pop restore the position and `TotalCount`, and the whole buffer below capacity; on a full buffer the oldest item is lost |
| RingBuffers.Last | Assets/Scripts/RingBuffer.cs:53-56 | the last `n` items: all of them when there are fewer |
| RingBuffers.PushAllKeepsLast | Assets/Scripts/RingBuffer.cs:36-58 | after any run of pushes only the last `Size` items remain and `TotalCount` has grown by the number of pushes |
| RingBuffers.LastOfLast | Assets/Scripts/RingBuffer.cs:49-56 | dropping the oldest item of a full buffer before a push does not change the last `Size` items |
| RingBuffers.OverflowKeepsOnlySize | Assets/Scripts/RingBuffer.cs:36-58 | pushing more than `Size` items onto an empty buffer leaves exactly the last `Size` of them |
| RingBuffers.BehindAfterPush | Assets/Scripts/RingBuffer.cs:39 | stepping the position on makes the new slot the newest and moves every other slot one step further back |
| RingBuffers.BehindAfterPop | Assets/Scripts/RingBuffer.cs:86 | stepping the position back brings every other slot one step nearer |
| RingBuffers.PushSlots | Assets/Scripts/RingBuffer.cs:39-49 | writing one slot on keeps the array in stack order, and the slot it overwrites held the oldest item exactly when the buffer was full |
| RingBuffers.PopSlots | Assets/Scripts/RingBuffer.cs:80-86 | the top slot holds the newest item, and clearing it and stepping back keeps stack order |
| RingBuffers.RingBuffer.constructor | Assets/Scripts/RingBuffer.cs:27-33 | a fresh array of `size` cleared slots, holding nothing |
| RingBuffers.RingBuffer.Push | Assets/Scripts/RingBuffer.cs:36-58 | the array-backed buffer moves exactly as the abstract push does, and the overflow callback receives exactly the evicted item |
| RingBuffers.RingBuffer.Peek | Assets/Scripts/RingBuffer.cs:61-70 | returns the newest item, or nothing where the source throws |
| RingBuffers.RingBuffer.Pop | Assets/Scripts/RingBuffer.cs:73-93 | returns the newest item and moves as the abstract pop does; an empty buffer, where the source throws, is left unchanged |
| RingBuffers.RingBuffer.Any | Assets/Scripts/RingBuffer.cs:96-99 | true exactly when an item can be popped |
| QueueDictionaries.Empty | Assets/Scripts/QueueDictionary.cs:13-18 | a new queue-dictionary is consistent and holds no key |
| QueueDictionaries.Front | Assets/Scripts/QueueDictionary.cs:21-24 | there is a front pair exactly when the queue is not empty |
| QueueDictionaries.OperationsKeepInv | Assets/Scripts/QueueDictionary.cs:27-65 | the getter, the setter and `Dequeue` keep every key queued once and the queued keys equal to the dictionary's keys; the getter returns what the dictionary then holds |
| QueueDictionaries.LookupPresentIsPure | Assets/Scripts/QueueDictionary.cs:44-54 | the getter on a present key changes nothing and returns its value |
| QueueDictionaries.LookupAfterStore | Assets/Scripts/QueueDictionary.cs:42-65 | the getter after the setter returns the stored value and changes nothing |
| QueueDictionaries.StoreKeepsFront | Assets/Scripts/QueueDictionary.cs:55-64 | the setter never changes the front key; a new key joins the back, an existing one keeps its place |
| QueueDictionaries.DequeueReturnsFront | Assets/Scripts/QueueDictionary.cs:27-33 | `Dequeue` returns the front key with its value, removes that key and leaves every other key with its value |
| QueueDictionaries.StoreThenDequeue | Assets/Scripts/QueueDictionary.cs:27-65 | one store into an empty queue-dictionary is dequeued again as the same pair, leaving it empty |
| QueueDictionaries.QueueDictionary.constructor | Assets/Scripts/QueueDictionary.cs:13-18 | an empty queue and dictionary with the given generated value |
| QueueDictionaries.QueueDictionary.Peek | Assets/Scripts/QueueDictionary.cs:21-24 | returns the front key and its value, or nothing where the source throws |
| QueueDictionaries.QueueDictionary.Dequeue | Assets/Scripts/QueueDictionary.cs:27-33 | returns the front pair and removes it from queue and dictionary; an empty queue, where the source throws, is left unchanged |
| QueueDictionaries.QueueDictionary.Any | Assets/Scripts/QueueDictionary.cs:36-39 | true exactly when a key is queued |
| QueueDictionaries.QueueDictionary.Get | Assets/Scripts/QueueDictionary.cs:44-54 | the getter: a missing key is given the generated value and queued at the back |
| QueueDictionaries.QueueDictionary.Set | Assets/Scripts/QueueDictionary.cs:55-64 | the setter: a new key is queued at the back, an existing key keeps its place, and the key holds the value |
| QueueDictionaries.QueueDictionary.Clear | Assets/Scripts/QueueDictionary.cs:68-72 | afterwards the queue and the dictionary are empty |
| Words.CountBits | Assets/Scripts/ModuleScripts/ModuleSet.cs:223-228 | the definition of `CountBits` as the number of set bits; `ModuleSets.CountWord` and `ModuleSets.CountIsCardinality` use it to count a set |
| Words.Fill | Assets/Scripts/ModuleScripts/ModuleSet.cs:90 | every bit of the word equals `b` (`0` and `~0`) |
| Words.NonZeroHasBit | Assets/Scripts/ModuleScripts/ModuleSet.cs:253-257 | a word other than `0` has a set bit |
| Words.NotOnesHasGap | Assets/Scripts/ModuleScripts/ModuleSet.cs:45 | a word other than `~0` has a clear bit |
| Words.SingleMask | Assets/Scripts/ModuleScripts/ModuleSet.cs:183-195 | `(w & (1 << k)) != 0` tests bit `k` |
| ModuleSets.Union | Assets/Scripts/ModuleScripts/ModuleSet.cs:134-147 | word-wise OR keeps the word count |
| ModuleSets.Difference | Assets/Scripts/ModuleScripts/ModuleSet.cs:168-181 | word-wise AND-NOT keeps the word count |
| ModuleSets.Intersection | Assets/Scripts/ModuleScripts/ModuleSet.cs:206-220 | word-wise AND keeps the word count |
| ModuleSets.UnionMembers | Assets/Scripts/ModuleScripts/ModuleSet.cs:134-147 | word-wise OR is set union |
| ModuleSets.DifferenceMembers | Assets/Scripts/ModuleScripts/ModuleSet.cs:168-181 | word-wise AND-NOT is set difference |
| ModuleSets.IntersectionMembers | Assets/Scripts/ModuleScripts/ModuleSet.cs:206-220 | word-wise AND is set intersection |
| ModuleSets.ModulesAreMembersBelow | Assets/Scripts/ModuleScripts/ModuleSet.cs:84 | the modules of a set are its set bits below the catalog size |
| ModuleSets.CountWord | Assets/Scripts/ModuleScripts/ModuleSet.cs:23-27 | counting through a word adds that word's set bits |
| ModuleSets.CountIsCardinality | Assets/Scripts/ModuleScripts/ModuleSet.cs:18-29 | counting set indices one at a time gives the size of the set |
| ModuleSets.LastWordSplit | Assets/Scripts/ModuleScripts/ModuleSet.cs:84 | `n` modules fill every word but the last, and `LastBits(n)` bits of the last |
| ModuleSets.UsageMask | Assets/Scripts/ModuleScripts/ModuleSet.cs:31-37 | the corrected mask keeps exactly the first `LastBits(n)` bits of the last word, all 64 when `n` is a multiple of 64 |
| ModuleSets.MaskedBits | Assets/Scripts/ModuleScripts/ModuleSet.cs:27 | masking the last word keeps exactly its bits below `LastBits(n)` |
| ModuleSets.EmptyAsWritten | Assets/Scripts/ModuleScripts/ModuleSet.cs:54-67 | the definition of `Empty` with the mask as written; `ModuleSets.LastItemUsageMaskIgnoresLastWord` shows it reports a set holding module 0 as empty |
| ModuleSets.LastItemUsageMaskIgnoresLastWord | Assets/Scripts/ModuleScripts/ModuleSet.cs:31-37 | as written, for 64 modules the mask is 0, so `Empty` reports a set that holds module 0 as empty |
| ModuleSets.WordsBelowCatalog | Assets/Scripts/ModuleScripts/ModuleSet.cs:258-269 | every word of a catalog starts at an index below the catalog size |
| ModuleSets.ModuleSet.constructor | Assets/Scripts/ModuleScripts/ModuleSet.cs:82-93 | zeroed words, or every bit set when full; the modules of a full set are the whole catalog |
| ModuleSets.ModuleSet.FromEnumerable | Assets/Scripts/ModuleScripts/ModuleSet.cs:110-118 | the members are exactly the listed modules |
| ModuleSets.ModuleSet.Copy | Assets/Scripts/ModuleScripts/ModuleSet.cs:103-108 | a fresh copy of the words, with the source's entropy, computed on the way if it was outdated |
| ModuleSets.ModuleSet.Add | Assets/Scripts/ModuleScripts/ModuleSet.cs:120-132 | the member is added; the entropy is marked outdated exactly when the bit was clear, and otherwise nothing changes |
| ModuleSets.ModuleSet.Remove | Assets/Scripts/ModuleScripts/ModuleSet.cs:149-166 | reports whether the member was there and removes it; the entropy is marked outdated exactly when it was |
| ModuleSets.ModuleSet.Contains | Assets/Scripts/ModuleScripts/ModuleSet.cs:190-195 | true exactly when the index is a member |
| ModuleSets.ModuleSet.Clear | Assets/Scripts/ModuleScripts/ModuleSet.cs:197-204 | no member remains and the entropy is outdated |
| ModuleSets.ModuleSet.AddSet | Assets/Scripts/ModuleScripts/ModuleSet.cs:134-147 | the members become the union; the entropy is outdated exactly when it was or a word changed |
| ModuleSets.ModuleSet.RemoveSet | Assets/Scripts/ModuleScripts/ModuleSet.cs:168-181 | the members become the difference; the entropy is outdated exactly when it was or a word changed |
| ModuleSets.ModuleSet.Intersect | Assets/Scripts/ModuleScripts/ModuleSet.cs:206-220 | the members become the intersection; the entropy is outdated exactly when it was or a word changed |
| ModuleSets.ModuleSet.Count | Assets/Scripts/ModuleScripts/ModuleSet.cs:18-29 | with the corrected mask, the number of modules in the set |
| ModuleSets.ModuleSet.Empty | Assets/Scripts/ModuleScripts/ModuleSet.cs:54-67 | with the corrected mask, true exactly when the set holds no module |
| ModuleSets.ModuleSet.Full | Assets/Scripts/ModuleScripts/ModuleSet.cs:39-52 | with the corrected mask, true exactly when every module of the catalog is in the set |
| ModuleSets.ModuleSet.Enumerate | Assets/Scripts/ModuleScripts/ModuleSet.cs:247-271 | yields exactly the modules of the set, in strictly increasing order |
| ModuleSets.ModuleSet.Entropy | Assets/Scripts/ModuleScripts/ModuleSet.cs:69-80 | returns the entropy of the current modules and leaves the cache up to date |
| ModuleSets.WordsChanged | Assets/Scripts/ModuleScripts/ModuleSet.cs:141-145 | two word arrays differ exactly when some word differs |
| Modules.Prefab.Faces | Assets/Scripts/ModuleScripts/Module.cs:43-50 | six faces in direction order; exactly the faces of the horizontal directions are horizontal |
| Modules.GetFace | Assets/Scripts/ModuleScripts/Module.cs:69-72 | the face a rotated module shows in direction `d`, horizontal exactly for a horizontal direction |
| Modules.VerticalFaceUnrotated | Assets/Scripts/ModuleScripts/Module.cs:49-50 | for DOWN and UP the rotated lookup reads the face itself |
| Modules.Fits | Assets/Scripts/ModuleScripts/Module.cs:37-53 | the definition of `Fits(direction, module)`; `Modules.FitsByFaces`, `Modules.FitsTurned` and `Modules.FitsIsNotSymmetric` characterise it |
| Modules.FitsByFaces | Assets/Scripts/ModuleScripts/Module.cs:37-53 | both branches of `Fits` compare the faces `GetFace` selects on either side and demand equal connectors |
| Modules.FitsConnector | Assets/Scripts/ModuleScripts/Module.cs:55-67 | the definition of `Fits(direction, connector)`; `Modules.FitsConnectorByFace` characterises it |
| Modules.FitsConnectorByFace | Assets/Scripts/ModuleScripts/Module.cs:55-67 | `Fits(direction, connector)` tests the connector of the face `GetFace` selects; for DOWN and UP the module's rotation is irrelevant |
| Modules.FitsIsNotSymmetric | Assets/Scripts/ModuleScripts/Module.cs:45 | only the first module's `symmetric` flag is read, so a module can fit left of another while that one does not fit right of it |
| Modules.RemShift | Assets/Scripts/ModuleScripts/Module.cs:51 | for non-negative rotations, equality modulo 4 survives adding the same amount to both |
| Modules.FitsTurned | Assets/Scripts/ModuleScripts/Module.cs:37-53 | turning both modules by the same number of quarter turns turns the direction in which they fit |
| Modules.FitsTurnedHorizontal | Assets/Scripts/ModuleScripts/Module.cs:41-46 | the horizontal case of `FitsTurned` |
| Modules.FitsHorizontal | Assets/Scripts/ModuleScripts/Module.cs:41-46 | the horizontal branch of `Fits` compares the two rotated horizontal faces |
| Modules.TurnedIndex | Assets/Scripts/ModuleScripts/Module.cs:71 | looking up `d` on a module turned by `k` is looking up `d` turned by `k` |
| Modules.FitsTurnedVertical | Assets/Scripts/ModuleScripts/Module.cs:47-52 | the vertical case of `FitsTurned`: equal extra turns keep the vertical faces' turns equal modulo 4 |
| LegacyModules.Fits | Assets/Scripts/Module.cs:35-42 | the definition of the four-way `Fits(direction, module)`; `LegacyModules.FitsByFaces`, `LegacyModules.FitsTurned` and `LegacyModules.FitsIsNotSymmetric` characterise it |
| LegacyModules.FitsByFaces | Assets/Scripts/Module.cs:35-42 | `Fits` compares the faces the two modules turn toward each other: equal connectors, and a symmetric first face or differing flips |
| LegacyModules.GetFaceUnrotated | Assets/Scripts/Module.cs:52-55 | an unrotated module shows its own faces |
| LegacyModules.GetFace | Assets/Scripts/Module.cs:52-55 | the definition of the four-way `GetFace`; `LegacyModules.GetFaceIsShift`, `LegacyModules.GetFaceUnrotated` and `LegacyModules.GetFaceTurned` characterise it |
| LegacyModules.GetFaceIsShift | Assets/Scripts/Module.cs:52-55 | the face shown toward `d` is the one `rotation` quarter turns further on |
| LegacyModules.GetFaceTurned | Assets/Scripts/Module.cs:52-55 | a module turned by `k` shows toward `d` the face it showed toward `d + k` |
| LegacyModules.FitsTurned | Assets/Scripts/Module.cs:35-42 | turning both modules by the same amount turns the direction in which they fit |
| LegacyModules.FitsDependsOnFaces | Assets/Scripts/Module.cs:35-42 | `Fits` depends only on the two faces turned toward each other |
| LegacyModules.OppositeTurned | Assets/Scripts/Module.cs:37 | turning commutes with `(d + 2) % 4` |
| LegacyModules.FitsConnector | Assets/Scripts/Module.cs:45-49 | the definition of the four-way `Fits(direction, connector)`; `LegacyModules.FitsConnectorByFace` characterises it |
| LegacyModules.FitsConnectorByFace | Assets/Scripts/Module.cs:45-49 | `Fits(direction, connector)` tests the connector of the face shown toward `direction` |
| LegacyModules.FitsIsNotSymmetric | Assets/Scripts/Module.cs:41 | only the first module's `symmetric` flag is read, so `Fits` is not symmetric in its two modules |
| Propagation.Forgotten | Assets/Scripts/Cell.cs:211-223 | a forgotten cell has no candidates; its position and chosen module stay |
| Propagation.TiledCell | Assets/Scripts/MapGeneration/TileMap.cs:30-40 | a periodic map answers only with a cell it holds |
| Propagation.Resolve | Assets/Scripts/MapGeneration/InfiniteMap.cs:31-50 | the cell found is one the map holds afterwards; cells already there are left as they were (an unbounded map only adds cells) |
| Propagation.DropToward | Assets/Scripts/Cell.cs:119-152 | one direction of the removal changes counters only: no cell loses its position, candidates or module, and the history, work area and build queue stay |
| Propagation.DropDirs | Assets/Scripts/Cell.cs:119-152 | the whole direction loop changes counters only |
| Propagation.RecordRemoval | Assets/Scripts/Cell.cs:109-117 | the removal is merged into the top history record and nothing else in the history changes |
| Propagation.RemoveOnce | Assets/Scripts/Cell.cs:105-159 | a missing or forgotten cell faults and changes nothing; otherwise the removed set is the request cut down to the candidates, the cell keeps the rest, and the result is a contradiction exactly when nothing is left |
| Propagation.RemoveOnceFrame | Assets/Scripts/Cell.cs:105-159 | the removal changes the candidates of its own cell only, and leaves the work area, the build queue and the history's shape alone |
| Propagation.Finish | Assets/Scripts/MapGeneration/MapBase.cs:58-69 | a drain that succeeds leaves the removal queue empty; an empty queue is left alone; the drain only narrows candidates, never those of a collapsed cell |
| Propagation.FinishTurn | Assets/Scripts/MapGeneration/MapBase.cs:60-67 | the definition of one turn of the drain; `Propagation.TurnKeeps`, `HealthLaw.TurnKeepsLaw` and `Restoring.TurnAccounted` state what it keeps |
| Propagation.TurnKeeps | Assets/Scripts/MapGeneration/MapBase.cs:60-67 | one turn of the drain only narrows candidates |
| Propagation.Remove | Assets/Scripts/Cell.cs:105-165 | the definition of `RemoveModules(s, recursive)`: one removal, then the drain when `recursive`; `Propagation.RemoveKeeps`, `HealthLaw.RemoveKeepsLaw` and `Maps.Map.RemoveModules` state what it keeps |
| Propagation.RemoveKeeps | Assets/Scripts/Cell.cs:105-159 | a removal from an open cell only narrows candidates |
| Propagation.DrainKeepsTrans | Assets/Scripts/MapGeneration/MapBase.cs:58-69 | what a drain keeps is kept over successive turns |
| Propagation.Raised | Assets/Scripts/Cell.cs:184-187 | a counter row keeps its length when modules support it again |
| Propagation.RaiseToward | Assets/Scripts/Cell.cs:175-188 | one direction of `AddModules` changes counters only |
| Propagation.RaiseDirs | Assets/Scripts/Cell.cs:175-188 | the whole direction loop of `AddModules` changes counters only |
| Propagation.Added | Assets/Scripts/Cell.cs:175-189 | the module becomes a candidate of the cell; no other cell's candidates and no module choice change |
| Propagation.AddTurn | Assets/Scripts/Cell.cs:169-190 | a module is added exactly when it is asked for and is neither a candidate nor the chosen module |
| Propagation.AddEach | Assets/Scripts/Cell.cs:169-190 | after the module loop the candidates are the old ones plus every requested module that was neither a candidate nor the chosen one |
| Propagation.AddBack | Assets/Scripts/Cell.cs:167-197 | the cell's new candidates are exactly the old ones plus the fresh requested modules; a collapsed cell that regains candidates is reopened; other cells keep their candidates; a missing cell, or a forgotten one asked about a module, faults and changes nothing |
| Propagation.Opened | Assets/Scripts/Cell.cs:68-70 | the new record for the cell is on top of a history of the same size and the module is chosen |
| Propagation.CollapseTo | Assets/Scripts/Cell.cs:60-76 | the definition of `Collapse(m)`; `Propagation.CollapseChooses` characterises its outcomes, and `Restoring.CollapseSteps` and `Restoring.ContradictionSteps` take it apart |
| Propagation.CollapseChooses | Assets/Scripts/Cell.cs:60-76 | a collapsed cell is left alone; otherwise the cell's record tops the history, a module that is not a candidate is a contradiction, and success means the module was a candidate and is now the only one and the chosen one, with the cell out of the work area and last in the build queue |
| Propagation.RemoveOthers | Assets/Scripts/Cell.cs:71-73 | removing every other candidate and draining succeeds only if the module was a candidate, and then leaves just that module |
| Propagation.KeepOnly | Assets/Scripts/Cell.cs:71-73 | removing every other candidate leaves just the module, and is a contradiction exactly when the module was not a candidate |
| Propagation.UndoKeys | Assets/Scripts/MapGeneration/MapBase.cs:164-167 | giving the removed modules back leaves the history, removal queue and build queue alone, and ends in success or a fault |
| Propagation.UndoOne | Assets/Scripts/MapGeneration/MapBase.cs:160-171 | one undo step pops exactly the top record; success leaves the record's cell with no module chosen |
| Propagation.UndoSteps | Assets/Scripts/MapGeneration/MapBase.cs:158-177 | a successful undo pops the newest `min(steps, Count)` records and nothing else, and lowers the total count by as many |
| Propagation.AddBackStep | Assets/Scripts/Cell.cs:167-197 | `AddModules` at a stored cell succeeds when the cell is live, and success changes that cell as `AddedBack` says and no other cell's candidates or module |
| Propagation.UndoKeysRestores | Assets/Scripts/MapGeneration/MapBase.cs:164-167 | when the record names each cell once and every named cell is stored: the key loop succeeds when the named cells are live, and success gives each named cell back what the record removed from it and leaves every other cell's candidates and module alone |
| HealthLaw.LookupIsLocate | Assets/Scripts/MapGeneration/TileMap.cs:30-40 | in a map holding its whole box a lookup is the wrapped position |
| HealthLaw.Mutual | Assets/Scripts/Cell.cs:119-122 | neighbourhood on a periodic map is mutual: the cell across a direction from `k` is `p` exactly when the cell across the opposite direction from `p` is `k` |
| HealthLaw.DropDirsClosed | Assets/Scripts/Cell.cs:119-152 | the direction loop of `RemoveModules` lowers, in every live cell, exactly the rows facing the cell, each once, by what the removed modules supported |
| HealthLaw.DropTowardClosed | Assets/Scripts/Cell.cs:121-151 | one turn of that loop lowers the facing row of the neighbour there and nothing else |
| HealthLaw.TouchedChanged | Assets/Scripts/Cell.cs:121-122 | changing the neighbour's row indexed by the opposite direction changes exactly the rows facing the cell across that direction |
| HealthLaw.RaiseDirsClosed | Assets/Scripts/Cell.cs:175-188 | the direction loop of `AddModules` raises, in every live cell, exactly the rows facing the cell, each once, by what the module allows |
| HealthLaw.RaiseTowardClosed | Assets/Scripts/Cell.cs:177-187 | one turn of that loop raises the facing row of the neighbour there and nothing else |
| HealthLaw.Compose | Assets/Scripts/Cell.cs:119-152 | the rows changed by one direction and by the directions after it make up the rows changed by all of them |
| HealthLaw.RemoveKeepsLaw | Assets/Scripts/Cell.cs:105-159 | a removal without draining keeps the health law: each counter of a live cell still counts the candidates across that allow its module |
| HealthLaw.LawAfterDrop | Assets/Scripts/Cell.cs:119-154 | the law holds at each row after the direction loop lowered the rows and the candidates were cut |
| HealthLaw.QueuedExactly | Assets/Scripts/Cell.cs:139-149 | under the law a counter of a live neighbour never goes below zero (the editor guard never fires), and the candidates queued there are exactly those that had support from the cell and have none left |
| HealthLaw.LawAfterRaise | Assets/Scripts/Cell.cs:175-189 | the law holds at each row after the rows were raised for a module that was not a candidate and it was added |
| HealthLaw.AddEachKeepsLaw | Assets/Scripts/Cell.cs:169-190 | the module loop of `AddModules` keeps the law |
| HealthLaw.AddTurnKeepsLaw | Assets/Scripts/Cell.cs:171-189 | one turn of the module loop keeps the law |
| HealthLaw.AddOneKeepsLaw | Assets/Scripts/Cell.cs:175-189 | adding one module that was not a candidate keeps the law |
| HealthLaw.LawIgnoresChoice | Assets/Scripts/Cell.cs:70 | setting or clearing the chosen module keeps the law |
| HealthLaw.LawIgnoresForgotten | Assets/Scripts/Cell.cs:211-215 | forgetting a cell keeps the law |
| HealthLaw.AddBackKeepsLaw | Assets/Scripts/Cell.cs:167-197 | `AddModules` on a periodic map keeps the law |
| HealthLaw.TurnKeepsLaw | Assets/Scripts/MapGeneration/MapBase.cs:60-67 | one turn of the drain keeps the law |
| HealthLaw.OnlyFacingTrans | Assets/Scripts/Cell.cs:119-152 | touching only the cell's candidates and the rows facing it is kept over successive steps |
| HealthLaw.ChangedOnlyFacing | Assets/Scripts/Cell.cs:119-152 | a direction loop touches only rows that face the cell |
| HealthLaw.ChangedThenSetOnlyFacing | Assets/Scripts/Cell.cs:119-154 | a direction loop followed by new candidates for the cell touches only those candidates and rows facing the cell |
| HealthLaw.RemoveOnlyFacing | Assets/Scripts/Cell.cs:105-159 | a removal touches only the cell's candidates and rows facing it |
| HealthLaw.AddEachOnlyFacing | Assets/Scripts/Cell.cs:169-190 | the module loop of `AddModules` touches only the cell's candidates and rows facing it |
| HealthLaw.AddOneOnlyFacing | Assets/Scripts/Cell.cs:175-189 | adding one module touches only the cell's candidates and rows facing it |
| HealthLaw.RemoveThenAddRestores | Assets/Scripts/Cell.cs:105-197 | on a lawful periodic map, `RemoveModules(s, false)` followed by `AddModules` of what it removed gives back exactly the cells the map had, counters included — the round trip `Undo` relies on |
| HealthLaw.CandidatesRestored | Assets/Scripts/Cell.cs:167-197 | after that round trip the cell's candidates are as before and it is not reopened |
| HealthLaw.FreshIsRemoved | Assets/Scripts/Cell.cs:169-189 | what the removal took is exactly what the addition gives back |
| HealthLaw.RowsRestored | Assets/Scripts/Cell.cs:14 | two lawful maps differing only in rows facing a live cell, with the same candidates there, agree on those rows too |
| HealthLaw.FreshMapLawful | Assets/Scripts/MapGeneration/MapBase.cs:179-192 | a fresh periodic map, every cell holding every module and the initial counters, keeps the law |
| HealthLaw.OpenedKeepsLaw | Assets/Scripts/Cell.cs:68-70 | pushing the record (which may forget the evicted record's cell) and choosing the module keep the law |
| HealthLaw.UndoKeysKeepLaw | Assets/Scripts/MapGeneration/MapBase.cs:164-167 | the key loop of `Undo` keeps the law |
| HealthLaw.UndoKeepsLaw | Assets/Scripts/MapGeneration/MapBase.cs:158-177 | `Undo(steps)` keeps the law |
| Restoring.OpenedAccounted | Assets/Scripts/Cell.cs:68-70 | pushing the collapse's record onto a history with room and choosing the module starts the account: the new record tops the history, holds nothing, and only the cell's module changed |
| Restoring.AccountStep | Assets/Scripts/Cell.cs:109-117 | recording a removal in the top record and taking it out of a live cell keeps the account: for every cell the record holds exactly the candidates lost since the collapse, and the collapsed cell keeps its module |
| Restoring.RemoveOnceKeys | Assets/Scripts/Cell.cs:105-159 | a removal on a periodic map neither adds nor drops a cell |
| Restoring.RemoveAccounted | Assets/Scripts/Cell.cs:105-159 | `RemoveModules(s, false)` on a live cell keeps the account, provided it is an open cell or it is the collapsed cell and `s` spares its module |
| Restoring.TurnAccounted | Assets/Scripts/MapGeneration/MapBase.cs:60-67 | one turn of the drain keeps the account |
| Restoring.DrainGoesOn | Assets/Scripts/MapGeneration/MapBase.cs:58-69 | after a good first turn the drain goes on, one step shorter, from the state that turn leaves |
| Restoring.DrainHalts | Assets/Scripts/MapGeneration/MapBase.cs:58-69 | otherwise the drain ends where it started or where its first turn left it |
| Restoring.DrainTrace | Assets/Scripts/MapGeneration/MapBase.cs:58-69 | a drain passes through a run of states from its start to its end, each the one a turn leaves from the one before |
| Restoring.FinishAccounted | Assets/Scripts/MapGeneration/MapBase.cs:58-69 | the whole drain keeps the account, whatever it ends in |
| Restoring.FinishLawful | Assets/Scripts/MapGeneration/MapBase.cs:58-69 | the whole drain keeps the health law |
| Restoring.CellSettled | Assets/Scripts/Cell.cs:167-197 | giving a cell back what the record holds for it restores its candidates, and its module unless it is the collapsed cell |
| Restoring.LedgerSettled | Assets/Scripts/MapGeneration/MapBase.cs:164-167 | giving back every key of the account restores every cell's candidates, and every module except the collapsed cell's |
| Restoring.UndoKeysAccounted | Assets/Scripts/MapGeneration/MapBase.cs:162-167 | popping the collapse's record and running the key loop succeeds and restores every cell's candidates and every other cell's module |
| Restoring.UndoAccounted | Assets/Scripts/MapGeneration/MapBase.cs:160-171 | one undo step on the account succeeds, leaves the history as it was before the collapse, and restores every cell's candidates and module |
| Restoring.LawfulAgree | Assets/Scripts/Cell.cs:14 | two lawful periodic maps with the same candidates agree on every counter the law governs |
| Restoring.CollapseSteps | Assets/Scripts/Cell.cs:60-76 | a successful collapse of an open cell is the opening, the removal of the cell's other candidates, and the drain |
| Restoring.AccountedThenUndo | Assets/Scripts/MapGeneration/MapBase.cs:160-171 | one `Undo` step from any state the collapse of an open cell has brought a lawful periodic map to, whatever its drain ended in, succeeds and gives back the history, every cell's candidates and module, and every counter the law governs |
| Restoring.CollapseThenUndo | Assets/Scripts/MapGeneration/MapBase.cs:160-171 | on a lawful periodic map whose history has room, a successful `Collapse(m)` of an open cell followed by one `Undo` step succeeds and gives back the history, every cell's candidates and module, and every counter the law governs |
| Restoring.ContradictionSteps | Assets/Scripts/Cell.cs:60-76 | a collapse of an open cell that ends in a contradiction is the opening, the removal of the cell's other candidates, and, when a candidate is left, the drain |
| Restoring.ContradictionThenUndo | Assets/Scripts/MapGeneration/MapBase.cs:110-127 | the backtracking case: on a lawful periodic map whose history has room, a `Collapse(m)` of an open cell that ends in a contradiction, a cleared removal queue and one `Undo` step give back the history, every cell's candidates and module, and every counter the law governs |
| Narrowing.Rejected | Assets/Scripts/Cell.cs:199-209 | the modules removed are exactly the candidates that miss the demand: a face that is not walkable, or a connector fit that differs from what is enforced or excluded |
| Narrowing.RemoveLeaves | Assets/Scripts/Cell.cs:154-164 | removing every candidate is a contradiction; a removal with its drain that succeeds leaves the cell live with only candidates it had that were not removed |
| Narrowing.NarrowedKeepsOnly | Assets/Scripts/MapGeneration/MapBase.cs:71-76 | `Enforce`/`EnforceConnector`/`ExcludeConnector`: a null or forgotten cell faults; a cell with no candidate that meets the demand runs into a contradiction; on success the cell keeps only candidates it had that meet the demand |
| Narrowing.WalkwayIndex | Assets/Scripts/MapGeneration/MapBase.cs:80 | the direction of the walkway is a direction of the solver; for the four-way `EnforceWalkway` (AbstractMap.cs:84-89) it is the corrected index of the step, not `GetIndex` as written (see "## Left out") |
| Narrowing.WalkwayFacesEachOther | Assets/Scripts/MapGeneration/MapBase.cs:78-83 | between neighbours the walkway is enforced on the start toward the destination and on the destination toward the start: the index of a step is its direction, and the opposite direction leads back; for the four-way `EnforceWalkway` (AbstractMap.cs:84-89) this holds only with the corrected index, and as written it fails for steps along x (see "## Left out") |
| Narrowing.WalkwayAsWrittenFacesAway | Assets/Scripts/AbstractMap.cs:84-89 | as written, the four-way walkway takes `GetIndex` of the step: along z it is the step's own direction, along x it is the opposite one, so the start's walkway and the destination's look away from each other |
| Narrowing.NarrowAllAppend | Assets/Scripts/MapGeneration/InfiniteMap.cs:59-94 | running two lists of narrowings in turn is running their concatenation; the first failure ends the run |
| Narrowing.ShrinksTrans | Assets/Scripts/Cell.cs:154 | only losing candidates is kept over successive steps |
| Narrowing.ResolveKept | Assets/Scripts/MapGeneration/InfiniteMap.cs:38-41 | once a position's cell exists, the position resolves to it while no cell goes away |
| Narrowing.ResolveAgain | Assets/Scripts/MapGeneration/InfiniteMap.cs:31-50 | resolving a position twice hands out the same cell and creates nothing more |
| Narrowing.RemoveOnceShrinks | Assets/Scripts/Cell.cs:105-159 | a removal only narrows candidates, even on a collapsed cell |
| Narrowing.FinishShrinks | Assets/Scripts/MapGeneration/MapBase.cs:58-69 | a drain only narrows candidates |
| Narrowing.NarrowedShrinks | Assets/Scripts/Cell.cs:199-209 | narrowing may create the cell it resolves to and otherwise only narrows: every live cell stays live with the same or fewer candidates |
| Narrowing.NarrowedMeets | Assets/Scripts/Cell.cs:199-209 | a narrowing that succeeds leaves its cell live with only candidates that meet the demand |
| Narrowing.MeetsKept | Assets/Scripts/Cell.cs:154 | a cell that meets a demand keeps meeting it while cells only narrow |
| Narrowing.NarrowAllMeets | Assets/Scripts/MapGeneration/TileMap.cs:56-96 | a run of narrowings only narrows, and if it succeeds every cell it aimed at meets its demand, the early ones too |
| Narrowing.Aimed | Assets/Scripts/MapGeneration/TileMap.cs:63-76 | every position of the list with the same demand, in order |
| Narrowing.Faces | Assets/Scripts/MapGeneration/InfiniteMap.cs:82-93 | the default cell with the connector demand in each of the constraint's directions, in order |
| Narrowing.ColumnDirections | Assets/Scripts/MapGeneration/InfiniteMap.cs:66-80 | a lazy map constrains its default column only in directions of the solver |
| Narrowing.AimsCover | Assets/Scripts/MapGeneration/TileMap.cs:58 | every aim of every constraint is among the aims of the list |
| Narrowing.LayerAims | Assets/Scripts/MapGeneration/TileMap.cs:60-93 | `TileMap` narrows toward up exactly the cells of its top layer and toward down exactly those of its bottom layer |
| Narrowing.ConstraintsHold | Assets/Scripts/MapGeneration/TileMap.cs:56-96 | after the constraints are applied without failure, every cell a constraint aimed at has only candidates that fit (enforce) or miss (exclude) the connector in the constrained direction |
| Areas.Gather | Assets/Scripts/MapGeneration/MapBase.cs:92 | gathering the targets only adds to the cells handed out and the work area, and leaves existing cells as they were |
| Areas.GatherCovers | Assets/Scripts/MapGeneration/MapBase.cs:92 | every cell handed out for a target is a cell of the map and is collapsed or in the work area; the work area holds only cells handed out, open when they were |
| Areas.GatherTiled | Assets/Scripts/MapGeneration/TileMap.cs:30-40 | a periodic map creates no cell while gathering and hands out exactly the cells the targets wrap to |
| Areas.TracksTrans | Assets/Scripts/MapGeneration/MapBase.cs:94-130 | "collapsed or in the work area" is kept over successive steps |
| Areas.CoveredKept | Assets/Scripts/MapGeneration/MapBase.cs:94 | every target's cell stays collapsed or in the work area, so an empty work area means every target's cell has collapsed |
| Areas.DrainTracks | Assets/Scripts/MapGeneration/MapBase.cs:58-69 | a drain keeps every chosen module and the work area |
| Areas.CollapseTracks | Assets/Scripts/Cell.cs:60-76 | `Collapse(m)` takes a cell out of the work area only once it has collapsed |
| Areas.OpenedTracks | Assets/Scripts/Cell.cs:68-70 | pushing the record and choosing the module keep every tracked cell tracked |
| Areas.SettleTracks | Assets/Scripts/MapGeneration/MapBase.cs:47-51 | `NotifyCollapsed` removes only a collapsed cell from the work area |
| Areas.RemoveTracks | Assets/Scripts/Cell.cs:71-73 | removing the other candidates keeps tracked cells tracked and the cell keeps its module |
| Areas.AddBackTracks | Assets/Scripts/MapGeneration/MapBase.cs:53-56 | `AddModules` puts a collapsed cell that regains candidates back into the work area |
| Areas.UndoKeysTracks | Assets/Scripts/MapGeneration/MapBase.cs:164-167 | the key loop of `Undo` keeps tracked cells tracked |
| Areas.UndoOneTracks | Assets/Scripts/MapGeneration/MapBase.cs:162-170 | one undo step puts the reopened cell back into the work area |
| Areas.UndoStepsTracks | Assets/Scripts/MapGeneration/MapBase.cs:158-177 | `Undo(steps)` keeps tracked cells tracked |
| Areas.Doubled | Assets/Scripts/MapGeneration/MapBase.cs:122 | `backtrack *= 2` on a 32-bit `int`: the result is in range and congruent to twice the input |
| Areas.DoubledKeepsAmount | Assets/Scripts/MapGeneration/MapBase.cs:112-128 | the backtrack amount stays zero, a power of two from two up, or, once doubling has passed 2^31, its 32-bit wrap (-2^31, then zero) |
| Maps.EnqueueUnion | Assets/Scripts/Cell.cs:141 | adding removals for one key in two rounds queues the key once, with their union |
| Maps.EmptiedStep | Assets/Scripts/Cell.cs:134-150 | one more removed module queues, on top of what was queued, exactly the candidates it supports whose counter then stands at one |
| Maps.WithdrawList | Assets/Scripts/Cell.cs:136-150 | every module of the list loses one supporter, and exactly the candidates of the neighbour whose counter stood at one are queued |
| Maps.LowerStep | Assets/Scripts/Cell.cs:134-151 | lowering once more for every module `m` allows is lowering by the support of one more module |
| Maps.HitStep | Assets/Scripts/Cell.cs:139 | the candidates the list walk queues are those that one more module empties |
| Maps.Withdraw | Assets/Scripts/Cell.cs:134-151 | the module loop toward one neighbour lowers its facing row by the support of the removed modules and queues exactly the candidates whose counter passes through one, in any module order |
| Maps.LoweredIsDropped | Assets/Scripts/Cell.cs:149 | counters lowered by the support of all removed modules are the dropped row |
| Maps.WithdrawOne | Assets/Scripts/Cell.cs:134-151 | one removed module keeps the loop invariant: counters lowered by the support so far, queue holding what that emptied |
| Maps.FreshCells | Assets/Scripts/MapGeneration/TileMap.cs:13-28 | a new periodic map has exactly one full cell, with the initial counters, at each position of its box |
| Maps.CellsAt | Assets/Scripts/TilingMap.cs:16-34 | a full cell at exactly the given positions |
| Maps.RaiseList | Assets/Scripts/Cell.cs:184-187 | every module of the list gains one supporter |
| Maps.UndoStops | Assets/Scripts/MapGeneration/MapBase.cs:160-172 | a failing undo step ends `Undo` with its state |
| Maps.UndoOn | Assets/Scripts/MapGeneration/MapBase.cs:160-172 | a successful undo step leaves one step fewer to do |
| Maps.Map.OfSize | Assets/Scripts/MapGeneration/TileMap.cs:13-28 | a new periodic map is valid, empty of history and queue, with a full cell at each position of the box |
| Maps.Map.OfHeight | Assets/Scripts/MapGeneration/InfiniteMap.cs:31-50 | a new unbounded map is valid, has no cells yet, a fresh default column of its height and the range limit 80 around the origin |
| Maps.Map.Lookup | Assets/Scripts/MapGeneration/TileMap.cs:30-40 | a periodic map hands out a cell exactly for positions within its height, the position wrapped into the box |
| Maps.Map.GetCell | Assets/Scripts/MapGeneration/InfiniteMap.cs:31-50 | the map ends in the cells `Resolve` computes and hands out its cell; a periodic map creates nothing |
| Maps.Map.IsCellInitialized | Assets/Scripts/MapGeneration/InfiniteMap.cs:107-110 | the definition: the map holds a cell at the position; `Narrowing.ResolveKept` shows a cell, once created, stays held |
| Maps.Map.OutOfRange | Assets/Scripts/MapGeneration/InfiniteMap.cs:52-55 | the definition: `Grids.IsOutOfRange` about the map's centre and limit; `Grids.RangeShape` states its shape |
| Maps.Map.DefaultCell | Assets/Scripts/MapGeneration/InfiniteMap.cs:102-105 | a cell of the default column exactly for heights within the map |
| Maps.Map.OnHitRangeLimit | Assets/Scripts/MapGeneration/InfiniteMap.cs:114-124 | the warning is muted from the first hit within the height on; nothing else changes |
| Maps.Map.CopyInitialEntropy | Assets/Scripts/MapGeneration/MapBase.cs:211-214 | the initial counters: for each direction and module, the support it has from a full neighbour |
| Maps.Map.GetAllCells | Assets/Scripts/MapGeneration/TileMap.cs:42-54 | every cell of the map exactly once; a periodic map in x-then-y-then-z order |
| Maps.Map.NotifyCollapsed | Assets/Scripts/MapGeneration/MapBase.cs:47-51 | the cell leaves the work area and joins the build queue |
| Maps.Map.NotifyCollapseUndone | Assets/Scripts/MapGeneration/MapBase.cs:53-56 | the cell goes back into the work area |
| Maps.Map.Forget | Assets/Scripts/Cell.cs:211-215 | the cell drops its candidates and counters, and the map stays valid |
| Maps.Map.Toward | Assets/Scripts/Cell.cs:121-151 | one direction of the removal ends in the state `DropToward` computes |
| Maps.Map.RemoveOnceAt | Assets/Scripts/Cell.cs:105-159 | `RemoveModules(s, false)` ends in the state, removed set and outcome `RemoveOnce` computes |
| Maps.Map.Spread | Assets/Scripts/Cell.cs:119-152 | the direction loop ends in the state `DropDirs` computes |
| Maps.Map.Turn | Assets/Scripts/MapGeneration/MapBase.cs:62-67 | one turn of the drain ends in the state `FinishTurn` computes |
| Maps.Map.FinishRemovalQueue | Assets/Scripts/MapGeneration/MapBase.cs:58-69 | the drain ends in the state `Finish` computes, and a periodic map keeps the counters law |
| Maps.Map.DrainTurn | Assets/Scripts/MapGeneration/MapBase.cs:60-68 | a turn either ends the drain with its outcome or leaves the rest of it to do, keeping the law |
| Maps.Map.RemoveModules | Assets/Scripts/Cell.cs:105-165 | `RemoveModules(s, recursive)` keeps the map valid and ends in what `Remove` computes |
| Maps.Map.Narrow | Assets/Scripts/Cell.cs:199-209 | narrowing a cell to a demand ends in what `Narrowed` computes, keeping the map valid |
| Maps.Map.Enforce | Assets/Scripts/MapGeneration/MapBase.cs:71-76 | `Enforce(start, direction)` keeps the candidates with a walkable face that way |
| Maps.Map.EnforceConnector | Assets/Scripts/Cell.cs:199-203 | the cell keeps the candidates that fit the connector |
| Maps.Map.ExcludeConnector | Assets/Scripts/Cell.cs:205-209 | the cell keeps the candidates that do not fit the connector |
| Maps.Map.EnforceWalkway | Assets/Scripts/MapGeneration/MapBase.cs:78-83 | a walkway on the start toward the destination, then on the destination back; also the four-way `EnforceWalkway` (AbstractMap.cs:84-89), with the corrected index (see "## Left out") |
| Maps.Map.NarrowEach | Assets/Scripts/MapGeneration/TileMap.cs:58-95 | the aims narrowed in order up to the first failure |
| Maps.Map.NarrowConstraints | Assets/Scripts/MapGeneration/InfiniteMap.cs:59-94 | the constraint loop narrows the aims of every constraint, in order |
| Maps.Map.ApplyConstraints | Assets/Scripts/MapGeneration/TileMap.cs:56-96 | a periodic map narrows its own aimed cells; an unbounded one narrows its default column and leaves its own cells alone |
| Maps.Map.Restore | Assets/Scripts/Cell.cs:177-187 | one direction of `AddModules` ends in what `RaiseToward` computes |
| Maps.Map.RestoreAll | Assets/Scripts/Cell.cs:175-188 | the direction loop of `AddModules` ends in what `RaiseDirs` computes |
| Maps.Map.AddEachAt | Assets/Scripts/Cell.cs:169-190 | the module loop ends in what `AddEach` computes |
| Maps.Map.AddTurnAt | Assets/Scripts/Cell.cs:171-189 | one turn of the module loop ends in what `AddTurn` computes |
| Maps.Map.AddOne | Assets/Scripts/Cell.cs:175-189 | adding one module ends in what `Added` computes |
| Maps.Map.AddBackAt | Assets/Scripts/Cell.cs:167-197 | `AddModules` ends in what `AddBack` computes |
| Maps.Map.AddModules | Assets/Scripts/Cell.cs:167-197 | `AddModules` keeps the map valid, counters law included |
| Maps.Map.Open | Assets/Scripts/Cell.cs:68-70 | the record is pushed (an overflow forgets the evicted record's cell) and the module chosen |
| Maps.Map.CollapseAt | Assets/Scripts/Cell.cs:60-76 | `Collapse(module)` ends in what `CollapseTo` computes and keeps the law |
| Maps.Map.Collapse | Assets/Scripts/Cell.cs:60-76 | `Collapse(module)` keeps the map valid and ends in what `CollapseTo` computes |
| Maps.Map.CollapseRandom | Assets/Scripts/Cell.cs:78-102 | a cell without candidates is a contradiction and a collapsed one a fault, both changing nothing; otherwise the cell collapses to one of its candidates |
| Maps.Map.UndoKeysAt | Assets/Scripts/MapGeneration/MapBase.cs:164-167 | the key loop ends in what `UndoKeys` computes |
| Maps.Map.UndoKey | Assets/Scripts/MapGeneration/MapBase.cs:166 | one key either ends the loop or leaves the rest of it to do |
| Maps.Map.UndoLast | Assets/Scripts/MapGeneration/MapBase.cs:162-171 | one undo step ends in what `UndoOne` computes |
| Maps.Map.Undo | Assets/Scripts/MapGeneration/MapBase.cs:158-177 | `Undo(steps)` keeps the map valid, ends in what `UndoSteps` computes, and resets the barrier exactly when the history empties |
| Maps.Map.GatherWorkArea | Assets/Scripts/MapGeneration/MapBase.cs:91-92 | the work area is the open cells handed out for the targets |
| Maps.Map.SelectMinEntropy | Assets/Scripts/MapGeneration/MapBase.cs:96-107 | nothing is selected exactly when the work area holds a forgotten cell or no cell with candidates (the source's null selection then faults); otherwise the cell selected is in the work area, has candidates, and has the least entropy among such cells |
| Maps.Map.Backoff | Assets/Scripts/MapGeneration/MapBase.cs:114-123 | past the barrier the barrier moves to `TotalCount` and the backtrack starts at two; otherwise it doubles as a 32-bit `int`; either way it stays a backtrack amount |
| Maps.Map.CollapseTargets | Assets/Scripts/MapGeneration/MapBase.cs:85-140 | `Collapse(targets)` never ends in a contradiction: a contradiction is caught and undone, and any other fault ends the call; success leaves the work area empty and every cell handed out for a target collapsed |
| Maps.Map.CollapseAttempt | Assets/Scripts/MapGeneration/MapBase.cs:108-129 | each attempt keeps every target's cell collapsed or in the work area |
| Maps.Map.CollapseBox | Assets/Scripts/MapGeneration/MapBase.cs:142-156 | `Collapse(start, size)` collapses every cell of the box at `start` on success |
| Maps.Map.LawAfterUndo | Assets/Scripts/MapGeneration/MapBase.cs:158-177 | a periodic map keeps the counters law across `Undo` |

## Left out

- Floating-point entropy: `ModuleSet.Entropy`, `FindEntropy`/`CalculateEntropy`, `Module.log` and `PLogP` are not modelled. Entropy is a function from candidate sets to `real`, supplied when a set or a map is made. Only the cache flag of `ModuleSet` is modelled.
- The weighted random roll of `CollapseRandom` (`NextDouble` and prefab probabilities) is not modelled. The model picks some candidate, so every property of `Maps.Map.CollapseRandom` holds for any candidate the roll could pick.
- `CountBits`: its bit arithmetic is not modelled. `Count` counts the set bits word by word, one bit at a time.
- `Vector3Int.magnitude` and the float sign tests of `GetIndex` become integer tests: squared distance against squared limit, and the signs of integer components.
- Exceptions are outcomes.
  - `Exception(cell)` / `CollapseFailedException` becomes `Contradiction`.
  - A null dereference or an "already collapsed" exception becomes `Fault`.
  - Where the source unwinds, the model returns with the state reached at that point.
  - Both solvers catch only contradictions in `Collapse(targets)`. The six-way solver throws `new Exception(this)` with a cell (Cell.cs:82, Cell.cs:158), so `Exception` there is the project's own class, which is not part of this model; `catch (Exception)` (MapBase.cs:112) catches that class and not `System.Exception`. A `Fault` in the selection, the collapse or `Undo` ends `Maps.Map.CollapseTargets`.
- Fuel bounds. `Finish`, `Remove`, `CollapseTo`, `Narrowed` and `Maps.Map.CollapseTargets` take a bound on their loops, and end in `OutOfFuel` when it runs out. The source loops until done. Termination of the drain and of the collapse loop is not proved.
- The health counting law (`HealthLaw.Lawful`) is proved only for periodic maps. A lazy map creates cells during propagation as copies of its default column, and the law is not stated for it.
- `Propagation.CollapseChooses` and `Maps.Map.CollapseTargets` say what success means. They do not say the solver succeeds on a satisfiable input.
- `SelectMinEntropy`: the tie-break is not modelled. The source iterates a `HashSet`, whose order is unspecified, and takes the first cell with strictly least entropy. The model returns some cell of least entropy.
- Module loop order:
  - the loop in `RemoveModules` runs in any order, and `Maps.Withdraw` proves the result does not depend on it;
  - `AddModules` walks modules in ascending order, as a module set enumerates them.
- `Propagation.RemoveOnce`: a contradiction is an empty set of candidates, which is what the corrected `ModuleSets.ModuleSet.Empty` reports. The source tests `modules.Empty` (Cell.cs:156, Slot.cs:167) with the mask of the first finding below. With a catalog whose size is a multiple of 64, it also reports a contradiction when only modules of the last word remain. The four-way `Slot.RemoveModules` also bounds its counter loop by the masked `Count` (Slot.cs:143), so with such a catalog it skips the neighbours that lie in the last word. The propagation model, in both solvers, uses the corrected set and lowers every neighbour's counter, and does not follow those paths.
- `Propagation.AddBack`: reopens a collapsed cell when its candidates are not empty as a set. The source's `!modules.Empty` (Cell.cs:192, Slot.cs:212) uses the same mask, for the same reason.
- `Narrowing.WalkwayIndex`: in the four-way solver, `Narrowing.WalkwayBetween` and `Maps.Map.EnforceWalkway` take the corrected index `Orientations.DirectionIndex`. AbstractMap.cs:86 calls `GetIndex` as written (it names `Orientations`, while Orienations.cs declares the four-way `Directions`; the model reads the call as that four-way table). For a step along x the source narrows the start's face that looks away from the destination, and the destination's face that looks away from the start (`Narrowing.WalkwayAsWrittenFacesAway`). The model narrows the faces that look toward each other.
- `Narrowing.WalkwayFacesEachOther`: holds for the six-way solver as written, and for the four-way solver only with the corrected index. As written, the four-way walkway fails it for steps along x.
- `Propagation.UndoSteps`: restoration is proved for one collapse undone by one step, on a periodic map whose history has room: a successful collapse (`Restoring.CollapseThenUndo`), and one that ends in a contradiction, with the removal queue cleared, as in the backtracking of `Collapse(targets)` (`Restoring.ContradictionThenUndo`). A collapse that faults is not covered. Undoing several collapses is not stated. When the history is full, the push forgets the evicted record's cell, and nothing gives it back. Counters are stated only for the rows the law governs: a live cell's row facing a live cell.
- The 16-bit `short` health counters are unbounded integers: no wrap-around is modelled.
- The editor-only checks (`#if UNITY_EDITOR`) are not modelled:
  - the negative-health guard in `RemoveModules` (`HealthLaw.QueuedExactly` proves it never fires on a lawful periodic map);
  - the `OnHitRangeLimit` call from `RemoveModules`;
  - the unconditional `map as InfiniteMap` cast of `Slot.RemoveModules`;
  - progress bars and `Debug.Log`.
- `Maps.Map.OnHitRangeLimit` models the mute flag only; the warning text is not built.
- `GameObject`, `ConstructionComplete`, the consumer of the build queue, rendering, culling, input, threads and chunk scheduling are not part of this model. The build queue is the sequence `built`.
- The editor authoring of the catalog (`ModuleData`, `ModulePrefab` and the editor data) is not part of this model. The catalog (`possibleNeighbours`, faces) is a fixed input.
- `ApplyConstraints` and `ApplyBoundaryConstraints` are modelled as the list of cells they narrow, each with its demand. `Maps.Map.ApplyConstraints` runs that list.
  - The old `InfiniteMap.ApplyBoundaryConstraints` narrows only the horizontal sides of its default column (`PossibleDirections`).
  - `BoundaryConstraint` and `Constraints` share one datatype, `Grids.Constraint`.
- The `System.Random` seeding in the map constructors is not modelled.
- The lazy map's `GetAllCells` lists its cells in some order. The source returns the dictionary's value order, which is unspecified.
- `RingBuffers.RingBuffer.Push`: requires a positive size. On a buffer of size 0 the source's `% Size` throws `DivideByZeroException`.
- `Directions.Rotate`: takes a non-negative amount. For an amount that makes the table index negative, the source throws `IndexOutOfRangeException` (`Directions.RotateReadsTable` gives that index).
- `Orientations.Rotate`: takes a non-negative amount. With a negative one, the source's `%` leaves a negative index and throws.
- `ModuleSets.ModuleSet.Count`: requires a non-empty catalog. With no modules the source reads the last word of an empty array and throws.
- `ModuleSets.ModuleSet.Empty`: requires a non-empty catalog, for the same reason.
- `ModuleSets.ModuleSet.Full`: requires a non-empty catalog, for the same reason.
- `Maps.Map.OfHeight`: requires a non-empty catalog. The source throws `InvalidOperationException` on an empty one.

## Findings

| source | as written | input that shows it | evidently intended | confidence | as-written member | corrected member |
|---|---|---|---|---|---|---|
| Assets/Scripts/ModuleScripts/ModuleSet.cs:31-37 | `LastItemUsageMask` is `(1 << (N % 64)) - 1`, which is 0 when `N % 64 == 0`, so `Count`, `Empty` and `Full` ignore the last word | a catalog of 64 modules and the set {0}: `Empty` reports it empty | mask every bit of a full last word | not executed | ModuleSets.LastItemUsageMaskIgnoresLastWord | ModuleSets.ModuleSet.Empty |
| Assets/Scripts/Orienations.cs:64-82 | the four-way `GetIndex` returns 1 for positive x and 3 for negative x, but the table puts left (-x) at 1 and right (+x) at 3 | `GetIndex(Direction[1])` (left) is 3 | `GetIndex(Direction[d]) == d`, so that `EnforceWalkway` enforces the face toward the destination | not executed | Orientations.GetIndexSwapsLeftAndRight | Orientations.DirectionIndexInvertsVector |

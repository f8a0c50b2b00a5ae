# Harmonic Flow: the playlist reordering engine in Dafny

Harmonic Flow reorders a DJ's track table so that neighbouring tracks are in
compatible keys on the Camelot wheel and, inside each key, follow a tempo
(BPM) contour. This project models the engine of `app.py` and proves what it
does:

- `CAMELOT_ORDER` and `get_camelot_distance` (module `Camelot`, file
  `camelot.dfy`). The 24 codes "1A" .. "12B" sit in one interleaved list. The
  distance is 100 for an empty or unknown key and 1 for a relative
  major/minor pair. Otherwise it is the index difference in that list, folded
  past 12.
- The nearest-neighbour key ordering of `optimize_playlist` (module `KeyPath`,
  file `key_path.dfy`). The distinct valid keys are taken in order of first
  appearance. The path starts with the first of them. Each round moves the
  remaining key nearest to the end of the path onto the path; on ties it
  takes the earliest one, as Python's `min` does. `list.index` and
  `list.remove` are in module `Seqs` (`seqs.dfy`).
- The track table and the per-key operations (module `Tracks`,
  `tracks.dfy`): the split into rows with and without a valid key
  (`isin(CAMELOT_ORDER)`), `get_group`, the energy-mode labels, and the BPM
  sort of one group.
- `optimize_playlist` as a whole (module `Playlist`, `playlist.dfy`):
  `OptimizePlaylist` follows the source step by step. It calls the loop
  method `OrderKeys` for the `while unique_keys` loop and the loop method
  `BuildPlaylist` for the `for key in sorted_keys` loop. Each method is proved
  equal to a specification function (`GreedyPath`, `Arrange`, `Optimize`).
  The lemmas state what the result means for every input.

A row is `Row(key, bpm, id)`. `id` stands for the rest of the row (artist,
title, index label), so two equal rows are the same row. A table is
`Table(hasKeyColumn, rows)`. The energy mode is the label string; `ModeOf`
maps it to `RampUp | RampDown | Wave | Other`.

The distance modelled is the one `app.py` computes. It is not the
shortest-path distance on the two-ring wheel graph, which is at most 7.
`DistanceIsRingSteps` shows that the
code's distance is the number of steps between the two positions on a cycle
of 24. So 8A to 9A scores 2, 12B to 1A scores 1, and opposite keys score 12.
Likewise `app.py` orders keys only by the greedy rule above. It does not run
an exact shortest-path search, normalise key spellings such as "Am" or "08A",
reverse the path by boundary BPM, or report transition statistics. None of
these are modelled.

## Model

| member | source | states |
|---|---|---|
| `Seqs.IndexOf` | app.py:25-26 | `list.index(x)`: the result holds `x`, and no earlier position does |
| `Seqs.RemoveFirstCount` | app.py:104 | `list.remove(x)` shortens the list by one and takes away exactly one copy of `x` |
| `Seqs.NoDupPermutation` | app.py:96-104 | a reordering of a duplicate-free list is duplicate-free |
| `Camelot.CamelotOrderListing` | app.py:14-18 | the list equals the literal "1A", "1B", ..., "12A", "12B" |
| `Camelot.CamelotOrderNoDup` | app.py:14-18 | the 24 codes are pairwise distinct |
| `Camelot.CodeShape` | app.py:14-18 | every code has 2 or 3 characters, no leading '0', and ends in 'A' or 'B' |
| `Camelot.Position` | app.py:25-26 | a valid code's index is below 24 and holds that code |
| `Camelot.PositionParts` | app.py:29-30 | a code's number part and letter are read off its index in the list |
| `Camelot.CamelotDistance` | app.py:20-42 | the result is 100 exactly when a key is missing or not one of the 24 codes; between valid codes it is at most 12 |
| `Camelot.PenaltyExamples` | app.py:22-23 | "", "Am" and "08A" get the penalty 100 |
| `Camelot.RelativeKeysAdjacent` | app.py:29-33 | codes with the same number part and different letters are neighbours in the list |
| `Camelot.RelativeKeysAtOne` | app.py:29-33 | for every wheel number n, nA and nB are valid and 1 apart, in both directions |
| `Camelot.RingStepsFolded` | app.py:36-39 | the shorter way round a cycle of 24 is the index difference folded past 12 |
| `Camelot.DistanceIsRingSteps` | app.py:25-42 | between valid codes the distance is the number of steps between their indices on a cycle of 24 |
| `Camelot.DistanceSymmetric` | app.py:20-42 | the distance does not depend on the order of the two keys, for all strings |
| `Camelot.DistanceZeroIffSame` | app.py:36-42 | between valid codes the distance is 0 exactly when the codes are equal |
| `Camelot.RingStepsZero` | app.py:36-39 | zero steps on the cycle exactly for equal indices |
| `Camelot.RingStepsTriangle` | app.py:36-39 | steps on the cycle obey the triangle inequality |
| `Camelot.DistanceTriangle` | app.py:36-42 | between valid codes a detour through a third code is never shorter |
| `Camelot.PositionOf` | app.py:25-26 | the index of the code at list position i is i |
| `Camelot.NumeralListing` | app.py:14-18 | the numerals of wheel numbers 1..12 are "1" .. "12" |
| `Camelot.DistanceAt` | app.py:25-42 | the distance of the codes at positions i and j is the cycle distance of i and j |
| `Camelot.RelativeExample` | app.py:32-33 | 8A to 8B scores 1 |
| `Camelot.NeighbourExample` | app.py:36-42 | 8A to 9A scores 2 |
| `Camelot.OppositeExample` | app.py:36-42 | 1A to 7A scores 12 |
| `Camelot.WrapExample` | app.py:38-39 | 12A to 1A scores 2 |
| `Camelot.WrapAcrossRings` | app.py:38-39 | 12B to 1A scores 1 |
| `Camelot.WrapBackwards` | app.py:38-39 | 1B to 12A scores 3 |
| `KeyPath.Unique` | app.py:89 | `unique()` keeps each value once, keeps exactly the values present, and starts with the first value |
| `KeyPath.UniqueFirstAppearance` | app.py:89 | `unique()` lists the values in the order of their first appearance |
| `KeyPath.NearestIndex` | app.py:102 | `min` with the distance key: the chosen key is no farther than any remaining key and strictly nearer than every earlier one |
| `KeyPath.GreedyFrom` | app.py:99-104 | the loop's outcome from a given state extends the path by exactly as many keys as remain |
| `KeyPath.GreedyFromPermutes` | app.py:99-104 | the outcome holds the path and the remaining keys, each as often as before |
| `KeyPath.GreedyFromStep` | app.py:100-104 | one round keeps the outcome the same and keeps path plus remaining keys unchanged as a multiset |
| `KeyPath.OrderKeys` | app.py:96-104 | the loop's result is the greedy path, a permutation of the distinct keys, starting with the first, and duplicate-free when its input is |
| `KeyPath.GreedyPathPermutation` | app.py:96-104 | the greedy path is a duplicate-free permutation of the distinct keys and starts with the first |
| `KeyPath.GreedyFromPlacesRemaining` | app.py:99-104 | every key placed by a round was one of the remaining keys |
| `KeyPath.RemoveKeepsKeyOrder` | app.py:104 | removing the chosen key keeps the other remaining keys in first-appearance order |
| `KeyPath.RemoveKeyGone` | app.py:104 | the chosen key is no longer among the remaining keys |
| `KeyPath.GreedyFromFirstChoice` | app.py:99-104 | the key placed by a round is nearest to the path end among all keys placed after it, and on a tie comes first in key order |
| `KeyPath.GreedyFromChoice` | app.py:99-104 | the same holds for every round |
| `KeyPath.GreedyPathChoice` | app.py:96-104 | on the whole path each key after the first is a nearest remaining key to its predecessor, earliest in key order on ties |
| `Tracks.ModeOf` | app.py:113-119 | the mode is Ramp Up, Ramp Down or Wave exactly when the label is that exact string |
| `Tracks.KeysOf` | app.py:89 | the Key column has one entry per row, equal to that row's key |
| `Tracks.ValidInvalidMembers` | app.py:84-85 | a row is among the valid rows exactly when its key is one of the 24 codes, and among the invalid rows exactly when it is not |
| `Tracks.ValidInvalidPartition` | app.py:84-85 | together the valid and invalid rows are the table, each row once |
| `Tracks.RowsWithKeyMembers` | app.py:110 | the group of a key holds exactly the rows carrying that key |
| `Tracks.RowsWithKeyAppend` | app.py:127 | the rows of one key in a concatenation are that key's rows of each part, concatenated |
| `Tracks.RowsWithKeyUniform` | app.py:110 | a group whose rows all carry key k contributes to k's group only |
| `Tracks.RowsWithKeyOfValid` | app.py:84-88 | a valid key's group among the valid rows is its group in the table; an invalid key's rows are all among the invalid rows |
| `Tracks.InsertByBpm` | app.py:115-117 | inserting a row adds exactly that row |
| `Tracks.InsertByBpmSorted` | app.py:115-117 | inserting into a BPM-sorted group keeps it sorted |
| `Tracks.SortByBpm` | app.py:115-117 | `sort_values(by='BPM')`: a reordering of the group whose BPM runs in the requested direction |
| `Tracks.SortGroup` | app.py:113-119 | a group is reordered only: ascending BPM for Ramp Up, descending for Ramp Down, untouched for Wave and any other label |
| `Playlist.BuildPlaylist` | app.py:107-127 | the build loop yields the key groups in path order, each sorted for the mode, followed by the invalid rows |
| `Playlist.OptimizePlaylist` | app.py:63-127 | optimize_playlist's result is the specification `Optimize` for the table and the label's mode |
| `Playlist.KeysOfRowsWithKey` | app.py:88-89 | a key is in the Key column exactly when its group is non-empty |
| `Playlist.UniqueEmpty` | app.py:93-94 | the list of distinct keys is empty exactly when there is no valid row |
| `Playlist.KeyPathMembers` | app.py:84-104 | the key path visits exactly the valid codes that occur in the table |
| `Playlist.KeyPathStart` | app.py:89-97 | the key path is duplicate-free and starts with the key of the first valid row |
| `Playlist.KeyPathChoice` | app.py:89-104 | each key after the first on the path is nearest to its predecessor among the keys placed later; on a tie, its first track comes earlier in the table |
| `Playlist.GroupKeys` | app.py:110-119 | every row of a sorted group carries the group's key |
| `Playlist.RowsKeyedInNone` | app.py:107 | an empty key path selects no row |
| `Playlist.RowsKeyedInExtend` | app.py:107-121 | a new key on the path adds exactly its rows |
| `Playlist.RowsKeyedInAll` | app.py:107-121 | when every row's key is on the path, every row is selected |
| `Playlist.ArrangeMultiset` | app.py:107-121 | along a duplicate-free path the blocks are a reordering of the rows whose key is on the path |
| `Playlist.ArrangeRowsWithKey` | app.py:107-121 | along a duplicate-free path a key's rows in the blocks are its sorted group if the key is on the path, else none |
| `Playlist.FollowsPathAppend` | app.py:121 | appending the block of a new last key keeps the rows in path order |
| `Playlist.ArrangeFollowsPath` | app.py:107-121 | the blocks follow the path: each key's rows are contiguous and blocks come in path order |
| `Playlist.ValidKeysOnPath` | app.py:84-104 | every valid row's key is on the key path |
| `Playlist.NoValidAllInvalid` | app.py:84-85 | without a valid row every row is invalid, in table order |
| `Playlist.ArrangedValidRows` | app.py:84-121 | the blocks are a reordering of the valid rows |
| `Playlist.OptimizeUnchanged` | app.py:79-94 | without a Key column, or without a row whose key is a valid code, the table comes back unchanged |
| `Playlist.OptimizePermutation` | app.py:63-127 | the output holds every input row exactly once and keeps the columns |
| `Playlist.OptimizeValidThenInvalid` | app.py:84-127 | all rows with a valid key come first; the rest follow in their original order |
| `Playlist.OptimizeFollowsKeyPath` | app.py:107-127 | the valid rows form one contiguous block per key, in key path order |
| `Playlist.OptimizeGroups` | app.py:107-127 | a valid key's rows come out as its group sorted for the mode; rows of any other Key value keep their order |
| `Playlist.EnergyWithinKey` | app.py:113-119 | inside a valid key's block BPM never falls for Ramp Up, never rises for Ramp Down, and keeps table order for Wave or an unknown label |
| `Seqs.RemoveFirst` | app.py:104 | `list.remove(x)`: shortens the list by one; `RemoveFirstCount` proves exactly one copy of `x` goes and `RemoveFirstShift` that the rest keep their order |
| `Camelot.IsCamelotKey` | app.py:84 | `isin(CAMELOT_ORDER)` / `in CAMELOT_ORDER`; `CodeShape` and `PenaltyExamples` state which strings it accepts |
| `Camelot.NumberPart` | app.py:29-30 | `key[:-1]`; `PositionParts` proves it is the numeral of the code's wheel number |
| `Camelot.Letter` | app.py:29-30 | `key[-1]`; `PositionParts` proves it is 'A' at even and 'B' at odd list positions |
| `KeyPath.GreedyPath` | app.py:96-104 | the key path of the loop; `GreedyPathPermutation` and `GreedyPathChoice` state its permutation and nearest-with-earliest-tie choice |
| `Tracks.ValidRows` | app.py:84 | the rows with a valid code in table order; `ValidInvalidMembers` and `ValidInvalidPartition` state its contents |
| `Tracks.InvalidRows` | app.py:85 | the other rows in table order; `ValidInvalidMembers`, `ValidInvalidPartition` and `NoValidAllInvalid` state its contents |
| `Tracks.RowsWithKey` | app.py:110 | `get_group(key)` in table order; `RowsWithKeyMembers`, `RowsWithKeyAppend` and `RowsWithKeyOfValid` state its contents |
| `Playlist.KeyPathOf` | app.py:89-104 | the key path for a table; `KeyPathMembers`, `KeyPathStart` and `KeyPathChoice` state what it holds and how it is chosen |
| `Playlist.Arrange` | app.py:107-121 | the key groups laid out along a path, each sorted for the mode; `ArrangeMultiset`, `ArrangeRowsWithKey` and `ArrangeFollowsPath` state its meaning |
| `Playlist.Optimize` | app.py:63-127 | optimize_playlist's result; `OptimizeUnchanged`, `OptimizePermutation`, `OptimizeValidThenInvalid`, `OptimizeFollowsKeyPath`, `OptimizeGroups` and `EnergyWithinKey` state its properties |

## Left out

- The Streamlit page setup and `main` (app.py:7-11, 130-181): presentation, file upload and download.
- `parse_rekordbox_xml` (app.py:44-60): file reading through pandas; the model starts from a parsed table.
- `st.error` (app.py:80): a UI side effect; only the returned table is modelled.
- The stripping of column names (app.py:76): the table carries a flag saying whether a column named exactly "Key" exists.
- The unused `required_cols` list (app.py:71) and the `.copy()` calls (app.py:84-85), which change no value.
- The default value of `energy_mode`: `OptimizePlaylist` takes the label explicitly.
- pandas itself: `isin`, `groupby`/`get_group`, `unique`, `sort_values` and `concat` are modelled as sequence filters, an order-of-first-appearance list, an insertion sort and concatenation. The list of frames that the build loop collects is kept flattened as one row sequence.
- Tracks.SortByBpm: fixes one order for rows of equal BPM, the stable one (they keep their table order); pandas' default quicksort (app.py:114, 116) does not promise that order and may produce another. `Optimize`, `OptimizePlaylist` and `OptimizeGroups` therefore describe the stable order as one of the orders pandas may produce; the contracts of `SortGroup` and `EnergyWithinKey` claim only that a Ramp Up or Ramp Down group is a reordering sorted by BPM.
- A table without a BPM column: `sort_values(by='BPM')` at app.py:114 and 116 raises `KeyError` for Ramp Up and Ramp Down (Wave and other labels still return the table reordered); every row here carries a BPM, so the model assumes the column exists and does not model that failure.
- Tracks.SortByBpm: BPM is an integer; floating-point values and the placement of NaN BPMs are not modelled.
- Key cells that are NaN or not strings are modelled as strings outside the 24 codes (for example the empty string), which every operation treats like a missing key.
- Row identity beyond key and BPM is the abstract `id`; index labels that `pd.concat` keeps are not modelled.

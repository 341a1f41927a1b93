# fonty: the font manifest and the family grouping of font files

This project models two pieces of the `fonty` command-line font manager:

- **The manifest** (`fonty/models/manifest.py`, class `Manifest`). This is the
  in-memory ledger of installed typefaces. A typeface has a name and a list
  of installed fonts, one per variant.
  - `get` and `get_index` look a family up by name, ignoring case.
  - `add` files a font under its family. It creates the family at the end of
    the ledger when it is new, and skips the font when the family already has
    its variant.
  - `remove` pops the requested variants from a typeface and drops the
    typeface once it is empty.

  `Manifest` and `Typeface` are Dafny classes. `add` and `remove` update them
  in place, and a typeface's font list is shared by every reference to that
  typeface.
- **`parse_fonts`** (`fonty/lib/list_fonts.py`). It scans each font file's
  OpenType 'name' table for a family name and a subfamily name:
  - Name ID 16, the typographic family, always overrides.
  - Name ID 1, the legacy family, counts only while no family has been chosen.
  - Name IDs 17 and 2 play the same roles for the subfamily, which is
    lower-cased.

  It then builds a variant label and groups the files by family, in an
  insertion-ordered dictionary.

The model follows the code as written. In particular:

- `add` appends fonts in arrival order; nothing sorts them.
- `remove` with a variant list pops one matching font per requested entry.
  If a search comes up empty, it raises after the earlier pops; the fonts
  already removed stay removed.
- Each of those searches looks for *any* requested variant. It does not look
  for the current loop variable. It searches the argument's font list and
  pops from the stored typeface's list.
- `remove` without a variant list always fails once the typeface is found
  (see Findings).

Files:

- `base.dfy`: `Option`, `Result`, and the ASCII lower-casing.
- `manifest.dfy`: the manifest.
- `list_fonts.dfy`: `parse_fonts`.

## Model

| member | source | states |
|---|---|---|
| Base.Lower | fonty/models/manifest.py:84 | `s.lower()` keeps the length and leaves no upper-case ASCII letter |
| Base.LowerEqualIffSameLetters | fonty/models/manifest.py:84-89 | two names compare equal after lower-casing exactly when they have the same length and agree character by character up to ASCII case |
| FontManifest.Typeface.constructor | fonty/models/manifest.py:30 | a new typeface has the given name and no fonts |
| FontManifest.AppendKeepsUnique | fonty/models/manifest.py:33-39 | appending a font whose variant is not among the existing variants keeps the variants unique |
| FontManifest.FindTypeface | fonty/models/manifest.py:87-90 | the index found is the first typeface whose name matches ignoring case; None means no typeface matches |
| FontManifest.FirstTypefaceAgrees | fonty/models/manifest.py:82-90 | the object search of `get` and the index search of `get_index` find the same typeface, or both find nothing |
| FontManifest.LookupIgnoresCase | fonty/models/manifest.py:84-89 | two names that lower-case alike find the same typeface with both searches |
| FontManifest.FirstMatching | fonty/models/manifest.py:64-67 | the index found is the first font whose variant text is among the requested ones; None means none is |
| FontManifest.FirstMatchingCons | fonty/models/manifest.py:64-67 | the search over a list with a known head: index 0 if the head matches, else one past the tail's result |
| FontManifest.DropStepFound | fonty/models/manifest.py:63-73 | while matching fonts remain, a round of the loop finds one, and popping it moves the closed form from k pops to k + 1 |
| FontManifest.DropStepExhausted | fonty/models/manifest.py:63-70 | after as many pops as there were matching fonts, the next search finds nothing, so the call raises |
| FontManifest.DropNothing | fonty/models/manifest.py:62 | before the first round the font list is unchanged |
| FontManifest.DropLength | fonty/models/manifest.py:63-73 | k successful pops shorten the list by exactly k |
| FontManifest.DropKeepsOthers | fonty/models/manifest.py:64-72 | fonts with variants that were not requested are never popped and keep their order |
| FontManifest.DropAllIsWithout | fonty/models/manifest.py:63-72 | once every matching font is popped, exactly the fonts with other variants remain |
| FontManifest.DropSubset | fonty/models/manifest.py:72 | popping only ever takes fonts out, and never adds one |
| FontManifest.DropKeepsUnique | fonty/models/manifest.py:72 | popping keeps a typeface free of repeated variants |
| FontManifest.VariantSetCons | fonty/models/manifest.py:33 | with unique variants, the variant set is the first variant plus the rest's set, and the first is not in the rest's set |
| FontManifest.MatchCountIsShared | fonty/models/manifest.py:64-67 | with unique variants, the number of matching fonts is the number of requested variant texts the typeface has |
| FontManifest.ExactRemoval | fonty/models/manifest.py:62-73 | requesting distinct variants that the typeface all has pops exactly one font per variant and leaves exactly the other fonts |
| FontManifest.RemovalSucceedsIff | fonty/models/manifest.py:62-73 | for a typeface with unique variants, the loop finds a font in every round exactly when the requested variants are distinct and all present; the typeface is then left with exactly its fonts of other variants |
| FontManifest.NamesDistinctWithout | fonty/models/manifest.py:75-76 | dropping a typeface keeps the names distinct ignoring case |
| FontManifest.NameGoneWithout | fonty/models/manifest.py:75-76 | with distinct names, dropping the typeface a name matches leaves nothing that the name finds |
| FontManifest.Manifest.constructor | fonty/models/manifest.py:17-18 | the manifest holds the given typefaces |
| FontManifest.Manifest.GetIndex | fonty/models/manifest.py:87-90 | the first position whose name matches ignoring case, or None when no name matches |
| FontManifest.Manifest.Get | fonty/models/manifest.py:82-85 | None exactly when `get_index` is None; otherwise the typeface at that index |
| FontManifest.Manifest.Add | fonty/models/manifest.py:21-47 | a new family becomes one fresh typeface at the end holding just the font, and the call returns the manifest. A known family whose variant is already present gives None and changes nothing. Otherwise the font is appended to that typeface and the ledger order is kept. Other typefaces are untouched, and unique names and variants are preserved. |
| FontManifest.Manifest.Remove | fonty/models/manifest.py:49-80 | an unknown name raises and changes nothing. No variant list raises (the list is called) and changes nothing. With a list, the typeface's fonts are its old fonts minus the first min(matches, requested) matching fonts. The call succeeds exactly when there are at least as many matches as requested entries, and then returns the number requested. On success an emptied typeface leaves the ledger; a failure leaves the ledger as it was. On a ledger with unique variants, success happens exactly when the requested variants are distinct and all present, and it leaves exactly the fonts of the other variants. An absent or repeated variant gives the not-found error. Other typefaces are untouched, and the invariant is preserved. |
| FontManifest.Manifest.RemoveFamily | fonty/models/manifest.py:58-60 | corrected branch without variants: an unknown name fails and changes nothing. Otherwise the typeface is dropped and its font count is returned. Afterwards the name finds nothing, and the invariant is preserved. |
| ListFonts.FirstWithId | fonty/lib/list_fonts.py:49-54 | the position of the first record with the Name ID, or None when there is none |
| ListFonts.FirstWithIdSnoc | fonty/lib/list_fonts.py:49-54 | a record read later changes the first match only when no earlier record had the Name ID |
| ListFonts.LastWithId | fonty/lib/list_fonts.py:49-57 | the position of the last record with the Name ID, or None when there is none |
| ListFonts.ChosenNamesComeFromRecords | fonty/lib/list_fonts.py:45-57 | a family is chosen exactly when a record with ID 1 or 16 exists, and it is the text of one of them; a subfamily is chosen exactly when a record with ID 2 or 17 exists, and it is the lower-cased text of one of them |
| ListFonts.SelectNames | fonty/lib/list_fonts.py:45-57 | the scan yields the last ID 16 record's text, else the first ID 1 record's, else None; and the lower-cased text of the last ID 17 record, else of the first ID 2 record, else None |
| ListFonts.VariantLabel | fonty/lib/list_fonts.py:59-60 | no subfamily gives no label. A subfamily that does not parse is an error naming it. Otherwise the label ends in `--` followed by the subfamily. |
| ListFonts.ReadFont | fonty/lib/list_fonts.py:44-60 | one file's family and entry, or its parse error, equal the closed form `Examine` |
| ListFonts.RowsAreExamined | fonty/lib/list_fonts.py:43-60 | the rows exist exactly when every path examines without error, and then they are the paths' results one for one |
| ListFonts.RowsErrorIsFirst | fonty/lib/list_fonts.py:43-60 | a failed scan reports the error of the first failing path; every earlier path succeeded |
| ListFonts.RowsErrorPersists | fonty/lib/list_fonts.py:43-60 | once a prefix of the paths fails, the whole call fails with that error |
| ListFonts.RowsExtend | fonty/lib/list_fonts.py:43-60 | one more path either fails with its own error or adds its row |
| ListFonts.KeysSnoc | fonty/lib/list_fonts.py:63-65 | one more row adds its family to the list of row families |
| ListFonts.EntriesOfSnoc | fonty/lib/list_fonts.py:65 | one more row adds its entry to its own family's entries and to no other |
| ListFonts.EntriesOfAbsent | fonty/lib/list_fonts.py:63-65 | a family no row has collects no entries |
| ListFonts.FirstOccurrencesElements | fonty/lib/list_fonts.py:63-64 | the dictionary's key order holds exactly the families that occur |
| ListFonts.FirstOccurrencesDistinct | fonty/lib/list_fonts.py:63-64 | the key order lists no family twice |
| ListFonts.GroupStepKnown | fonty/lib/list_fonts.py:65 | appending to an existing family's group keeps the dictionary the grouping of the rows so far |
| ListFonts.GroupStepNew | fonty/lib/list_fonts.py:63-65 | a new family goes at the end of the key order with an empty group named after it, and appending the entry keeps the dictionary the grouping of the rows so far |
| ListFonts.FiledSnoc | fonty/lib/list_fonts.py:65 | one more row adds one to the count over distinct families exactly when its family is among them |
| ListFonts.EveryRowFiledOnce | fonty/lib/list_fonts.py:63-65 | across the distinct families every row is filed exactly once |
| ListFonts.TotalIsFiled | fonty/lib/list_fonts.py:63-67 | summing group sizes over a grouping's keys counts the rows filed under them |
| ListFonts.GroupingCountsEveryRow | fonty/lib/list_fonts.py:43-67 | a grouping holds exactly as many entries as there were font files |
| ListFonts.GroupingShape | fonty/lib/list_fonts.py:63-64 | a grouping's keys are distinct; they are exactly the families that occur, and exactly the keys that have a group |
| ListFonts.EntryInItsGroup | fonty/lib/list_fonts.py:65 | every file's entry is in the group of its family |
| ListFonts.EntriesBelong | fonty/lib/list_fonts.py:65 | a group holds only entries of files of its family |
| ListFonts.ParseFonts | fonty/lib/list_fonts.py:39-67 | if any file's subfamily does not parse, the call fails with the first such error. Otherwise the result is the grouping of the files' rows: one group per distinct family, named by it, in first-occurrence order, with the entries in file order. Its entry count equals the number of paths. |

## Left out

- `Manifest.save`, `Manifest.load` and `Manifest.generate`: JSON files on disk, the clock, and the platform font scan. These are I/O.
- The `last_updated` timestamp of the constructor. `utils.parse_date` is not part of this model.
- `get_user_fonts` and `_get_user_fonts_osx`: they list a directory and write a JSON file. These are I/O.
- `fonty/lib/install.py`, `fonty/commands/source.py`, `fonty/commands/uninstall.py` and `setup.py`: these are callers, file copying and subprocesses. They are not part of this model.
- `FontAttribute` is not part of this model.
  - Variants are modelled by their `str()` text.
  - `FontAttribute.parse(s).print(long=True)` is the parameter `describe`, which gives None when parsing raises.
- `fonty/models/typeface.py` and `fonty/models/font.py` are not part of this model. `get_family_name()` is read as the font's family. `get_variants()` is read as the variants of the typeface's fonts.
- Opening a font file with `TTFont` is the parameter `nameTable`. A file that cannot be opened is not modelled.
- Base.Lower: only ASCII letters are lower-cased. Python's `str.lower()` also folds other scripts.
- FontManifest.Manifest.Remove: with a variant list, requires that the argument is the stored typeface whenever its name is found. The source searches the argument's font list and pops from the stored one, and the model does not follow the two lists apart when they are different objects. Without a variant list, any typeface with a matching name is accepted.

## Findings

| source | as written | input that shows it | evidently intended | confidence | as-written member | corrected member |
|---|---|---|---|---|---|---|
| fonty/models/manifest.py:58-60 | without a variant list, `self.typefaces(typeface_idx)` calls the list, which raises `TypeError` | `remove(t)` for any typeface `t` whose name is in the manifest | drop the whole typeface and return the number of its fonts, which line 59 has just computed | high (not executed) | FontManifest.Manifest.Remove | FontManifest.Manifest.RemoveFamily |

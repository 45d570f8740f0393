# fortibit core, modelled in Dafny

fortibit is an Electron password manager. Its main process keeps the open vault files,
the list of recently opened files, the update check and the icon download queue. Its
Angular renderer edits the vault: groups, entries, search, hotkeys, modal windows and a
few input directives. On Windows a native module paints the tray and taskbar icons onto
a background canvas. This project models the core of those pieces in Dafny 4 and proves
what each of them promises. Each source file is one module:

- `Bitmap` (`bitmap.dfy`): the native `ReadBMP`/`CreateDIB` pair. It reads a BMP file's
  header and payload and paints a centred icon onto a BGRA canvas.
- `MainDatabase` (`recent_files.dfy`): the main process's database service. It keeps the
  per-window file map, the most-recently-used list, the final and temporary paths, and
  `openDatabase`.
- `Vault` (`vault.dfy`): the renderer vault service. It moves entries up, down, to the
  top and to the bottom, deletes entries, finds the group of an entry and builds the
  group path names of search results.
- `Updates` (`updates.dfy`): the update service. It parses the update metadata, compares
  versions, resolves file names and paths, and steps through the update state machine.
- `Dropdown` (`dropdown.dfy`): the dropdown directive's keyboard navigation.
- `HotkeyHandler` (`hotkeys.dfy`): hotkey registration, interception and labels.
- `DateMask` (`date_mask.dfy`): the `dd/mm/yyyy` date mask directive.
- `Search` (`search.dfy`): filtering and the two sort comparators of the search service.
- `CsvImport` (`csv_import.dfy`): CSV header and type validation on import.
- `HotkeyBinder` (`hotkey_binder.dfy`): the directive that records a key combination.
- `GroupManager` (`groups.dfy`): the group tree and the add/select rules.
- `Modals` (`modals.dfy`): the modal manager's stack of open modals.
- `IconQueue` (`icon_queue.dfy`): the batching retry queue of icon downloads.
- `TimeRemaining` (`time_remaining.dfy`): the "in N days" pipe.

Three helper modules carry no source behaviour of their own:

- `Wrappers` holds `Option` and `Result`.
- `Sequences` holds `FindIndex`, `splice(i, 1)`, reversal and a stable insertion sort
  with its sortedness proof.
- `Strings` holds `split`/`join`, `trim`, ASCII case mapping, number printing and a
  code-unit `localeCompare`.

Objects whose methods update their fields are classes. For example,
`Vault.VaultDatabase`, `MainDatabase.DatabaseService`, `Updates.UpdateService`,
`IconQueue.AsyncQueue` and `Modals.ModalManager` are classes, and their methods state
the whole new state. The loops of the source are methods with loop invariants, proved
against recursive specification functions. Examples are `moveTop`'s splice loop, the
paste loop, `getAllIndexes`, `createBatches`, the settle loop over an icon batch, and
`CreateDIB`'s pixel loops over an `array<bv8>`. Pure helpers are functions with lemmas.

The operations follow the source as written, including the four defects listed under
"## Findings": the temporary path, the date mask's key guard, the icon queue's splice
and the update check's version comparison. Each has a corrected definition beside it,
with the evidently intended property proved of it, which no operation uses.

## Model

| member | source | states |
|---|---|---|
| `Bitmap.DataSize32` | main/services/native/win32/native-core/bitmap_util.cc:25 | the payload size is an unsigned 32-bit value: the product of the masked row bytes and the height, reduced modulo 2^32 |
| `Bitmap.RowBytesExamples` | main/services/native/win32/native-core/bitmap_util.cc:25 | the literal `& ~4` mask clears bit 2 of the row byte count, so an odd width loses 4 bytes per row (RowBytes(3) == 8); the row count and the product wrap around at 2^32 |
| `Bitmap.U32AtLittleEndian` | main/services/native/win32/native-core/bitmap_util.cc:16-20 | a 32-bit header field is read little-endian at any offset: the four bytes of any value, least significant first, read back as that value, and the bytes read are the bytes of the value |
| `Bitmap.PackBytes` | main/services/native/win32/native-core/bitmap_util.cc:16-20 | combining a value's four little-endian bytes gives the value back |
| `Bitmap.UnpackBytes` | main/services/native/win32/native-core/bitmap_util.cc:16-20 | the little-endian bytes of four combined bytes are those bytes, in order |
| `Bitmap.U32AtExample` | main/services/native/win32/native-core/bitmap_util.cc:16-20 | header fields are read little-endian: the bytes 01 02 00 00 at offset 18 give width 513 |
| `Bitmap.ReadInto` | main/services/native/win32/native-core/bitmap_util.cc:13-14 | a stream read copies at most the requested number of bytes from the current position, leaves the rest of the buffer untouched, advances by what it copied and fails once short; a failed stream reads nothing |
| `Bitmap.Resize` | main/services/native/win32/native-core/bitmap_util.cc:26 | `resize` keeps the front of the buffer and zero-fills any growth to exactly `n` bytes |
| `Bitmap.Payload` | main/services/native/win32/native-core/bitmap_util.cc:22-27 | the returned payload always has exactly the computed size |
| `Bitmap.PayloadOfCompleteFile` | main/services/native/win32/native-core/bitmap_util.cc:22-27 | a file holding the whole payload yields exactly the `size` bytes at `dataOffset` |
| `Bitmap.PayloadRead` | main/services/native/win32/native-core/bitmap_util.cc:22-27 | skipping the `dataOffset - 54` byte gap and reading into the resized buffer yields `Payload`, whether or not the file is long enough to hold the gap |
| `Bitmap.ReadBmp` | main/services/native/win32/native-core/bitmap_util.cc:7-30 | a file shorter than the 54-byte header, a data offset below 54 and a size outside `int` are each reported exactly when they occur; otherwise the result is the payload at the header's data offset with the 32-bit size |
| `Bitmap.Background` | main/services/native/win32/native-core/bitmap_util.cc:52-57 | the background is (43,43,43) exactly for the theme "dark", and white for every other theme |
| `Bitmap.ByteAt` | main/services/native/win32/native-core/bitmap_util.cc:69-74 | inside the payload, the byte read is the payload's byte |
| `Bitmap.Pixel` | main/services/native/win32/native-core/bitmap_util.cc:67-84 | every pixel is four bytes with alpha 255 |
| `Bitmap.PixelsOf` | main/services/native/win32/native-core/bitmap_util.cc:63-86 | the pixel function of `CreateDIB` gives four bytes for every pixel |
| `Bitmap.CursorInBounds` | main/services/native/win32/native-core/bitmap_util.cc:59-74 | the payload cursor of an in-region pixel stays inside the bytes the region consumes |
| `Bitmap.RowsUpToLength` | main/services/native/win32/native-core/bitmap_util.cc:63-86 | the first `y` rows occupy exactly `4 * width * y` bytes |
| `Bitmap.CanvasLength` | main/services/native/win32/native-core/bitmap_util.cc:63-86 | the canvas holds exactly four bytes for each of the width times height pixels |
| `Bitmap.CanvasPixel` | main/services/native/win32/native-core/bitmap_util.cc:59-86 | pixel (x, y) sits at byte 4(y*width + x); inside the centred icon rectangle its colour bytes are the payload's next three bytes, outside it they are the background's; alpha is always 255 |
| `Bitmap.RegionPixelsValue` | main/services/native/win32/native-core/bitmap_util.cc:59-67 | the payload consumed is the icon rectangle clipped to the canvas, which is `iconWidth * iconHeight` pixels when the icon fits |
| `Bitmap.CenteredIconExample` | main/services/native/win32/native-core/bitmap_util.cc:59-67 | a 2x2 icon on a 4x4 canvas starts at (1,1), covers exactly the pixels (1..2, 1..2) and consumes 4 pixels |
| `Bitmap.WritePixel` | main/services/native/win32/native-core/bitmap_util.cc:69-84 | one pixel writes three colour bytes and an opaque alpha at the write pointer and keeps everything before it |
| `Bitmap.PaintPixel` | main/services/native/win32/native-core/bitmap_util.cc:67-84 | the inner loop body appends the pixel's four bytes and advances the payload cursor past the bytes it consumed |
| `Bitmap.PaintRow` | main/services/native/win32/native-core/bitmap_util.cc:65-85 | the inner loop writes one row's bytes, 4 per column, and leaves the cursor at the start of the next row |
| `Bitmap.PaintCanvas` | main/services/native/win32/native-core/bitmap_util.cc:52-86 | the pixel loops fill the whole section with exactly `Canvas`, the row-major canvas of `CanvasPixel` |
| `Bitmap.CreateDib` | main/services/native/win32/native-core/bitmap_util.cc:32-91 | a header-decoding failure is passed on as `ReadBmp` reports it; otherwise the result is a fresh section of 4*w*h bytes holding the canvas painted from the decoded payload, or an error when the payload is too short for the icon region |
| `CsvImport.Unique` | main/services/import/handlers/csv-data-importer.ts:116 | `Array.from(new Set(keys))` has no duplicates and exactly the same elements as the header row |
| `CsvImport.ValidateKeysSameSet` | main/services/import/handlers/csv-data-importer.ts:115-124 | with distinct expected keys, the header check passes exactly when the header row has the same set of names as the expected keys |
| `CsvImport.ValidateKeysIgnoresRepeats` | main/services/import/handlers/csv-data-importer.ts:116 | a header row and its duplicate-free form are judged alike |
| `CsvImport.ValidateTypes` | main/services/import/handlers/csv-data-importer.ts:126-144 | the loop accepts a row exactly when every field is known to the sample and has the sample's type, where a numeric text counts as a number; on refusal, some field is not accepted |
| `CsvImport.NoDigitNoInteger` | main/services/import/handlers/csv-data-importer.ts:131-136 | a text without a decimal digit never passes `parseInt` |
| `CsvImport.DigitAfterSpacesParses` | main/services/import/handlers/csv-data-importer.ts:131-136 | a nonzero digit after leading white space always passes `parseInt`, whatever follows it |
| `CsvImport.StringMockAcceptsAll` | main/services/import/handlers/csv-data-importer.ts:130-143 | a sample whose fields are all strings accepts any row over its keys |
| `CsvImport.UnknownFieldRejected` | main/services/import/handlers/csv-data-importer.ts:130 | a row with a field the sample lacks is rejected |
| `CsvImport.ImportRows` | main/services/import/handlers/csv-data-importer.ts:72-77 | the import succeeds exactly when every row passes `validateTypes`, with the rows unchanged; otherwise it fails with the import error text |
| `CsvImport.GetMetadata` | main/services/import/handlers/csv-data-importer.ts:23-60 | nothing exactly when the dialog is cancelled; a file without a header row resolves with its metadata; otherwise the metadata (file path, row count) exactly when the header check passes, and the import error text otherwise |
| `DateMask.ReplaceAtPlaces` | renderer/app/shared/directives/date-mask.directive.ts:174-180 | `replaceAt` keeps the text before `index`, puts the replacement there, keeps the text after it, keeps the length when the replacement fits, and appends past the end |
| `DateMask.ReplaceAtSame` | renderer/app/shared/directives/date-mask.directive.ts:174-180 | writing back what is already there changes nothing |
| `DateMask.ReplaceAtTwice` | renderer/app/shared/directives/date-mask.directive.ts:174-180 | a later write of the same length at the same place hides the earlier one |
| `DateMask.IndexOfFrom` | renderer/app/shared/directives/date-mask.directive.ts:186 | `indexOf(ch, from)` gives the first place of `ch` from `from` on, or -1 when there is none |
| `DateMask.PositionsMembers` | renderer/app/shared/directives/date-mask.directive.ts:182-191 | the collected indexes are exactly the places of the character |
| `DateMask.PositionsIncreasing` | renderer/app/shared/directives/date-mask.directive.ts:182-191 | the collected indexes are strictly increasing |
| `DateMask.GetAllIndexes` | renderer/app/shared/directives/date-mask.directive.ts:182-191 | the `indexOf` loop returns every position of the character, in order |
| `DateMask.SeparatorIndexes` | renderer/app/shared/directives/date-mask.directive.ts:24-39 | the mask's separators sit at 2 and 5 |
| `DateMask.DigitsOf` | renderer/app/shared/directives/date-mask.directive.ts:45-48 | the paste filter keeps exactly the characters that are decimal digits, each as often as pasted and in the pasted order (a subsequence) |
| `DateMask.Stop` | renderer/app/shared/directives/date-mask.directive.ts:50-60 | the paste loop runs to the end of the 10-character mask exactly when at least 8 digits were pasted |
| `DateMask.Pasted` | renderer/app/shared/directives/date-mask.directive.ts:50-60 | the loop has written exactly `n` characters after `n` steps |
| `DateMask.PastedComplete` | renderer/app/shared/directives/date-mask.directive.ts:50-60 | eight or more digits paste as `dd/mm/yyyy` from the first eight |
| `DateMask.PastedChars` | renderer/app/shared/directives/date-mask.directive.ts:50-60 | a pasted character is a separator exactly at positions 2 and 5 |
| `DateMask.PasteDigits` | renderer/app/shared/directives/date-mask.directive.ts:50-60 | the loop completes exactly with 8 or more digits; the field holds the pasted prefix followed by the old text's rest |
| `DateMask.TwoDigits` | renderer/app/shared/directives/date-mask.directive.ts:155-156 | `padStart(2, '0')` of a number below 100 gives its tens and units digits |
| `DateMask.DisplayDateLayout` | renderer/app/shared/directives/date-mask.directive.ts:146-160 | a date shows as two day digits, '/', two month digits (month + 1), '/', then the year |
| `DateMask.DisplayDateShaped` | renderer/app/shared/directives/date-mask.directive.ts:146-160 | with a four-digit year, the text written has the `dd/mm/yyyy` shape |
| `DateMask.MaskClears` | renderer/app/shared/directives/date-mask.directive.ts:111-121 | the bare mask reports a cleared date and marks the field touched |
| `DateMask.FunctionKeyPasses` | renderer/app/shared/directives/date-mask.directive.ts:74-80 | as written, the guard lets the key "F5" through and it is written as "F5/mm/yyyy" |
| `DateMask.IntendedGuardWritesDigits` | renderer/app/shared/directives/date-mask.directive.ts:74-80 | with the intended guard, every key that edits the field is a single digit, and the guard as written lets it through too |
| `DateMask.IntendedGuardRefusesFunctionKey` | renderer/app/shared/directives/date-mask.directive.ts:74-80 | the intended guard refuses "F5" |
| `DateMask.DateInput.constructor` | renderer/app/shared/directives/date-mask.directive.ts:146-153 | the field starts with the given text and the caret at 0 |
| `DateMask.DateInput.SetValue` | renderer/app/shared/directives/date-mask.directive.ts:93-106 | assigning a different text moves the caret to its end; assigning the same text keeps the caret |
| `DateMask.DateInput.WriteValue` | renderer/app/shared/directives/date-mask.directive.ts:146-160 | the field shows the date's text, or the bare mask for no date |
| `DateMask.DateInput.OnPaste` | renderer/app/shared/directives/date-mask.directive.ts:41-63 | the paste completes exactly with eight or more digits in the clipboard; the field holds what the paste loop wrote over the old text |
| `DateMask.DateInput.OnKeyDown` | renderer/app/shared/directives/date-mask.directive.ts:65-129 | Ctrl+C/V and navigation keys keep the default; with the guard as written, a key is refused unless it is allowed or holds a digit somewhere, and a refused key changes nothing; Backspace restores the mask character before the caret, or throws past the mask; any other accepted key (a digit, or a name such as "F5" holding one) is written at the caret (after a separator at 2 or 5) and the caret skips the separator; every edit, Backspace included, reports the date change and whether the field is touched |
| `Dropdown.At` | renderer/app/shared/directives/dropdown.directive.ts:122-125 | `at(k)` gives an item exactly for -n <= k < n, counting a negative `k` from the end |
| `Dropdown.NextIndexMoves` | renderer/app/shared/directives/dropdown.directive.ts:117-131 | ArrowDown takes the first item when none is current, moves one down, wraps from the last to position 1, never returns to position 0, and fails only with fewer than two items |
| `Dropdown.PreviousIndexMoves` | renderer/app/shared/directives/dropdown.directive.ts:133-147 | ArrowUp from no item, the first or the second goes to the last; from a later one it moves one up; it fails only without items |
| `Dropdown.NextPreviousInverse` | renderer/app/shared/directives/dropdown.directive.ts:117-147 | on positions 1 to n-1 ArrowDown and ArrowUp undo each other |
| `Dropdown.Enabled` | renderer/app/shared/directives/dropdown.directive.ts:122 | the enabled items are exactly the items that are not disabled |
| `Dropdown.EnabledOrder` | renderer/app/shared/directives/dropdown.directive.ts:122 | the enabled items keep the items' order (a subsequence), which fixes the item each index names |
| `Dropdown.EnabledCount` | renderer/app/shared/directives/dropdown.directive.ts:122 | each enabled item is kept as often as it occurs among the items, and a disabled one never |
| `Dropdown.DropdownState.constructor` | renderer/app/shared/directives/dropdown.directive.ts:117-131 | a menu starts without a current item |
| `Dropdown.MenuItem.constructor` | renderer/app/shared/directives/dropdown.directive.ts:122 | an item keeps its disabled flag and its menu |
| `Dropdown.DropdownDirective.constructor` | renderer/app/shared/directives/dropdown.directive.ts:181-187 | the directive starts without an index, focus or handed-on commands |
| `Dropdown.DropdownDirective.CurrentIndex` | renderer/app/shared/directives/dropdown.directive.ts:119-120 | the index is -1 or the position of the current item among the enabled items |
| `Dropdown.DropdownDirective.MoveTo` | renderer/app/shared/directives/dropdown.directive.ts:126-130 | a nested menu's current item is cleared; the chosen item becomes current here and in its own menu and is focused; without a choice the move throws after clearing the current item; every other menu keeps its current item |
| `Dropdown.DropdownDirective.FocusNext` | renderer/app/shared/directives/dropdown.directive.ts:117-131 | the current item becomes the one `NextIndexMoves` describes and is focused, and becomes current in its own nested menu; a nested menu's old current item is cleared; without a next item nothing is focused; every other menu keeps its current item |
| `Dropdown.DropdownDirective.FocusPrevious` | renderer/app/shared/directives/dropdown.directive.ts:133-147 | the current item becomes the one `PreviousIndexMoves` describes and is focused, and becomes current in its own nested menu; a nested menu's old current item is cleared; without a previous item nothing is focused; every other menu keeps its current item |
| `Dropdown.DropdownDirective.SetIndex` | renderer/app/shared/directives/dropdown.directive.ts:181-187 | only the first index given is kept |
| `Dropdown.DropdownDirective.HandleKeyboardShortcuts` | renderer/app/shared/directives/dropdown.directive.ts:189-211 | the arrows up and down do what `FocusNext` and `FocusPrevious` state (focus, nested menus, the other menus kept) and hand nothing on; Tab, the side arrows and Escape are handed on; any other key changes nothing; no other key touches a menu |
| `GroupManager.TopLevelGroups` | renderer/app/core/services/managers/group.manager.ts:93 | the filter keeps exactly the parentless groups that are not built in, each as often as before and in the store's order (a subsequence), which the stable name sort keeps among equal names |
| `GroupManager.FindGroup` | renderer/app/core/services/managers/group.manager.ts:90 | `find` gives a group with the id, and nothing exactly when no group has it |
| `GroupManager.NameLeTotal` | renderer/app/core/services/managers/group.manager.ts:93 | the name comparison is a total preorder, so the sort is well defined |
| `GroupManager.TreeRootFirst` | renderer/app/core/services/managers/group.manager.ts:89-97 | the tree starts with the Root group and has one more slot than there are top-level groups |
| `GroupManager.TreeRest` | renderer/app/core/services/managers/group.manager.ts:86-97 | after the root come exactly the parentless, non-built-in groups, sorted by name, as a permutation of the filtered groups |
| `GroupManager.BuiltInGroupsOf` | renderer/app/core/services/managers/group.manager.ts:91 | one lookup per built-in id, in order |
| `GroupManager.NewGroupFrom` | renderer/app/core/services/managers/group.manager.ts:55-62 | the new group has no parent, the model's name or "New group", and `isImported` only when the model asks for it |
| `GroupManager.FillTree` | renderer/app/core/services/managers/group.manager.ts:89-97 | the loop puts the root at index 0 and each top-level group at its index plus one |
| `GroupManager.GroupManagerState.constructor` | renderer/app/core/services/managers/group.manager.ts:85-100 | no groups, nothing selected, nothing added |
| `GroupManager.GroupManagerState.IsAddAllowed` | renderer/app/core/services/managers/group.manager.ts:18-23 | adding is allowed everywhere except in the recycle bin and the starred group |
| `GroupManager.GroupManagerState.GetGroupsTree` | renderer/app/core/services/managers/group.manager.ts:85-100 | the tree and the built-in groups are rebuilt from the repository, and the selection is kept |
| `GroupManager.GroupManagerState.AddGroup` | renderer/app/core/services/managers/group.manager.ts:54-73 | the new group is added and the id returned; the tree is rebuilt only for a positive id; the store is marked dirty once |
| `GroupManager.GroupManagerState.SelectGroup` | renderer/app/core/services/managers/group.manager.ts:75-78 | the id is selected at once; the name changes exactly when the group is found |
| `HotkeyBinder.ModifiersCount` | renderer/app/main/directives/hotkey-binder.directive.ts:145-147 | the count of modifier entries never exceeds the number of entries |
| `HotkeyBinder.CountsAddUp` | renderer/app/main/directives/hotkey-binder.directive.ts:141-147 | modifier and other entries add up to all entries |
| `HotkeyBinder.CountsAppend` | renderer/app/main/directives/hotkey-binder.directive.ts:145-147 | the modifier count of two joined lists is the sum of their counts |
| `HotkeyBinder.ValidComboOneKey` | renderer/app/main/directives/hotkey-binder.directive.ts:141-143 | a combination is valid exactly when it holds exactly one key that is not a modifier |
| `HotkeyBinder.ModifierKeys` | renderer/app/main/directives/hotkey-binder.directive.ts:44-58 | each modifier name is pushed exactly when its key is held, and there are none exactly when no modifier is held |
| `HotkeyBinder.ModifierKeysOrder` | renderer/app/main/directives/hotkey-binder.directive.ts:44-58 | the modifiers always come in the order Ctrl, Alt, Meta, Shift |
| `HotkeyBinder.PressedKeysValid` | renderer/app/main/directives/hotkey-binder.directive.ts:38-62 | a press builds a valid combination exactly when the key, as typed and capitalised, is not a modifier |
| `HotkeyBinder.HotkeyBinderState.constructor` | renderer/app/main/directives/hotkey-binder.directive.ts:26-27 | the binder starts empty with no shortcut |
| `HotkeyBinder.HotkeyBinderState.Reset` | renderer/app/main/directives/hotkey-binder.directive.ts:156-159 | the keys become the split value and the field shows the value |
| `HotkeyBinder.HotkeyBinderState.AddKey` | renderer/app/main/directives/hotkey-binder.directive.ts:116-134 | one entry is pushed and nothing else changes |
| `HotkeyBinder.HotkeyBinderState.AddModifiers` | renderer/app/main/directives/hotkey-binder.directive.ts:44-58 | the held modifiers are pushed in order |
| `HotkeyBinder.HotkeyBinderState.WriteValue` | renderer/app/main/directives/hotkey-binder.directive.ts:100-108 | an empty value is ignored; otherwise it becomes the saved shortcut, its parts the keys, and it is shown |
| `HotkeyBinder.HotkeyBinderState.OnKeydown` | renderer/app/main/directives/hotkey-binder.directive.ts:30-68 | a plain Tab is left alone; a key without modifiers clears the field; otherwise the keys are the modifiers and the key, shown joined by '+', and a valid combination is saved and reported |
| `HotkeyBinder.HotkeyBinderState.OnKeyUp` | renderer/app/main/directives/hotkey-binder.directive.ts:70-90 | an incomplete combination falls back to the saved shortcut; a valid one stays |
| `HotkeyBinder.HotkeyBinderState.OnFocus` | renderer/app/main/directives/hotkey-binder.directive.ts:79-83 | the field empties for a new combination |
| `HotkeyHandler.ActionsOf` | renderer/app/core/services/hotkey/hotkey-handler.ts:66-72 | a single action runs alone; an array runs its actions in order |
| `HotkeyHandler.NonEmpty` | renderer/app/core/services/hotkey/hotkey-handler.ts:62 | `filter(Boolean)` keeps exactly the non-empty key names |
| `HotkeyHandler.NonEmptyOrder` | renderer/app/core/services/hotkey/hotkey-handler.ts:62 | the non-empty key names keep the order they were pressed in (a subsequence), which fixes the `+`-joined lookup key |
| `HotkeyHandler.NonEmptyCount` | renderer/app/core/services/hotkey/hotkey-handler.ts:62 | each non-empty key name is kept as often as pressed, and the empty name never |
| `HotkeyHandler.HotkeyOfParts` | renderer/app/core/services/hotkey/hotkey-handler.ts:62 | the lookup key splits back on '+' into the non-empty pressed names |
| `HotkeyHandler.CapitalizeAll` | renderer/app/core/services/hotkey/hotkey-handler.ts:24-26 | mapping `capitalizeFirstLetter` keeps the number of parts |
| `HotkeyHandler.CapitalizeWords` | renderer/app/core/services/hotkey/hotkey-handler.ts:24-26 | the reference definition upper-cases exactly the first character and every character after a '+' |
| `HotkeyHandler.CapitalizeWordsSplit` | renderer/app/core/services/hotkey/hotkey-handler.ts:228 | splitting on '+', capitalising each part and joining again equals the reference definition |
| `HotkeyHandler.LabelCapitalisesParts` | renderer/app/core/services/hotkey/hotkey-handler.ts:223-232 | a hotkey's label keeps its length and upper-cases exactly the first letter of each '+'-part |
| `HotkeyHandler.ContextMenuLabel` | renderer/app/core/services/hotkey/hotkey-handler.ts:78-87 | the context menu label is the label text, then the hotkey's label in parentheses |
| `HotkeyHandler.FirstLabelled` | renderer/app/core/services/hotkey/hotkey-handler.ts:224-231 | the first hotkey, in registration order, carrying the wanted label, or none when no hotkey carries it |
| `HotkeyHandler.EntrySelection.constructor` | renderer/app/core/services/hotkey/hotkey-handler.ts:159-165 | the selection and the entry list as given |
| `HotkeyHandler.HotkeyRegistry.constructor` | renderer/app/core/services/hotkey/hotkey-handler.ts:29 | no hotkeys, nothing run |
| `HotkeyHandler.HotkeyRegistry.RegisterHotkey` | renderer/app/core/services/hotkey/hotkey-handler.ts:217-221 | the definition is stored under the lower-cased hotkey, replacing any earlier one and keeping the key's first registration position |
| `HotkeyHandler.HotkeyRegistry.Run` | renderer/app/core/services/hotkey/hotkey-handler.ts:66-72 | the actions run in order |
| `HotkeyHandler.HotkeyRegistry.Intercept` | renderer/app/core/services/hotkey/hotkey-handler.ts:53-76 | nothing runs while a modal is open; a missing key map throws; an unknown hotkey does nothing; a known one runs its actions in order |
| `HotkeyHandler.HotkeyRegistry.GetHotkeyLabel` | renderer/app/core/services/hotkey/hotkey-handler.ts:223-232 | the label of the first hotkey carrying the wanted label, or nothing |
| `HotkeyHandler.HotkeyRegistry.SelectAllEntries` | renderer/app/core/services/hotkey/hotkey-handler.ts:159-165 | a non-empty selection becomes every listed entry; an empty one stays empty |
| `IconQueue.Queueable` | main/services/icon/async-queue.ts:67-70 | `add` keeps the payload, defaults missing attempts to 0, and marks a retry only when asked |
| `IconQueue.QueueableRetry` | main/services/icon/async-queue.ts:47-52 | queueing a retry keeps the item and its attempts and marks it as a retry |
| `IconQueue.BatchesConcat` | main/services/icon/async-queue.ts:72-81 | the batches put back together are the queue |
| `IconQueue.BatchesShape` | main/services/icon/async-queue.ts:72-81 | every batch but the last holds exactly the batch size, the last between one and the batch size, and there are none only for an empty queue |
| `IconQueue.BatchesFrom` | main/services/icon/async-queue.ts:72-81 | the batches from position `i` are the slice at `i` followed by the batches after it |
| `IconQueue.CreateBatches` | main/services/icon/async-queue.ts:72-81 | the slicing loop returns exactly the batches of the queue |
| `IconQueue.SettledItem` | main/services/icon/async-queue.ts:47-49 | a failure without a code adds one attempt; anything else leaves the item as it was |
| `IconQueue.Requeue` | main/services/icon/async-queue.ts:47-52 | a failure without a code comes back once as a retry with one more attempt, exactly while the attempts stay below the maximum |
| `IconQueue.SettledItems` | main/services/icon/async-queue.ts:43-54 | each item of the batch is settled with its own outcome |
| `IconQueue.RequeuedBounds` | main/services/icon/async-queue.ts:47-52 | a batch puts back at most its own size, and every item it puts back is a retry below the maximum attempts |
| `IconQueue.CodedFailuresNotRequeued` | main/services/icon/async-queue.ts:47 | a batch whose failures all carry a code puts nothing back |
| `IconQueue.SettleOne` | main/services/icon/async-queue.ts:43-54 | one step of the `forEach` rewrites only its own element, and delivers or re-queues as the outcome says |
| `IconQueue.SettleBatch` | main/services/icon/async-queue.ts:43-54 | the `forEach` rewrites the batch in place to its settled items, and returns the retries and deliveries in order |
| `IconQueue.StepRemovesBatch` | main/services/icon/async-queue.ts:56 | the corrected step takes the batch off the front and keeps the rest and every retry |
| `IconQueue.StepAsWrittenDropsRetry` | main/services/icon/async-queue.ts:56 | as written, a lone item that fails without a code loses its retry, where the corrected step keeps it |
| `IconQueue.Outcomes` | main/services/icon/async-queue.ts:40-45 | one outcome per call of the batch |
| `IconQueue.PassStepAsWritten` | main/services/icon/async-queue.ts:56 | for a full batch the splice as written removes exactly the batch, as the corrected step does |
| `IconQueue.LastStepAsWritten` | main/services/icon/async-queue.ts:56 | after the last batch the splice as written also removes as many of the oldest retries as the batch is short of `batchSize` |
| `IconQueue.StepAfter` | main/services/icon/async-queue.ts:37-61 | each batch processed as written moves the queue from the state after `i` batches to the state after `i + 1` and delivers that batch's successes |
| `IconQueue.PassStep` | main/services/icon/async-queue.ts:37-61 | processing batch `i` takes it off the front and appends its retries to those of the earlier batches |
| `IconQueue.AsyncQueue.constructor` | main/services/icon/async-queue.ts:17-23 | the defaults are batches of 5, a 10-second wait and 3 attempts; the queue starts empty |
| `IconQueue.AsyncQueue.Add` | main/services/icon/async-queue.ts:67-70 | one queueable item is appended |
| `IconQueue.AsyncQueue.ProcessBatch` | main/services/icon/async-queue.ts:38-59 | one pass of the loop body as written: the retries are appended, `batchSize` items leave the front whatever the batch's length, and the successes are delivered |
| `IconQueue.AsyncQueue.RunBatches` | main/services/icon/async-queue.ts:37-61 | after the loop over batches shaped as `createBatches` makes them, the queue holds the retries of all batches in order less the oldest ones the short last batch's splice takes (its shortfall), and every success is delivered in order |
| `IconQueue.AsyncQueue.Process` | main/services/icon/async-queue.ts:25-65 | one pass over the batches of the queue as it stood removes every item of the pass, keeps the retries it produced in order except the first shortfall-many (none when the last batch is full), and delivers every success in order |
| `MainDatabase.RemoveFirst` | main/services/database/database.service.ts:398-404 | `findIndex` and `splice` remove exactly the first occurrence of the file, or nothing when it is absent |
| `MainDatabase.MruUpdate` | main/services/database/database.service.ts:394-410 | the file becomes the head of a list of at most the maximum length, holding only files that were already listed |
| `MainDatabase.MruUpdateOrder` | main/services/database/database.service.ts:398-410 | after the head come the old entries without the file, in their order, cut to the maximum |
| `MainDatabase.MruUpdateNoDups` | main/services/database/database.service.ts:398-410 | a list without duplicates stays without them, with the file only at the head |
| `MainDatabase.MruUpdateKeepsAll` | main/services/database/database.service.ts:398-410 | with room left, no file is forgotten |
| `MainDatabase.MruUpdateIdempotent` | main/services/database/database.service.ts:398-410 | re-opening the most recent file leaves the list as it is |
| `MainDatabase.Without` | main/services/database/database.service.ts:556-558 | the filter removes every occurrence of the missing file and keeps every other entry as often as it occurs, in its order (a subsequence) |
| `MainDatabase.AppendExtension` | main/services/database/database.service.ts:658-660 | the name, a dot and the extension |
| `MainDatabase.FinalFilePath` | main/services/database/database.service.ts:468-472 | the path ends in the extension; it is kept exactly when it already did, and gets the extension appended otherwise |
| `MainDatabase.FinalFilePathIdempotent` | main/services/database/database.service.ts:468-472 | choosing the final path twice changes nothing |
| `MainDatabase.TemporaryPathValue` | main/services/database/database.service.ts:679-684 | as written, the temporary path is everything before the last '.', with every other '.' deleted, then '~'; a path without '.' gives just "~" |
| `MainDatabase.TemporaryPathDropsDirectoryDots` | main/services/database/database.service.ts:679-684 | as written, "a.b/v.fbit" gives "ab/v~", a file in another directory |
| `MainDatabase.TemporaryPathIntended` | main/services/database/database.service.ts:679-684 | the corrected temporary path is the path without its last extension, then '~' |
| `MainDatabase.TemporaryPathIntendedKeepsDirectories` | main/services/database/database.service.ts:679-684 | the corrected rule maps "a.b/v.fbit" to "a.b/v~" |
| `MainDatabase.TemporaryPathDiffersFromIntended` | main/services/database/database.service.ts:679-684 | whenever a '.' precedes the last one, the written path differs from the corrected one |
| `MainDatabase.DatabaseService.constructor` | main/services/database/database.service.ts:46-47 | the service starts with no open files |
| `MainDatabase.DatabaseService.GetFilePath` | main/services/database/database.service.ts:422-424 | the window's file exactly when the window has an entry |
| `MainDatabase.DatabaseService.GetPassword` | main/services/database/database.service.ts:77-87 | the window's password, or nothing exactly when the window has no entry or no password |
| `MainDatabase.DatabaseService.SetPassword` | main/services/database/database.service.ts:61-75 | ignored for the main window; fails for an unknown window; otherwise stores the value, and an empty value clears it |
| `MainDatabase.DatabaseService.SetDatabaseEntry` | main/services/database/database.service.ts:394-420 | the window's entry becomes the bare path without a password; the recent list takes the most-recently-used update and is saved with the path |
| `MainDatabase.DatabaseService.OpenDatabase` | main/services/database/database.service.ts:540-590 | a cancelled dialog changes nothing; a missing path is dropped from the recent list and nothing opens; otherwise the chosen file opens in the window and heads the recent list, the workspace is kept, and the saved settings name the chosen file with the new recent list |
| `Modals.RemoveAt` | renderer/app/core/services/modal-manager.ts:98-102 | `splice(i, 1)` moves every later element one place forward |
| `Modals.DistinctTypesRemove` | renderer/app/core/services/modal-manager.ts:60-63 | distinct component types stay distinct when one modal is taken out |
| `Modals.WithoutKeepsCoherent` | renderer/app/core/services/modal-manager.ts:94-107 | closing keeps the open modals of distinct types |
| `Modals.WithoutRemovesOne` | renderer/app/core/services/modal-manager.ts:98-102 | closing takes out exactly the given modal, keeps the rest in order, and leaves one fewer when it was open |
| `Modals.ModalManager.constructor` | renderer/app/core/services/modal-manager.ts:19-40 | no modal is open and the body has no class |
| `Modals.ModalManager.IsAnyModalOpen` | renderer/app/core/services/modal-manager.ts:42-44 | true exactly when a modal is open, which is exactly when the body carries "modal-open" |
| `Modals.ModalManager.Open` | renderer/app/core/services/modal-manager.ts:56-92 | nothing when a modal of the same type is open; otherwise a new component is appended, with a backdrop exactly when no other modal is open, and the body gets its class |
| `Modals.ModalManager.Close` | renderer/app/core/services/modal-manager.ts:94-107 | the component is destroyed and taken out; the body keeps its class exactly while some modal is open |
| `Modals.ModalManager.OnKeydown` | renderer/app/core/services/modal-manager.ts:31-40 | Escape closes the most recently opened modal; anything else, or no open modal, changes nothing |
| `Search.ValueCompareFlip` | renderer/app/core/services/search.service.ts:129-175 | comparing two values the other way round flips the sign |
| `Search.ValueCompareTrans` | renderer/app/core/services/search.service.ts:129-175 | the value comparison is transitive |
| `Search.CompareAscending` | renderer/app/core/services/search.service.ts:129-151 | entries with the property come before those without it, and an entry without it never comes first |
| `Search.CompareDescending` | renderer/app/core/services/search.service.ts:153-175 | entries without the property come first |
| `Search.SortRankedAsc` | renderer/app/core/services/search.service.ts:111-115 | sorting with `compareAscending` puts the entries with the property first, in increasing value |
| `Search.SortRankedDesc` | renderer/app/core/services/search.service.ts:111-115 | sorting with `compareDescending` puts the entries without the property first, then the others in decreasing value |
| `Search.DatesAscending` | renderer/app/core/services/search.service.ts:111-115 | with every creation date set, the ascending sort orders the dates non-decreasingly |
| `Search.DatesDescending` | renderer/app/core/services/search.service.ts:111-115 | with every creation date set, the descending sort orders the dates non-increasingly |
| `Search.Filter` | renderer/app/core/services/search.service.ts:97-109 | exactly the entries matching the phrase remain, each as often as before and in their order (a subsequence); an empty phrase keeps all |
| `Search.SearchService.constructor` | renderer/app/core/services/search.service.ts:41-52 | no phrase, not global, newest first |
| `Search.SearchService.Reset` | renderer/app/core/services/search.service.ts:80-84 | clears the phrase and leaves global mode |
| `Search.SearchService.SetSort` | renderer/app/core/services/search.service.ts:86-90 | stores the order and the property |
| `Search.SearchService.FilterEntries` | renderer/app/core/services/search.service.ts:92-127 | without search results, a permutation of the matching entries; with results, those results sorted; ranked by the current order either way |
| `TimeRemaining.UnitMs` | renderer/app/shared/pipes/time-remaining.pipe.ts:31-54 | each unit is a positive whole number of hours |
| `TimeRemaining.Count` | renderer/app/shared/pipes/time-remaining.pipe.ts:31-54 | `Math.ceil` gives the fewest whole units covering the time left |
| `TimeRemaining.CountUnique` | renderer/app/shared/pipes/time-remaining.pipe.ts:31-54 | the rounded-up count is the only count with that bound |
| `TimeRemaining.CountMonotone` | renderer/app/shared/pipes/time-remaining.pipe.ts:31-54 | more time left never gives a smaller count |
| `TimeRemaining.GetUnitPlural` | renderer/app/shared/pipes/time-remaining.pipe.ts:10-15 | only a count of one takes the singular; every other count takes the plural |
| `TimeRemaining.InCount` | renderer/app/shared/pipes/time-remaining.pipe.ts:17-29 | the text is "in ", the count, a space and the unit |
| `TimeRemaining.Transform` | renderer/app/shared/pipes/time-remaining.pipe.ts:17-29 | the text for the rounded-up count of the chosen unit, or "tomorrow" for a day count of one |
| `TimeRemaining.TomorrowWithinADay` | renderer/app/shared/pipes/time-remaining.pipe.ts:17-44 | "tomorrow" is written exactly when more than nothing and at most one day is left |
| `TimeRemaining.WithinTheHour` | renderer/app/shared/pipes/time-remaining.pipe.ts:17-34 | up to an hour left reads "in 1 hour"; a date less than an hour past reads "in 0 hours" |
| `Updates.FileExt` | main/services/update/update.service.ts:29 | "exe" on win32 and "dmg" elsewhere |
| `Updates.ExecutablePathSwapsExtension` | main/services/update/update.service.ts:215-221 | the executable path swaps the text after the last '.' for the platform extension |
| `Updates.ExecutablePathOfFileName` | main/services/update/update.service.ts:215-221 | "stem.ext" becomes "stem.fileExt" |
| `Updates.ParseLine` | main/services/update/update.service.ts:106-113 | a metadata line is read exactly when it has at least two comma-separated fields |
| `Updates.ParseMetadata` | main/services/update/update.service.ts:106-113 | the trimmed body's first line on win32 and its second elsewhere |
| `Updates.LineRoundTrip` | main/services/update/update.service.ts:106-113 | fields without ',' joined by ',' read back as product, version, checksum and commit |
| `Updates.MetadataFromLines` | main/services/update/update.service.ts:106-113 | a body of lines reads back the platform's line |
| `Updates.DigitsValueOfNatToString` | main/services/update/update.service.ts:115-116 | reading a number's decimal text gives the number back |
| `Updates.CompareValuesFlip` | main/services/update/update.service.ts:115-116 | the corrected component comparison flips its sign with its arguments |
| `Updates.CompareValuesSelf` | main/services/update/update.service.ts:115-116 | a version compares equal to itself |
| `Updates.AsWrittenStrictOrder` | main/services/update/update.service.ts:115-116 | the rule as written never holds both ways, never offers a version over itself, and is transitive |
| `Updates.NewerVersionAsymmetric` | main/services/update/update.service.ts:115-116 | the corrected rule never holds both ways and never offers a version over itself |
| `Updates.AsWrittenMissesMinorTen` | main/services/update/update.service.ts:115-116 | as written, the text comparison does not offer 1.10.0 over 1.9.0 |
| `Updates.NewerMinorVersion` | main/services/update/update.service.ts:115-116 | under the corrected rule, a larger minor number with the same major is newer |
| `Updates.NewerVersionMinorTen` | main/services/update/update.service.ts:115-116 | the corrected rule offers 1.10.0 over 1.9.0 |
| `Updates.SwappedExtension` | main/services/update/update.service.ts:215-221 | for "stem.ext", replacing the first ".ext" and swapping the last extension agree |
| `Updates.UpdateService.InformationFor` | main/services/update/update.service.ts:223-251 | the information keeps the version and checksum and names the file after the version |
| `Updates.UpdateService.DownloadNamesExecutable` | main/services/update/update.service.ts:232-242 | the address downloaded names the executable the service later looks for |
| `Updates.UpdateService.constructor` | main/services/update/update.service.ts:78-80 | no state, no information, nothing announced or downloaded |
| `Updates.UpdateService.IsNewUpdateAvailable` | main/services/update/update.service.ts:139-141 | true exactly when update information has been resolved, as it is in the Available and Downloaded states |
| `Updates.UpdateService.SetUpdateState` | main/services/update/update.service.ts:253-262 | the state is set and announced with the update's version |
| `Updates.UpdateService.ResolveUpdateInformation` | main/services/update/update.service.ts:223-251 | the information, destination and executable path are derived from the metadata |
| `Updates.UpdateService.IsAnyValidUpdateFile` | main/services/update/update.service.ts:158-173 | found exactly when the directory holds the verified executable, which then sets and announces Downloaded |
| `Updates.UpdateService.GetUpdate` | main/services/update/update.service.ts:179-209 | the update is downloaded from its address into its destination |
| `Updates.UpdateService.OnAvailable` | main/services/update/update.service.ts:118-124 | a newer version resolves its information and is announced; it is marked Downloaded when a verified file is present, and downloaded otherwise |
| `Updates.UpdateService.CheckForUpdates` | main/services/update/update.service.ts:78-137 | an Available or Downloaded state is re-announced; a failed request is rejected; an unreadable body leaves the check unsettled; otherwise, by the rule as written (`localeCompare` of the version texts equal to 1), a version after the running one in text order is made available and any other version reports NotAvailable; an available update already on disk and verified is announced Available then Downloaded with nothing downloaded, and otherwise is announced Available and its download starts |
| `Updates.UpdateService.OnCheckUpdate` | main/services/update/update.service.ts:63-67 | a rejected check sets and announces ConnectionFailed |
| `Vault.IndexOfId` | src/app/core/services/database.service.ts:176 | `findIndex` gives an entry with the id, or -1 exactly when none has it |
| `Vault.IndexOfIdFirst` | src/app/core/services/database.service.ts:176 | `findIndex` gives the first entry with the id |
| `Vault.ByIndexPreorders` | src/app/core/services/database.service.ts:169-184 | both sort comparators are total preorders |
| `Vault.Swap` | src/app/core/services/database.service.ts:177 | the destructuring swap exchanges two entries and keeps every other, so the group is a permutation of itself |
| `Vault.SwapKeepsUniqueIds` | src/app/core/services/database.service.ts:177 | a swap keeps the ids unique |
| `Vault.UnselectedUnique` | src/app/core/services/database.service.ts:196-214 | the unselected entries keep unique ids that come from the group |
| `Vault.Positions` | src/app/core/services/database.service.ts:176 | one `findIndex` position per selected entry |
| `Vault.AscendingPositions` | src/app/core/services/database.service.ts:169 | after `moveUp`'s sort, the selected entries sit at strictly increasing positions |
| `Vault.DescendingPositions` | src/app/core/services/database.service.ts:184 | after `moveDown`'s sort, the selected entries sit at strictly decreasing positions |
| `Vault.FindRowSound` | src/app/core/services/database.service.ts:311-324 | a found path leads to a group holding the id; an empty id gives the node's own entries |
| `Vault.FindRowComplete` | src/app/core/services/database.service.ts:311-324 | an id held somewhere in the tree is always found |
| `Vault.WithData` | src/app/core/services/database.service.ts:123 | replacing a group's entries leaves the path valid with the new entries at its end |
| `Vault.WithDataEntries` | src/app/core/services/database.service.ts:123 | the tree's entries change by exactly the replaced group's entries |
| `Vault.RemoveEntryDropsOne` | src/app/core/services/database.service.ts:121-128 | removing an id held in the tree succeeds, adds nothing, and takes out exactly one entry with that id |
| `Vault.RemoveAllCount` | src/app/core/services/database.service.ts:125-129 | deleting the selection adds nothing and, with non-empty ids, leaves exactly one fewer entry per id |
| `Vault.LabelsFromTop` | src/app/core/services/database.service.ts:304-309 | the labels run from the top group down and end with the group's own |
| `Vault.BuildPath` | src/app/core/services/database.service.ts:304-309 | the recursion pushes the group's label, then each parent's, up to the top |
| `Vault.GroupPathName` | src/app/core/services/database.service.ts:289-291 | the heading is the labels from the top down joined by '/' |
| `Vault.UpReady` | src/app/core/services/database.service.ts:169-175 | a coherent selection without the first entry is ready for `moveUp`'s loop |
| `Vault.DownReady` | src/app/core/services/database.service.ts:184-190 | a coherent selection without the last entry is ready for `moveDown`'s loop |
| `Vault.UnselectedAppend` | src/app/core/services/database.service.ts:175-178 | keeping the unselected entries distributes over concatenation |
| `Vault.SwapKeepsUnselected` | src/app/core/services/database.service.ts:175-178 | swapping two neighbours of which exactly one is selected keeps the unselected entries and their order |
| `Vault.SwapEachUp` | src/app/core/services/database.service.ts:175-178 | the loop keeps the group a permutation, leaves each selected entry one place above where it was, and keeps the unselected entries in their order |
| `Vault.SwapEachDown` | src/app/core/services/database.service.ts:190-193 | the loop keeps the group a permutation, leaves each selected entry one place below where it was, and keeps the unselected entries in their order |
| `Vault.UpLink` | src/app/core/services/database.service.ts:175-178 | the positions the loop speaks of are those `findIndex` gives in the group |
| `Vault.DownLink` | src/app/core/services/database.service.ts:190-193 | the positions the loop speaks of are those `findIndex` gives in the group |
| `Vault.ShiftUp` | src/app/core/services/database.service.ts:166-179 | `moveUp`: an empty group is an error when something is selected and is left alone when nothing is; a selection holding the first entry changes nothing; the group stays a permutation; every entry of a coherent selection moves one place up while the unselected entries keep their order |
| `Vault.ShiftDown` | src/app/core/services/database.service.ts:181-194 | `moveDown`: the mirror image, one place down with the unselected entries in their order, and nothing when the last entry is selected; an empty group is an error only when something is selected |
| `Vault.TopMoves` | src/app/core/services/database.service.ts:196-204 | each move adds at most one entry to the group |
| `Vault.TopMovesOrder` | src/app/core/services/database.service.ts:196-204 | after `k` moves, the first `k` selected entries lead in reverse order, followed by the unselected entries in their old order |
| `Vault.TopMovesAll` | src/app/core/services/database.service.ts:196-204 | `moveTop` ends with the selection reversed, then the unselected entries |
| `Vault.BottomMoves` | src/app/core/services/database.service.ts:206-214 | each move adds at most one entry to the group |
| `Vault.BottomMovesOrder` | src/app/core/services/database.service.ts:206-214 | after `k` moves, the unselected entries lead in their old order, followed by the first `k` selected entries in order |
| `Vault.BottomMovesAll` | src/app/core/services/database.service.ts:206-214 | `moveBottom` ends with the unselected entries, then the selection |
| `Vault.UnshiftEach` | src/app/core/services/database.service.ts:199-203 | the splice-and-unshift loop computes `TopMoves`, so for a coherent selection the selection reversed, then the rest |
| `Vault.PushEach` | src/app/core/services/database.service.ts:209-213 | the splice-and-push loop computes `BottomMoves`, so for a coherent selection the rest, then the selection |
| `Vault.VaultDatabase.constructor` | src/app/core/services/database.service.ts:118-133 | the tree and group as given, nothing selected or dragged |
| `Vault.VaultDatabase.MoveUp` | src/app/core/services/database.service.ts:166-179 | the selection is sorted by position and the group changes as `ShiftUp` states |
| `Vault.VaultDatabase.MoveDown` | src/app/core/services/database.service.ts:181-194 | the selection is sorted by descending position and the group changes as `ShiftDown` states |
| `Vault.VaultDatabase.MoveTop` | src/app/core/services/database.service.ts:196-204 | the group is the one `TopMoves` builds, splicing out and unshifting each selected entry in turn; for a coherent selection, the selection reversed, then the unselected entries |
| `Vault.VaultDatabase.MoveBottom` | src/app/core/services/database.service.ts:206-214 | the group is the one `BottomMoves` builds, splicing out and pushing each selected entry in turn; for a coherent selection, the unselected entries, then the selection |
| `Vault.VaultDatabase.DeleteEntry` | src/app/core/services/database.service.ts:118-133 | removes each selected entry, or the dragged one with no selection, and clears the selection; an id in no group, or nothing to delete, is an error, and the entries before the failing one stay removed |
| `Vault.VaultDatabase.RemoveEach` | src/app/core/services/database.service.ts:124-129 | the loop removes the ids in order exactly when `RemoveAll` succeeds; on failure the tree is the one after the ids before the first id found in no group |
| `Vault.RemoveAllAppend` | src/app/core/services/database.service.ts:124-129 | removing the ids of two runs one after the other is removing the first run, then the second from what is left |
| `Vault.RemovePrefixStep` | src/app/core/services/database.service.ts:125-128 | one more removal extends the removals of a prefix of the ids by the next id |
| `Vault.VaultDatabase.FindRow` | src/app/core/services/database.service.ts:311-324 | the search over the children computes `FindRowSpec`, which `FindRowSound` and `FindRowComplete` characterise |

## Left out

- I/O, the IPC channels, file dialogs, `fs`, Electron's `safeStorage`, the Dexie
  repositories, rxjs subjects, DOM events and timers are left out. Their results are
  parameters of the operations: `pathExists` and the dialog's answer for
  `openDatabase`, the response body and the directory listing for `checkForUpdates`,
  the settled outcomes for the icon queue, the stored group for `selectGroup`, and the
  repository's groups for `getGroupsTree`.
- The Win32 calls of `CreateDIB` (`CreateDIBSection`, the device context) are left out.
  The section is a fresh byte array.
- The duplicate copies of `ReadBMP`/`CreateDIB` in `main/services/native/fbitnative/FbitWin.cc`
  and of the renderer services under `src/` (other than the vault service) are not part of
  this model.
- Bitmap.ReadBmp: the source reads an uninitialised header from a file under 54 bytes.
  With a data offset below 54, its unsigned subtraction wraps around. A size of 2^31 or
  more turns negative as `int`. The model reports each of these as an error instead.
- Bitmap.CreateDib: where the source would read past the payload, the model returns
  `SourceBufferTooSmall`.
- The asynchronous parts are left out: the wait between icon batches, the network
  calls, `addGroup`'s tree refresh after the repository answers, and the download's
  progress and `onFinish` rename. Each is modelled as its synchronous effect.
- `localeCompare` (in the group name sort, the search sort and the update version check
  `Updates.AvailableAsWritten`) is modelled as code-unit order. `toUpperCase`/`toLowerCase` map ASCII letters only.
- `Array.prototype.sort` is modelled as a stable insertion sort. For the group names
  and the vault's moves, the proofs use only that the result is sorted by the comparator
  and is a permutation, which any correct sort guarantees when the comparator is a total
  preorder.
- Search.SortRankedAsc: the search comparators are not total preorders. The ranking
  (`SortRankedAsc`, `SortRankedDesc`) is proved of the insertion sort itself, through the
  structure of `Insert`. For such a comparator the engine's order is
  implementation-defined, so another engine may order the entries differently.
- GroupManager.TopLevelGroups: the built-in group ids are model constants 1 to 4,
  since the `GroupId` enum is not part of this model.
- Search.CompareAscending: when neither entry has the property the comparator answers
  1 both ways. The model states what it promises for entries with and without the
  property and leaves the order among the entries lacking it unconstrained.
- Vault.VaultDatabase.MoveUp: the selected group's entries (`groupData`) are kept
  apart from the tree, so the aliasing of the selected category with the tree node is
  not modelled.
- Vault.VaultDatabase.MoveUp: with an empty group the source throws a TypeError reading
  `groupData[0].id`, and only when something is selected. With nothing selected, `find`
  never calls its callback and `moveUp` returns normally, as the model does.
- Vault.VaultDatabase.MoveUp: a selection that lists an entry twice can bring `moveUp` to
  an entry at index 0. The swap then writes `undefined` into the group through index -1.
  In `moveDown`, an entry that is not found or is already last writes `undefined` the
  same way. In each of these cases the model stops with an error and keeps the swaps
  already made.
- Vault.VaultDatabase.MoveUp: the `@markDirty()` decorator on `moveUp`, `moveDown`,
  `moveTop`, `moveBottom` and `deleteEntry` (src/app/core/services/database.service.ts:118,
  166, 181, 196, 206) is not modelled. Its definition is not part of this model, so the
  dirty flag it raises is not part of the state.
- HotkeyHandler.HotkeyRegistry.SelectAllEntries: the `@authenticated` decorator
  (renderer/app/core/services/hotkey/hotkey-handler.ts:159) is not modelled. Its
  definition is not part of this model, and the body runs as if the vault were unlocked.
- IconQueue.AsyncQueue.ProcessBatch: the loop body's `try`/`catch`
  (main/services/icon/async-queue.ts:41-60) is not modelled. A rejection whose `reason`
  is `undefined` or `null`, or an `onFulfilled` that throws, stops the `forEach` and skips
  the `splice`. The batch then stays queued together with any retries already added. In
  the model every rejection carries an optional code and delivery never throws.
- IconQueue.AsyncQueue.Process: `add` calls made while a pass runs are not modelled.
  The icon service adds items (main/services/icon/icon.service.ts:106) while `process()`
  runs without end (icon.service.ts:97), so adds can land at any `await` of a pass
  (main/services/icon/async-queue.ts:29, 42, 57, 63). An item added behind the batches
  during a short last batch is removed by `splice(0, batchSize)` at line 56, and is lost
  the same way the retries are. The model runs each pass over the queue as it stood.
- IconQueue.AsyncQueue.Process: requires a batch size above 0. With a batch size of 0,
  `createBatches` (main/services/icon/async-queue.ts:75) adds 0 to its index and never
  ends. Non-termination is not modelled. The constructor accepts 0, as the source's does.
- Updates.UpdateService.ResolveUpdateInformation: the destination path joins the update
  directory and the file name with "/". Node's `path.join`
  (main/services/update/update.service.ts:244) uses a backslash on Windows and also normalises
  the result, collapsing repeated separators and resolving `.` and `..`. Neither is
  modelled.
- CsvImport.ValidateTypes: `parseInt` of a very long digit run gives `Infinity`, and
  `Number.isInteger(Infinity)` is false (main/services/import/handlers/csv-data-importer.ts:133),
  so the source refuses such a field. The model's integers are unbounded and accept it.
  `CsvImport.ImportRows` and `CsvImport.DigitAfterSpacesParses` inherit this.
- HotkeyHandler.ContextMenuLabel: the label texts of the `HotkeyLabel` enum are not part
  of this model. The text is a parameter.
- The hotkey handler's action bodies (save, copy, lock and so on) are opaque actions.
  Only the order in which they run is modelled.
- The getters and IPC handlers that only forward a field (`getFilePath` over IPC, the
  update service's `getUpdateState`) are not modelled separately.
- Dates are calendar triples. Time zones and `new Date(...)` parsing are left out, and
  the date mask reports a changed date only by its text.

## Findings

| source | as written | input that shows it | evidently intended | confidence | as-written member | corrected member |
|---|---|---|---|---|---|---|
| main/services/database/database.service.ts:679-684 | the temporary path deletes every '.' before the last one, including dots in directory names | "a.b/v.fbit" gives "ab/v~" | the path without its last extension, plus '~' ("a.b/v~") | not executed | `MainDatabase.TemporaryPathDropsDirectoryDots` | `MainDatabase.TemporaryPathIntendedKeepsDirectories` |
| renderer/app/shared/directives/date-mask.directive.ts:74-80 | the guard `/\d/` accepts any key name containing a digit | the key "F5" passes and is written, giving "F5/mm/yyyy" | only single-digit keys edit the field | not executed | `DateMask.FunctionKeyPasses` | `DateMask.IntendedGuardWritesDigits` |
| main/services/icon/async-queue.ts:56 | `splice(0, batchSize)` after a batch also removes retries appended behind a short last batch | a single item that fails without an error code: its retry is spliced away | remove only the processed batch and keep every retry | not executed | `IconQueue.StepAsWrittenDropsRetry` | `IconQueue.StepRemovesBatch` |
| main/services/update/update.service.ts:115-116 | versions are compared as text with `localeCompare` | version "1.10.0" against the running "1.9.0" is not offered | compare the dot-separated components as numbers | not executed | `Updates.AsWrittenMissesMinorTen` | `Updates.NewerVersionMinorTen` |

# X-Tech Launcher core in Dafny

The project models the core of the X-Tech game launcher, a small SDL2 program. The launcher reads `launcher.ini` and shows a menu with two entries, "Start game" and "Editor", plus two option check boxes. It then starts the game or the editor with the chosen options.

The model has three parts:

- **The INI reader** (`lib/ini.c`). It covers:
  - the byte-order-mark skip;
  - the physical-line reader `rw_getline` with its 2048-byte buffer;
  - the backslash-continuation joiner `_getline`;
  - the line classifier (`is_comment`, the header test and the `key=value` split);
  - the document-building loop of `ini_load`, including the global section, in-place overwrite of a repeated key, and the NULL dereference when an empty section is reopened;
  - the lookups: `removeQuotes`, `ini_read_str`, `ini_read_strn`, the integer readers over `strtoll`/`strtoull` in base 0, and `ini_read_bool`.
- **The launcher record and start-up** (`src/app.c`): `initApp`, `loadSetup`, and the bitmap-font metrics of `getTextBlockSize` and `printText`.
- **The menu** (`src/menu.c`): `initMenu` with its layout, and the pointer-motion, pointer-press and keyboard handlers. Launching a program is modelled as the command line that would be started.

Modules, one per file:

| file | module | what it holds |
|---|---|---|
| `wrappers.dfy` | `Wrappers` | `Option` |
| `ctext.dfy` | `CText` | bytes as `char`, C strings (`CStr`), `lskip`/`rstrip`, `strchr`, `tolower` |
| `reader.dfy` | `LineReader` | BOM skip, `rw_getline`, `_getline`, the physical and logical line sequences |
| `classifier.dfy` | `Classifier` | what `ini_load` makes of one logical line |
| `document.dfy` | `IniDocument` | sections and entries, the build loop, `Load`, a reference semantics and its agreement proof |
| `lookup.dfy` | `IniRead` | the `ini_read_*` functions |
| `roundtrip.dfy` | `IniRoundTrip` | a renderer used as partner: writing a document out and loading it gives it back |
| `text.dfy` | `TextMetrics` | text width and glyph placement |
| `launcher.dfy` | `Launcher` | the application record, `initApp`, `loadSetup` |
| `menu.dfy` | `MenuModel` | the menu and its event handlers |

File reads are modelled as follows:

- A file is passed in as its contents; `None` means it cannot be opened.
- Every reader returns the rest of the stream next to what it read.
- A lookup can write into the document (`removeQuotes` overwrites a closing quote), so each lookup returns the document as it is afterwards.
- An output parameter that C leaves untouched is passed in and handed back.

`IniDocument` defines a reference semantics. It states what the loader must produce, without the loader's pointers:

- which sections exist;
- which value each key has;
- when the loader crashes.

`BuildAgrees` proves the build loop equal to it for every sequence of lines.

## Model

| member | source | states |
|---|---|---|
| CText.CStr | lib/ini.c:392 | what `strlen`-based code sees in a buffer: the longest NUL-free prefix; a shorter result is followed by a NUL |
| CText.LSkip | lib/ini.c:103-104 | skipping leading whitespace removes only whitespace, and the rest is empty or starts with a non-space |
| CText.RStrip | lib/ini.c:109-111 | stripping trailing whitespace removes only whitespace, and the rest is empty or ends with a non-space |
| CText.LSkipPadded | lib/ini.c:103-104 | whitespace placed before a text that does not start with whitespace is exactly what the skip removes |
| CText.RStripPadded | lib/ini.c:109-111 | whitespace placed after a text that does not end with whitespace is exactly what the strip removes |
| CText.IndexOf | lib/ini.c:432-434 | `strchr`: the position of the first occurrence; none exactly when the character does not occur |
| CText.IndexOfAt | lib/ini.c:432-434 | an occurrence with no earlier occurrence is what `strchr` finds |
| CText.LowerAll | lib/ini.c:738-740 | the lower-casing loop maps every character through `tolower` and keeps the length |
| LineReader.ReadPhysical | lib/ini.c:119-152 | end of input is reported only when nothing but carriage returns is left; otherwise at most 2048 characters come back with no CR or LF, and some input is consumed |
| LineReader.ReadPhysicalConsumes | lib/ini.c:127-146 | the consumed input, with CRs removed, is the line plus its LF, or the line alone when the buffer filled or the stream ended |
| LineReader.ReadTerminatedLine | lib/ini.c:139-148 | a line shorter than the buffer and ended by LF reads back as itself, and reading continues after the LF |
| LineReader.ReadCappedLine | lib/ini.c:124-148 | a line of exactly 2048 characters is cut there; a following LF is left for the next read, which gives an empty line; the terminator then falls outside the 2048-byte buffer as allocated |
| LineReader.StoredLineFits | lib/ini.c:124-148 | corrected: with one byte more than the longest line, every line read fits its buffer together with its terminator |
| LineReader.ReadLogical | lib/ini.c:154-210 | no more lines exactly when only CRs are left; each logical line has no line break and consumes input |
| LineReader.LogicalLines | lib/ini.c:385 | the lines the loop of `ini_load` sees, none containing a line break |
| LineReader.JoinOfSegment | lib/ini.c:196-203 | joining a line that ends in a backslash and one more character with the next line gives the line, one space, and the next line without its leading whitespace |
| LineReader.JoinAfterSpace | lib/ini.c:196-203 | when whitespace precedes the backslash, the backslash and the character after it vanish with nothing in their place, and the next line without its leading whitespace follows directly |
| LineReader.ContinueSegments | lib/ini.c:166-204 | a run of continued physical lines is joined into one logical line with single spaces, and reading resumes after the last of them |
| LineReader.ContinuedLinesRoundTrip | lib/ini.c:154-210 | segments written with a backslash and a filler character at the end of all but the last read back as one line: the segments joined by spaces |
| LineReader.TrailingBackslashNotJoined | lib/ini.c:166 | a line whose last character is a backslash, and whose second-to-last is not, is not joined with the next line |
| LineReader.ContinuationAtEndOfInput | lib/ini.c:168-172 | when the input ends while a continuation is pending, the line comes back as read |
| LineReader.ShortContinuationReadsBeforeBuffer | lib/ini.c:166-203 | a two-character line starting with a backslash is continued; the whitespace test then reads index -1, before the buffer, and with that byte taken as non-space the joined line is one space followed by the next line without its leading whitespace |
| Classifier.Classify | lib/ini.c:389-444 | a line is ignored exactly when it is blank or a comment, or its trimmed text is neither a header nor contains `=` |
| Classifier.ClassifiedParts | lib/ini.c:394-444 | a header name is trimmed and NUL-free; a key has no `=`, no NUL and no trailing whitespace; a value is trimmed and NUL-free |
| Classifier.KeyTrimWalk | lib/ini.c:438-440 | the backward walk over the key stops at the first non-space or at index -1, and passes only whitespace |
| Classifier.KeyTrimWalkLeavesLine | lib/ini.c:438-440 | the walk leaves the line exactly when `=` is its first character; otherwise it yields the same key as the trim |
| Classifier.PaddingIgnored | lib/ini.c:98-116 | whitespace around the content of a line does not change how the line is classified |
| Classifier.KeyTextClassify | lib/ini.c:432-444 | an unpadded `key  = value` text classifies as that key and value |
| Classifier.PairLineRoundTrip | lib/ini.c:389-444 | a key line written with any whitespace around the key, the `=` and the value classifies back to exactly that key and value |
| Classifier.HeaderLineRoundTrip | lib/ini.c:389-403 | a header written with any whitespace inside and outside the brackets classifies back to exactly that name |
| Classifier.EmptyBracketsIgnored | lib/ini.c:394 | `[]` is too short for a header and has no `=`, so it is ignored |
| Classifier.ColonIsNotSeparator | lib/ini.c:432-434 | `a:b` is ignored: only `=` separates a key from its value |
| Classifier.CommentLineIgnored | lib/ini.c:103-107 | a line whose first non-space character is `;` or `#` is ignored, whatever follows |
| IniDocument.FindSection | lib/ini.c:298-311 | the first section with that name, and none exactly when no section has it |
| IniDocument.FindArg | lib/ini.c:341-353 | the first entry with that key, and none exactly when no entry has it |
| IniDocument.FindArgAppend | lib/ini.c:470-475 | appending an entry does not change the lookup of an existing key; a new key is found at the end |
| IniDocument.Put | lib/ini.c:460-487 | a key the section already has is overwritten in place: the same number of entries with the same keys in the same order, every other entry unchanged; a new key is appended as the last entry |
| IniDocument.PutLookup | lib/ini.c:460-487 | after an assignment the key reads the new value and every other key reads what it read before |
| IniDocument.PutKeepsKeysDistinct | lib/ini.c:460-487 | assigning keeps the keys of a section pairwise different |
| IniDocument.Load | lib/ini.c:355-502 | no file exactly when the file cannot be opened; a crash exactly when the build loop dereferences NULL; a loaded document always has a section |
| IniDocument.StepAgrees | lib/ini.c:389-487 | one line keeps the document in agreement with the reference semantics, and crashes exactly when a header reopens an existing section that has no key |
| IniDocument.BuildAgrees | lib/ini.c:385-488 | for every sequence of lines the loop crashes exactly when the reference says so, and otherwise agrees with it on every section and key |
| IniDocument.BuildWellFormed | lib/ini.c:405-487 | every section the loop creates is named, section names are pairwise different, and keys within a section are pairwise different |
| IniDocument.LoadAgrees | lib/ini.c:355-502 | a loaded file has a section exactly when the reference opens it, each key has the value of its last assignment in its section, and the document is well formed or the empty placeholder |
| IniRead.RemoveQuotes | lib/ini.c:82-96 | a value of two or more characters starting with `"` loses that quote; a closing `"` is cut off and stays cut off in the stored value; anything else is unchanged |
| IniRead.QuoteRoundTrip | lib/ini.c:82-96 | a quoted text reads as the text inside the quotes |
| IniRead.UnbalancedQuotes | lib/ini.c:87-93 | a lone leading quote is removed and a lone trailing quote is kept |
| IniRead.RereadChanges | lib/ini.c:82-96 | reading a value a second time gives a different text exactly when it is quoted and its inner text also ends with a quote |
| IniRead.SectionOrGlobal | lib/ini.c:524-525 | a missing or empty section name means `global` |
| IniRead.ReadStr | lib/ini.c:504-565 | the status is -1 exactly when the handler or the name is missing, and 0 exactly when the section has the key. A found value comes back without its quotes, and the document afterwards has the same shape with the stored value possibly cut. A missing key gives the default and status 1 |
| IniRead.ReadStrKeepsOthers | lib/ini.c:537-553 | a lookup changes no other key of the document |
| IniRead.ReadStrTwice | lib/ini.c:537-553 | a second lookup of the same key succeeds, and returns the same text exactly when the first lookup did not cut a doubled closing quote |
| IniRead.CopyBounded | lib/ini.c:567-575 | the bounded copy leaves a NUL-terminated prefix of the source of at most n-1 characters |
| IniRead.ReadStrN | lib/ini.c:577-594 | the status and document are those of the string lookup. On error the buffer is left alone. Otherwise it keeps its size and ends in a NUL; it holds only NULs when the lookup gave no text, and else the lookup's C string cut to at most one byte less than the buffer |
| IniRead.ReadStrNFits | lib/ini.c:577-594 | a found value shorter than the buffer is read back whole |
| IniRead.Radix | lib/ini.c:604-606 | base 0: hexadecimal after `0x` or `0X` followed by a hex digit, octal after any other leading `0`, decimal otherwise |
| IniRead.Digits | lib/ini.c:604-606 | the digits read are the longest run of digits of the announced base after the prefix |
| IniRead.StrToLL | lib/ini.c:606 | the signed result stays within the `long long` range and equals the signed number read when that number fits |
| IniRead.StrToULL | lib/ini.c:604 | the unsigned result stays within the `unsigned long long` range and equals the number read, negated modulo 2^64 after a minus sign, when it fits |
| IniRead.ScanShowInt | lib/ini.c:604-606 | decimal text written from a number reads back as its sign and magnitude |
| IniRead.StrToLLShowInt | lib/ini.c:606 | every `long long` written in decimal is parsed back to itself |
| IniRead.StrToULLShowInt | lib/ini.c:604 | every `unsigned long long` written in decimal is parsed back to itself |
| IniRead.HexText | lib/ini.c:604-606 | `0x` or `0X` and hexadecimal digits read as those digits in base 16 |
| IniRead.OctalText | lib/ini.c:604-606 | a leading `0` and octal digits read as those digits in base 8 |
| IniRead.Cast | lib/ini.c:618 | the C conversion to the target type gives a value the type holds and congruent to the input modulo 2 to the number of bits |
| IniRead.CastOfHeld | lib/ini.c:618 | a number the target type holds is unchanged by the conversion |
| IniRead.ReadInt | lib/ini.c:614-696 | a found text is parsed and converted, a missing key gives the default, and an error leaves the output as it was; the result is always within the type |
| IniRead.ParseForShowInt | lib/ini.c:638-696 | every number a type holds, written in decimal, is read back as itself by that type's reader |
| IniRead.ReadBool | lib/ini.c:730-755 | the status is that of the string lookup; a missing key gives the default, and an error leaves the output as it was |
| IniRead.BoolSpellings | lib/ini.c:738-745 | a value lower-cases to `true` (or `false`) exactly when it is that word in some letter case |
| IniRead.ReadBoolWords | lib/ini.c:736-749 | a found value that is `true` in any letter case reads true, `false` in any case reads false, and any other text reads as the default |
| IniRoundTrip.LogicalLinesOfText | lib/ini.c:119-210 | lines without breaks, shorter than the buffer and not continued, written one per LF-terminated line, read back as exactly those lines |
| IniRoundTrip.ClassifyDoc | lib/ini.c:389-444 | the lines written for a document classify as its headers and its key/value pairs, in order |
| IniRoundTrip.BuildSection | lib/ini.c:405-476 | a header for a new name followed by distinct keys appends exactly that section with those entries in order |
| IniRoundTrip.BuildDoc | lib/ini.c:385-488 | the line kinds of a writable document build exactly that document |
| IniRoundTrip.LoadRender | lib/ini.c:355-502 | loading the text written for a writable document gives the document back, or the placeholder section when it is empty |
| IniRoundTrip.ReadRendered | lib/ini.c:504-565 | in a loaded written-out document, every lookup finds exactly the values the document holds, and falls back to the default otherwise |
| IniRoundTrip.BomTransparent | lib/ini.c:378-383 | a UTF-8 byte-order mark in front of the file changes nothing |
| IniRoundTrip.EmptyFile | lib/ini.c:493-497 | an empty file loads as one unnamed section in which every lookup falls back to the default with status 1 |
| IniRoundTrip.KeysBeforeHeader | lib/ini.c:446-476 | keys before any header go into `global`, in order |
| IniRoundTrip.LastWriteWins | lib/ini.c:477-487 | a repeated key in a section keeps one entry with the last value |
| IniRoundTrip.ReopenEmptySectionCrashes | lib/ini.c:422-427 | reopening a section that has no key dereferences NULL |
| IniRoundTrip.ReopenAppends | lib/ini.c:422-427 | reopening a section that has keys appends later keys to it, and leaves the other section alone |
| TextMetrics.Advance | src/app.c:507-520 | a printable character advances 18 pixels, `M` and `m` 20, everything else 16 |
| TextMetrics.Width | src/app.c:498-525 | a text's width lies between 16 and 20 pixels per character |
| TextMetrics.GetTextBlockSize | src/app.c:498-525 | the reported width is the sum of the advances of the C string's characters, and the height is 20 |
| TextMetrics.WidthAppend | src/app.c:505-521 | the width of two texts together is the sum of their widths |
| TextMetrics.WidthIgnoresCase | src/app.c:508-509 | texts that differ only in letter case have the same width |
| TextMetrics.StartGameWidth | src/menu.c:78 | "Start game" is 180 pixels wide |
| TextMetrics.EditorWidth | src/menu.c:79 | "Editor" is 108 pixels wide |
| TextMetrics.NoSoundWidth | src/menu.c:84 | "No Sound" is 142 pixels wide before the check mark is added |
| TextMetrics.FrameskipWidth | src/menu.c:85 | "Frameskip" is 164 pixels wide before the check mark is added |
| TextMetrics.PrintText | src/app.c:470-496 | one glyph per printable character, in order, each placed at the width of the text before it with its font row at its distance from `!`; the pen ends at the text's width |
| Launcher.InitApp | src/app.c:199-220 | nothing loaded, a 600x432 window, not running, faded out, both options off |
| Launcher.Handler | lib/ini.c:374-376 | the handler is NULL exactly when the file cannot be opened, and is the loaded document otherwise |
| Launcher.LoadSetup | src/app.c:262-269 | setup crashes exactly when loading does; otherwise the title and the two paths are the file's settings, or their defaults, and nothing else changes |
| Launcher.ReadGivesSetting | src/app.c:265-267 | one read against the loaded file or NULL gives the setting the file holds |
| Launcher.SetupReads | src/app.c:264-267 | each of the three reads, made on the document the previous read left, still gives the file's setting |
| Launcher.SetupWithoutFile | src/app.c:262-269 | without `launcher.ini` the title is `<Untitled game launcher>` and both paths are empty |
| Launcher.SetupFromRendered | src/app.c:262-269 | a `launcher.ini` written from a document sets the title and paths the document holds |
| MenuModel.SetOption | src/menu.c:202 | a check box writes exactly its own option of the launcher |
| MenuModel.Launch | src/menu.c:30-49 | the editor starts with no arguments. The game starts with `--no-sound` exactly when that option is on and `--frameskip` exactly when that one is on, in that order, within the four-slot argument array |
| MenuModel.NewItem | src/menu.c:53-62 | an item sits at its position with the size of its text, neither selected nor chosen |
| MenuModel.NewCheckBox | src/menu.c:64-74 | a check box is 20 pixels wider than its text, unselected, and shows its option's current value |
| MenuModel.InitMenu | src/menu.c:76-87 | two items and two boxes in use, no keyboard position, other slots untouched |
| MenuModel.InitControls | src/menu.c:76-87 | the four controls have the labels, positions, sizes and bindings of the menu |
| MenuModel.ApartNoSharedPoint | src/menu.c:95-106 | controls that are apart share no point the hit test accepts |
| MenuModel.InitLayout | src/menu.c:76-87 | every control lies on the 600x432 window and no two of them overlap |
| MenuModel.InitSynced | src/menu.c:72-73 | after set-up every box shows its option, and the two boxes write different options |
| MenuModel.MouseMoveAsWritten | src/menu.c:167-181 | as written, every control is marked by the hit test, and the keyboard position ends on the last item whether or not the pointer is over it |
| MenuModel.Mark | src/menu.c:171-180 | each of the first `n` controls is highlighted exactly when the pointer is over it, and the slots beyond `n` are left alone |
| MenuModel.MouseMove | src/menu.c:167-181 | corrected: the keyboard position is the last item under the pointer, or -1 exactly when no item is under it |
| MenuModel.PointerOverStartGame | src/menu.c:171-175 | the pointer at (25,375) is over "Start game" only, yet the written loop leaves the keyboard on "Editor" |
| MenuModel.ReturnAfterPointerOverStartGame | src/menu.c:167-181 | after set-up, moving the pointer over "Start game" and pressing RETURN starts the editor in the handlers as written, and the game when the keyboard position follows the pointer |
| MenuModel.FirstHit | src/menu.c:186-194 | the first control under the pointer, or none exactly when no control in use is under it |
| MenuModel.PressItems | src/menu.c:186-195 | a press launches exactly when an item is under the pointer; launching stops the main loop, and a miss changes nothing |
| MenuModel.PressBoxes | src/menu.c:197-205 | a press that hits no check box changes nothing, and the box pass never launches |
| MenuModel.MousePress | src/menu.c:183-206 | a press launches exactly when an item is under the pointer, stops the loop when it launches, and keeps counts and keyboard position |
| MenuModel.PressRunsFirstItem | src/menu.c:186-195 | the first item under the pointer launches its program and is marked chosen |
| MenuModel.PressFlipsFirstBox | src/menu.c:197-205 | the first box under the pointer flips, and its option, and only that option, takes the new value |
| MenuModel.PressMissesBoxes | src/menu.c:197-205 | a press on no box leaves the boxes and the options alone |
| MenuModel.PressKeepsSynced | src/menu.c:199-203 | pressing keeps every box showing its option |
| MenuModel.Deselect | src/menu.c:211-212 | corrected: every item in use is unselected and the other slots are unchanged |
| MenuModel.Dispatch | src/menu.c:214-253 | the switch writes outside the item array (slot -1) only for UP on a menu with no items; otherwise it keeps the counts and the boxes |
| MenuModel.KeyAsWritten | src/menu.c:208-254 | as written, any key with items in use and no keyboard position writes slot -1; otherwise only the old and new positions change selection |
| MenuModel.Key | src/menu.c:208-254 | corrected: every item in use is deselected first, and the only write outside the item array is UP on an empty menu. DOWN and UP select exactly the item at the new position, keep the `chosen` flags and leave the slots beyond the count alone. RETURN launches exactly when the position is on an item, and marks that item chosen; otherwise it only deselects. ESCAPE deselects every item and stops the loop. Any other key only deselects. Keys other than DOWN and UP keep the keyboard position |
| MenuModel.DownWraps | src/menu.c:216-226 | DOWN moves to the next item, wrapping to the first, and starts at the first |
| MenuModel.UpWraps | src/menu.c:228-238 | UP moves to the previous item, wrapping to the last, and starts at the last |
| MenuModel.UpUndoesDown | src/menu.c:216-238 | UP after DOWN returns to the same item |
| MenuModel.Down | src/menu.c:216-226 | DOWN lands on an item in range, one past the old position modulo the count |
| MenuModel.DownIsKey | src/menu.c:208-226 | on a menu with items, the handler's DOWN is exactly `Down`: handled, the launcher record untouched, nothing launched |
| MenuModel.DownSteps | src/menu.c:216-226 | n presses of DOWN advance the position by n modulo the count |
| MenuModel.DownCycle | src/menu.c:216-226 | as many DOWN presses as there are items return to the same item |
| MenuModel.FirstKeyAfterInit | src/menu.c:208-226 | as written the first key after set-up writes slot -1; corrected, it is handled, and DOWN selects "Start game" only |

## Left out

- `IS_SPACE`, `IS_SPECIAL`, `IS_INIEQUAL`, `rstrip`, `lskip` and `lrtrim` (`lib/ini.c:34-80`): the loader never calls them. It uses `SDL_isspace`, which `CText.IsSpace` models.
- `ini_read_float` and `ini_read_double` (`lib/ini.c:698-728`): floating point is left out.
- `ini_print` (`lib/ini.c:246-275`): debug output only; it does not change the document.
- `ini_free`, `unInitMenu` and the `SDL_free` calls: releasing memory changes no modelled value. `unInitMenu` only sets both counts to 0 at shutdown.
- Allocation failures (`malloc`, `realloc`, `strdup` or `calloc` returning NULL in `create_section`, `create_arg`, `_getline`, `ini_load` and `ini_read_str`): every allocation is assumed to succeed.
- Linked-list pointers: a document is a sequence of sections and a section a sequence of entries. `create_section` and `create_arg` (`lib/ini.c:277-339`) are the appends of the build loop. Their pointer bookkeeping is not modelled apart from the NULL dereference it leads to.
- NULL out-pointers passed to `ini_read_*`: the `value` pointer is taken as present. A missing handler or key is modelled.
- IniRead.StrToLL, IniRead.StrToULL: `SDL_strtoll`/`SDL_strtoull` are modelled as the C library's `strtoll`/`strtoull` in base 0, with the C standard's overflow clamping. Locale-dependent whitespace is not modelled.
- Process start-up (`executeProcess`), SDL rendering (`renderMenu`, `drawFader`, `renderTexture`, text colours), the window, renderer and texture handles, and `src/main.c`: these are I/O. `PrintText` returns the glyph placements it would draw.
- `int` overflow in `x + w` of the hit tests and in text widths: positions and widths are unbounded integers. Every value the menu uses is below 1000.
- `char` signedness: bytes above 126 are non-printable, as with a signed `char`. Only the ASCII letters change case.
- Undefined reads before a buffer are modelled as follows:
  - Classifier.Classify: the key trim is modelled as the line's own trim, i.e. the byte before the line is taken as non-space. `KeyTrimWalk` models the walk as written, and `KeyTrimWalkLeavesLine` says exactly when it steps off the line.
  - LineReader.ReadLogical: a continued two-character line inspects index -1. The model treats that byte as non-space, and `ShortContinuationReadsBeforeBuffer` shows when it happens.
- LineReader.ReadLogical: follows the code's continuation test. A line is continued when its SECOND-TO-LAST character is a backslash; the last character is dropped. So a line whose last character is a backslash is not continued (`TrailingBackslashNotJoined`).
- IniRead.RemoveQuotes: follows the code. A lone leading quote is removed (`UnbalancedQuotes`), rather than the value being left unchanged.

## Findings

| source | as written | input that shows it | evidently intended | confidence | as-written member | corrected member |
|---|---|---|---|---|---|---|
| src/menu.c:211-212 | the deselect loop writes `s_menu[s_menu_keypos]` on every pass instead of `s_menu[i]` | any key press right after `initMenu`, when the position is -1: slot -1, before the array, is written | clear the selection of every item in use | high; not executed | MenuModel.KeyAsWritten (see MenuModel.FirstKeyAfterInit) | MenuModel.Key (with MenuModel.Deselect) |
| src/menu.c:171-175 | the motion handler sets `s_menu_keypos = i` for every item, so it always ends at `count - 1` | pointer at (25,375) over "Start game", then RETURN: the editor starts | set the position only for an item under the pointer | high; not executed | MenuModel.MouseMoveAsWritten (see MenuModel.ReturnAfterPointerOverStartGame) | MenuModel.MouseMove |
| lib/ini.c:124-148 | `rw_getline` allocates 2048 bytes, stores up to 2048 characters and then writes the terminating NUL after the last of them | a line of 2048 or more characters: the NUL is written at index 2048, one byte past the buffer | allocate one byte more than the longest line, so the terminator always fits | high; not executed | LineReader.ReadCappedLine | LineReader.StoredLineFits |

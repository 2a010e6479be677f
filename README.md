# xhd hotkey daemon — a verified Dafny model of its core

xhd is an X11 hotkey daemon. It reads hotkey bindings from a config file,
asks the X server to grab the bound keys, and runs shell commands when those
keys are pressed. This project models the three pieces of sequential logic at
its heart, in Dafny, and proves properties about them.

- **Binding data model and registration** (`xhd_types.h`, `xhd_modes.h`).
  - A mode owns a keymap of key slots indexed `[group 0..3][keycode 0..255][level 0..1]` and one grab list per group. The mode list is a counted, growable array of modes.
  - `types.dfy` (module `XhdTypes`): the shared vocabulary. A modifier is a 16-bit mask, and an action is an immutable value pairing one mask with its commands. A grab entry is a keycode and a modifier, its group implied by the list that holds it. A key slot holds a symbol and a counted action buffer.
  - `registration.dfy` (module `Registration`): the grow-by-copy arrays.
    - The grab list and the action under construction are classes over arrays, with the copying loop.
    - Registering an action on a key is a function on key values, since the key lives in a keymap slot.
    - Growth doubles-plus-two the capacity and copies in order. A failed allocation (a boolean parameter) returns `-ENOMEM` and changes nothing.
    - When `xhd_modes_register_action` or `_register_command` must grow, it only grows: it returns 0 without storing the new item. So the first action registered on a fresh key is lost. The model keeps this behaviour.
  - `addaction.dfy` (module `AddActionSpec`): what `xhd_modes_add_action` does, as values.
    - The scan goes group by group, keycode by keycode, level by level.
    - A match at level 1 ORs the shift bit into the action's mask, which is shared and mutated in place, so the bit persists into every later cell.
    - Once the shift bit is set, the level index is forced to 1.
  - `modes.dfy` (module `XhdModes`): the `Mode` class.
    - Its keymap is an `array3` of key slots, and it has a grab list per group.
    - `xhd_modes_keymap_init` is driven by an oracle standing for the xkb queries.
    - `xhd_modes_add_action` is imperative: a method per loop level, each proved against the value-level specification.
    - The mode gains the `name` field that `xhd_modes.h` writes but `xhd_types.h` does not declare.
  - `modelist.dfy` (module `ModeList`): the mode list: init, register, fini.
- **Recursive-descent config parser** (`xhd_config.h`).
  - `configspec.dfy` (module `ConfigSpec`): every production as a function over the input text and a cursor. The cursor is the read offset, the fetched length, the end-of-file flag and the line counter. Each production returns the values the source prints: the mode name, modifier mask, keysym, flag text and command text. A value keeps any characters after an embedded NUL, where the C string ends at it. The keysym lookup is a function parameter `resolve`.
  - `config.dfy` (module `Config`): the `Parser` class, whose methods mirror the C functions. Each loop and each method is proved equal to its function.
  - `configprops.dfy` (module `ConfigProps`): what the productions accept and return, stated over the input text.
- **Older line-based parser, key lookup and dispatch** (`main.c`), in `daemon.dfy` (module `Daemon`).
  - `parse_config_entry`, `parse_modifer` and `find_key_and_group`.
  - The `(hi << 8) | key` packing of `actionlist`, and its decoding in `grab_all_keys`.
  - The key-press and group-change branches of the event loop.
  - The global tables `keylist` and `actionlist` are arrays in a `Daemon` class. Ghost values `keys` and `rows` mirror them, and the pure lemmas are stated over those.

Behaviours of the code that are easy to misread, and that the model follows
as written:

- An unknown key name does not fail `xhd_config_parse_keycombo`. The keysym becomes `(xkb_keysym_t)-1` and parsing goes on.
- On a key press, `main.c` looks up `keylist[cur_group][detail]` with no shift level and compares the whole mask `state & 0x9FFF`.
- Appending an action or a command to a full buffer drops that item instead of storing it after the growth.
- The config parser matches modifier keywords case-insensitively and by prefix (`"Shifted"` is shift). `main.c`'s `parse_modifer` compares names exactly.
- The flag parser counts the line of its end character once, even though that character is pushed back and read again, so a newline after a flag is counted twice (ConfigSpec.FlagLoop, ConfigProps.FlagLoopShape).
- The config parser is not connected to the mode list or to `xhd_modes_add_action`; the model does not connect them either.

## Model

| member | source | states |
|---|---|---|
| Registration.GrabList.constructor | xhd_modes.h:38-51 | a fresh grab list is empty with capacity GRAB_LIST_SIZE |
| Registration.GrabList.RegisterGrab | xhd_modes.h:374-410 | the grab is appended after the existing ones, in order and without deduplication; a full list grows to 2*alloc+2 first; a failed growth returns -ENOMEM and leaves count, capacity and contents as they were |
| Registration.ActionBuilder.Value | xhd_types.h:17-23 | defines the action a key stores as the builder's mask and its first numCmds commands |
| Registration.ActionBuilder.RegisterCommand | xhd_modes.h:462-496 | with room the command is appended; on a full buffer the capacity grows to 2*alloc+2 with the commands kept in order, the count unchanged and the command not stored; a failed growth returns -ENOMEM and changes nothing |
| Registration.RegisterAction | xhd_modes.h:419-455 | with room the action is appended to the key's actions; when full the buffer grows to 2*alloc+2, the registered actions are kept and the new one is not stored; a failed growth leaves the key unchanged and returns -ENOMEM; the symbol never changes |
| Registration.RegisterActions | xhd_modes.h:419-455 | successive registrations keep the key's counts consistent and its symbol |
| Registration.RegisterActionsWithRoom | xhd_modes.h:453 | with room for all of them, n registrations append exactly those n actions in order, duplicates included |
| Registration.FreshKeyKeepsOnlySecond | xhd_modes.h:424-451 | on a key fresh from calloc the first registration only grows the buffer and is lost; the second is stored |
| XhdModes.GroupsFilled | xhd_modes.h:289 | keymap_init fills the layout count modulo MAX_GROUPS groups: the count itself below 4, none at exactly 4 |
| XhdModes.LevelsFilled | xhd_modes.h:292-293 | the levels filled are the level count capped at MAX_LEVELS |
| XhdModes.InitSymbol | xhd_modes.h:294-300 | a slot's symbol changes only inside the filled groups and levels and only to what xkb reports; where xkb reports a symbol there, the slot holds it |
| XhdModes.InitKey | xhd_modes.h:287-303 | keymap_init changes only the symbol of a slot, and nothing at all when the core keyboard or its keymap is unavailable |
| XhdModes.NewKeymap | xhd_modes.h:54-87 | a fresh keymap has shape 4 x 256 x 2 and every slot is the zeroed key |
| XhdModes.NewGrabLists | xhd_modes.h:29-51 | a fresh mode has MAX_GROUPS distinct empty grab lists of capacity GRAB_LIST_SIZE |
| XhdModes.ScanLevel | xhd_modes.h:514-530 | one pass of the level loop: the registrations it makes and the mask it leaves are the head of the cell's specified registrations; the grab list gains one entry per registration |
| XhdModes.LevelPass | xhd_modes.h:514-530 | one pass of the level loop keeps its progress: the registrations made so far followed by those still due are the cell's registrations, each level's key carries those made, and the grab list their entries |
| XhdModes.LevelProgress | xhd_modes.h:514-530 | the registrations and grabs of successive passes of the level loop compose into those of the whole cell |
| XhdModes.ScanCell | xhd_modes.h:514-531 | a cell's level loop leaves the mask CellMod, stores one action per registration at its level, and appends (keycode, mask) per registration to the group's grab list |
| XhdModes.Mode.Symbols | xhd_types.h:43-56 | defines the keymap's symbols as a table of the keymap's shape |
| XhdModes.Mode.constructor | xhd_modes.h:15-89 | a fresh mode has no name, group 0, empty grab lists of capacity GRAB_LIST_SIZE and a zeroed keymap |
| XhdModes.Mode.KeymapInit | xhd_modes.h:259-311 | returns -1 without a core keyboard, -2 without a keymap, else 0; every slot becomes InitKey of what it held |
| XhdModes.Mode.Name | xhd_modes.h:362-363 | registering a mode fills its keymap from xkb, ignoring the status, and names it; nothing else about the mode changes |
| XhdModes.Mode.Slots | xhd_types.h:43-56 | defines the keymap's slots as a value of the keymap's shape |
| XhdModes.Mode.ScannedNextGroup | xhd_modes.h:510-512 | passing the last keycode of a group is reaching the next group |
| XhdModes.Mode.StepCell | xhd_modes.h:512-531 | one keycode of the scan moves the progress one cell on: that cell's keys as specified, the mask ModAt of the next cell, the group's grabs extended |
| XhdModes.Mode.StoreCell | xhd_modes.h:526 | writing a cell's keys back as specified moves the scan's keymap progress one cell on and leaves every other cell alone |
| XhdModes.Mode.ScanGroup | xhd_modes.h:512-532 | the keycode loop leaves every cell of the group as specified, the mask of the next group, and the group's grab list extended by GroupGrabs |
| XhdModes.Mode.StepGroup | xhd_modes.h:510-533 | one group of the scan on the mode: only that group's grab list changes |
| XhdModes.Mode.ScanGroups | xhd_modes.h:510-533 | the group loop leaves every slot after its own cell's registrations, the action's mask as ModAt at the end, and each group's grab list extended by its GroupGrabs |
| XhdModes.Mode.GroupLoop | xhd_modes.h:510-533 | the group loop leaves every cell's keys as specified, the mask ModAt at the end, and each group's grab list extended by its GroupGrabs; the mode's name, group and arrays stay the same |
| XhdModes.Mode.AddAction | xhd_modes.h:503-535 | returns 0; every slot becomes SlotAfter its cell's registrations, every group's grab list gains exactly its GroupGrabs, the action's mask ends as ModAt at the end; the commands are untouched |
| AddActionSpec.CellRegsEmpty | xhd_modes.h:514-516 | a cell registers something exactly when one of its levels holds the keysym |
| AddActionSpec.ShiftedCellRegs | xhd_modes.h:519-523 | once the mask carries the shift bit, a cell registers only at level 1 and with the bit set |
| AddActionSpec.CellRegsShape | xhd_modes.h:514-530 | at most one registration per level and two per cell; level 1 exactly when the shift bit is set; the mask only gains the shift bit; level-1 and level-0 matches are registered as the rule says |
| AddActionSpec.LevelStep | xhd_modes.h:514-523 | one iteration of the level loop: a miss moves on; a hit registers at the inferred level with the inferred mask and continues after it |
| AddActionSpec.CellGrabsAppend | xhd_modes.h:529 | the grab entries of consecutive registrations concatenate |
| AddActionSpec.CellMod | xhd_modes.h:519-520 | after a cell the mask has the shift bit added exactly when level 1 matches |
| AddActionSpec.ModAtStep | xhd_modes.h:510-533 | the mask after a cell is the mask its level loop leaves, entered with the mask the scan has reached |
| AddActionSpec.CellGrabsEntries | xhd_modes.h:529 | one grab per registration, in order, each the cell's keycode with the registration's mask |
| AddActionSpec.SlotAfter | xhd_modes.h:526 | registering keeps the key consistent and its symbol unchanged |
| AddActionSpec.ScanResult | xhd_modes.h:510-533 | defines the keymap after add_action: every slot after its own cell's registrations |
| AddActionSpec.SlotAfterAppend | xhd_modes.h:526 | registering two runs one after the other is registering their concatenation |
| AddActionSpec.HitBeforeExists | xhd_modes.h:519-520 | HitBefore holds exactly when some earlier cell in scan order has the keysym at level 1 |
| AddActionSpec.ShiftPersists | xhd_modes.h:519-523 | once the shared mask has the shift bit, every later cell sees it and registers only at level 1 with it |
| AddActionSpec.HitBeforeMonotone | xhd_modes.h:519-520 | a level-1 hit before a position is a hit before every later position |
| AddActionSpec.FinalMask | xhd_modes.h:519-520 | after the scan the mask has the shift bit iff it had it or the keysym is at level 1 somewhere; it is m0 or m0 with shift |
| AddActionSpec.GroupIsolation | xhd_modes.h:510-533 | a group none of whose slots holds the keysym gets no grab and no registration |
| AddActionSpec.GroupGrabsOnlyHits | xhd_modes.h:516-529 | every grab added to a group is for a keycode whose cell holds the keysym in that group |
| AddActionSpec.GroupGrabsCoverHits | xhd_modes.h:516-529 | every keycode whose cell holds the keysym in a group gets a grab in that group's list |
| AddActionSpec.ShiftedOnlyGoesToLevelOne | xhd_modes.h:519-529 | a keysym found only at level 1 is registered once, at level 1, with the shift bit set, and grabbed with that mask |
| AddActionSpec.SlotUntouched | xhd_modes.h:526 | a level no registration targets is left unchanged |
| AddActionSpec.SlotStoresRegs | xhd_modes.h:526 | with room, a slot gains one action per registration at its level, with that registration's mask |
| AddActionSpec.ActionsAt | xhd_modes.h:526 | the actions a level gains number at most the registrations and all carry the action's commands |
| ModeList.AllocModes | xhd_modes.h:194-205 | the kept modes followed by fresh, pristine, pairwise separate modes up to the total |
| ModeList.NewModes | xhd_modes.h:185-205 | a fresh mode array holding the kept modes then pristine ones |
| ModeList.GrowAsWritten | xhd_modes.h:323-356 | as written, growing a full list yields 2*alloc+1 slots zero-filled past the old ones, and the allocation loop writes indices num .. 2*alloc |
| ModeList.GrowAsWrittenOverruns | xhd_modes.h:348-356 | as written, every index the allocation loop writes is past the old array, and the slot then registered is still zero-filled |
| ModeList.GrowIntended | xhd_modes.h:337-359 | defines the grow step as intended: the grown list keeps the old slots and every new slot holds an allocated mode |
| ModeList.ModeList.constructor | xhd_modes.h:173-222 | init gives `size` pristine modes, none registered, mode 0 current |
| ModeList.ModeList.RegisterMode | xhd_modes.h:318-365 | returns 0 unless a needed growth fails (-ENOMEM, nothing changed); the next mode's keymap is filled from xkb and it is named, its group and grab lists kept; earlier modes are kept in order; with room, every other mode is untouched; a full list grows to 2*alloc+1 and every mode after the registered one is pristine |
| ModeList.ModeList.Grow | xhd_modes.h:323-360 | growth into the new array: capacity 2*alloc+1, registered modes carried over in order, fresh pristine modes after them |
| ModeList.ModeList.Fill | xhd_modes.h:362-364 | registering on a list with room: that mode's keymap is filled from xkb and it is named, its group and grab lists are kept, the count grows by one, and every other mode is untouched |
| ModeList.ModeList.Fini | xhd_modes.h:229-249 | fini leaves the list empty with all counters reset |
| ConfigSpec.IsWhitespace | xhd_config.h:54-57 | defines whitespace: space, tab, newline and carriage return |
| ConfigSpec.Refill | xhd_config.h:60-86 | after end of file a refill changes nothing; otherwise it fetches the next block and sets end of file exactly when the block is short |
| ConfigSpec.Fetch | xhd_config.h:91-95 | refilling an exhausted buffer moves neither the read offset nor the line counter |
| ConfigSpec.Peek | xhd_config.h:106-115 | get_char returns the character at the offset (NUL past the end) without consuming or counting it |
| ConfigSpec.Read | xhd_config.h:89-103 | read_char returns the character at the offset and consumes it (nothing past the end); the line counter grows exactly on a newline |
| ConfigSpec.Unread | xhd_config.h:214 | defines the pushback `buffer_index--`: the read offset steps back one and the line counter is not wound back |
| ConfigSpec.ExpectAt | xhd_config.h:117-130 | expect succeeds exactly when the consumed character is the expected one |
| ConfigSpec.ExpectClose | xhd_config.h:117-130 | an accepted '}' is consumed: the cursor ends one past it |
| ConfigSpec.Trim | xhd_config.h:132-139 | trim_whitespace consumes exactly the run of whitespace and stops on the first other character |
| ConfigSpec.ParseModifier | xhd_config.h:141-161 | the result is one of the eight modifier bits or the -1 sentinel |
| ConfigSpec.ParseModifierMatches | xhd_config.h:144-159 | a token yields keyword i's bit exactly when it starts with that keyword, ignoring case |
| ConfigSpec.ParseModifierUnknown | xhd_config.h:144-160 | a token yields -1 exactly when it starts with no keyword |
| ConfigSpec.FlagLoop | xhd_config.h:252-271 | the flag loop never moves the cursor back |
| ConfigSpec.FlagAt | xhd_config.h:244-275 | parse_flag never moves the cursor back |
| ConfigSpec.CommandLoop | xhd_config.h:305-335 | the command loop never moves back, and succeeds in place only on '}' |
| ConfigSpec.CommandAt | xhd_config.h:297-339 | parse_command never moves back, and succeeds without consuming only on '}' |
| ConfigSpec.NameLoop | xhd_config.h:400-424 | the name loop never moves the cursor back |
| ConfigSpec.NameAt | xhd_config.h:392-428 | parse_mode_name never moves the cursor back |
| ConfigSpec.Mods | xhd_config.h:225-228 | one modifier per token |
| ConfigSpec.ModMask | xhd_config.h:222-236 | defines the mask of a combo's modifier tokens: the OR of their bits, or none when one is unknown |
| ConfigSpec.MaskOfStep | xhd_config.h:235 | one more known modifier ORs its bit into the mask |
| ConfigSpec.MaskOfSome | xhd_config.h:225-236 | the modifier loop succeeds exactly when no token is unknown |
| ConfigSpec.ModMaskSome | xhd_config.h:225-236 | a combo's modifiers are accepted exactly when every modifier token parses |
| ConfigSpec.KeysymOf | xhd_config.h:163-175 | defines the keysym lookup: an unknown key name gives (xkb_keysym_t)-1, any other its keysym |
| ConfigSpec.SplitLoop | xhd_config.h:187-219 | the splitting loop never moves back and ends with one to MAXCOMBOLEN tokens |
| ConfigSpec.KeycomboAt | xhd_config.h:177-242 | parse_keycombo never moves the cursor back |
| ConfigSpec.FlagListLoop | xhd_config.h:281-293 | the flag list loop never moves the cursor back |
| ConfigSpec.FlagListAt | xhd_config.h:277-295 | parse_flag_list never moves the cursor back |
| ConfigSpec.CommandListLoop | xhd_config.h:345-352 | the command list loop never moves the cursor back |
| ConfigSpec.CommandListAt | xhd_config.h:341-355 | parse_command_list never moves the cursor back |
| ConfigSpec.HotkeyEntryAt | xhd_config.h:357-375 | an accepted hotkey entry consumes input and ends just after a '}' |
| ConfigSpec.HotkeyBodyAt | xhd_config.h:362-374 | an accepted entry body consumes input and ends just after a '}' |
| ConfigSpec.HotkeyCommandsAt | xhd_config.h:368-374 | after the '{', an accepted entry keeps its keycombo and flags, consumes input and ends just after a '}' |
| ConfigSpec.HotkeyListLoop | xhd_config.h:381-387 | the hotkey list loop never moves the cursor back |
| ConfigSpec.HotkeyListAt | xhd_config.h:377-390 | parse_hotkey_list never moves the cursor back |
| ConfigSpec.ModeEntryAt | xhd_config.h:430-445 | an accepted mode entry consumes input and ends just after a '}' |
| ConfigSpec.ModeBodyAt | xhd_config.h:438-444 | after the '{', an accepted mode entry keeps its name, consumes input and ends just after a '}' |
| ConfigSpec.ConfigLoop | xhd_config.h:449-455 | the loop as written never moves the cursor back |
| ConfigSpec.ConfigFileAt | xhd_config.h:447-458 | the cursor stays within the fetched input |
| ConfigSpec.ConfigLoopIntended | xhd_config.h:449-455 | the intended loop succeeds only at the end of the input |
| ConfigSpec.ConfigFileIntended | xhd_config.h:447-458 | the intended parse succeeds only having read the whole input, up to a NUL |
| Config.Parser.constructor | xhd_config.h:500-503 | the parser starts at offset 0 on line 0 with nothing fetched |
| Config.Parser.ReadToBuf | xhd_config.h:60-86 | -1 after end of file, else 0, the state being Refill of the old one |
| Config.Parser.ReadChar | xhd_config.h:89-103 | read_char returns and consumes as Read says |
| Config.Parser.GetChar | xhd_config.h:106-115 | get_char returns as Peek says, consuming nothing |
| Config.Parser.Expect | xhd_config.h:118-130 | 0 exactly when the consumed character is the expected one, else -1 |
| Config.Parser.TrimWhitespace | xhd_config.h:133-139 | the cursor becomes Trim of the old one |
| Config.Parser.ParseFlag | xhd_config.h:244-275 | the flag loop computes FlagAt: the same outcome, cursor and flag text |
| Config.Parser.ParseCommand | xhd_config.h:297-339 | the command loop computes CommandAt: the same outcome, cursor and command text |
| Config.Parser.ParseModeName | xhd_config.h:392-428 | the name loop computes NameAt: the same outcome, cursor and name |
| Config.Parser.SplitKeycombo | xhd_config.h:184-219 | the splitting loop computes SplitLoop, failing with -1 on a ninth token |
| Config.Parser.ModifierMask | xhd_config.h:222-236 | the modifier loop returns 0 with the mask ModMask gives exactly when every modifier token parses, else -1 |
| Config.Parser.ParseKeycombo | xhd_config.h:177-242 | 0 with the mask, key name and keysym of KeycomboAt when it accepts, else -1 |
| Config.Parser.ParseFlagList | xhd_config.h:277-295 | the flag list loop computes FlagListAt |
| Config.Parser.ParseCommandList | xhd_config.h:341-355 | the command list loop computes CommandListAt |
| Config.Parser.ParseHotkeyEntry | xhd_config.h:357-375 | the entry computes HotkeyEntryAt |
| Config.Parser.ParseHotkeyList | xhd_config.h:377-390 | the hotkey list loop computes HotkeyListAt |
| Config.Parser.ParseModeEntry | xhd_config.h:430-445 | the mode entry computes ModeEntryAt |
| Config.Parser.ParseConfigFile | xhd_config.h:447-458 | the config loop, ending at the end of the input, computes ConfigLoopIntended |
| ConfigProps.FlagLoopShape | xhd_config.h:252-271 | a flag is the text before the next whitespace or '{', which is left unread, shorter than MAXFLAGLEN-1; the loop fails exactly when none comes in time; the line counter counts the end character |
| ConfigProps.FlagAtShape | xhd_config.h:244-275 | parse_flag succeeds exactly when whitespace or '{' comes within MAXFLAGLEN-1 characters, and returns the text before it |
| ConfigProps.CommandLoopShape | xhd_config.h:305-335 | the loop succeeds exactly when a newline or '}' comes and the command before it, carriage returns dropped, is shorter than MAXCMDLEN-1; the command is then that text, a newline consumed, a '}' left unread |
| ConfigProps.CommandCons | xhd_config.h:316-334 | reading a character other than a newline or '}' keeps it in the command unless it is a carriage return |
| ConfigProps.CommandShapeSkip | xhd_config.h:316-320 | a carriage return is skipped |
| ConfigProps.CommandShapeKeep | xhd_config.h:334 | any other non-ending character is stored |
| ConfigProps.CommandAtShape | xhd_config.h:297-339 | parse_command succeeds exactly when a newline or '}' comes and the text before it, carriage returns dropped, is shorter than MAXCMDLEN-1; it returns that text and stops after a newline or before a '}' |
| ConfigProps.NameLoopShape | xhd_config.h:400-424 | the loop succeeds exactly when a '{' comes and the name before it, whitespace removed, is shorter than MAXNAMELEN-1; the name is then that text, the '{' left unread |
| ConfigProps.NextOpen | xhd_config.h:411-421 | the first '{' from a position on, with none before it, or the end of the text |
| ConfigProps.NameConsFits | xhd_config.h:411-423 | reading a character other than '{' keeps the name fitting exactly when it fitted before |
| ConfigProps.NameCons | xhd_config.h:411-423 | reading a character other than '{' keeps it in the name unless it is whitespace |
| ConfigProps.NameShapeSkip | xhd_config.h:411-415 | whitespace inside a name is skipped |
| ConfigProps.NameShapeKeep | xhd_config.h:423 | any other character before '{' is stored |
| ConfigProps.NameAtShape | xhd_config.h:392-428 | parse_mode_name succeeds exactly when a '{' comes and the text before the first one, whitespace removed, is shorter than MAXNAMELEN-1; it returns that text and leaves the '{' unread |
| ConfigProps.SplitSkip | xhd_config.h:198-202 | whitespace in a keycombo is skipped |
| ConfigProps.SplitPlusFits | xhd_config.h:203-210 | before a '+' the pieces are the current token followed by the pieces after it, and the combo fits exactly when it fits with a new token opened |
| ConfigProps.SplitPlus | xhd_config.h:203-210 | a '+' closes the current token and starts a new one |
| ConfigProps.SplitChar | xhd_config.h:218 | any other character extends the current token |
| ConfigProps.NextComboEnd | xhd_config.h:211-216 | the first '-' or '{' from a position on, with none before it, or the end of the text |
| ConfigProps.Pieces | xhd_config.h:203-218 | the '+'-separated pieces of a text, the piece being read in front: the first piece is at least as long as that piece |
| ConfigProps.PiecesPlus | xhd_config.h:203-210 | a '+' closes the piece being read |
| ConfigProps.PiecesJoin | xhd_config.h:203-218 | the pieces hold no '+', there is one more piece than '+', and joined with '+' they give the text back |
| ConfigProps.JoinPlusCons | xhd_config.h:203-218 | joining tokens with '+' puts the first one in front of a '+' |
| ConfigProps.SplitLoopShape | xhd_config.h:187-219 | the splitting loop yields tokens exactly when a '-' or '{' comes, the tokens do not exceed MAXCOMBOLEN and each piece is shorter than MAXKEYLEN-1; it then stops before the first '-' or '{' and the new tokens are the '+'-pieces of the text read, whitespace removed |
| ConfigProps.SplitShapeSkip | xhd_config.h:198-202 | the splitting loop on whitespace |
| ConfigProps.SplitShapePlus | xhd_config.h:203-210 | the splitting loop on '+' with room for another token |
| ConfigProps.SplitShapeChar | xhd_config.h:211-218 | the splitting loop on a token character |
| ConfigProps.KeycomboShape | xhd_config.h:177-241 | over the text: parse_keycombo accepts exactly when a '-' or '{' comes, the combo before it, whitespace removed, has fewer than MAXCOMBOLEN '+', each '+'-piece is shorter than MAXKEYLEN-1 and every piece but the last is a modifier, and the split's tokens are then those pieces; over the split: it accepts exactly when the split ends on '-' or '{' and every token but the last is a modifier; then the mask is the OR of their bits, the last token is the key, its keysym whatever resolve gives; the combo overflows exactly when its split does |
| ConfigProps.MaskStep | xhd_config.h:235 | ORing in a keyword bit sets keyword k's bit exactly when it was set or is that bit, and keeps the upper byte clear |
| ConfigProps.MaskOfExact | xhd_config.h:225-236 | the mask of keyword bits has bit k set exactly when some entry is that bit, and no bit above the eighth |
| ConfigProps.ModMaskExact | xhd_config.h:225-236 | an accepted combo's mask has keyword k's bit set exactly when some modifier token starts with keyword k, ignoring case |
| ConfigProps.FlagListLoopEnds | xhd_config.h:281-293 | the flag list loop succeeds only before '{', keeping the flags read before |
| ConfigProps.FlagListEnds | xhd_config.h:277-295 | parse_flag_list succeeds only before '{' |
| ConfigProps.FlagListRejects | xhd_config.h:279-287 | after whitespace, a character that is neither '{' nor the start of "--" fails the flag list |
| ConfigProps.FlagListNeedsDashes | xhd_config.h:281-287 | a flag must start with two '-' |
| ConfigProps.CommandListLoopEnds | xhd_config.h:345-352 | the command list succeeds only before '}', keeping the commands read before |
| ConfigProps.HotkeyListLoopEnds | xhd_config.h:381-387 | the hotkey list succeeds only before '}', keeping the hotkeys read before |
| ConfigProps.HotkeyBodyAccepts | xhd_config.h:362-374 | after the keycombo, an entry succeeds exactly when its flag list and command list do |
| ConfigProps.HotkeyEntryAccepts | xhd_config.h:357-375 | a hotkey entry succeeds exactly when its keycombo, flag list and command list do |
| ConfigProps.ModeEntryAccepts | xhd_config.h:430-445 | a mode entry succeeds exactly when its name and hotkey list do |
| ConfigProps.SplitStep | xhd_config.h:196-218 | a token character read from a fetched block extends the current token |
| ConfigProps.SplitPlusStep | xhd_config.h:203-210 | a '+' starts a new token, and is the overflow once there are MAXCOMBOLEN tokens |
| ConfigProps.NineTokensOverflow | xhd_config.h:203-209 | a combo of nine single-character tokens reaches the overflow from any token boundary |
| ConfigProps.KeycomboOverflowExample | xhd_config.h:203-209 | "a+b+c+d+e+f+g+h+i{" overflows key_buf and fails the hotkey entry |
| ConfigProps.EmptyModeAt | xhd_config.h:430-445 | "x{}" is a mode named x with no hotkeys, three characters long |
| ConfigProps.ConfigFileAsWrittenStopsEarly | xhd_config.h:447-458 | as written, the file "a{}b{}" yields only the first mode |
| ConfigProps.ConfigFileIntendedReadsAll | xhd_config.h:447-458 | read to its end, the same file yields both modes |
| Daemon.PackRoundTrip | main.c:112-113 | decoding with & 0xFF and >> 8 inverts (hi << 8) or key for every keycode below 256 |
| Daemon.PackInjective | main.c:262 | distinct (group, key) pairs pack to distinct entries |
| Daemon.PackNeedsKeycode | main.c:112-113 | a low part of 256 spills into the high part |
| Daemon.ModifierBit | main.c:223-242 | the result read through uint8_t is a modifier bit or 0xFF |
| Daemon.ModifierBitExact | main.c:225-240 | a name yields modifier i's bit exactly when it equals that keyword, letter for letter |
| Daemon.ModifierBitUnknown | main.c:241 | any other name, differently cased ones included, gives 0xFF |
| Daemon.OrBitsSome | main.c:175-183 | the modifier loop succeeds exactly when no token is unknown |
| Daemon.OrStep | main.c:182 | ORing in a modifier bit sets bit i exactly when it was set or is that bit |
| Daemon.OrBitsExact | main.c:175-183 | the OR of modifier bits has bit i set exactly when some entry is bit i |
| Daemon.LineMask | main.c:175-183 | defines the mask of a line's modifier tokens: the OR of their bits, or nothing when one is not a modifier name |
| Daemon.LineMaskSome | main.c:175-183 | a line's modifiers are accepted exactly when every token is a modifier name |
| Daemon.LineMaskBits | main.c:175-183 | an accepted line's mask has bit i set exactly when some token is modifier i's name |
| Daemon.LineMaskSnoc | main.c:175-182 | one more token ORs its bit in, or fails on an unknown name |
| Daemon.CString | main.c:136-169 | the line is the buffer up to its first NUL |
| Daemon.FirstSpace | main.c:146-148 | the first space of a line, or its end |
| Daemon.SplitPlus | main.c:150-162 | a string cut at '+' has at least one piece |
| Daemon.SplitPlusJoin | main.c:150-162 | the pieces hold no '+', number one more than the '+' signs, and joined with '+' give the string back |
| Daemon.LineParts | main.c:146-167 | the first space ends the combo: the line is combo, space, action; a line without space is all combo |
| Daemon.ParseEntry | main.c:125-187 | defines how parse_config_entry reads a line: nothing for a rejected line, else the modifier mask, the keysym of the last token and the action |
| Daemon.ParseEntryAccepts | main.c:125-187 | a line is accepted exactly when it does not start with space, '#', newline or tab, has at most 8 tokens, and every token but the last is a modifier name |
| Daemon.ParseEntryFields | main.c:143-187 | an accepted line carries its last token's keysym, the text after its first space, and bit i exactly when a modifier token names modifier i |
| Daemon.ScanSpace | main.c:146-149 | the first space switches the first pass to the action |
| Daemon.ScanPlus | main.c:150-159 | a '+' before the space starts a new empty token |
| Daemon.ScanPlusFull | main.c:150-156 | a '+' with all 8 tokens in use means the combo has 8 or more '+' |
| Daemon.ScanChar | main.c:160-163 | any other character before the space extends the current token |
| Daemon.ScanAction | main.c:164-167 | after the space every character goes to the action |
| Daemon.ScanDone | main.c:143-170 | at the end of the line the pass holds the combo's tokens and the action |
| Daemon.SplitEntry | main.c:127-170 | the first pass succeeds exactly when the combo has at most 7 '+', and then yields the combo's '+'-separated tokens and the action |
| Daemon.ParseLine | main.c:125-187 | the parsing half of parse_config_entry computes ParseEntry: None exactly for a rejected line |
| Daemon.LevelMatches | main.c:258-263 | one copy of the pair per level holding the keysym |
| Daemon.GroupMatches | main.c:255-265 | the matches of one key carry that key and groups below the bound |
| Daemon.Matches | main.c:253-266 | the matches carry keys below the bound and groups below MAX_GROUPS |
| Daemon.GroupMatchesOrdered | main.c:255-265 | one key's matches come group by group |
| Daemon.MatchesOrdered | main.c:253-266 | the matches come key by key, and group by group within a key |
| Daemon.GroupMatchesCount | main.c:255-265 | a key's groups contribute one match per level holding the keysym |
| Daemon.MatchesCount | main.c:253-266 | pair (g, k) is found exactly once per level of key k in group g holding the keysym |
| Daemon.MatchesCounts | main.c:253-266 | the same, for every pair of the keyboard |
| Daemon.PackPairs | main.c:262 | one packed entry per pair |
| Daemon.PackPairsAppend | main.c:262 | packing distributes over concatenation |
| Daemon.PackMatchesStep | main.c:253-266 | the key loop's output for one more key is followed by that key's packed matches |
| Daemon.PackPairsDecode | main.c:197-198 | entry i of the packed pairs decodes to pair i's group and key |
| Daemon.UnpackPair | main.c:197-198 | decoding a packed pair gives its group and key |
| Daemon.FindInLevels | main.c:257-264 | the level loop yields the packed pair once per level holding the keysym |
| Daemon.Grabs | main.c:109-116 | grab_all_keys makes one grab per entry of the row |
| Daemon.GrabsOfRowAdds | main.c:106-118 | grabbing the entries a line adds to a group grabs exactly the keys found in that group, in order, with the line's modifiers |
| Daemon.FirstMatch | main.c:75-84 | defines the key-press search: the action of the first item whose mask equals the state |
| Daemon.FirstMatchSpec | main.c:75-84 | the key press runs the action of the earliest item whose mask equals the state exactly, and nothing exactly when none does |
| Daemon.PairStep | main.c:195-208 | one more found pair raises its count by one and adds its packed entry to its group's row |
| Daemon.AddItem | main.c:203-204 | adding an action keeps the tables' shape |
| Daemon.AddItems | main.c:195-208 | the loop over found pairs keeps the tables' shape |
| Daemon.AddItemsCell | main.c:195-208 | each key keeps its symbols and gains one copy of the item per occurrence of its pair |
| Daemon.LineEffect | main.c:189-208 | a line gives every key one copy of its item per level holding the line's keysym, and nothing to the others |
| Daemon.AddEntries | main.c:207 | the loop keeps MAX_GROUPS rows |
| Daemon.AddEntriesRow | main.c:195-208 | row g gains exactly the packed entries of the pairs in group g, in order |
| Daemon.Daemon.constructor | main.c:271-313 | after parse_keymap every key holds its symbols and no action, every row is empty and group 0 is current |
| Daemon.Daemon.FindKeyAndGroup | main.c:244-268 | found_pairs holds the packed matches in key, group, level order |
| Daemon.Daemon.FindInKey | main.c:255-265 | the group loop yields the packed matches of one key |
| Daemon.Daemon.AddAction | main.c:203-204 | the key gains the item as its last action; nothing else changes |
| Daemon.Daemon.AddEntry | main.c:207 | the group's count grows by one and the entry lands in the new slot; nothing else changes |
| Daemon.Daemon.RecordPairs | main.c:195-208 | the keys become AddItems and the rows AddEntries of the found pairs |
| Daemon.Daemon.RecordPair | main.c:196-207 | one pass of that loop extends both by the j-th pair |
| Daemon.PairRoom | main.c:203-207 | with room for every found pair at the start, the j-th pair's key still has a free action slot and its group's row a free entry after the pairs before it, and the pair adds one action and one entry |
| Daemon.Daemon.ParseConfigEntry | main.c:125-209 | -1 and nothing changed for a rejected line; else 0, and the keys and rows gain the line's item and entries for every level holding its keysym |
| Daemon.Daemon.KeyPress | main.c:71-85 | the command is FirstMatch of the current group's key's actions under state & 0x9FFF |
| Daemon.Daemon.GrabAllKeys | main.c:106-118 | one grab per entry of the group's row, decoded into modifier and keycode |
| Daemon.Daemon.StateNotify | main.c:86-98 | a new group gives one ungrab-all then the new group's grabs, and becomes current; the same group gives no calls |

## Left out

- Registration.RegisterActions: states only that the key stays consistent and keeps its symbol. Its contents are stated by RegisterActionsWithRoom (with room) and FreshKeyKeepsOnlySecond (from an empty key).
- XhdModes.Mode.AddAction: every allocation inside add_action succeeds. The source ignores the return codes of register_action and register_grab, so a failed growth would only drop an entry.
- ModeList.ModeList.RegisterMode: models the growth as intended (see Findings). Failure of `xhd_modes_alloc_mode` inside the growth loop is not modelled; the mode list's constructor also assumes every allocation succeeds.
- Config.Parser.ParseKeycombo: a ninth token fails the combo with -1, where the source writes past `key_buf` (see Findings).
- Config.Parser.ParseConfigFile: reads to the end of the input instead of stopping on `feof` (see Findings). The as-written loop is ConfigSpec.ConfigFileAt.
- Daemon.Daemon.ParseConfigEntry (and its loop Daemon.Daemon.RecordPairs): requires the line to fit the fixed tables: at most 16 pairs found, at most 16 actions per key and fewer than 255 entries per group. `main.c` writes these arrays without bounds checks.
- Daemon.Daemon.StateNotify: requires the group from the X event to be below MAX_GROUPS. `main.c` indexes `actionlist` with it unchecked.
- Daemon.Daemon.FindKeyAndGroup: requires at most 16 matches, the size of the caller's `found_pairs` array. The C loop writes past it.
- Daemon.Daemon.constructor: models the successful path of `parse_keymap` only, with at most 16 symbols per key and at most MAX_GROUPS groups. The C returns -1 without a keyboard or keymap and does not bound either count.
- The `fread` block refill is modelled only as far as needed to decide `feof`. `ferror`, a `NULL` file, and the missing return value of `xhd_config_read_to_buf` are not modelled; the last is read as 0.
- An embedded NUL in the config file is read as an ordinary character (ConfigSpec.Read), as `xhd_config_read_char` does. The values keep the characters after it, where the C strings end at the NUL when printed. Only ConfigSpec.ConfigLoopIntended stops on a NUL, and only one met between mode entries.
- Parse errors print a line number. The model keeps the line counter but not the printing.
- Flags carry no meaning in the source; the model only returns their text.
- `xkb_keysym_from_name` is the function parameter `resolve`. The xkb keymap queries are the `XkbSource` oracle, and `parse_keymap`'s queries are the table given to the `Daemon` constructor.
- Config file discovery, `fopen`/`fclose`, the `fgets` driver loop of `main` (main.c:61-66) and `xhd_config_parse` are left out.
- The local buffers `key_buf`, `flag_buf`, `cmd_buf`, `name_buf` and `action` of both parsers are sequences. In `parse_config_entry`, a token of 40 or more characters overruns its `key_buf` row; the model does not capture that overrun.
- In `main.c`, `else if ( action_flag = 1)` assigns instead of comparing. The branch is taken whenever it is reached, which is what the model does.
- `parse_config_entry` has no final return; the model returns 0 on that path. `xhd_modes_fini` (xhd_modes.h:229-249) has no return on its success path either; ModeList.ModeList.Fini returns nothing.
- The packing `(hi << 8) | key` is modelled on integers, which is exact because the key is below 256.
- X setup, event waiting, `xcb_grab_key`, `xcb_ungrab_key` and `xcb_flush` are out of scope. Grabbing is modelled as a returned list of abstract calls.
- Running a command with `fork`/`execvp` is out of scope; the key press returns the command to run.
- `printf`/`fprintf` diagnostics are out of scope.
- Allocation-failure unwinding in `xhd_modes_alloc_mode`, `_free_mode` and `_init`, including the unreachable `fail3`/`fail4` labels, is not modelled. Freeing memory is not modelled either.
- The `keys` and `rows` mirrors of the `Daemon` class, and the `Repr` footprints, are proof devices with no counterpart in the source.

## Findings

| source | as written | input that shows it | evidently intended | confidence | as-written member | corrected member |
|---|---|---|---|---|---|---|
| xhd_modes.h:348-356 | when the mode list is full, the allocation loop calls `xhd_modes_alloc_mode(&modelist->modes[i])` on the OLD array for i from num_modes to 2*alloc: past its end, while the new array's slots stay zero-filled | a list with alloc_modes == num_modes, e.g. the 11th `register_mode` after init with MODE_LIST_SIZE 10 | allocate the new modes into `tmp[i]`, so every new slot holds an allocated mode | high, not executed | ModeList.GrowAsWrittenOverruns | ModeList.ModeList.Grow |
| xhd_config.h:203-209 | each '+' increments `key_index` with no bound, so a ninth token is written to `key_buf[8]`, past the array of MAXCOMBOLEN rows | the keycombo "a+b+c+d+e+f+g+h+i{" | reject the combo with -1 once MAXCOMBOLEN tokens are in use | high, not executed | ConfigProps.KeycomboOverflowExample | Config.Parser.SplitKeycombo |
| xhd_config.h:447-458 | the loop runs while `!feof`, and feof is set as soon as a short block is fetched, so a file shorter than MAXBUFLEN yields only its first mode entry | the file "a{}b{}" | parse mode entries until the input is exhausted | high, not executed | ConfigProps.ConfigFileAsWrittenStopsEarly | ConfigProps.ConfigFileIntendedReadsAll |

# A gdb-to-vim bridge, verified

The bridge runs gdb behind its machine interface and shows its state in windows of vim, or of a terminal through
curses. This project models the parts that transform text, keep state or coordinate threads, in the form they have in
the program: loops over buffers, classes whose methods change fields, and steps of threads over shared variables.

- `Options`, `CStrings`, `Escape`: absent values, NUL-terminated buffers, escaping and in-place de-escaping.
- `Doubles`, `Numbers`: unsigned numbers rounded to doubles, numbers as text.
- `Split`, `SplitLaws`: the two-pass command splitter. The passes disagree about an escaped backslash before a quote;
  the laws say on which lines, how many arguments the first pass counts for any quoted list, and for which of these lists
  the argument array is overrun.
- `Tiling`, `CursesUi`: slot table, groups, rows and frames of the curses windows, and the geometry they have on the
  screen.
- `IntrusiveList`: the list macros, including loops that unlink the current element.
- `Buffers`, `Lines`: the growing text buffer, a text used as a format, the map from screen lines to objects, and the law
  that every printed line leads back to its object.
- `GdbRequests`, `VimCalls`, `EventQueue`: requests and events as state machines over the locks and condition variables,
  for any number of threads and any interleaving.
- `Framing`: cutting gdb's output at its prompts.
- `Registry`, `VariablePrint`: variable objects as a mutable forest with maps and reference counts, and their recursive
  printing.
- `Bits`, `MemoryDump`, `MemoryView`, `MemorySet`: alignment, dump rows, the memory window, and the values written.
- `Registers`, `PeripheralView`, `PeripheralLoad`: byte order and bit fields, the in-place swapping and terminating of
  memory content while it is printed, and the checks made on loading.
- `Netbeans`, `VimTexts`, `VimWindows`: the line buffer of the socket, messages, a reader of these messages that
  replays them into texts, and the windows that produce them.

Inputs from outside (gdb's answers, vim's replies, window sizes, the choice of the next thread) are parameters or
arbitrary choices. Text is a sequence of characters; a C string is a buffer read up to its first NUL.

Where the code does not do what its callers would expect, the model keeps the code and a lemma gives the exact
condition:

- the counting pass of `strsplit` does not know the escaped backslash (`SplitLaws.SameTogglesIffClean`,
  `SplitLaws.OverrunIffMoreLostThanGained`, with the lines in `SplitLaws.OverrunExample` and `SplitLaws.BlanksMakeUp`);
- the test `(LINES - fixed_height) < 0` compares an unsigned number with zero and never fires, so fixed heights beyond the
  screen are placed off the screen (`Tiling.TilesTheScreen`);
- a command issued once gdb is gone waits forever (`GdbRequests.WaitsForever`), and the beginning of a command whose
  format is refused is sent in front of the next one (`GdbRequests.RefusedFormatSpoils`);
- contexts with colons can give two call stack variables the same key (`Registry.KeysApart`);
- a variable whose deletion gdb refuses, or a child released to zero, leaves the registry damaged
  (`Registry.Vars.Release`);
- a reference protects a root (`Registry.Vars.Session`), but a child goes with its root however many references to it are
  held (`Registry.Vars.ReleaseAbove`);
- a failed read ends the update of the memory and peripheral windows when their line maps have already been cleared, so
  that the maps no longer belong to the text on show (`MemoryView.View.Refresh`, `MemoryView.LinesAfterFailure`,
  `PeripheralView.View.Refresh`);
- a name or value on show with a newline makes the line counter short of the text (`PeripheralView.LinesLeadToObjects`,
  `PeripheralView.PlainView`, `VariablePrint.PrintAll`); escaped newlines in the names of a peripheral file become
  newlines, as in `a\nb` (`PeripheralLoad.CheckRange`, `PeripheralLoad.CountedShort`, `PeripheralLoad.NewlineExample`);
- the three views hand their text to the window as a format, so that any percent sign in it spoils the window
  (`Buffers.FormattedIsText`): a byte 0x25 in an unfolded segment (`MemoryView.View.Refresh`,
  `MemoryDump.PercentInBlock`, with the segment in `MemoryView.PercentExample`), a name or description on show
  (`PeripheralView.PlainView`), an expression or value on show (`VariablePrint.PrintAll`);
- without its window a view is not updated, so that after a deletion its line map leads to a freed object
  (`MemoryView.View.Delete`, `VariablePrint.DeleteAt`; loading a peripheral file is safe, `PeripheralView.View.Cleanup`);
- setting a headline as if it were a register reads the address of a range it does not have
  (`PeripheralLoad.SetRegister`, `PeripheralLoad.CheckRange`), and a value of odd length is swapped outside its buffer
  (`Registers.StrSwap2`);
- a screen narrower than one column makes the arrangement of windows divide by zero (`CursesUi.Curses.WinResize`);
- numbers just below some powers of the base are counted a digit too long, which makes `itoa` replace buffers that are
  large enough (`Numbers.StrLenBase`, `Numbers.DecimalCount`, `Numbers.HexCount`);
- two threads that create the same window at once may leave one of them without a name (`VimWindows.VimUi.Register`);
- a variable that gdb created but could not describe stays registered although the caller gets nothing
  (`Registry.Vars.Acquire`);
- register ends that wrap around pass the load-time check (`PeripheralLoad.AcceptedIsInside`, `PeripheralLoad.WrappedEnd`);
- fields that reach beyond bit 31 lose their upper bits (`Registers.FieldIsRight`), and eight-byte registers with the top
  bit set are read as the largest signed number (`PeripheralLoad.ReadsItsValue`);
- quoted values with characters beyond ASCII are not written as hexadecimal digits (`MemorySet.HexRoundTrip`);
- a message with an unknown conversion leaves its beginning in the send buffer (`Netbeans.Connection.Action`).

## Model

| member | source | states |
|---|---|---|
| CStrings.StrLen | common/string.cc:296 | a C string ends at its first NUL, and nothing before it is NUL |
| Escape.RoundTrip | common/string.cc:224-335 | de-escaping an escaped text gives the text back, for every text |
| Escape.DeescapePrefix | common/string.cc:288-335 | de-escaping an escaped text followed by anything starts by giving the text back |
| Escape.EscapeAfterDeescape | common/string.cc:224-335 | escaping undoes de-escaping exactly on the texts in which every special character is escaped and every backslash starts an escape |
| Escape.NewlineAfterDeescape | common/string.cc:288-335 | de-escaping yields a newline exactly if the text has one, or an `n` behind an odd number of backslashes |
| Escape.NoRawControl | common/string.cc:251-281 | escaped text holds no raw newline, carriage return or tab |
| Escape.EscapeTable | common/string.cc:251-281 | the five escape sequences, and that no other character is escaped |
| Escape.CloseQuoteAfterEscape | common/string.cc:251-281 | behind an opening quote, the first quote not covered by an escape is the one put behind the escaped text |
| Escape.EscapeInto | common/string.cc:251-283 | the loop writes the escaped text and a terminator into a buffer of 2n+1 characters |
| Escape.StrEscape | common/string.cc:224-286 | the escaped text in the caller's buffer, or in a new one exactly if the old one is shorter than 2n+1; source and destination may be one buffer |
| Escape.StrDeescape | common/string.cc:288-335 | in place, the buffer becomes the left-to-right de-escaping of its text; nothing behind the old terminator changes |
| Split.ScanCounting | common/string.cc:57-85 | the argument scan of the first pass ends where the counting specification says |
| Split.ScanFilling | common/string.cc:113-169 | the argument scan of the second pass ends where its specification says and measures exactly the characters that are then copied |
| Split.CopyArg | common/string.cc:172-215 | the copy loop writes exactly `arg_len` characters, the argument's text, and the terminator |
| Split.CountArgs | common/string.cc:44-88 | the first pass counts the arguments its specification finds |
| Split.StrSplit | common/string.cc:33-222 | `argv` is sized by the first pass; when the second pass finds no more than that, `argc` and all strings are the arguments of the line, otherwise an overrun is reported |
| SplitLaws.PassesScanAlike | common/string.cc:57-85 | on clean lines both passes end an argument at the same place |
| SplitLaws.SpansAlike | common/string.cc:44-216 | on clean lines both passes find the same arguments |
| SplitLaws.CleanLinesFit | common/string.cc:90-216 | on clean lines the count of the first pass is the number of arguments of the second |
| SplitLaws.SameTogglesIffClean | common/string.cc:61-62 | the passes agree on which quotes open and close quoted text exactly on clean lines, those without an escaped backslash right before a quote where the scan passes |
| SplitLaws.NoDoubleBackslashIsClean | common/string.cc:61-62 | lines without two adjacent backslashes are clean |
| SplitLaws.OverrunExample | common/string.cc:61-62 | a line of four characters, a quoted escaped backslash, that is counted as no argument and filled as one |
| SplitLaws.QuotingRoundTrip | common/string.cc:96-216 | splitting the quoted and escaped form of any list of arguments finds exactly that list |
| SplitLaws.QuotingFits | common/string.cc:44-216 | if no argument ends in a backslash, the first pass counts the quoted list right |
| SplitLaws.CountedExactly | common/string.cc:44-88 | the first pass counts, for every quoted list, its arguments, plus the stretches of blanks in arguments it takes for unquoted text, minus the arguments behind which it takes the blanks for quoted text; it changes its mind at every argument that ends in a backslash |
| SplitLaws.OverrunIffMoreLostThanGained | common/string.cc:33-222 | for every quoted list, `argv` is overrun if and only if more arguments are lost than stretches of blanks gained |
| SplitLaws.BlanksMakeUp | common/string.cc:33-222 | two lists in which blanks make up for trailing backslashes, one counted right and one counted too long |
| Tiling.RowsCutLive | gui/curses/cursesui.cc:307-356 | the row lengths cut the live windows into consecutive rows, none empty or too long, full-width windows alone |
| Tiling.RowHeights | gui/curses/cursesui.cc:307-329 | with fixed-height windows in rows of their own, the total height is the fixed heights plus the remaining rows times the flexible height |
| Tiling.ColumnsFit | gui/curses/cursesui.cc:376-390 | columns are never narrower than the minimum, so the width test inside the loop never fires, and end on the screen |
| Tiling.FramesArranged | gui/curses/cursesui.cc:374-403 | all frames lie between the first line and the total height without overlap, each in its column |
| Tiling.FlexibleRowExists | gui/curses/cursesui.cc:358-365 | there are at least as many rows as fixed-height windows, and more if a window of flexible height exists |
| Tiling.UnsignedDifference | gui/curses/cursesui.cc:358-365 | a difference of screen and fixed heights below zero becomes a large number |
| Tiling.TilesTheScreen | gui/curses/cursesui.cc:291-406 | no two frames overlap, widths and heights keep their minima, fixed heights are kept, full-width windows span the screen; all frames are on the screen if and only if the fixed heights fit |
| CursesUi.AddWindow | gui/curses/cursesui.cc:314-321 | one window joins the open group or closes it and becomes a group itself |
| CursesUi.SplitWindows | gui/curses/cursesui.cc:298-332 | groups, sum and number of fixed heights of the live windows; all indices stay within `nwin + 1` |
| CursesUi.FillRows | gui/curses/cursesui.cc:343-352 | one group becomes full rows and a rest |
| CursesUi.CountRows | gui/curses/cursesui.cc:339-356 | `ncols` and `nlines` are the rows of the groups, at most `nwin` |
| CursesUi.PlaceRow | gui/curses/cursesui.cc:377-402 | the next live windows in slot order get frames side by side at the row's line |
| CursesUi.PlaceRows | gui/curses/cursesui.cc:374-403 | every live window gets the frame of the arrangement |
| CursesUi.Curses.WinResize | gui/curses/cursesui.cc:291-406 | divides by zero exactly if there is a window and the screen is narrower than one column; otherwise returns -1 exactly if the flexible rows are too low, and else every live window has its frame of the arrangement |
| CursesUi.Curses.Grow | gui/curses/cursesui.cc:161-166 | a full table, and only that, doubles, its new slots empty |
| CursesUi.Curses.FindSlot | gui/curses/cursesui.cc:168-178 | finds the title, or else the last free slot and that the title is unknown |
| CursesUi.Curses.WinCreate | gui/curses/cursesui.cc:156-201 | a known title gives its slot and changes nothing, on any screen; a new one gets the last free slot, and all windows their frames, if and only if the windows with the new one are not too low for the screen; otherwise the slots are as before, the others are arranged again and the result is -1; a new window on a screen narrower than one column ends in a division by zero |
| CursesUi.FirstWindowFits | gui/curses/cursesui.cc:339-366 | the first window is created on every screen of at least 3 lines and 30 columns, and is too low exactly below 3 lines |
| CursesUi.TextInsideFrame | gui/curses/cursesui.cc:394-397 | the text area of a window is its frame without the border; it is empty exactly for frames less than 3 high or wide |
| CursesUi.Curses.WinDestroy | gui/curses/cursesui.cc:203-218 | the slot becomes empty, `nwin` drops and the others are arranged again, or -1 and nothing changes; it breaks exactly for negative numbers, and for windows left on a screen narrower than one column |
| CursesUi.WindowsTile | gui/curses/cursesui.cc:291-406 | after a successful resize the windows themselves tile the screen |
| IntrusiveList.List.AddHead | include/common/list.h:49-59 | the list becomes the element and then the old list, links and head consistent |
| IntrusiveList.List.AddTail | include/common/list.h:69-83 | the list becomes the old list and then the element |
| IntrusiveList.List.Remove | include/common/list.h:94-100 | exactly the element is unlinked; it keeps its own `next` |
| IntrusiveList.List.RemoveWhere | include/common/list.h:200 | a loop that unlinks current elements visits every original element once, in order, and leaves exactly the others |
| IntrusiveList.ForwardWithout | include/common/list.h:94-96 | after the predecessor points past an element the forward links are those of the list without it |
| IntrusiveList.BackwardWithout | include/common/list.h:96-97 | after the successor, or else the first element, points before it the backward links are those of the list without it |
| Buffers.DynArray.Format | common/dynarray.cc:30 | as much text as fits and a terminator; the length the text has |
| Buffers.DynArray.Add | common/dynarray.cc:20-44 | the buffer grows until the text fits; then it holds the old text and the new one |
| Buffers.DynArray.Clear | common/dynarray.cc:46-49 | the text is empty, the buffer kept |
| Buffers.DynArray.DataIsText | common/dynarray.cc:51-53 | a reader of `data` sees the whole text as long as it holds no NUL |
| Buffers.NewlinesConcat | common/dynarray.cc:20-44 | the screen lines of appended text add up |
| Buffers.FormattedIsText | gui/vim/vimui.cc:537-548 | a text used as a format comes out as it is if and only if it holds no percent sign |
| Buffers.DoubledIsFormat | gui/vim/vimui.cc:537-548 | a format prints a text without arguments if and only if it is that text with every percent sign doubled |
| Buffers.LineMap.Find | common/linemap.cc:15-27 | the reverse search finds the last entry that does not lie behind the line |
| Buffers.LookupBlock | common/linemap.cc:15-27 | in an increasing map a line belongs to the entry from which its block starts |
| Buffers.LookupBefore | common/linemap.cc:15-27 | a line before all entries belongs to nothing |
| GdbRequests.StepInv | gdb/gdb.cc:182-337 | every step of every thread keeps the protocol's invariant |
| GdbRequests.RunInv | gdb/gdb.cc:182-337 | the invariant holds in every state of every run |
| GdbRequests.CommandsGetTheirAnswers | gdb/gdb.cc:182-337 | in every interleaving completed commands used the tokens 1, 2, 3, ..., no request twice; each without exit result sent its request itself and holds the result and the class gdb answered this request with, and returns -1, handing nothing out, exactly if that was an error |
| GdbRequests.AnswersFindTheirIssuer | gdb/gdb.cc:285-300 | an answer that passes the token test finds its issuer waiting, and only it, so the signal is never lost |
| GdbRequests.OneIssuerAtATime | gdb/gdb.cc:193-300 | at most one thread is between locking and unlocking |
| GdbRequests.OnlyTheLastIsCutShort | gdb/gdb.cc:319-337 | at most one command completes with the exit result, and it is the last to complete |
| GdbRequests.ExitWakes | gdb/gdb.cc:319-337 | the exit record wakes the waiting thread whatever its token |
| GdbRequests.WaitsForever | gdb/gdb.cc:285-330 | in every run nothing more can happen exactly if the exit record has been handed in and a thread waits, so such a thread waits forever and there is no other deadlock |
| GdbRequests.RefusedFormatSpoils | gdb/gdb.cc:207-281 | after a command with a refused format the next complete request begins with what was written of it |
| GdbRequests.AnyAnswerIsPossible | gdb/gdb.cc:182-337 | whenever nobody issues a command and gdb is there, any thread can complete one with any answer |
| VimCalls.StepInv | gui/vim/vimui.cc:718-795 | every step of callers, vim and reader keeps the invariant |
| VimCalls.RunInv | gui/vim/vimui.cc:598-618 | the invariant holds in every state of every run |
| VimCalls.CallsGetTheirReplies | gui/vim/vimui.cc:598-618 | in every interleaving each completed call was made by its thread and has the reply with its own sequence number; numbers count all commands and calls |
| VimCalls.ReplyIsStable | gui/vim/vimui.cc:771-785 | from the signal until the caller reads it, after giving back the lock, nothing replaces the reply |
| VimCalls.AnyoneCanCall | gui/vim/vimui.cc:718-795 | whenever nobody is in a window function and the reader is free, any thread can make and complete a call |
| EventQueue.StepInv | gdb/gdb.cc:339-366 | every step of producers and consumer keeps the invariant |
| EventQueue.FirstInFirstOut | gdb/gdb.cc:524-572 | in every interleaving the consumer never takes from an empty list; handled, held and queued events are exactly the exits, stops and starts that arrived, in the order in which they were put in; nothing is handled after an exit event |
| EventQueue.EventsAreHandled | gdb/gdb.cc:339-366 | an event of these kinds can always wake the waiting consumer and be handled |
| Framing.LineReader.Receive | gdb/gdb.cc:458-493 | one byte extends the pending text, or completes a chunk; carriage returns are ignored; the index stays below a capacity that doubles |
| Framing.LineReader.AtPrompt | gdb/gdb.cc:476-479 | the comparisons decide whether the pending text ends in a prompt |
| Framing.LineReader.ReadAll | gdb/gdb.cc:458-493 | chunks and pending text together are the input without carriage returns; every chunk ends in a prompt and no proper beginning of it does |
| Framing.FramingIsUnique | gdb/gdb.cc:458-493 | there is only one way to cut an input like that |
| Framing.MessagesArriveWhole | gdb/gdb.cc:458-493 | messages that end in their only prompt reach the parser one by one |
| Registry.Vars.Forget | gdb/variable.cc:45-64 | an object leaves the map of names and the map of its origin, nothing else does |
| Registry.Vars.Delete | gdb/variable.cc:44-72 | the destructor takes exactly the object and everything below it out of the registry |
| Registry.Vars.EraseChilds | gdb/variable.cc:290-301 | exactly what is below the object leaves the registry and the list of children is empty |
| Registry.Vars.DeleteRoot | gdb/variable.cc:44-72 | deleting a root leaves the rest of the registry intact |
| Registry.Survivors | gdb/variable.cc:44-72 | the forest without a whole tree, or without what is below one object, is well linked again |
| Registry.Vars.Acquire | gdb/variable.cc:78-154 | a known name is shared and its count raised, an unknown one registered as a marked root with count 1 and what gdb says of it; without a description the caller gets nothing but the object stays registered |
| Registry.KeysApart | gdb/variable.cc:84-104 | keys of different origins never meet; two call stack keys are equal exactly if context and expression together are, so contexts without colons keep expressions apart |
| Registry.Vars.Release | gdb/variable.cc:156-170 | counts down, and at zero deletes the tree if gdb accepts; the registry stays intact if and only if references remain, or the object is a root and gdb accepts |
| Registry.Vars.ReleaseAbove | gdb/variable.cc:44-72 | a child leaves the registry with its root, whatever references to the child are held |
| Registry.Vars.AddChilds | gdb/variable.cc:279-285 | every listed child is created and registered with the right parent, origin, expression and number of children, marked and folded, in order |
| Registry.Vars.InitChilds | gdb/variable.cc:269-288 | children are asked for only if there are none; they are then exactly those that gdb lists |
| Registry.Vars.Refresh | gdb/variable.cc:180-199 | a listed variable on show is marked; a change of type replaces what is below it by the children gdb lists and keeps the object; nothing else changes |
| Registry.Vars.GetChanged | gdb/variable.cc:172-210 | after the loop over gdb's list exactly the objects below a changed type are gone; every other object is marked if it was, or is listed and on show; number and names of its children are those of its last type change, or what they were; counts stay; an error changes nothing |
| Registry.Vars.Session | gdb/variable.cc:78-301 | any run of acquire, release, init_childs and refresh keeps the registry intact, and a root is there, with its count changed by exactly the acquires and releases of its name, if and only if the last reference was never given back |
| Lines.FindsOwner | common/linemap.cc:15-27 | `find` gives for every screen line the object it belongs to: its own, or that of the nearest line above that has one |
| Lines.LinesLeadBack | gdb/variable.cc:316-333 | in a view printed line by line the map is increasing and every line counted leads to its object; the counter is one more than the newlines of the text if and only if no item holds a newline, and short otherwise; the same holds for the counter at every item |
| Lines.ObjectsAreFound | common/linemap.cc:15-27 | in such a view looking up the line counted for an object gives that object |
| VariablePrint.Update | gdb/variable.cc:237-253 | the value is asked for only if modified, and an error leaves it |
| VariablePrint.PrintOwnLine | gdb/variable.cc:312-322 | one line, one map entry, the line counter up by one, the new value and no mark, or -1 and nothing |
| VariablePrint.Print | gdb/variable.cc:303-336 | recursive printing appends the listing of the tree, its map entries and its number of lines; what is listed has its new value and no mark any more, the rest is as before |
| VariablePrint.PrintChilds | gdb/variable.cc:325-328 | the loop over the children appends their listings; errors of children are ignored |
| VariablePrint.ListsInPreorder | gdb/variable.cc:303-336 | when gdb answers, the listing shows the visible variables in preorder |
| VariablePrint.TreeOf | gdb/variable.cc:269-301 | every registered variable is the root of a finite tree of exactly the objects below it, so `print` terminates on it |
| VariablePrint.CharsOfListing | gdb/variable.cc:303-336 | a listing holds a newline, or a percent sign, if and only if an expression or a value on show does |
| VariablePrint.PrintRoots | user_cmd/variable.cc:253-283 | the loop over the map of user variables appends the listings of the roots one behind the other |
| VariablePrint.PrintAll | user_cmd/variable.cc:253-283 | nothing happens if the window is missing; otherwise the listings of all roots, with every line counted leading to its variable and only to variables that exist; the counter is in step with the text if and only if no expression or value on show holds a newline, and the window shows the text if and only if none holds a percent sign |
| VariablePrint.ForestOf | user_cmd/variable.cc:253-283 | the user variables of every intact registry, in any order, are the roots of disjoint finite trees, so the whole window can be printed |
| VariablePrint.DeleteAt | user_cmd/variable.cc:52-97 | how DELETE ends, and what is left of the registry; after a deletion some line leads to a freed variable if and only if the window is missing |
| Numbers.DigitCount | common/string.cc:13-23 | the number of digits is that of the least power of the base above the number |
| Numbers.StrLenBase | common/string.cc:13-23 | the loop finds the number of digits, and one more exactly if the number, as a double, reaches the next power of the base |
| Numbers.DecimalCount | common/string.cc:13-23 | for 64-bit numbers in base 10 that is exactly in four intervals below 10^16, 10^17, 10^18 and 10^19 |
| Numbers.HexCount | common/string.cc:13-23 | in base 16 exactly in three intervals below 16^14, 16^15 and 16^16 |
| Numbers.Itoa | common/string.cc:349-384 | digits and sign in the caller's buffer, or in a new one exactly if the length counted does not fit |
| Numbers.ValueOfDigits | common/string.cc:349-384 | reading back the digits gives the number |
| Numbers.SignedReads | common/string.cc:349-384 | signed numbers are read back, sign and digits |
| Numbers.AddressReads | user_cmd/memory.cc:283 | a 64-bit address takes 18 characters and is read back from them |
| Doubles.Monotone | common/string.cc:13-23 | rounding to a double keeps the order of numbers |
| Doubles.RoundsUp | common/string.cc:13-23 | of the numbers below an even multiple of a unit exactly those within half a unit of it are rounded to it |
| MemoryDump.AlignRoundsDown | user_cmd/memory.cc:23 | for powers of two the mask rounds down to a multiple |
| MemoryDump.EndOfRow | user_cmd/memory.cc:324 | the address test finds the last column |
| MemoryDump.PrintLead | user_cmd/memory.cc:302-311 | the cells before the segment, and their characters |
| MemoryDump.PrintByte | user_cmd/memory.cc:315-332 | one byte: digits, character and, behind the last column, the end of the row |
| MemoryDump.PrintBytes | user_cmd/memory.cc:314-333 | all bytes; the character index stays below the alignment |
| MemoryDump.PrintTrail | user_cmd/memory.cc:336-341 | the cells behind the segment |
| MemoryDump.PrintBody | user_cmd/memory.cc:302-350 | the whole body as specified by rows of cells, and the line counter; character buffer and escaping stay within 2A+1 |
| MemoryDump.BodyIs | user_cmd/memory.cc:335-350 | the body by where the segment ends |
| MemoryDump.BytePlace | user_cmd/memory.cc:279-333 | byte k is in row (b mod A + k) / A and column (b + k) mod A, in a row whose address is divisible by A, and under its own address |
| MemoryDump.ByteCell | user_cmd/memory.cc:303-333 | the cell of byte k shows its two digits content[2k] and content[2k+1], bare if they were the same before and in the colour of changes otherwise, and its character has their value |
| MemoryDump.OtherCells | user_cmd/memory.cc:308-340 | every cell outside the segment shows `??` and a blank, and every cell inside is that of the byte at its address |
| MemoryDump.BlockPlain | user_cmd/memory.cc:283-350 | a block has as many lines as are counted for it |
| MemoryView.Segment.Update | gdb/memory.cc:108-123 | new content, the old one kept beside it; an error changes nothing |
| MemoryView.View.Add | user_cmd/memory.cc:72-101 | an alignment that fails the test becomes 8 and the character buffer is large enough for a row; the view stays usable if and only if the verdict of the floating-point test on the alignment it accepts is right |
| MemoryView.View.Refresh | user_cmd/memory.cc:258-351 | nothing happens if the window is missing; otherwise every segment is read again, the line map is that of the blocks and leads to existing segments only; the first failing read ends it, with the map of the segments before it and the window as it was; the window shows the text if and only if no byte on show is 0x25 |
| MemoryView.View.Delete | user_cmd/memory.cc:105-118 | how DELETE ends; after a deletion all lines lead to existing segments if and only if the window is there |
| MemoryDump.PercentInBlock | user_cmd/memory.cc:283-350 | a block holds a percent sign if and only if its segment is unfolded and has a byte 0x25 |
| MemoryView.PercentExample | user_cmd/memory.cc:357 | a segment of one byte whose block the window does not show as printed |
| MemoryView.LinesAfterFailure | user_cmd/memory.cc:272-281 | after a failed read the lines behind the segments that were read lead to the last of them, or to nothing, whatever the window still shows |
| MemoryView.View.PrintSegment | user_cmd/memory.cc:283-350 | the block of a segment, its entry in the line map, its number of lines |
| MemoryView.LinesLeadToSegments | user_cmd/memory.cc:272-351 | every screen line of a block leads to its segment, and the blocks cover all lines |
| MemorySet.PairIsHex | gdb/memory.cc:11-19 | the two characters are hexadecimal digits exactly for ASCII characters, and then stand for the character |
| MemorySet.HexRoundTrip | gdb/memory.cc:80-81 | the digits for a text are proper exactly if it is ASCII, and then decode to it |
| MemorySet.NumberMeans | gdb/memory.cc:88-97 | a number with or without prefix is written as its digits, which read as that number |
| MemorySet.TextMeans | gdb/memory.cc:65-82 | a quoted text is written as the codes of its characters exactly if it is ASCII, and not at all without the closing quote |
| MemorySet.CharacterMeans | gdb/memory.cc:83-87 | a character behind an apostrophe is written as its code |
| MemorySet.HexFill | gdb/memory.cc:76-81 | the backward loop writes the digits of the text and keeps the terminator |
| MemorySet.Set | gdb/memory.cc:62-97 | what is written for quoted text, a character, prefixed and plain digits; missing closing quotes are refused |
| Registers.SwapTwice | common/string.cc:401-412 | swapping twice changes nothing |
| Registers.StrSwap2 | common/string.cc:401-412 | in place, the pairs come in reverse order and nothing else changes; exactly for odd lengths it leaves its buffers |
| Registers.SwapReversesBytes | common/string.cc:401-412 | the bytes behind the swapped digits are the bytes in reverse order |
| Registers.ByteOrder | user_cmd/per.cc:27-28 | registers are swapped if they are little-endian themselves, or of a little-endian target and not big-endian themselves |
| Registers.ParsedValue | user_cmd/per.cc:27-28 | what is parsed is the sum of byte k times 256 to the k for a little-endian register, and for one of a little-endian target that is not big-endian itself; otherwise the big-endian sum |
| Registers.SmallRegister | user_cmd/per.cc:371 | registers of up to four bytes never saturate and fit 32 bits |
| Registers.Field.constructor | user_cmd/pertypes.cc:5-17 | the mask loop yields 2^nbits - 1 for up to 32 bits |
| Registers.FieldSees | user_cmd/per.cc:381 | a field shows the bits from its index on, as far as they lie in the first 32; the shift is undefined exactly from bit 32 on and for more than 32 bits |
| Registers.FieldIsRight | user_cmd/per.cc:381 | a field shows (v div 2^idx) mod 2^nbits for all register values if and only if it starts and ends within the first 32 bits |
| PeripheralLoad.CheckRegister | user_cmd/per.cc:103-127 | name de-escaped; accepted exactly if the unsigned checks pass, and then it has its range |
| PeripheralLoad.CheckRegisters | user_cmd/per.cc:102-128 | all registers of a section are accepted, or the first refusal is reported |
| PeripheralLoad.CheckRange | user_cmd/per.cc:101-131 | all registers of all sections are accepted and loaded, or the first refusal is reported; loaded names hold newlines exactly if the raw ones have one, or an `n` behind an odd number of backslashes; afterwards a register has a range if and only if it is no headline |
| PeripheralLoad.AcceptedIsInside | user_cmd/per.cc:111-118 | an accepted register lies in its range if and only if its end does not wrap around |
| PeripheralLoad.LoadedRangeIsPrintable | user_cmd/per.cc:101-131 | a loaded range without wrapping ends meets what the view needs of any content |
| PeripheralLoad.WrappedEnd | user_cmd/per.cc:111 | a register whose end wraps around is accepted by every range |
| PeripheralLoad.AcceptedBits | user_cmd/per.cc:120-128 | fields of an accepted register of up to four bytes end within it, unless their end wraps around |
| PeripheralLoad.ReadsItsValue | user_cmd/per.cc:358-371 | the presented characters parse as the number of the bytes if and only if it fits a signed 64-bit number |
| PeripheralLoad.FieldShowsItsBits | user_cmd/per.cc:358-384 | a field shows its bits of the number the bytes stand for, as far as they lie in the first 32, for registers of any size; beyond the signed 64-bit range it shows bits of the largest number in it |
| PeripheralLoad.AcceptedFieldIsRight | user_cmd/per.cc:120-128 | so every field of an accepted register of up to four bytes shows its bits, unless its end wraps around |
| PeripheralLoad.NewlineExample | user_cmd/per.cc:103-104 | a raw name of four characters that becomes two lines |
| PeripheralLoad.CountedShort | user_cmd/per.cc:103-104 | once a register with such a raw name is on show, the line counter is short of the text |
| PeripheralLoad.DigitsShown | user_cmd/per.cc:386 | a field prints as many digits as its bits need, and they read back as its value |
| PeripheralLoad.SetRegister | user_cmd/per.cc:147-161 | how SET ends: no register at the line, a value of odd length that is swapped outside its buffer, a headline whose range is missing, or address, value and byte count of what is written |
| PeripheralLoad.WrittenBytes | user_cmd/per.cc:155-158 | the bytes written are those of the value, in reverse order for a little-endian register or target |
| PeripheralLoad.SetIsShown | user_cmd/per.cc:155-158 | what is shown after SET is the value, in either byte order, if and only if it has the length of the register |
| PeripheralView.Range.Update | user_cmd/per.cc:332-333 | new terminated content, the old one kept beside it; an error changes nothing |
| PeripheralView.SwapCell | user_cmd/per.cc:360-361 | the cell of a register is swapped in place |
| PeripheralView.ReadRegister | user_cmd/per.cc:368-372 | terminates the register's text, parses it and restores the content |
| PeripheralView.PresentedIs | user_cmd/per.cc:360-395 | after the first swap the cell shows what is presented, and the second swap restores the content |
| PeripheralView.View.PrintEachField | user_cmd/per.cc:374-388 | all fields, four a line, marked where their value changed; every field holds its new value |
| PeripheralView.View.PrintRegister | user_cmd/per.cc:349-395 | headline, or register line and fields; the content is afterwards exactly what it was |
| PeripheralView.View.PrintRegisters | user_cmd/per.cc:348-396 | all registers of a section, with the content unchanged even where they overlap |
| PeripheralView.View.PrintSection | user_cmd/per.cc:336-399 | a folded section shows only its header and touches no field |
| PeripheralView.View.PrintSections | user_cmd/per.cc:335-400 | all sections of a range, with the content unchanged |
| PeripheralView.View.Refresh | user_cmd/per.cc:322-401 | nothing happens if the window is missing; otherwise all ranges until a read fails: text, both line maps and counter as listed, lines leading to existing objects only, contents byte for byte as delivered, fields on show holding what was printed; the counter is in step with the text if and only if no name or description on show holds a newline, and the window shows the text if and only if none holds a percent sign |
| PeripheralView.LinesLeadToObjects | user_cmd/per.cc:322-401 | every line counted leads to its section and its register; the counter is in step with the text if and only if no item holds a newline, and short otherwise |
| PeripheralView.PlainView | user_cmd/per.cc:337-399 | counter in step if and only if no name or description on show holds a newline, text shown as it is if and only if none holds a percent sign; on show are the headers of the ranges read, and registers and fields of unfolded sections |
| PeripheralView.View.Cleanup | user_cmd/per.cc:220-233 | the ranges go together with all entries of the line maps |
| Netbeans.Socket.Grow | common/socket.cc:179-182 | there is room for the data and the pending text is kept |
| Netbeans.Socket.Send | common/socket.cc:178-193 | text is collected until its last character is a newline, then sent as one payload; the index stays below the length |
| Netbeans.Connection.SendHeader | gui/vim/vimui.cc:731-742 | buffer, name, kind and a new sequence number |
| Netbeans.Connection.SendArguments | gui/vim/vimui.cc:748-769 | the expanded format, negative numbers for `%u` wrapped to 32 bits, or false exactly if a conversion is unknown |
| Netbeans.Connection.Action | gui/vim/vimui.cc:718-795 | an accepted message puts exactly one line on the wire and leaves the buffer empty; a negative buffer number sends nothing; a refused format leaves its beginning in the buffer |
| Netbeans.PlainExpand | gui/vim/vimui.cc:748-769 | no argument brings a newline into the line |
| Netbeans.ShownReads | gui/vim/vimui.cc:748-769 | `%u` prints the number modulo 2^32, `%d` and `%i` the signed number, `%s` a text that de-escapes to the argument |
| Netbeans.ExpandConcat | gui/vim/vimui.cc:748-769 | formats can be expanded piece by piece |
| Netbeans.QuotedArgument | gui/vim/vimui.cc:763-765 | a quoted argument anywhere in a message is recovered by reading to the first uncovered quote and de-escaping |
| Netbeans.MessageRoundTrip | gui/vim/vimui.cc:731-769 | every message is read back as the request it was made for |
| VimTexts.OneMore | gui/vim/vimui.cc:718-795 | what one more message does to texts, nesting and bracketing |
| VimTexts.InsertAppends | gui/vim/vimui.cc:551 | the insert of a print, read back by vim, appends the text |
| VimTexts.RemoveEmpties | gui/vim/vimui.cc:586 | the remove of a clear, read back by vim, empties the text |
| VimTexts.OneMoreStatus | gui/vim/vimui.cc:718-795 | what one more message does to names and locks of buffers and to the cursor, and whether an edit meets a locked buffer |
| VimTexts.NamesRead | gui/vim/vimui.cc:254-262 | the names in the messages that open a file or name a buffer are read back |
| VimWindows.VimUi.EnterAtomic | gui/vim/vimui.cc:652-680 | opens one section, changes no text, remembers where vim is, and where a window is that keeps its cursor |
| VimWindows.VimUi.LeaveAtomic | gui/vim/vimui.cc:681-708 | closes one section, changes no text, and sends vim back to the position remembered, or else the window to its own |
| VimWindows.VimUi.Atomic | gui/vim/vimui.cc:642-716 | skipped inside a section of `win_atomic` unless that section itself is meant |
| VimWindows.VimUi.CursorSet | gui/vim/vimui.cc:451-470 | moves the cursor to the position, or behind the text, and changes no text |
| VimWindows.VimUi.Insert | gui/vim/vimui.cc:551-552 | vim's text grows by the printed text and `len` is its length |
| VimWindows.VimUi.Print | gui/vim/vimui.cc:523-568 | the text of the window grows by what is printed, nothing else changes, the insert lies in an atomic section and meets the buffer unlocked |
| VimWindows.VimUi.Clear | gui/vim/vimui.cc:570-596 | the text of the window is empty, nothing else changes, the remove lies in an atomic section and meets the buffer unlocked |
| VimWindows.VimUi.ReadOnly | gui/vim/vimui.cc:490-509 | the window and its buffer in vim are locked or unlocked, and no other |
| VimWindows.VimUi.Create | gui/vim/vimui.cc:227-293 | by one thread: a known name gives its window and sends nothing; a new one gets a number that was never used, under which vim has the full name, with both maps inverse to each other |
| VimWindows.VimUi.Register | gui/vim/vimui.cc:245-292 | the part under the lock, after a look-up that may be out of date: the maps stay inverse to each other if and only if the name has not been registered meanwhile; otherwise the earlier window loses its name |
| VimWindows.VimUi.Destroy | gui/vim/vimui.cc:326-365 | a known window leaves both maps and vim forgets its buffer; otherwise -1 and the maps stay |
| VimWindows.VimUi.Run | gui/vim/vimui.cc:523-716 | any balanced use: all sections closed again, every edit inside one and on an unlocked buffer, every window shows what was printed since its last clear |

## Left out

- GdbRequests.CommandsGetTheirAnswers: safety only. Condition variables wake nobody without a signal, gdb answers a complete request at most once, and records that answer no request carry a token below the current one; that commands ever complete is not claimed.
- VimCalls.CallsGetTheirReplies: safety only, under the same assumptions about wakeups; vim answers a function call at most once. Tokens, sequence numbers and buffer numbers are unbounded.
- EventQueue.FirstInFirstOut: one consumer and no spurious wakeups; the queue of key events in `gui/vim/vimui.cc` has the same steps, with other kinds of events.
- Split.StrSplit: stops where `argv` would be overrun; what the program does beyond the array is not modelled. A null line is not modelled.
- Escape.StrEscape: null pointers and failing allocations are not modelled, here and in the other buffer operations.
- Tiling.TilesTheScreen: fixed heights that add up to 2^32 or more are not covered; the running line number is unbounded.
- CursesUi.Curses.WinDestroy: what the program finds in front of the table for a negative number is not modelled.
- Registry.Vars.Session: gdb echoes the requested name, and names children with names not yet in use. A child is released only while other references to it remain, and deletions of roots are accepted; the other cases are in the contract of `Release`. The branch for variables that went out of scope compares a field with a letter the parser never stores there.
- Registry.Vars.Acquire: adding a variable by command sets the count of the object to 1 whatever it was (user_cmd/variable.cc:77-83); that command is not modelled.
- Registry.Vars.InitChilds: an answer that names children with names already in use is taken for no answer; in the program the new object would replace the old one in the map.
- Registry.Vars.Refresh: the texts of types and values are not part of the registry.
- VariablePrint.Print: the scope flag is constantly true. Expressions are present.
- MemoryDump.PrintBody: addresses are non-negative and below 2^63, where the program's parsing saturates; alignments are powers of two by exact integer arithmetic instead of `log2` on floating point.
- MemoryView.View.Add: the test by `log2` on floating point is a parameter; it also accepts some large alignments next to powers of two.
- MemoryView.View.Refresh: what the window shows of a text that reads missing arguments is undefined, here and in the other views. Content is delivered whole as lower-case digits. The branches of the memory command beside adding, deleting and setting are not modelled.
- Numbers.StrLenBase: `pow` is taken to be rounded correctly; it is exact for the powers of 10 and 16 that occur.
- Numbers.Itoa: bases 10 and 16; the least negative number, which has no absolute value, is not modelled.
- Registers.StrSwap2: what an odd length makes of the characters is undefined; the model stops there.
- Registers.Field.constructor: the mask of a field of more than 32 bits, where the language leaves the shifts undefined.
- PeripheralLoad.SetIsShown: which bytes gdb writes for a value whose length does not fit the byte count it is given is not part of the program.
- PeripheralView.View.Refresh: a range is smaller than 2^31 bytes, its content is delivered whole as lower-case digits, and no field object is listed twice.
- PeripheralLoad.CheckRange: one range; reading the file, acquiring the memory of every range and the clean-up after a refusal are not modelled.
- MemorySet.Set: a lone quote or apostrophe is reported as too short; the program computes with a length below zero, or writes behind the buffer, there.
- Netbeans.Socket.Send: not called with nothing to send on an empty buffer; `sendto` takes the whole payload.
- Netbeans.Connection.Action: waiting for the reply of a function is in `VimCalls`; the number and types of arguments fit the format, as the compiler does not check in the program either.
- VimWindows.VimUi.Register: one interfering thread at a time; windows without a name are not followed further.
- VimWindows.VimUi.Print: the text is already formatted; the growth of the formatting buffer is that of `Buffers.DynArray.Add`. Files opened by name are taken to start with an empty text.
- VimWindows.VimUi.ReadOnly: the value returned for an unknown window, which the program never sets.
- VimWindows.VimUi.Run: print, clear and `win_atomic` on windows whose cursor settings do not change meanwhile; annotations, with their error exits between start and end of a section, are not modelled.
- Framing.LineReader.Receive: the parser behind it is not modelled; a failing reallocation is not either.
- The grammars of gdb's records, of peripheral files and of vim's messages: their generated parsers are not visible; their results are inputs here.
- Terminals, sockets, processes, signals, log files, curses calls and vim scripts: input and output.
- Command dispatch, help texts, completion and export files: branches that only print.
- The call stack view: its frames are linked into two lists through the same pointers.

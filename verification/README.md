# Models of fvwm3 in Dafny

This project models the algorithms and the mutable state that lie between the X
calls of the fvwm3 window manager, and proves what they promise.  Code that
fvwm3 writes with loops, buffers and linked structures is written here as methods
and classes, proved against functions and predicates on values; the theorems are
lemmas about those.

| file | what it is about |
|---|---|
| `cstrings.dfy`, `geometry.dfy` | C strings in character buffers; rectangles and C division |
| `expand_args.dfy`, `expand_spec.dfy`, `expand_theorems.dfy`, `expand_text.dfy`, `expand_forms.dfy`, `expand_vars.dfy`, `expand_addto.dfy` | the two-pass expander for `$` forms in command lines |
| `bar_pixmaps.dfy` | the cache of title bar pixmaps that button states share |
| `title_layout.dfy`, `titlebar.dfy`, `titlebar_cases.dfy` | the title and the buttons in the frame, the split of the title for MultiPixmap decorations, and its rotation |
| `transients.dfy` | keeping transient-for hints without cycles |
| `titles.dfy` | numbers for windows with equal titles |
| `destroy.dfy` | deferred destruction of windows |
| `merge.dfy` | merging pending ConfigureRequests in the event queue |
| `restack.dfy` | client restacking in the linked stacking ring |
| `icon_list.dfy`, `wm_icons.dfy`, `donated_icons.dfy` | `_NET_WM_ICON` lists (section "Application Window Properties" of the Extended Window Manager Hints) |
| `colormaps.dfy` | installing colormaps (section 4.1.8 of the Inter-Client Communication Conventions Manual) |
| `circulate.dfy` | the circular window search |
| `cursor.dfy` | moving the pointer across pages |
| `work_area.dfy` | the work area and intersections with it |

`dafny verify dfyconfig.toml` checks all of it.

## What the code does not promise

The models follow the code.  Where it falls short of what it is for, the project
has a case in which it does, and the exact condition under which it does not.

| what | case | condition |
|---|---|---|
| A number beyond the range of an int is cut off, and the range that it starts can select the first argument (`fvwm/expand.c:272-276`). | `LargeNumberSelectsFirst` | `SinglesReadBack` |
| With addto on, the first pass skips a closed group that the second pass expands, so that the buffer can be too short (`fvwm/expand.c:1389-1393`, `1543-1549`). | `GroupsCanOverflow` | `EnoughForAllIff` |
| Left or right justification can push the far part of a narrow title below zero length (`fvwm/borders.c:2474-2524`). | `NarrowTitle` | `NegativeIffNarrow` |
| In an upside-down bar, and in one without room for its buttons, the first box does not end at the title: it carries the length of the even buttons, wherever they are (`fvwm/borders.c:4447-4469`). | `UpsideDownBoxes`, `ShortBarIsNotTiled` | `ButtonsMeetTitleIff` |
| In a horizontal bar the right box takes the width of the bar as its height (`fvwm/borders.c:4413`). | `UpsideDownBoxes` | `RightBoxIsThickIff` |
| Buttons that are too short to be drawn count as one pixel each (`fvwm/frame.c:1462-1467`). | `ShortBarIsNotTiled` | `TiledIffDrawn` |
| Turning by 180 degrees leaves the y coordinate as it is, which is no turn for the buttons in the frame (`fvwm/borders.c:4206-4224`). | `ButtonStaysUp` | `TurnsPointsIff` |
| A new window is checked for loops before its ids are known; a window that it names and that names it is missed (`fvwm/add_window.c:2080-2092`, `2212`, `760`). | `MutualHints` | `AddWindow`, `LeadsBackIff` |
| A hint is compared with the truth value of the test for the EWMH desktop (`fvwm/add_window.c:2063`). | `DesktopHint` | `KeepsDesktopHintIff` |
| The comment says that merging stops at a change of the size hints; the code stops at every other property change of the window (`fvwm/events.c:939-955`). | `MergedAcrossHints` | `CrossesHintsIff` |
| The earliest of several merged requests wins over the latest (`fvwm/events.c:904-925`). | `FirstMoveWins` | `EarliestWinsIff`, `SameGeometryIff` |
| The 32-bit products and sums of an icon list wrap, and the search can run for ever or leave the list (`fvwm/ewmh_icons.c:642-672`). | `WrapNeverEnds`, `WrapCanLeave` | `EndsIff`, `SearchOutcome` |
| For the same reason a record that is handed back need not lie in the list. | `BestCanLieOutside` | `LiesInIff`, `ExtractWmIcon` |
| The squared distance wraps, and a far record can pass for the nearest one. | `FarRecordOvertakes` | `NearestIff`, `DistanceWraps` |
| Records are found by their size only, so that the second of two equal sizes is not found. | `TwoRecordsRoundTrip` | `TwoRecordsRoundTrip`, `SetFromPixmap` |
| Right and lower edges of a work area intersection compare a relative with an absolute coordinate (`fvwm/ewmh.c:1152-1155`). | `IntersectionCanBeWrong` | `IntersectionEdges` |
| The pointer is paged even if edge scrolling is off and the viewport stays (`fvwm/cursor.c:241-249`). | `PageWithoutScrolling` | `MoveRelative` |

A lookup of a bar pixmap marks the entry as its creator even if it got no pixmap
(`fvwm/borders.c:2118-2122`), and would then free a pixmap twice
(`LookupKeepsInv`, `FailedPixmapIsFreedTwice`).  This cannot come from fvwm3 itself:
its callers ask for no pixmap of a transparent colorset, and only those have none
(`libs/Colorset.c:417-446`).  Behind that guard the cache stays valid in every run
(`RunFreesEachOnce`).

## Model

| member | source | states |
|---|---|---|
| `ExpandSpec.CloseIsMatchingBracket` | fvwm/expand.c:1360-1384 | The bracket scan stops at the first `]` without a partner: everything between is balanced, and every earlier `]` closes a bracket opened in the group. |
| `ExpandTheorems.GroupOfBalanced` | fvwm/expand.c:1358-1384 | For every balanced body, the group of `$[body]rest` is exactly the body. |
| `ExpandTheorems.NoGroupInOpen` | fvwm/expand.c:1385-1388 | A text in which no bracket closes too much has no group if its `[` never closes. |
| `ExpandTheorems.GroupMeaning` | fvwm/expand.c:1541-1618 | With addto off, a balanced group means the value of its expanded name, or is copied unchanged if the name resolves to nothing; the rest of the line is expanded independently. |
| `ExpandTheorems.UnclosedGroupMeaning` | fvwm/expand.c:1541-1618 | An unclosed `$[` stays as text and what follows is still expanded. |
| `ExpandTheorems.QuotesFit` | libs/Strings.c:176-192 | Escaping adds one character for each quote and nothing else. |
| `ExpandTheorems.PlainText` | fvwm/expand.c:1345-1529 | Text without `$` stands for itself in the second pass and reserves nothing in the first, whatever follows. |
| `ExpandTheorems.StepSizes` | fvwm/expand.c:1345-1529 | The passes read the same number of characters for each form, except that the first reads only the `$` of some two-character forms. |
| `ExpandTheorems.StepsResynchronise` | fvwm/expand.c:1345-1529 | After each form the first pass arrives at the same length as if it stood where the second pass stands. |
| `ExpandTheorems.StepFits` | fvwm/expand.c:1345-1529 | No form writes more than it reads plus what the first pass reserved for it. |
| `ExpandTheorems.EstimateIsEnough` | fvwm/expand.c:1345-1779 | With addto off, for every line and environment, the second pass writes no more characters than the first pass computed. |
| `ExpandTheorems.GroupIsCopied` | fvwm/expand.c:1541-1549 | With addto on, a group without `$` is copied as it is. |
| `ExpandTheorems.EstimateIsEnoughWhenPlain` | fvwm/expand.c:1389-1393 | With addto on, the same bound for lines whose closed groups hold no `$`. |
| `ExpandTheorems.RoomIsEnough` | fvwm/expand.c:1337-1531 | For every safe line the buffer is long enough, whatever the flags. |
| `ExpandTheorems.SafeWithoutPlus` | fvwm/expand.c:1337-1343 | Unless the last item added was a function, every line is safe with addto off, at every nesting depth. |
| `ExpandTheorems.PlainIsSafe` | fvwm/expand.c:1389-1393 | A line whose closed groups hold no `$` is safe for all flags. |
| `ExpandAddto.GrowthStep` | fvwm/expand.c:1531-1779 | With addto on, by how much each form makes the text longer, also inside groups. |
| `ExpandAddto.ExtraStep` | fvwm/expand.c:1345-1529 | With addto on, what the first pass reserves for each form; nothing for a whole closed group. |
| `ExpandAddto.OneForm` | fvwm/expand.c:1389-1393 | What a single form in a group grows by is missing in the buffer, for every form and environment. |
| `ExpandAddto.GroupsCanOverflow` | fvwm/expand.c:1389-1393 | With addto on, `$[$n]` overflows its buffer for a window with a name of ten letters; `$[$x]` fits for a viewport at 0 and overflows at 1000. |
| `ExpandAddto.LineBelowWorst` | fvwm/expand.c:1389-1393 | A line without forms of unlimited length in its groups exceeds its buffer by no more than in the environment with the longest numbers. |
| `ExpandAddto.LongLine` | fvwm/expand.c:1389-1393 | With such a form, texts that are long enough make it exceed the buffer. |
| `ExpandAddto.EnoughForAllIff` | fvwm/expand.c:1389-1393 | With addto on, the buffer is long enough in every environment exactly if no closed group has a form of unlimited length and it is long enough in the one with the longest numbers. |
| `ExpandAddto.SafeForAllIff` | fvwm/expand.c:1337-1343 | With addto off, no buffer of a line and of the names in its groups overflows in any environment exactly if this holds of each name that starts with `+`, at any nesting depth. |
| `ExpandAddto.GroupsSafeForAllIff` | fvwm/expand.c:1394-1402 | The same for the groups of a line. |
| `ExpandTheorems.EscapedPrefix` | fvwm/expand.c:1353-1357 | A text with every `$` doubled expands to itself in front of any other text. |
| `ExpandTheorems.EscapeRoundTrip` | fvwm/expand.c:1752-1755 | For every string and every flag setting, doubling each `$` and expanding gives back the string. |
| `ExpandText.MeaningText` | fvwm/expand.c:1541-1779 | Expanding text without a NUL never writes a NUL, so the result is read back whole. |
| `ExpandForms.DigitMeaning` | fvwm/expand.c:1619-1659 | `$0` to `$9` in front of any text, for all flags: the argument with that number; without one nothing, or the form itself with addto on. |
| `ExpandForms.StarMeaning` | fvwm/expand.c:1629-1659 | `$*`: the argument string, in the same way. |
| `ExpandForms.DirectoryMeaning` | fvwm/expand.c:1660-1663 | `$.`: the directory that is read from, quoted, or the form itself. |
| `ExpandForms.IdMeaning` | fvwm/expand.c:1664-1678 | `$w`: 0x and the hexadecimal id of the window, or the form itself. |
| `ExpandForms.ScreenMeaning` | fvwm/expand.c:1679-1699 | `$d`, `$x`, `$y` and `$v`: the desk, the two coordinates of the viewport and the version, each by its own field. |
| `ExpandForms.WindowMeaning` | fvwm/expand.c:1701-1743 | `$c`, `$r` and `$n`: class, resource and name of the window, quoted; without a window or with an empty string the form itself. |
| `ExpandForms.OtherMeaning` | fvwm/expand.c:1535-1537 | Any other character, and any letter in the line of a module, leaves the `$` in place. |
| `ExpandForms.GroupIsText` | fvwm/expand.c:1541-1549 | With addto on, `$[` is text and what follows is expanded. |
| `ExpandForms.HexReadsBack` | fvwm/expand.c:1664-1678 | The hexadecimal digits are lower-case, without a zero in front, and have the value of the id. |
| `ExpandForms.DecReadsBack` | fvwm/expand.c:1679-1699 | Each decimal number that an int holds, also a negative one, is read back. |
| `ExpandForms.QuotesEach` | libs/Strings.c:176-192 | Escaping works character by character and puts a backslash in front of each quote only. |
| `ExpandForms.QuotesReadBack` | libs/Strings.c:176-192 | The text can be read back from the escaped one. |
| `ExpandForms.ArgumentMeaning` | fvwm/expand.c:305-361 | `$[a]`: the argument with that number, or nothing. |
| `ExpandForms.RangeMeaning` | fvwm/expand.c:305-361 | `$[a-b]`: the arguments from a to b, as far as there are any. |
| `ExpandForms.TailMeaning` | fvwm/expand.c:305-361 | `$[a-]`: the arguments from a on. |
| `ExpandForms.AllMeaning` | fvwm/expand.c:259-263 | `$[*]`: all arguments. |
| `ExpandForms.JoinEach` | fvwm/expand.c:333-345 | Arguments are put together with one blank between each two. |
| `ExpandForms.VariableMeaning` | fvwm/expand.c:1394-1420 | `$[name]`, where the name can be the meaning of text with forms and groups: the value of the variable, the name in brackets if it is not known, or the group as it is if the lookup fails. |
| `ExpandForms.BackwardsMeaning` | fvwm/expand.c:296-300 | A backwards range is looked up as a variable. |
| `ExpandArgs.NumbersFit` | fvwm/expand.c:1443-1475 | Every 32-bit decimal takes at most 11 characters and every 32-bit hexadecimal number at most 8, within the 16 reserved. |
| `ExpandArgs.ParseRangeOrdered` | fvwm/expand.c:255-303 | A range that is accepted is never backwards, and starts at an argument exactly if its first number is not negative after it was cut off to 32 bits. |
| `ExpandArgs.SinglesReadBack` | fvwm/expand.c:255-303 | `n` is read as the range n to n, and `n-` as n to INT_MAX, with n cut off to 32 bits: unchanged exactly if it does not exceed INT_MAX. |
| `ExpandArgs.RangesReadBack` | fvwm/expand.c:255-303 | `a-b` is read back as the range a to b, cut off to 32 bits, exactly if that is not backwards. |
| `ExpandArgs.LargeNumberSelectsFirst` | fvwm/expand.c:319-347 | `$[4294967295]` is read as -1 and selects the first argument. |
| `ExpandArgs.StoredAll` | fvwm/expand.c:272-276 | Every number is cut off modulo 2^32; one beyond a long integer is stored as -1 or 0. |
| `ExpandArgs.LeadingCharacter` | fvwm/expand.c:272-276 | Blanks in front of a number are skipped; any other character but a digit or a sign is no number. |
| `ExpandVars.CopyRange` | fvwm/expand.c:320-358 | Copies the chosen arguments joined by single blanks and returns their length, without writing before its place. |
| `ExpandVars.ArgsExtended` | fvwm/expand.c:305-361 | Writes or only measures the arguments that a range names, none if they lie beyond the last one or there are none at all; -1 exactly if the name is no range. |
| `ExpandVars.VarsExtended` | fvwm/expand.c:363-380 | Writes or only measures the value of a name that is not a range; an unknown variable is written as `$[name]` again. |
| `ExpandVars.ScanGroup` | fvwm/expand.c:1360-1384 | Finds the closing bracket of a group and tells whether the group holds a `$`. |
| `ExpandVars.LookUp` | fvwm/expand.c:1394-1420 | Cuts the line at the closing bracket, expands and resolves the name, and leaves the input buffer as it was. |
| `ExpandVars.ResolveName` | fvwm/expand.c:1404-1420 | Positional arguments first, then variables, written or only measured. |
| `ExpandVars.WriteClosed` | fvwm/expand.c:1570-1612 | A closed group writes its value or itself. |
| `ExpandVars.WriteOut` | fvwm/expand.c:1531-1783 | The second pass in a fresh buffer, with its NUL. |
| `ExpandVars.CutName` | fvwm/expand.c:1394-1402 | Expands a name that holds a `$`, on the cut line, with the input unchanged on return. |
| `ExpandVars.MeasureGroup` | fvwm/expand.c:1358-1420 | The first pass over a group adds and reads what the specification says and restores the input. |
| `ExpandVars.MeasureName` | fvwm/expand.c:1394-1420 | By how much the value of a closed group is longer than the group, with the input restored. |
| `ExpandVars.MeasureStep` | fvwm/expand.c:1345-1529 | One form in the first pass. |
| `ExpandVars.QuotedLength` | fvwm/expand.c:1421-1529 | The length that is reserved for a quoted string is exactly that of the escaped text. |
| `ExpandVars.Measure` | fvwm/expand.c:1337-1529 | The first loop computes the estimate of the line and restores the input. |
| `ExpandVars.QuoteString` | libs/Strings.c:176-192 | Writes the quoted string in place, after what is already there. |
| `ExpandVars.QuoteOne` | libs/Strings.c:181-188 | One character of the quoted string, with a backslash if it is a quote. |
| `ExpandVars.WriteGroup` | fvwm/expand.c:1541-1618 | The second pass over a group writes its meaning and restores the input. |
| `ExpandVars.WriteName` | fvwm/expand.c:1570-1612 | Writes the value of a closed group, or the group itself if its name resolves to nothing, and restores the input. |
| `ExpandVars.WriteStep` | fvwm/expand.c:1531-1779 | One form in the second pass. |
| `ExpandVars.Write` | fvwm/expand.c:1531-1781 | The second loop writes exactly the meaning of the line, and there is room left for the NUL. |
| `ExpandVars.ExpandVars` | fvwm/expand.c:1322-1783 | If no buffer of the line or of a name in its groups overflows, the output is exactly the meaning of the line, with addto on if the caller says so or a leading `+` continues a function, and the input buffer is unchanged. |
| `BarPixmapTheorems.SetupCoversFaces` | fvwm/borders.c:1950-2050 | After setup a lookup finds an entry for a key exactly if some face draws with that key. |
| `BarPixmapTheorems.EntriesOfParts` | fvwm/borders.c:2794-2862 | Which of the five parts of a face get an entry, by the fields of the face: for each side the part behind its buttons, else the side part of the title, else the main part, and only with a colorset or a picture. |
| `BarPixmapTheorems.SetupKeepsInv` | fvwm/borders.c:1950-2050 | Setup keeps the invariant of the cache. |
| `BarPixmapTheorems.SharingKeepsInv` | fvwm/borders.c:2083-2117 | Sharing the pixmap of an entry with the same key keeps the invariant. |
| `BarPixmapTheorems.CreatingKeepsInv` | fvwm/borders.c:2118-2153 | Creating a pixmap that no state has for the key keeps the invariant. |
| `BarPixmapTheorems.LookupKeepsInv` | fvwm/borders.c:2052-2156 | A lookup keeps the invariant (one creator per live resource; one resource for equal keys) exactly when it does not ask the server in vain for a pixmap. |
| `BarPixmapTheorems.LookupIsStable` | fvwm/borders.c:2052-2156 | A pixmap stays with its entry, and every later lookup of the key in any state gives the same one. |
| `BarPixmapTheorems.SharedLookup` | fvwm/borders.c:2083-2117 | An entry without a pixmap gets that of the first state with one for the same key, and its picture if one is asked for; nothing else changes. |
| `BarPixmapTheorems.CreatingLookup` | fvwm/borders.c:2116-2153 | Where no state has one, a colorset gets a new pixmap and a wanted picture a new one that is both. |
| `BarPixmapTheorems.LookupGives` | fvwm/borders.c:2052-2156 | The four outcomes of a lookup, with quantifiers over the entries: nothing, its own, shared, new. |
| `BarPixmapTheorems.RunKeepsPictures` | fvwm/borders.c:2101-2107 | Over every run in which lookups ask for the picture, each entry of a picture that has a pixmap has the picture in it. |
| `BarPixmapTheorems.AskedKeepsInv` | fvwm/borders.c:2237-2259 | Behind the guard of the callers, every lookup keeps the invariant. |
| `BarPixmapTheorems.RunKeepsInv` | fvwm/borders.c:1950-2156 | The invariant holds after every run of setups and lookups. |
| `BarPixmapTheorems.FreesEachOnce` | fvwm/borders.c:2158-2189 | Freeing a valid cache frees each created resource exactly once and nothing else. |
| `BarPixmapTheorems.RunFreesEachOnce` | fvwm/borders.c:2158-2189 | After every run of setups and lookups from the empty cache, freeing it frees each created resource exactly once. |
| `BarPixmapTheorems.FailedPixmapIsFreedTwice` | fvwm/borders.c:2116-2122 | Without that guard a colorset that first has no pixmap and then has one leads to a pixmap that is freed twice. |
| `BarPixmaps.DynamicDecorations.CountEntries` | fvwm/borders.c:1966-1998 | The counting pass gives the number of entries that the filling pass writes. |
| `BarPixmaps.DynamicDecorations.FillEntries` | fvwm/borders.c:2010-2049 | The filling pass fills an array of exactly that length with fresh entries, in order. |
| `BarPixmaps.DynamicDecorations.FillOne` | fvwm/borders.c:2012-2049 | The entries of one face go behind those already written. |
| `BarPixmaps.DynamicDecorations.FillFace` | fvwm/borders.c:2023-2049 | The entries of one MultiPixmap face go behind those already written. |
| `BarPixmaps.DynamicDecorations.SetupBarPixmaps` | fvwm/borders.c:1950-2050 | Sets up the table of a state once, with fresh entries for exactly the keys that some face draws with; other states and the created resources stay; keeps the invariant. |
| `BarPixmaps.DynamicDecorations.FindEntry` | fvwm/borders.c:2066-2073 | The first entry with a key, or the length. |
| `BarPixmaps.DynamicDecorations.Share` | fvwm/borders.c:2083-2117 | The pixmap of the first state that has one for the key, and its picture if one is asked for. |
| `BarPixmaps.DynamicDecorations.GetBarPixmaps` | fvwm/borders.c:2052-2156 | The whole new cache after a lookup; and, said of the entries of the tables alone, which pixmap and which picture are returned: none, those the entry has, those of the first state that has a pixmap for the key, or new ones. |
| `BarPixmaps.DynamicDecorations.LookUpEntry` | fvwm/borders.c:2062-2156 | The search for the entry, and what it changes. |
| `BarPixmaps.DynamicDecorations.CreateFor` | fvwm/borders.c:2116-2153 | A new pixmap for an entry; a colorset is marked as creator even in vain. |
| `BarPixmaps.DynamicDecorations.CountFace` | fvwm/borders.c:1966-1998 | How many entries one face needs. |
| `BarPixmaps.DynamicDecorations.AskForPixmap` | fvwm/borders.c:3374-3383 | A caller gets a pixmap for a colorset with an entry exactly if the colorset is not transparent, and else what a lookup gives; the cache stays valid. |
| `BarPixmaps.DynamicDecorations.FreeTable` | fvwm/borders.c:2166-2186 | The resources of one state are freed in order. |
| `BarPixmaps.DynamicDecorations.FreeBarPixmaps` | fvwm/borders.c:2158-2189 | Each live resource is freed exactly once. |
| `TitleLayout.FindLengths` | fvwm/frame.c:1361-1398 | Buttons and title share out the bar exactly; buttons are drawn exactly if there is a pixel for each beside the shortest title and one more, shrink only when the title would be shorter than 10 pixels, and differ by one pixel at most. |
| `TitleLayout.PlaceIsTaken` | fvwm/frame.c:1454-1530 | Every place along the bar has a button window. |
| `TitleLayout.PlacesDiffer` | fvwm/frame.c:1454-1530 | No two buttons have the same place, reverted or not. |
| `TitleLayout.NoGaps` | fvwm/frame.c:1399-1530 | Each coordinate of the bar lies in the title or in a button. |
| `TitleLayout.NoOverlapWithTitle` | fvwm/frame.c:1399-1530 | No coordinate of a button lies in the title. |
| `TitleLayout.NoOverlap` | fvwm/frame.c:1399-1530 | No coordinate lies in two buttons. |
| `TitleLayout.ButtonsInOrder` | fvwm/frame.c:1454-1530 | Along the bar come the left buttons by rising number, the title, and the right buttons by falling number; the even ones are on the left unless the bar is reversed. |
| `TitleDimensions.FrameTitleLayout.PutButton` | fvwm/frame.c:1461-1485 | Writes one button and moves on; the length drops by one pixel after the last long button. |
| `TitleDimensions.FrameTitleLayout.PlaceLeft` | fvwm/frame.c:1454-1486 | The loop over the left buttons puts each at its place and leaves the others alone. |
| `TitleDimensions.FrameTitleLayout.PlaceRight` | fvwm/frame.c:1502-1530 | The loop over the right buttons puts each behind the title. |
| `TitleDimensions.FrameTitleLayout.GetTitlebarDimensions` | fvwm/frame.c:1334-1533 | Every button and the title are where the tiling theorems say, in the order of their numbers on the left and against it on the right, as thick as the bar, at the side of the frame that has the title; the right buttons are put back by the size difference of a resize; buttons without a window are not written. |
| `TitleBarGeometry.TiledIffDrawn` | fvwm/borders.c:4388-4493 | The boxes for the buttons and the title add up to the bar exactly if there are no buttons or the bar has room for them. |
| `TitleBarGeometry.ButtonsMeetTitleIff` | fvwm/borders.c:4447-4469 | The box at the start of the bar ends at the title exactly if the even buttons are as long together as the buttons that are drawn in front of the title: the even ones, or the odd ones in an upside-down bar, or none in a bar without room for them. |
| `TitleBarGeometry.RightBoxIsThickIff` | fvwm/borders.c:4410-4414 | The right box is as thick as the bar exactly if the bar is vertical or as wide as it is thick. |
| `TitlebarCases.UpsideDownBoxes` | fvwm/borders.c:4447-4469 | An upside-down bar with one button: the box lies over the title, and is as high as the bar is wide. |
| `TitlebarCases.ShortBarIsNotTiled` | fvwm/frame.c:1381-1393 | A bar of 5 pixels with one button: its box counts a pixel all the same, and covers the title. |
| `TitlebarCases.NarrowTitle` | fvwm/borders.c:2474-2524 | A left-justified text of 8 pixels in a title of 20 leaves a right part of length -5. |
| `TitleBarGeometry.PartsMeetInFrame` | fvwm/borders.c:2569-2664 | The outer parts with buttons meet the part under the text in the frame exactly if the first box ends at the title. |
| `Titlebar.TitlebarDescr.SetBar` | fvwm/borders.c:4360-4493 | The bar, the boxes for the buttons on both sides and the rotation flags. |
| `Titlebar.TitlebarDescr.PlaceBoxes` | fvwm/borders.c:4402-4493 | Where the two boxes lie and how long they are, in all four orientations. |
| `Titlebar.TitlebarDescr.SideLengths` | fvwm/borders.c:4413-4443 | The lengths of the even and of the odd buttons, added up. |
| `TitlebarSpec.ReservedFits` | fvwm/borders.c:2425-2467 | The reserved lengths are all zero, or they fit into the title with the text and two minimum gaps; none exceeds the longest piece of its kind. |
| `TitlebarSpec.AllReserved` | fvwm/borders.c:2425-2467 | If the longest pieces of all faces fit together, each of them gets its length. |
| `TitlebarSpec.LongestIs` | fvwm/borders.c:2361-2390 | The longest pieces are those by the fields of the pieces: half the thickness of the bar for a colorset or a solid piece, the width of a picture in a horizontal bar, its height in a vertical one. |
| `TitlebarSpec.LongestHasRoom` | fvwm/borders.c:2425-2524 | If these fit beside the text, each kind gets exactly its length, and the side of the text has room for it and a gap. |
| `TitlebarSpec.RoomBesideText` | fvwm/borders.c:2474-2524 | With left or right justification, the side of the text keeps its reserved room and a gap, in every orientation. |
| `TitlebarSpec.RoomOnOtherSide` | fvwm/borders.c:2474-2524 | If anything is reserved, the far side has its room and a gap, too. |
| `TitlebarSpec.NegativeIffNarrow` | fvwm/borders.c:2526-2600 | No part of the title gets a negative length exactly if the title is wide enough for the text and its gap; a caller can compute the condition from text, title and justification. |
| `TitlebarSpec.SplitHoldsText` | fvwm/borders.c:2526-2568 | The text lies over the part that is meant for it. |
| `Titlebar.TitlebarDescr.PlaceText` | fvwm/borders.c:4496-4567 | Length and offset of the text from its width. |
| `Titlebar.TitlebarDescr.ReserveForFace` | fvwm/borders.c:2430-2466 | The four pieces of a face are reserved in turn as far as all of them fit. |
| `Titlebar.TitlebarDescr.ReserveRoom` | fvwm/borders.c:2425-2472 | The loop over the faces reserves what the fold of the specification does and finds whether any is a MultiPixmap. |
| `Titlebar.TitlebarDescr.AdjustOffset` | fvwm/borders.c:2474-2524 | The text moves to leave room for what is reserved on its side. |
| `Titlebar.TitlebarDescr.LayOut` | fvwm/borders.c:2526-2664 | Left, under-text and right parts lie end to end and fill the title; with the buttons they lie end to end in the bar; in all four orientations. |
| `Titlebar.TitlebarDescr.GetMpDescr` | fvwm/borders.c:2392-2665 | The whole new description: the split if any face is a MultiPixmap, else at most a new offset. If the longest pieces, by the fields of the pieces, fit, then the reserved lengths are theirs and the side of the text has room for them. |
| `Titlebar.TitlebarDescr.GetTitlebarDescr` | fvwm/borders.c:4496-4570 | From the width of the text on: with a MultiPixmap face the split is end to end, holds the text, has room for the pieces that fit, and has no negative part exactly if the title is wide enough; without one the length and the offset of the text are given for each justification, and nothing else changes. |
| `TitlebarTheorems.TurnsPointsIff` | fvwm/borders.c:4150-4207 | Turning a rectangle turns exactly its points, for 180 degrees exactly if it lies halfway up. |
| `TitlebarTheorems.PartsAreCentred` | fvwm/borders.c:4150-4207 | The parts of a title do. |
| `TitlebarCases.ButtonStaysUp` | fvwm/borders.c:4250-4256 | A button does not: it stays at the upper edge of the frame. |
| `TitlebarTheorems.TurnBack` | fvwm/borders.c:4150-4207 | Turning a rectangle back within the turned geometry gives it again. |
| `TitlebarTheorems.TurningKeepsSplit` | fvwm/borders.c:4209-4279 | After the bar was made horizontal the split is still end to end, with all lengths kept. |
| `TitlebarTheorems.TurningKeepsBar` | fvwm/borders.c:4209-4279 | The same for the parts with buttons in the frame. |
| `TitlebarTheorems.TurningKeepsText` | fvwm/borders.c:4209-4240 | The text still lies over its part. |
| `TitlebarTheorems.TurnedPlaces` | fvwm/borders.c:4209-4279 | Where each point of the title, the bar, the boxes, the buttons and the parts goes: a quarter back, or mirrored from left to right, within the frame or the title. |
| `TitlebarTheorems.TurnedRoom` | fvwm/borders.c:4222-4240 | In the bar made horizontal, the reserved lengths are those of the pieces they are named after, in every orientation, and the left or right part has room for them. |
| `TitlebarTheorems.RotatingTwiceRestores` | fvwm/borders.c:4106-4147 | Any even number of calls gives back every field, any odd number leaves the description turned once. |
| `TitlebarTheorems.AlwaysSplit` | fvwm/borders.c:4106-4279 | However often the description is turned and restored, title and bar are split end to end. |
| `Titlebar.TitlebarDescr.RotateButtons` | fvwm/borders.c:4252-4256 | Every button is turned within the frame. |
| `Titlebar.TitlebarDescr.MakeHorizontal` | fvwm/borders.c:4122-4279 | All rectangles are turned, each within the geometry that has not been turned yet. |
| `Titlebar.TitlebarDescr.Rotate` | fvwm/borders.c:4106-4279 | The new description and the new static copy. |
| `HintGraph.WalkEnds` | fvwm/add_window.c:2080-2092 | In a graph without cycles every walk along the hints ends. |
| `HintGraph.WalkAvoids` | fvwm/add_window.c:2080-2092 | A walk that does not meet a window is the same without the edge of that window. |
| `HintGraph.EdgeClosesCycle` | fvwm/add_window.c:2056-2099 | A new edge closes a cycle exactly if its start can be reached from its end. |
| `HintGraph.CycleMeets` | fvwm/add_window.c:2056-2099 | If the graph has no cycle without a window, every cycle goes through that window. |
| `HintGraph.FirstReturn` | fvwm/add_window.c:2080-2092 | A walk that comes back to its start does so before it uses that edge again. |
| `HintGraph.WalkExtended` | fvwm/add_window.c:2080-2092 | New edges to a window without one lengthen walks by their last step only. |
| `HintGraph.ExtendedReaches` | fvwm/add_window.c:2080-2092 | They close no cycle, and lead to that window exactly from where a walk meets one of them. |
| `HintGraph.LeadsFrom` | fvwm/add_window.c:2080-2092 | A walk meets one of some windows at its start or further on. |
| `Transients.Screen.Register` | fvwm/add_window.c:740-770 | Registering a window closes a cycle exactly if its hint leads to it or to a window whose hint names one of its ids. |
| `Transients.Screen.FindsLoop` | fvwm/add_window.c:2080-2092 | The walk along the hints ends, and finds a loop for a registered window exactly if the window is reached; for a new window exactly if a hint further on names its client id. |
| `Transients.Screen.ValidateTransientFor` | fvwm/add_window.c:2056-2099 | The hint of a registered window is kept exactly if it names a managed window and closes no cycle or an unmanaged viewable one; that of a new window also if only the window that it names refers to it. |
| `Transients.Screen.Drop` | fvwm/add_window.c:2068-2071 | A dropped hint points at the root and leaves the other edges. |
| `Transients.Screen.SetupTransientFor` | fvwm/add_window.c:2101-2114 | The hint that a client has set is read and kept exactly under that condition; the graph of the registered windows stays without cycles. |
| `Transients.Screen.AddWindow` | fvwm/add_window.c:2212-2214 | Adding a window closes a cycle exactly if its hint is kept and names one of its ids or leads to a window whose hint does. |
| `Transients.Screen.LeadsBackIff` | fvwm/add_window.c:2212-2214 | If hints refer to the new window by its client id only, this is so exactly if the window that the hint names has such a hint itself. |
| `Transients.Screen.KeepsDesktopHintIff` | fvwm/add_window.c:2063-2067 | A hint to the EWMH desktop is kept exactly if the id of the desktop is not 1 and no chain of hints leads from it back to the window. |
| `TransientCases.MutualHints` | fvwm/add_window.c:2212-2214 | Two windows that name each other, the first of them added while the other one was unmanaged: a cycle. |
| `TransientCases.DesktopHint` | fvwm/add_window.c:2063-2067 | A window that is added with a hint to the managed EWMH desktop keeps it. |
| `TitleSpec.LeastFreeIsUnique` | fvwm/add_window.c:263-334 | Only one number is the least free one from a start value on. |
| `TitleSpec.RenameKeepsDistinct` | fvwm/add_window.c:263-334 | Renaming and numbering one window keeps all labels different. |
| `TitleSpec.LabelsStayDistinct` | fvwm/add_window.c:263-334 | Over any run of renamings, no two windows share a title or icon title with the same number. |
| `Titles.Screen.TakenIsInUse` | fvwm/add_window.c:289-323 | A number is taken if another window shows it with the title, as title or icon title. |
| `Titles.Screen.DistinctIsDifferent` | fvwm/add_window.c:263-334 | Labels are distinct exactly if no two windows show the same title with the same number, by their fields. |
| `Titles.Screen.Pass` | fvwm/add_window.c:289-323 | One pass skips only numbers that are taken and reports a free one exactly if it did not change. |
| `Titles.Screen.FreeCount` | fvwm/add_window.c:286-324 | The loop ends with the least number not below the start that no other window uses with this title. |
| `Titles.Screen.SetupNameCount` | fvwm/add_window.c:263-334 | The window gets the least number, from 0 on or from its present one if title and icon title are equal, that no other window shows the title with; all other fields stay. |
| `Titles.Screen.ChangeTitle` | fvwm/add_window.c:263-334 | A new title with its number; if no two windows showed the same title with the same number before, none do after it. |
| `DestroySpec.WithoutIs` | fvwm/add_window.c:3213-3228 | Unlinking removes a window and no other one. |
| `DestroySpec.WithoutSplits` | fvwm/add_window.c:3213-3228 | The windows in front of it and behind it keep their order. |
| `DestroySpec.AddKeepsInv` | fvwm/add_window.c:2258-2269 | A new window at the end of the list keeps the invariant. |
| `DestroySpec.DestroyKeepsInv` | fvwm/add_window.c:3191-3372 | Destroying a window, deferred or not, keeps the invariant. |
| `DestroySpec.DestroyKeepsInvIff` | fvwm/add_window.c:3191-3372 | A destroy call keeps the invariant exactly if the window is not scheduled, or a function executes, or the window is reused; else it is freed while it is queued. |
| `DestroySpec.DrainPart` | fvwm/update.c:631-641 | While the drain runs, the windows before the present one are finished once and those behind it not yet. |
| `DestroySpec.DrainKeepsInv` | fvwm/update.c:614-645 | The drain keeps the invariant and frees every scheduled window that is not reused, once. |
| `DestroySpec.StepKeepsInv` | fvwm/events.c:4212-4222 | Every step of a run keeps the invariant. |
| `DestroySpec.EachWindowEndsOnce` | fvwm/add_window.c:3191-3372 | Over any run of new windows, destroy requests, function entries and exits and drains, each destroyed window is unlinked once, broadcast once, and freed at most once: exactly once as soon as it is no longer queued. |
| `DestroySpec.NoFreeWhileExecuting` | fvwm/add_window.c:3241-3286 | No step frees a window while a complex or menu function executes. |
| `DestroySpec.RunNests` | fvwm/menus.c:252-255 | Over every run, the saved menu flags are those of nested menu functions, and depth and nesting count the calls. |
| `DestroySpec.ExecutingIff` | fvwm/functions.c:886-973 | From a start where nothing runs, a function runs exactly if more complex functions were entered than left, or more menu functions; no flag is read. |
| `DestroySpec.NoFreeWhileOpen` | fvwm/add_window.c:3241-3286 | While that is so, no call of any kind frees a window, and a window that is destroyed waits in the queue. |
| `DestroySpec.FreedWhenClosed` | fvwm/update.c:614-645 | Once all functions are left, the next loop head frees every window that was destroyed. |
| `DestroySpec.DestroyedFields` | fvwm/add_window.c:3191-3372 | Marks, counters and queue after a destroy call, by the fields before it. |
| `DestroySpec.DrainFreesAll` | fvwm/update.c:614-645 | A drain outside functions leaves the queue empty and every scheduled window freed once. |
| `Destruction.Screen.AddWindow` | fvwm/add_window.c:2258-2269 | A new window is appended to the window list; no other window changes. |
| `Destruction.Screen.Filter` | fvwm/add_window.c:3213-3228 | Unlinking a window from the list. |
| `Destruction.Screen.Unlink` | fvwm/add_window.c:3213-3228 | The list without the window; one more unlink of it. |
| `Destruction.Screen.Schedule` | fvwm/add_window.c:3241-3286 | The window is queued once and marked. |
| `Destruction.Screen.Finish` | fvwm/add_window.c:3288-3372 | Broadcast and freeing, once each. |
| `Destruction.Screen.DestroyWindow` | fvwm/add_window.c:3191-3372 | The whole new state after a destroy call; it is unlinked and announced the first time only, and freed unless it is reused or a function runs. |
| `Destruction.Screen.DestroyEach` | fvwm/update.c:635-638 | The loop of the drain destroys the queued windows in order. |
| `Destruction.Screen.DestroyScheduledWindows` | fvwm/update.c:614-645 | The drain; nothing happens while a function executes. |
| `Destruction.Screen.EnterComplexFunction` | fvwm/functions.c:972-973 | Entering a complex function sets its flag and counts it. |
| `Destruction.Screen.LeaveComplexFunction` | fvwm/functions.c:886-900 | Leaving it; the flag stays set exactly while another one is open. |
| `Destruction.Screen.EnterMenuFunction` | fvwm/menus.c:252-255 | Entering a menu function sets its flag and saves what it was. |
| `Destruction.Screen.LeaveMenuFunction` | fvwm/menus.c:252-255 | Leaving it restores the saved flag. |
| `Destruction.Screen.DispatchEvent` | fvwm/events.c:4166-4171 | Events of a scheduled window are dropped, except DestroyNotify; the invariant is kept exactly if that is allowed. |
| `MergeSpec.NextInChain` | fvwm/events.c:887-961 | Merging one more request of the chain keeps the description of what is merged. |
| `MergeSpec.OutsideChain` | fvwm/events.c:893-902 | Events of other windows and of other types are skipped untouched. |
| `MergeSpec.MergeConserves` | fvwm/events.c:887-983 | The union of the move, resize and border bits is unchanged and ends up only in the last request of the chain. |
| `MergeSpec.MergeIsDetermined` | fvwm/events.c:887-961 | The bits, kinds and wanted values after merging are determined by the queue: each bit has the value of the earliest request that set it, restack bits stay, and an event is invalid exactly if nothing is left in it. |
| `MergeSpec.MergedRequests` | fvwm/events.c:887-983 | Said of the fields of the events: only requests of the window change, none from the first change of another property of the window on, and all but the last lose exactly their move, resize and border bits. |
| `MergeSpec.MergedBits` | fvwm/events.c:904-935 | The last request has exactly the bits that some request of the window had, and its own restack bits. |
| `MergeSpec.MergedValues` | fvwm/events.c:904-925 | Each of x, y, width, height and border width is the one that was asked for first. |
| `MergeSpec.SomeFirst` | fvwm/events.c:904-935 | Every bit that some request sets has an earliest request. |
| `MergeSpec.GivesAway` | fvwm/events.c:924-931 | What an event hands over to the last request are the move, resize and border bits of the chain. |
| `MergeSpec.CrossesHintsIff` | fvwm/events.c:939-955 | A request hands a bit to a request behind a change of the size hints exactly if one of the chain has a bit to hand over, such a change behind it, and a later request behind that. |
| `MergeSpec.EarliestWinsIff` | fvwm/events.c:904-935 | Handled one by one, the requests give the window the value of the latest request for each bit; merged, that of the earliest; both are the same exactly if these two agree. |
| `MergeSpec.SameGeometryIff` | fvwm/events.c:904-935 | The window ends up in the same geometry as without merging, wherever it was before, exactly if the first and the last request for each bit agree. |
| `MergeSpec.MergedAcrossHints` | fvwm/events.c:939-955 | Two moves are merged across a change of the size hints, and not across that of any other property. |
| `MergeSpec.FirstMoveWins` | fvwm/events.c:904-935 | A window that is moved to 10 and then to 20 ends up at 10. |
| `Merge.MergeMoveResize` | fvwm/events.c:963-983 | The queue after the whole search, said of the fields of the events alone: which events change, which bits they lose, where the search ends, and what the last request asks for; nothing changes if there is only one request. |
| `Merge.MergePending` | fvwm/events.c:887-961 | The loop over the queue leaves what merging the requests one by one does. |
| `Merge.MergeInto` | fvwm/events.c:904-937 | One request absorbs the bits of the one before, which is stripped of them. |
| `Merge.Collect` | fvwm/events.c:904-935 | The values and bits that the later request takes over. |
| `StackOrder.RestackedFacts` | fvwm/events.c:535-573 | The ring stays a permutation of the same windows, the window is directly above or below its sibling, and the order of all others is unchanged. |
| `StackOrder.RestackedSplits` | fvwm/events.c:535-573 | However the other windows stand around the sibling, the window ends up right before or right behind it, and they stay as they are. |
| `StackOrder.RestackedKeepsLayers` | fvwm/events.c:525-573 | If both are in the same layer, layers still fall along the ring. |
| `StackOrder.RemovedFacts` | fvwm/stack.c:1630-1643 | Taking a window out leaves the others in order. |
| `Restack.StackRing.Remove` | fvwm/stack.c:1630-1643 | The linked ring without the window; nothing happens to a scheduled window. |
| `Restack.StackRing.AddAfter` | fvwm/stack.c:1645-1668 | The linked ring with the window behind another one. |
| `Restack.StackRing.Previous` | fvwm/stack.c:1675-1678 | The neighbour above. |
| `Restack.StackRing.PutNextTo` | fvwm/events.c:535-573 | Takes the window out of the linked ring and puts it next to its sibling. |
| `Restack.StackRing.TakeOutAndPut` | fvwm/events.c:535-573 | The ring after both steps. |
| `Restack.StackRing.HandleRestack` | fvwm/events.c:481-580 | Which requests restack within the layer and which raise or lower; the ring changes only in the first case, and then the window is linked directly above or below its sibling. |
| `IconList.ForwardIff` | fvwm/ewmh_icons.c:301-330 | The next index of the wrapping 32-bit arithmetic is behind the present one exactly if the area does not wrap it. |
| `IconList.SearchOutcome` | fvwm/ewmh_icons.c:642-672 | For every list, the search is over behind or before the list within as many iterations as the list is long, or it has come back to a header and never ends. |
| `IconList.EndsIff` | fvwm/ewmh_icons.c:642-672 | The search ends behind the list exactly if it does so within as many iterations as the list is long. |
| `IconList.NoWrapEnds` | fvwm/ewmh_icons.c:301-330 | Where no sum wraps it ends, after looking at the headers from front to back. |
| `IconList.WrapNeverEnds` | fvwm/ewmh_icons.c:642-672 | On the list [2, 0x7fffffff] the search stays at index 0 for ever. |
| `IconList.WrapCanEnd` | fvwm/ewmh_icons.c:642-672 | On the list [0xffffffff, 1, 0] a sum wraps and the search ends, after taking a record that is not there. |
| `IconList.WrapCanLeave` | fvwm/ewmh_icons.c:642-672 | On the list [0x80000000, 1] it goes on before the list. |
| `IconList.LiesInIff` | fvwm/ewmh_icons.c:644-648 | A record lies in the list exactly if it passes the test of the code and its end does not wrap. |
| `IconList.FitsWithoutLyingIn` | fvwm/ewmh_icons.c:644-648 | A record of 0x10000 by 0x10001 pixels passes the test in a list of 0x10002 entries, in which no sum wraps. |
| `IconList.VisitsBoundaries` | fvwm/ewmh_icons.c:642-672 | On a list of records the search visits exactly the record boundaries. |
| `IconList.WellFormedNoWrap` | fvwm/ewmh_icons.c:642-672 | No record of a well-formed list wraps. |
| `IconList.KeepsRecord` | fvwm/ewmh_icons.c:301-330 | The search for a size finds the first record of that size with its whole image, or none if there is none. |
| `IconList.DistanceWraps` | fvwm/ewmh_icons.c:655-662 | The code computes the squared distance modulo 2^32, and so gets it right exactly if it is below 2^32. |
| `IconList.BoundedSizesAreExact` | fvwm/ewmh_icons.c:655-662 | All sizes up to a bound have exact distances exactly if the bound is at most 46340. |
| `IconList.KeepsFirst` | fvwm/ewmh_icons.c:301-330 | Where no sum wraps, the loop keeps the first record of the size from the front. |
| `WmIcons.FindKeep` | fvwm/ewmh_icons.c:301-330 | The loop that looks for the record to keep, for every list on which it ends: the first header with the size that it looks at. |
| `WmIcons.OffsetsHold` | fvwm/ewmh_icons.c:301-330 | At each boundary stands the header of the record. |
| `IconList.FindSizeIs` | fvwm/ewmh_icons.c:301-330 | The record of a size is the first one with this width and height. |
| `WmIcons.ExtractWmIcon` | fvwm/ewmh_icons.c:628-675 | For every list on which the loop ends: the first header at minimal distance among those that pass the test; its record lies in the list with all pixels exactly if its end does not wrap. |
| `WmIcons.BestCanLieOutside` | fvwm/ewmh_icons.c:644-648 | A list for which the record that is handed back does not lie in it. |
| `WmIcons.BestIsFirstLeast` | fvwm/ewmh_icons.c:655-668 | The best record is the first one with the least distance. |
| `WmIcons.NearestRecord` | fvwm/ewmh_icons.c:628-675 | On every well-formed list it is the first record at the least distance modulo 2^32. |
| `WmIcons.NearestIff` | fvwm/ewmh_icons.c:655-662 | This is the first record that is truly nearest exactly if no record at a distance of 2^32 or more overtakes that one. |
| `WmIcons.FarRecordOvertakes` | fvwm/ewmh_icons.c:655-662 | A record of 65592x1 overtakes one of 128x128 when 56x56 is wanted. |
| `WmIcons.WriteRow` | fvwm/ewmh_icons.c:404-475 | One row of pixels behind what is already there. |
| `WmIcons.WriteRows` | fvwm/ewmh_icons.c:404-475 | All pixels of a picture, row by row. |
| `WmIcons.RasterAt` | fvwm/ewmh_icons.c:404-475 | Pixel (i, j) stands at place j * w + i behind the header. |
| `WmIcons.FillIcon` | fvwm/ewmh_icons.c:363-475 | The kept record, the header and the pixels, one behind the other. |
| `WmIcons.BuildIcon` | fvwm/ewmh_icons.c:363-475 | The new list is the kept record, then width and height, then each pixel (i, j) at place j * w + i. |
| `DonatedIcons.SelectsBySize` | fvwm/ewmh_icons.c:286-330 | A search by size tells the icon and the mini icon apart if their sizes differ. |
| `DonatedIcons.TwoRecordsRoundTrip` | fvwm/ewmh_icons.c:301-371 | From the list of two records the first one is found whole, and the second one exactly if it has another size. |
| `DonatedIcons.KeepPresent` | fvwm/ewmh_icons.c:301-330 | What is kept is the record of the wanted size, unchanged, or nothing. |
| `DonatedIcons.FvwmWindow.FoundIfDifferent` | fvwm/ewmh_icons.c:286-330 | A search by the size of one icon finds the record of that icon if the sizes differ. |
| `DonatedIcons.FvwmWindow.Kept` | fvwm/ewmh_icons.c:286-371 | The part of the list that is kept: the record that is found by the size of the other icon. |
| `DonatedIcons.FvwmWindow.SetFromPixmap` | fvwm/ewmh_icons.c:199-518 | Donating an icon leaves the record found by the size of the other one, and the new one behind it: these are the two icons exactly if the search found the other icon. |
| `DonatedIcons.FvwmWindow.DeleteWmIcon` | fvwm/ewmh_icons.c:523-620 | Deleting one kind leaves the record found by the size of the other: size and pixels of that icon exactly if the search found it. |
| `ColormapSpec.ListedEndsWithFirst` | fvwm/colormaps.c:205-240 | Installing a list of windows from the back ends with the map of the first one that has attributes. |
| `ColormapSpec.InstallWindowIs` | fvwm/colormaps.c:171-255 | A request while pushed changes nothing but the remembered window; otherwise its map is installed. |
| `ColormapSpec.StepKeepsOk` | fvwm/colormaps.c:171-334 | Each step keeps the link between the pushes and the installed map. |
| `ColormapSpec.RunKeepsMap` | fvwm/colormaps.c:171-334 | Over any interleaving, the last map is the installed one; only-root means the default map, only-fvwm the map of fvwm, both one of those (`LastPushCounts` says which), none the map of the window requested last. |
| `ColormapSpec.LastPushCounts` | fvwm/colormaps.c:257-311 | While both kinds of pushes are left, the map is the one that was pushed last, whatever is requested and popped in between. |
| `ColormapSpec.InstallsMapOf` | fvwm/colormaps.c:205-255 | Without pushes a request installs the own map of a window that is not in its list, else that of the first window of the list that the server knows. |
| `ColormapSpec.LastRequestOf` | fvwm/colormaps.c:171-203 | The remembered window is the one of the last request, also if it was made while pushed. |
| `ColormapSpec.RequestSurvives` | fvwm/colormaps.c:257-334 | A request made while pushed is not lost: when all pushes are taken back, its map is installed. |
| `ColormapSpec.StepTracks` | fvwm/colormaps.c:257-334 | How each call counts pushes and which window it remembers. |
| `Colormaps.Screen.InstallWindowColormaps` | fvwm/colormaps.c:171-255 | The whole new state after a request: the remembered window, and, unless maps are pushed, the map by the list and the colormap of the window. |
| `Colormaps.Screen.InstallMapsOf` | fvwm/colormaps.c:205-255 | The loop from the back of the list, and the own map at the end. |
| `Colormaps.Screen.InstallRootColormap` | fvwm/colormaps.c:257-271 | Installs the default map unless it is the last one, and counts the push. |
| `Colormaps.Screen.UninstallRootColormap` | fvwm/colormaps.c:273-299 | The last pop installs the map of the remembered window, or that of fvwm while its pushes are left. |
| `Colormaps.Screen.InstallFvwmColormap` | fvwm/colormaps.c:301-311 | Installs the map of fvwm unless it is the last one, and counts the push. |
| `Colormaps.Screen.UninstallFvwmColormap` | fvwm/colormaps.c:313-334 | The last pop installs the map of the remembered window, or the default map while root pushes are left. |
| `CyclicOrder.RankIsCyclic` | fvwm/conditional.c:95-171 | The order of the search is cyclic: neighbours follow each other, no two windows have the same rank, and the start comes last. |
| `Circulation.WindowList.FarEnd` | fvwm/conditional.c:95-130 | The end of the linked list where the search wraps around. |
| `Circulation.WindowList.Pass` | fvwm/conditional.c:130-165 | One pass to the end of the linked list finds the first match and skips none. |
| `Circulation.WindowList.Circulate` | fvwm/conditional.c:73-172 | With a direction, the match that comes first in the cyclic order; none only if no window matches. Without one, the window itself if it matches. |
| `CursorMove.PagesIsFloor` | fvwm/cursor.c:197-204 | The truncating quotients of the code amount to floor division. |
| `CursorMove.PageAxis` | fvwm/cursor.c:193-215 | Viewport plus pointer is conserved, the viewport lands in its range, and the pointer on the screen unless the viewport was clamped. |
| `CursorMove.Monitor.MoveRelative` | fvwm/cursor.c:182-268 | Both axes; the place on the desktop is the old one plus the step exactly if the viewport was moved or did not have to be. |
| `CursorCases.PageWithoutScrolling` | fvwm/cursor.c:241-249 | Without edge scrolling a step of 20 from 90 on a screen of 100 takes the pointer to 10 on the same page. |
| `WorkArea.LeastCoverIsUnique` | fvwm/ewmh.c:1008-1050 | Only one strut is the least that covers the base strut and all honoured ones. |
| `WorkArea.Monitor.ComputeWorkArea` | fvwm/ewmh.c:1008-1064 | The work area is the monitor without the least cover of the base strut and the honoured struts, whatever the order of the windows: on each side the greatest of the base strut and the struts of the sticky windows of the monitor that are not ignored. |
| `WorkArea.Monitor.BoundingBox` | fvwm/ewmh.c:2068-2089 | The bounding box recovers these maxima. |
| `WorkArea.Monitor.GetIntersection` | fvwm/ewmh.c:1119-1170 | The rectangle that is handed back, for any window list. |
| `WorkArea.MoreWindowsLessArea` | fvwm/ewmh.c:1008-1064 | Adding a window never makes the work area grow on any side. |
| `WorkArea.IntersectionEdges` | fvwm/ewmh.c:1119-1170 | The left and upper edges are right; the right and lower ones exactly if the relative and the absolute comparison agree. |
| `WorkArea.IntersectionPoints` | fvwm/ewmh.c:1119-1170 | Under that condition the result holds exactly the points in both rectangles. |
| `WorkArea.IntersectionCanBeWrong` | fvwm/ewmh.c:1119-1170 | Without it a point outside the rectangle can be in the result. |
| `WorkArea.WholeMonitor` | fvwm/ewmh.c:1119-1170 | Intersecting the full rectangle of a monitor with non-negative origin gives the absolute work area. |

## Left out

- ExpandVars.ExpandVars: what happens when a buffer overflows; its precondition is that none does, for the line and for the names in its groups.
- ExpandArgs.ParseRangeOrdered: a number beyond 32 bits is undefined for `sscanf` in C; the model stores it as the GNU C library does.
- ExpandVars.ArgsExtended: the argument string is given as its list of tokens; how `PeekToken` and `SkipNTokens` split it is not modelled.
- ExpandVars.VarsExtended: the table of variable names (`fvwm/expand.c:363-1318`) is one function from names to texts that does not change between the passes; letters are the ASCII letters.
- The optional window name that `$n` and friends fall back to, and colour names, environment and InfoStore variables, are values of that function.
- BarPixmaps.DynamicDecorations.GetBarPixmaps: sizes and contents of pixmaps are not modelled; a pixmap is an identity, and a picture is named after its pixmap.
- Titlebar.TitlebarDescr.SetBar: the state of the buttons and the parts to draw are left out, and the faces are the same list in all calls.
- TitlebarTheorems.TurningKeepsBar: its requirement that boxes and title fill the bar holds for drawn buttons by `TiledIffDrawn`; a title without length is never drawn (`fvwm/borders.c:4002`).
- TitlebarTheorems.RotatingTwiceRestores: one description at a time uses the static copy; nothing else writes the description between the calls.
- Transients.Screen.AddWindow: the rest of the work on a new window is left out; so is the end of the EWMH desktop.
- Titles.Screen.SetupNameCount: the window list is a sequence, not a chain of pointers; the formatting of visible names is left out.
- Destruction.Screen.DestroyWindow: the window list and the queue are sequences; everything but unlinking, broadcasting and freeing (focus, styles, colormaps, X windows) is left out, and whether a window is reused is fixed per window.
- DestroySpec.EachWindowEndsOnce: only for runs in which a scheduled window reaches `destroy_window` again through the drain, or while a function executes (`DestroyKeepsInvIff` says what happens else), and a freed one never does.
- Destruction.Screen.DispatchEvent: not for events of a window that has been freed.
- Merge.MergeMoveResize: the queue of the X library is an array in which the request in hand comes first.
- Restack.StackRing.HandleRestack: raising, lowering and the unusual modes (TopIf, BottomIf, Opposite) are outcomes without effect on the ring; the requests to the X server are left out.
- DonatedIcons.FvwmWindow.SetFromPixmap: the colours of the pixels and scaling are left out.
- DonatedIcons.FvwmWindow.DeleteWmIcon: what `EWMH_DoUpdateWmIcon` remembers when the first icon fails is left out.
- WmIcons.ExtractWmIcon: lists on which the loop of the code never ends or reads before the list (`IconList.SearchOutcome`) are left out.
- WmIcons.FindKeep: the same; the length of a kept record that wraps is stated as the code computes it.
- ColormapSpec.RunKeepsMap: colormap notify events, `EnterSubWindowColormap` and clients in control of colormaps are left out; before the first request the root window counts as requested; a pushed window that is destroyed (`fvwm/focus.c:1019`) is left out.
- Circulation.WindowList.Circulate: the conditions on windows are one predicate; the parsing of the condition string is left out.
- CursorMove.Monitor.MoveRelative: `MoveViewport` is taken to set the viewport to its target.
- WorkArea.Monitor.ComputeWorkArea: the dynamic work area is analogous; publishing the hint is left out.
- Other modules of fvwm3, all drawing, fonts, colours, modules and menus, command and binding parsing, focus policy and the EWMH tables.

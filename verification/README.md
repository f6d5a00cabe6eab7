# Meta-HTML: a verified model of its text machinery and its session store

Meta-HTML is an interpreter that rewrites HTML text in place. This project models the parts of
`libmhtml` that edit buffers by hand, print and read them back, or keep state across calls, and proves
that each loop computes what it is for:

- the cleaner of HTML whitespace (`Cleaner.dfy`, `CleanText.dfy`),
- the matcher of nested tags (`TagMatcher.dfy`, `TagText.dfy`) and substitution in a page with a cursor
  (`Substitution.dfy`, `SubstText.dfy`),
- the expansion of macro bodies (`Macros.dfy`, `MacroText.dfy`), reading of arguments (`Arguments.dfy`,
  `Reading.dfy`), printing them and gathering them into a package (`ArgumentLists.dfy`, `ArgumentTexts.dfy`),
  removal of `.` and `..` from paths (`Paths.dfy`, `PathText.dfy`), Base64 (`Base64.dfy`, `Base64Text.dfy`), and
  dynamic binding of variables and packages with non-local exits (`Bindings.dfy`, `Assignments.dfy`),
- the binary format of packages (`SymbolFormat.dfy`, `DumpText.dfy`) and the streams it is written to
  (`SymbolDump.dfy`),
- form data (`Forms.dfy`, `FormText.dfy`) and array variables (`ArrayVars.dfy`, `ArrayText.dfy`),
- sessions with their timeouts and the reaper (`Sessions.dfy`), and any number of processes sharing the
  session database under its lock (`SessionLock.dfy`), with what that lock does not give (`SessionRaces.dfy`).

`Symbols.dfy` has the names and values of symbol tables, `Markup.dfy` properly nested bracket text; `CText.dfy`,
`Bytes.dfy`, `Slices.dfy`, `Options.dfy` and `Buffers.dfy` hold what several modules use. Code that loops or changes
buffers and fields is modelled by methods and classes; each is proved equal to a specification function, and the
lemmas are about those functions. The modules second in a pair say what the functions mean without them, for texts
as they are written: strings, brackets, attributes, templates, lines. `dafny verify dfyconfig.toml` checks everything.

C strings are sequences without NUL, characters are bytes, ASCII `ctype` is fixed.

## What turned out otherwise than documented

- `session_access` and `session_get_info` say that they refresh the access time. They refresh it in a
  copy that is thrown away (libmhtml/session.c:299-334), so that only writing a session prolongs its life
  (`Sessions.AccessDoesNotProlong`). An access does what was promised if and only if the session never
  times out or was written at that very second (`Sessions.AccessRefreshesExactly`); one accessed a second
  before its time is up is gone a second later (`Sessions.AccessedJustInTime`).
- Each single access to the session database is serialisable, but `session_begin` is two of them. Keys
  stay unique in a run exactly if every write meets no other session with its key
  (`SessionLock.KeysStayUniqueExactly`), and the write of a begin makes a key double exactly if another
  process has written a session with that key since the look-up, and that is still in place
  (`SessionLock.BeginBreaksKeysExactly`). `SessionLock.BeginIsNotAtomic` is a run in which that happens.
- `session_access`, and with it `session_get_info` and `session_end`, deletes a session on the strength of an
  earlier read. A session that is alive is deleted as timed out exactly if it was stored in between
  (`SessionRaces.AccessDeletesLiveExactly`, with a run in `SessionRaces.AccessDeletesLive`), and
  `session_put_info` brings a session back exactly if it was ended in between (`SessionRaces.PutRevivesExactly`).
  `Sessions.SessionLifetime` is therefore about calls that do not overlap.
- Form variables come back from a query string exactly if their names stay apart when folded to upper case and
  seven bits (`Forms.VariablesComeBack`); those of one anonymous package always do (`Forms.PackageComesBack`). Comparing
  names takes an 8-bit character for the negative of it, which makes it exact if and only if no character of the
  name has a negative to be confused with (`Symbols.MatchIsExact`).
- Reading a quoted value drops carriage returns (`Arguments.QuoteThenReadIsIdentity`). The names and values
  of an argument list are recorded in the package itself, in `*pvars*` and `*pvals*`, where an argument of
  such a name overwrites them. Printing and gathering is the identity on all values without carriage
  returns if and only if no name refers to these lists (`ArgumentLists.ListNamesSpoil`); if none does, it is
  the identity exactly on those values (`ArgumentLists.PrintThenSnarfIsIdentity`).
- Popping the package stack does not restore "no current package" (`Bindings.PopAfterPush`).
- `in-package` with more carats than the stack is deep creates a package whose name is those carats. A
  let inside it looks its package up again by that name, gets another one, and restores the saved
  variables there (`Bindings.CaratPackageLeaks`); `Bindings.LetRestoresExactly` says exactly when a let is undone.
- `array-shift` never updates the number of slots of an array. Fewer are there than told exactly if it
  empties the array; an array that outgrows the number told has its slots all the same. The next `symbol_add_value` then writes outside the array exactly if the array was emptied, or has
  outgrown its slots by more than eight (`ArrayVars.Variable.Shift`; `ArrayVars.ShiftOut` and
  `ArrayVars.ShiftPast` are such arrays).
- A name or parameter of 256 bytes or more does not survive a dump (`SymbolFormat.ShortRoundTrip`).
- `page_simple_tag_bounds` and `page_complex_tag_bounds` say that they return -1 when nothing is found.
  They return 0 (`TagMatcher.SimpleTagBounds`, `TagMatcher.ComplexTagBounds`).
- Removing dots never looks at the first character of a path, so that a relative path is resolved as if it
  started with a slash, and its first character is lost exactly when it is removed as part of a component
  on the way (`Paths.RemoveDots`).

## Model

| member | source | states |
|---|---|---|
| `Cleaner.CleanupHtmlWhitespace` | libmhtml/cleaner.c:50-196 | the loop over the four protection states fills its buffer with exactly `Clean` of the region, never writes more than it has consumed, and terminates the result inside the buffer |
| `Cleaner.TrackTags` | libmhtml/cleaner.c:99-189 | quotes, look-ahead at `<` and look-behind at `>` update the state as `Track` says; the look-behind `src-5` is only reached with `src > 4` |
| `Cleaner.WriteCharacter` | libmhtml/cleaner.c:66-97 | what one character adds to the buffer, and that written plus pending characters never exceed those consumed |
| `Cleaner.CleanIsIdempotent` | libmhtml/cleaner.c:50-196 | cleaning cleaned text changes nothing, in plain and in beautify mode |
| `Cleaner.CleanPageStartIsIdempotent` | libmhtml/cleaner.c:50-196 | the same when only the start of a larger buffer is cleaned |
| `Cleaner.SecondRunCopies` | libmhtml/cleaner.c:50-196 | the simulation behind it: a second run whose protection contains that of the first copies what the first wrote |
| `Cleaner.TrackDominates` | libmhtml/cleaner.c:99-189 | one step keeps the second run inside at least the elements of the first |
| `Cleaner.CleanKeepsText` | libmhtml/cleaner.c:50-196 | every character that is not whitespace is kept, in order, and the text never grows |
| `Cleaner.ProtectedTextIsVerbatim` | libmhtml/cleaner.c:64-192 | text inside quotes, `pre`, `textarea` or `script` is copied as it is |
| `Cleaner.CleanIgnoresBeyond` | libmhtml/cleaner.c:50-196 | the look-ahead past the region never changes what is written |
| `CleanText.WhitespaceIsWritten` | libmhtml/cleaner.c:64-97 | outside protection the whitespace before a character becomes nothing before `>`, else one newline if any line ends in it, two in beautify mode if more than one does, one blank if none does; the text before it is cleaned as without it and the rest goes on with nothing left over |
| `CleanText.WhitespaceAtTheEnd` | libmhtml/cleaner.c:64-97 | unprotected whitespace at the end vanishes |
| `CleanText.NothingIsCarried` | libmhtml/cleaner.c:64-97 | no pending whitespace is carried into protected text or past anything else |
| `CleanText.StringKeepsState` | libmhtml/cleaner.c:99-102 | a string, whatever is in it, leaves the state as it was |
| `CleanText.TagCounts` | libmhtml/cleaner.c:104-189 | after `<pre>`, `<textarea>` or `<script>` in any case one more element of that name is open, after its closer one less |
| `CleanText.AttributesCount` | libmhtml/cleaner.c:104-130 | with attributes a `<textarea` or `<script` is open from its first bracket on |
| `CleanText.ElementIsVerbatim` | libmhtml/cleaner.c:50-196 | such an element is copied as it is from opener to closer, and cleaning goes on after it as before it |
| `CleanText.CleanBlind` | libmhtml/cleaner.c:104-189 | texts that differ only in case are cleaned to texts that differ only in case |
| `Cleaner.LookBehindIs` | libmhtml/cleaner.c:130-188 | the index tests of the look-behind are the tests on the text consumed |
| `TagMatcher.FindTagStart` | libmhtml/pages.c:967-1001 | the first tag of that name outside `;;;` comments, or -1; it terminates on every page |
| `TagMatcher.FindTagEnd` | libmhtml/pages.c:1003-1074 | just after the bracket that closes the one at the start, brackets inside quotes, escapes and comments not counted, or -1 |
| `TagMatcher.SimpleTagBounds` | libmhtml/pages.c:1076-1101 | start and end of a simple tag; the result is 1, or 0 when there is none or it does not end |
| `TagMatcher.ComplexTagBounds` | libmhtml/pages.c:1103-1202 | the two interleaved scans answer what one left-to-right depth count answers: the opener and the closer that first balances it, with result 1, or not found, with result 0, exactly if that count never balances |
| `TagMatcher.CountOpeners` | libmhtml/pages.c:1159-1176 | counting the openers on the way to a closer keeps the depth count |
| `TagMatcher.FindOpener` | libmhtml/pages.c:1118-1139 | the opener, with the short cut for a tag right at the start |
| `TagMatcher.BalanceAtOpener` | libmhtml/pages.c:1154-1197 | the depth count resumes after the next opener when that comes first |
| `TagMatcher.BalanceAtCloser` | libmhtml/pages.c:1154-1197 | the depth count resumes at the next closer when no opener comes first |
| `TagMatcher.NeverBalances` | libmhtml/pages.c:1154-1197 | no closer, or one without an end, means that the count never balances |
| `TagMatcher.BalanceThrough` | libmhtml/pages.c:1103-1202 | properly nested text, with other tags in it and comments that may hold anything, leaves the depth as it was |
| `TagMatcher.CloseStands` | libmhtml/pages.c:1003-1074 | where a tag ends does not depend on the page around it |
| `TagMatcher.NestedElementIsFound` | libmhtml/pages.c:1103-1202 | wherever it stands and wherever before it the search starts, a properly nested element that comes first is found from its opener, attributes included, to its own closer |
| `TagMatcher.UnclosedElementIsNotFound` | libmhtml/pages.c:1103-1202 | a first opener, with whatever attributes, that only properly nested text follows is not found |
| `TagText.TagEndIsItsBracket` | libmhtml/pages.c:1003-1074 | a bracket ends with the one that closes it, whatever nested brackets, strings, escapes and comments stand between |
| `TagText.TagIsItsName` | libmhtml/pages.c:967-1001 | where a bracket and a whole name are written there is the tag whose name is the same but for case, and no other |
| `TagText.WrittenOpener` | libmhtml/pages.c:967-1074 | a tag as it is written, with attributes, is an opener of its name in any case |
| `TagText.WrittenElementIsFound` | libmhtml/pages.c:1103-1202 | an element as it is written is found from its opener, whatever the case of its names, its attributes and what nests in it |
| `TagText.ElementBlind` | libmhtml/pages.c:1103-1202 | in pages that differ only in case, names that differ only in case lead to the same element |
| `CText.WordAtIs` | libmhtml/pages.c:985-995 | comparing without case finds a word exactly where the characters are its own in either case |
| `Substitution.SubstInPagePivot` | libmhtml/pages.c:265-404 | for every matcher with ordered offsets the page becomes the gaps of the original interleaved with the expanded replacements, the result is the exact change of length, the pivot moves to its image, and the loop terminates |
| `Substitution.ReplaceMatch` | libmhtml/pages.c:321-392 | one match is replaced in place, the search point lands after the replacement, and the pivot is shifted or pulled to its end |
| `Substitution.FindReferences` | libmhtml/pages.c:289-313 | the positions of the group references, doubled backslashes passed over |
| `Substitution.BuildReplacement` | libmhtml/pages.c:353-379 | the replacement is the template with every reference replaced by what the group matched |
| `Substitution.SpliceGrows` | libmhtml/pages.c:265-404 | the length of the result is that of the original plus the growth of the edits |
| `Substitution.ImageCutsResult` | libmhtml/pages.c:265-404 | a position no match covers cuts the result exactly between what became of the text before it and after it |
| `Substitution.PivotStep` | libmhtml/pages.c:339-392 | the incremental adjustment of the pivot ends at the image of its original position |
| `Substitution.EditStep` | libmhtml/pages.c:315-396 | in front of the search point stands finished text, after it the untouched end of the original |
| `SubstText.ExpandIsMeaning` | libmhtml/pages.c:289-379 | every replacement template means itself with each `\0` to `\9` replaced by the text of that group, nothing for one that took no part, doubled and stray backslashes kept |
| `SubstText.ResultIs` | libmhtml/pages.c:315-396 | for every matcher: the text up to the first match, its replacement, and the same for the text after it, no longer at the beginning of a line; nothing is changed where nothing or an empty match is found |
| `SubstText.CoveredGoesToEnd` | libmhtml/pages.c:339-392 | a cursor inside a match comes to stand right after its replacement |
| `Macros.SubstituteBody` | libmhtml/parser.c:2140-2248 | the in-place loop over a growing buffer ends, for all arguments, with the one-pass expansion of the template; nothing inserted is read again |
| `Macros.SubstituteAt` | libmhtml/parser.c:2150-2247 | one directive is filled in and the index ends up after the filling, with less left to scan |
| `Macros.Lookup` | libmhtml/parser.c:2153-2242 | which directive follows the percent sign, what it is filled with, and when the body is evaluated once more |
| `Macros.ProtectedExpandsToItself` | libmhtml/parser.c:2140-2248 | a text whose percent signs are written `%\` expands to itself in every call |
| `MacroText.FillsBody` | libmhtml/parser.c:2172-2186 | `%body`, in any case, becomes the body: whole in a macro, without exactly its leading whitespace otherwise |
| `MacroText.FillsQuotedBody` | libmhtml/parser.c:2188-2205 | `%qbody` becomes a text that reads back, wherever it stands, as that body without carriage returns |
| `MacroText.FillsNoBody` | libmhtml/parser.c:2172-2205 | a body that is missing or blank leaves nothing |
| `MacroText.FillsArgument` | libmhtml/parser.c:2153-2166 | `%0` to `%9` become the arguments at these positions |
| `MacroText.FillsNoArgument` | libmhtml/parser.c:2153-2166 | an argument that is missing or blank leaves nothing |
| `MacroText.FillsAttributes` | libmhtml/parser.c:2230-2243 | `%attributes` becomes the attributes without their leading whitespace |
| `MacroText.FillsEvaluations` | libmhtml/parser.c:2207-2228 | each `%xbody` becomes an evaluation of its own, in order |
| `MacroText.OtherPercentStays` | libmhtml/parser.c:2245-2246 | a percent sign before anything else, or at the end, stays |
| `MacroText.ExpandBlind` | libmhtml/parser.c:2140-2248 | templates that differ only in case expand to texts that differ only in case |
| `Arguments.QuoteForSetvar` | libmhtml/parser.c:2010-2036 | the value in quotes with quotes and backslashes escaped, inside the space allotted |
| `Arguments.ReadSexp1` | libmhtml/parser.c:394-574 | the reader over its workspace answers the expression and the offset after it; the end of the text is overrun, by one, exactly when a backslash is the last thing read, and then the answer goes on with that backslash and what the workspace held |
| `Arguments.ReadTurn` | libmhtml/parser.c:419-565 | one turn of the reader loop: escapes, quotes, brackets, comments, separators, and a backslash at the very end |
| `Arguments.ScanQuoted` | libmhtml/parser.c:419-565 | from the opening quote to the blank after the closing one, the reader gathers the value without carriage returns |
| `ArgumentLists.SnarfVars` | libmhtml/parser.c:603-663 | the package of an argument text: each argument is stored under its name, and the names and values are added in order to `*pvars*` and `*pvals*`, which are themselves symbols of the package that an argument can overwrite |
| `ArgumentLists.ReadArgMovesOn` | libmhtml/parser.c:603-663 | every round of the gathering loop moves on, so that it terminates |
| `ArgumentLists.Funargs` | libmhtml/parser.c:2788-2825 | the printed form of an argument list |
| `Arguments.ReadAfterQuote` | libmhtml/parser.c:394-574 | reading a quoted value, wherever it stands, gives the value without its carriage returns and leaves the offset after it |
| `Arguments.QuoteThenReadIsIdentity` | libmhtml/parser.c:394-574 | quoting and reading is the identity if and only if the value holds no carriage return |
| `Reading.ReadExpression` | libmhtml/parser.c:394-574 | every well-formed expression, made of characters, escapes, strings and nested brackets, is read as its value wherever it stands, up to what ends it |
| `Reading.ReadBracketed` | libmhtml/parser.c:394-574 | a bracketed expression is read as it stands if and only if it holds no comments and no bare carriage returns |
| `Reading.ReadOneList` | libmhtml/parser.c:487-498 | when one list is wanted, reading stops right at its closing bracket, whatever follows |
| `Reading.GatheredIs` | libmhtml/parser.c:419-565 | between brackets everything is kept exactly if there are no comments and carriage returns |
| `Reading.ScanInside` | libmhtml/parser.c:419-565 | whatever is properly nested between brackets leaves the depth as it was |
| `Reading.ReadCommented` | libmhtml/parser.c:522-530 | a comment after an expression is passed over and its newline ends the expression |
| `Reading.ReadStrayClose` | libmhtml/parser.c:487-498 | an unmatched closing bracket is kept, and what ends an expression still ends it |
| `ArgumentLists.SnarfAfterPrint` | libmhtml/parser.c:2788-2825 | what is gathered from a printed list are all names and values in order, values without carriage returns |
| `ArgumentLists.PrintThenSnarfIsIdentity` | libmhtml/parser.c:603-663 | if no name with a value refers to the two lists, the names and values recorded are those printed if and only if no value holds a carriage return |
| `ArgumentLists.ListNamesSpoil` | libmhtml/parser.c:603-663 | for any given names, the round trip is the identity on all values without carriage returns if and only if no name refers to `*pvars*` or `*pvals*`, in any case, with an index in brackets or without |
| `ArgumentLists.ReadableIsComplete` | libmhtml/parser.c:394-574 | no text without a backslash at its end is cut off while its arguments are gathered |
| `ArgumentLists.RecordedLists` | libmhtml/parser.c:603-663 | an argument whose name does not refer to the lists adds its name to one and its value to the other |
| `ArgumentTexts.SnarfWritten` | libmhtml/parser.c:603-663 | arguments as they are written, with names and values that may be strings, bracketed expressions or both, and any whitespace around equals signs and between, are gathered in order as their values |
| `ArgumentTexts.BracketedArgument` | libmhtml/parser.c:603-663 | an argument that is a bracketed expression is gathered as it stands if and only if it holds no comments and no bare carriage returns |
| `ArgumentTexts.ArgumentIsStored` | libmhtml/parser.c:603-663 | an argument is stored where its name refers to, and nothing else changes but the two lists |
| `ArgumentTexts.ArgumentHasItsValue` | libmhtml/parser.c:603-663 | after all have been gathered, the variable of each argument with a plain name of its own has its value |
| `ArgumentTexts.PrintedPair` | libmhtml/parser.c:2788-2825 | the printed form: equals sign and quotes for values, one blank between arguments |
| `ArgumentTexts.EscapedLength` | libmhtml/parser.c:2024-2031 | quotes and backslashes, and nothing else, get a character more |
| `Paths.RemoveDots` | libmhtml/parser.c:2607-2643 | the in-place `memmove` loop with its back-tracking index turns every path into its component-stack normal form, the first character being whatever it was unless it was removed, and terminates |
| `Paths.CanonicalOfRooted` | libmhtml/parser.c:2607-2643 | a path that starts with a slash becomes just its resolved components |
| `Paths.MoveDown` | libmhtml/parser.c:2612-2643 | the `memmove` that closes a gap, terminator included |
| `Paths.SlashBefore` | libmhtml/parser.c:2630-2637 | the backwards search for the slash of the component removed |
| `Paths.CanonicalIsIdempotent` | libmhtml/parser.c:2607-2643 | normalising a normal path changes nothing, for relative paths too |
| `Paths.CanonicalHasNoDots` | libmhtml/parser.c:2607-2643 | no `/./` and no `/../` is left, in relative paths too |
| `Paths.DropDot` | libmhtml/parser.c:2614-2622 | removing `./` does not change what the path resolves to, and removes the first character exactly at the root |
| `Paths.DropDotDot` | libmhtml/parser.c:2623-2638 | removing `../` with the component before it, or at the root, does not change what the path resolves to |
| `PathText.DotIsHere` | libmhtml/parser.c:2614-2622 | `/./` in a path is a slash |
| `PathText.DotDotIsBack` | libmhtml/parser.c:2623-2638 | a component and `/../` after it cancel |
| `PathText.DotDotAtRoot` | libmhtml/parser.c:2623-2638 | at the root `/../` is a slash |
| `PathText.CanonicalStays` | libmhtml/parser.c:2607-2643 | a path that starts with a slash stays as it is if and only if there is no `/./` and no `/../` in it |
| `PathText.RelativeStays` | libmhtml/parser.c:2607-2643 | a relative path stays as it is if nothing is to be removed, its first character taken for a slash |
| `PathText.RelativeLoses` | libmhtml/parser.c:2607-2643 | the first character of a relative path is lost to dots right after it and to going back over the component it starts |
| `Base64.Encode` | libmhtml/parser.c:2934-2975 | the encoder writes the chunks of `EncodeFrom`, padded, with newlines every `shortlines` characters |
| `Base64.DecodeText` | libmhtml/parser.c:2852-2909 | the decoder writes the blocks of the text and puts its terminator inside its buffer, just after the decoded bytes |
| `Base64.TerminatorFits` | libmhtml/parser.c:2888-2906 | the terminator lies inside the buffer if and only if there is not one letter more than whole groups of four |
| `Base64.DecodesTo` | libmhtml/parser.c:2852-2975 | the letters of encoded data, newlines skipped, make blocks that start with the data and a terminator right after it |
| `Base64.EncodeThenDecode` | libmhtml/parser.c:2852-2975 | decoding encoded data gives back every byte sequence, for every line width (section 4 of RFC 4648, section 6.8 of RFC 2045) |
| `Base64Text.AlphabetIs` | libmhtml/parser.c:2912-2917 | the alphabet is A-Z, a-z, 0-9, + and / |
| `Base64Text.PlaceIsExact` | libmhtml/parser.c:2864-2881 | the decoder takes exactly these for letters, each at its place |
| `Base64Text.BitsAreKept` | libmhtml/parser.c:2912-2932 | the places of four letters, six bits each, are the three bytes |
| `Base64Text.Vectors` | libmhtml/parser.c:2934-2975 | the encodings of "f" to "foobar" in section 10 of RFC 4648 |
| `Base64Text.EncodedInLines` | libmhtml/parser.c:2934-2975 | for a width of whole groups the text with line breaks is that without, in lines of this width |
| `Base64Text.LettersEnd` | libmhtml/parser.c:2883-2888 | newlines are passed over, and the first byte that is neither a newline nor a letter ends the text |
| `Bindings.Exec` | libmhtml/parser.c:2038-2110 | for every program of assignments, lets, `in-package`, `with-local-package` and page returns, on normal and on jump exit, the current package, the package stack and the jump buffer are those at entry, and a jump goes to the innermost `setjmp` still active |
| `Bindings.EnteredIsBound` | libmhtml/parser.c:2051-2062 | the body of a let starts with every variable bound to its value, and with every other variable and package as it was |
| `Bindings.Within` | libmhtml/packfuncs.c:234-318 | the same for a body run with another package current |
| `Bindings.LetRestores` | libmhtml/parser.c:2038-2110 | however the body ends, each variable bound has its entry value again, one that did not exist is there without values, and all else is as the body left it |
| `Bindings.LetRestoresExactly` | libmhtml/parser.c:2098-2108 | bindings are undone if and only if the name of the current package leads back to that package |
| `Bindings.LetLeaks` | libmhtml/parser.c:2098-2108 | otherwise the bound value stays |
| `Bindings.OrdinaryPackageIsSelfNamed` | libmhtml/symbols.c:288-336 | the condition holds for every package that is anonymous or has a name not made of carats |
| `Bindings.ExecKeepsNames` | libmhtml/symbols.c:388-430 | running a program keeps package names unique |
| `Bindings.CaratPackageLeaks` | libmhtml/symbols.c:303-333 | more carats than the stack is deep make a package of that name, and a let inside it restores into the outer package |
| `Bindings.PopAfterPush` | libmhtml/symbols.c:338-364 | pushing and popping restores the current package if and only if there was one |
| `Bindings.LookupLasts` | libmhtml/symbols.c:288-336 | a name goes on leading to the same package while packages are only added |
| `Assignments.AssignedSets` | libmhtml/forms.c:660-718 | setting a variable gives it its new first value and keeps its other values, unless it is read-only, and changes no other variable |
| `Assignments.AssignSetsNamed` | libmhtml/forms.c:571-718 | a variable of a named package is set there, and in no other package |
| `Assignments.LastAssignmentWins` | libmhtml/forms.c:571-718 | of two assignments the later one holds |
| `Assignments.LetCopies` | libmhtml/parser.c:2038-2110 | in a let each variable is a copy of what it is bound to, and after it a copy of what it was, marked as modified |
| `Assignments.InPackageSets` | libmhtml/packfuncs.c:234-286 | `in-package` sets variables of the package it names, the default one without a name, one of its own for `local` |
| `Assignments.LocalSetsNothingElse` | libmhtml/packfuncs.c:288-318 | `with-local-package` leaves the variables of all packages alone |
| `Assignments.NothingAfterReturn` | libmhtml/parser.c:2038-2110 | what comes after a page return is not run |
| `Assignments.CaratsCountBack` | libmhtml/symbols.c:303-333 | as many carats as packages were made current lead back to the one that was current before |
| `Bindings.Interpreter.LookupPackage` | libmhtml/symbols.c:288-336 | the carat count and the search of the package list find what `Lookup` says |
| `Bindings.Interpreter.GetPackage` | libmhtml/symbols.c:388-430 | a package that is not found, or has no name, is created |
| `Bindings.Interpreter.CopySymbol` | libmhtml/symbols.c:1005-1079 | the copy replaces the old symbol and is marked modified |
| `Bindings.Interpreter.SaveAndBind` | libmhtml/parser.c:2051-2062 | the old variables are saved and the new ones bound |
| `Bindings.Interpreter.MhtmlLet` | libmhtml/parser.c:2038-2110 | save, bind, run under a new `setjmp`, restore, jump on: refines `Exec` |
| `Bindings.Interpreter.RunWithin` | libmhtml/packfuncs.c:263-286 | push, run under a new `setjmp`, pop, jump on: refines `Within` |
| `Bindings.Interpreter.Run` | libmhtml/parser.c:2038-2110 | running a program step by step on the mutable state refines `Exec` |
| `SymbolFormat.IntRoundTrip` | libmhtml/symdump.c:216-256 | reading four bytes gives back every 32-bit integer that was written, negative ones included |
| `SymbolFormat.ShortRoundTrip` | libmhtml/symdump.c:268-271 | a string with a one-byte length comes back if and only if it is shorter than 256 bytes |
| `SymbolFormat.ValuesRoundTrip` | libmhtml/symdump.c:286-312 | the value list comes back, empty values included |
| `SymbolFormat.FunctionRoundTrip` | libmhtml/symdump.c:327-379 | kind, flags, package name, parameters and body of a user function come back, empty lists as null |
| `SymbolFormat.SymRoundTrip` | libmhtml/symdump.c:258-586 | what is read for a symbol is what was written, flags without FLAGGED, and not a byte more is consumed |
| `SymbolFormat.PackageRoundTrip` | libmhtml/symdump.c:588-674 | the same for a package with its header |
| `SymbolFormat.StreamRoundTrip` | libmhtml/symdump.c:588-674 | loading reads all packages of a stream and is at its end after the last |
| `SymbolFormat.DumpThenLoad` | libmhtml/symdump.c:588-674 | every symbol written, in any sequence of differently named packages, is there after loading into any packages, and every other symbol of those survives |
| `DumpText.IntIsLittleEndian` | libmhtml/symdump.c:216-256 | integers are four bytes, lowest first, in two's complement |
| `DumpText.VariableExample` | libmhtml/symdump.c:258-312 | the record of a variable byte by byte |
| `DumpText.FunctionExample` | libmhtml/symdump.c:258-379 | the record of a user function byte by byte |
| `DumpText.PackageExample` | libmhtml/symdump.c:588-624 | a package byte by byte |
| `SymbolDump.DumpPackage` | libmhtml/symdump.c:588-624 | nothing is written of an empty package; otherwise the header counts exactly the records that follow, although writing a record clears the mark it was counted by; other symbols keep their flags |
| `SymbolDump.DumpAll` | libmhtml/prims.c:204-244 | dumping the packages listed, some perhaps twice, writes the dumps of those that have something to write, each with the marks left by those before, and leaves exactly the marks not written |
| `SymbolDump.WrittenAgain` | libmhtml/symdump.c:588-624 | a package that is written again is the same bytes, or a header without records when only marked symbols are written |
| `SymbolDump.DumpAndLoad` | libmhtml/symdump.c:588-674 | packages dumped to a stream that is then read to its end are installed as they were written, whatever the target held |
| `SymbolDump.WriteSymbol` | libmhtml/symdump.c:258-397 | appends the record of the symbol and clears its mark |
| `SymbolDump.WriteValues` | libmhtml/symdump.c:293-312 | appends the count and the values |
| `SymbolDump.AllPackages.LoadPackage` | libmhtml/symdump.c:624-674 | at the end of the stream nothing; otherwise one package is read and installed, and exactly its bytes are consumed |
| `SymbolDump.AllPackages.ReadSymbol` | libmhtml/symdump.c:399-586 | the symbol read takes the place of the one there, other symbols stay |
| `SymbolDump.AllPackages.LoadAll` | libmhtml/symdump.c:624-674 | loading until the end of a stream of dumps installs them all and consumes every byte |
| `SymbolDump.Stream.Write` | libmhtml/symdump.c:99-122 | the bytes are appended, the buffer growing when they would fill it |
| `SymbolDump.Stream.Read` | libmhtml/symdump.c:77-96 | all of the bytes asked for, or none when there are too few |
| `SymbolDump.Pool.OpenStream` | libmhtml/symdump.c:147-177 | the lowest descriptor not in use gets an empty buffer of its own, all other descriptors keep theirs |
| `SymbolDump.Pool.CloseStream` | libmhtml/symdump.c:179-195 | only this descriptor is freed, and its buffer ends where it was written to |
| `Forms.UnparseItems` | libmhtml/forms.c:271-352 | the loop joins the encoded pairs of all values of all variables, in order |
| `Forms.ParseDataString` | libmhtml/forms.c:205-264 | splitting and decoding adds every value, in order, to the variable of its folded name in the package, up to a piece without an equals sign |
| `Forms.Cleanup` | libmhtml/forms.c:354-384 | decoding in place never overtakes what is still to be read |
| `Forms.ParseHexPair` | libmhtml/forms.c:386-416 | one or two hexadecimal digits of either case |
| `Forms.DecodeEncode` | libmhtml/forms.c:268-384 | decoding encoded bytes gives back every byte sequence |
| `Forms.ParseJoined` | libmhtml/forms.c:205-352 | parsing joined pairs gives back the pairs, from any offset |
| `Forms.ParseUnparsed` | libmhtml/forms.c:205-352 | parsing what was unparsed yields exactly the names and values in order, multi-valued names included (section 8.2.1 of RFC 1866, section 2.1 of RFC 3986) |
| `Forms.AddedAllIs` | libmhtml/forms.c:220-264 | parsing into any package appends to each variable all values sent under names folded to its own, and makes no other variables |
| `Forms.VariablesComeBack` | libmhtml/forms.c:205-352 | of any variables, each comes back with exactly its values if and only if no two names are the same once folded, variables without values aside |
| `Forms.PackageComesBack` | libmhtml/forms.c:205-352 | an anonymous package that is unparsed, in any order and case of names, and parsed into an empty one comes back, but for variables without values |
| `FormText.EncodedByteIs` | libmhtml/forms.c:295-330 | letters, digits and `.-_@:` are written as they are, a blank as a plus sign, all else as two upper-case digits after a percent sign |
| `FormText.WrittenIsDecoded` | libmhtml/forms.c:354-416 | however a text was encoded, with digits in either case and whether a byte needed it or not, it is decoded to what was meant |
| `FormText.BrokenPairIsDecoded` | libmhtml/forms.c:386-416 | of a pair that is not two digits only the digits there are count |
| `FormText.SplitAtLastEquals` | libmhtml/forms.c:233-252 | a piece is split at its last equals sign |
| `FormText.NoEqualsEnds` | libmhtml/forms.c:240-242 | a piece without an equals sign ends the parse |
| `FormText.JoinedPairs` | libmhtml/forms.c:315-345 | pairs are joined with equals signs and ampersands |
| `FormText.NulCutsOff` | libmhtml/forms.c:246-254 | a NUL among the decoded characters cuts off what comes after it |
| `Symbols.MatchName` | libmhtml/symbols.c:256-264 | the comparing loop answers whether the signed characters at which the names part add up to zero |
| `Symbols.MatchIsExact` | libmhtml/symbols.c:256-264 | it finds exactly the symbols with the folded name if and only if the name has no character whose negative could stand in a stored name in its place |
| `Symbols.SymCharIs` | libmhtml/symbols.c:195-195 | two characters are the same to a symbol exactly if they are but for case and their eighth bits |
| `ArrayVars.Variable.SetCell` | libmhtml/forms.c:660-718 | storing `t[k]` pads with empty cells and changes only that cell, in the old array or in a new one; the slots told suffice again after padding |
| `ArrayVars.Variable.GetCell` | libmhtml/forms.c:520-525 | the cell, or nothing outside the array |
| `ArrayVars.Variable.SetAll` | libmhtml/forms.c:674-710 | storing `t[]` splits the value at newlines, leading whitespace of elements skipped |
| `ArrayVars.Variable.GetAll` | libmhtml/forms.c:496-519 | the value of `t[]` is the elements with newlines between them |
| `ArrayVars.Variable.Shift` | libmhtml/arrayfuncs.c:399-450 | shifting in place agrees with the sequence model: cells opened are empty, cells closed are gone, a shift that leaves none empties the array; the number of slots is not updated, and for every variable it says exactly how many slots are there afterwards, whether those told still hold the values, and whether `symbol_add_value` still stays inside the array: unless nothing moved, exactly if the new size is positive and at most the number told plus eight |
| `ArrayVars.Variable.AddValue` | libmhtml/symbols.c:1127-1160 | adding a value appends it, and keeps slots that suffice sufficient; it needs `Addable`, which says that it stays inside the array |
| `ArrayVars.ShiftUpAndDown` | libmhtml/arrayfuncs.c:399-450 | a variable shifted up and down again by the same number at the same start has its old contents, and can be added to as before, even if it outgrew its slots in between |
| `ArrayVars.ShiftOut` | libmhtml/arrayfuncs.c:413-419 | an array emptied by a shift: ten slots told, none there, and adding a value would write outside it |
| `ArrayVars.ShiftPast` | libmhtml/arrayfuncs.c:435-448 | an array of one value shifted up by n: n + 2 slots, two told, and adding a value stays inside it exactly up to a shift by nine |
| `ArrayVars.ParseTag` | libmhtml/forms.c:429-466 | the name, and the index in brackets or the empty brackets, that a tag refers to |
| `ArrayVars.Variable.MoveUp` | libmhtml/arrayfuncs.c:435-448 | the in-place copy upwards opens a gap of empty cells |
| `ArrayVars.Variable.MoveDown` | libmhtml/arrayfuncs.c:421-433 | the in-place copy downwards closes a gap |
| `ArrayVars.Variable.Reverse` | libmhtml/arrayfuncs.c:461-495 | swapping from both ends reverses the array |
| `ArrayVars.SetCellChangesOneCell` | libmhtml/forms.c:660-718 | the new cell has the value, the others are as they were, new ones are empty |
| `ArrayVars.SplitMakesElements` | libmhtml/forms.c:674-710 | every element made is not empty, on one line, and does not start with whitespace |
| `ArrayVars.SetAllToItself` | libmhtml/forms.c:420-724 | storing the value of `t[]` into `t[]` is the identity if and only if the array consists of such elements |
| `ArrayVars.ShiftBack` | libmhtml/arrayfuncs.c:399-450 | shifting by n and by -n at the same start is the identity |
| `ArrayVars.ReverseTwice` | libmhtml/arrayfuncs.c:461-495 | reversing twice is the identity |
| `ArrayText.ShiftUpMoves` | libmhtml/arrayfuncs.c:435-448 | cell by cell: shifting up moves those from the start on and opens empty ones |
| `ArrayText.ShiftDownMoves` | libmhtml/arrayfuncs.c:421-433 | cell by cell: shifting down takes those at the start away |
| `ArrayText.ShiftEdges` | libmhtml/arrayfuncs.c:395-421 | a start past the end moves nothing, a negative one is the first cell, and a shift by the whole array empties it |
| `ArrayText.SplitLines` | libmhtml/forms.c:674-710 | lines stored into `t[]` become the elements, without the whitespace before them |
| `ArrayText.PlainName` | libmhtml/forms.c:429-466 | a name without brackets, or with one that is not closed, is its first cell |
| `ArrayText.BracketedName` | libmhtml/forms.c:429-466 | brackets refer to all cells if empty, to the cell with that number, or to the one whose number a variable holds |
| `ArrayText.NumberIsDecimal` | libmhtml/forms.c:445-452 | the number of a cell is decimal |
| `Sessions.SessionLifetime` | libmhtml/session.c:299-350 | a session last written at t with timeout m is answered at every time before t + 60 m and never from then on, whatever other calls and reaps come between; with timeout 0 until it is ended |
| `Sessions.LastingRun` | libmhtml/session.c:149-382 | over a run the session is as it was, or gone because its time was up |
| `Sessions.PutIsAnswered` | libmhtml/session.c:352-382 | after a put at t, over every clocked run that leaves the session alone, it is answered as what was put, with its old key, exactly until its timeout after t |
| `Sessions.PutMakesNothing` | libmhtml/session.c:352-382 | a put makes no session that does not exist |
| `Sessions.BegunIsAnswered` | libmhtml/session.c:149-177 | a session begun at t is answered without data exactly for 61 minutes, unless its key is taken: then nothing is stored |
| `Sessions.RestoredIsAnswered` | libmhtml/session.c:179-198 | a session restored at t is answered as it was, or as given, exactly until its timeout after t |
| `Sessions.EndedIsNotAnswered` | libmhtml/session.c:200-215 | an ended session is not answered again until it is begun or restored |
| `Sessions.OthersAreAnswered` | libmhtml/session.c:149-382 | no run changes how a session it leaves alone is answered |
| `Sessions.AccessDeletesExactly` | libmhtml/session.c:300-350 | an access or look-up deletes the session exactly if its timeout is over, and nothing else |
| `Sessions.ReapedExactly` | libmhtml/session.c:217-298 | a reap deletes a session exactly if its timeout is over, and only while reaping is on |
| `Sessions.AccessDoesNotProlong` | libmhtml/session.c:299-350 | looking up or accessing a session does not change when it ends |
| `Sessions.AccessRefreshesExactly` | libmhtml/session.c:299-334 | after an access a live session is answered exactly until its timeout counted from the access if and only if it never times out or was written at that time |
| `Sessions.AccessedJustInTime` | libmhtml/session.c:299-334 | a session accessed one second before its time is up is gone a second later |
| `Sessions.KeysStayUnique` | libmhtml/session.c:149-382 | in every run without multiples and restores no two sessions share a key |
| `Sessions.KeysStayUniqueStep` | libmhtml/session.c:149-177 | even when the identifier made up for a new session is already in use |
| `Sessions.GenericSessionReaper` | libmhtml/session.c:230-298 | exactly the sessions idle for their timeout are deleted, all others stay, their number is returned, the store is not changed while it is read, and every record fetched is freed once |
| `Sessions.GatherDue` | libmhtml/session.c:249-275 | the first pass gathers exactly the records due and has freed the others |
| `Sessions.GatherOne` | libmhtml/session.c:251-273 | one turn of it: the record before is freed unless it was gathered |
| `Sessions.DeleteDue` | libmhtml/session.c:277-292 | the second pass deletes each gathered session once and frees its record after its last use |
| `Sessions.SequentialAccess` | libmhtml/session.c:579-616 | the record after the one given, or the first, or none; valid only while the database is unchanged |
| `Sessions.DueIs` | libmhtml/session.c:249-273 | the positions gathered are increasing and due |
| `Sessions.DueHas` | libmhtml/session.c:249-273 | every position due is gathered |
| `Sessions.DueIsReaped` | libmhtml/session.c:230-298 | a session is among those gathered if and only if its time is up |
| `Sessions.FindKey` | libmhtml/session.c:396-426 | the first session with the key, none if and only if there is none; timed-out sessions count |
| `Sessions.SessionBegin` | libmhtml/session.c:149-177 | stores a new session unless the key is taken, then reaps |
| `Sessions.SessionAccess` | libmhtml/session.c:300-334 | 0 while the session is alive; one whose time is up is deleted |
| `Sessions.SessionGetInfo` | libmhtml/session.c:336-350 | answers the session if and only if its time is not up |
| `Sessions.SessionPutInfo` | libmhtml/session.c:352-382 | stores the session if it exists, with its old key and the present time |
| `Sessions.SessionRestore` | libmhtml/session.c:179-198 | stores the session as it was or as given, accessed now |
| `Sessions.SessionEnd` | libmhtml/session.c:200-215 | the session is gone; 0 if and only if it was alive |
| `Sessions.SessionReap` | libmhtml/session.c:217-228 | reaps if reaping is on |
| `SessionLock.WriteHandleIsExclusive` | libmhtml/session.c:518-577 | for any number of processes and every interleaving, while one has the database open for writing no other has it open |
| `SessionLock.CallsAreSerialisable` | libmhtml/session.c:518-694 | for every interleaving the finished calls are those of a history in which each was done at once on the file left by the one before, every process has the answer of the history, and the file is what the history leads to whenever nobody is writing |
| `SessionLock.KeptStep` | libmhtml/session.c:518-694 | every step of every process keeps the invariant |
| `SessionLock.LockKeptStep` | libmhtml/session.c:518-577 | the lock is held by exactly those processes that think they hold it |
| `SessionLock.Excluded` | libmhtml/session.c:518-577 | a lock held for writing excludes every other lock |
| `SessionLock.WorkedFits` | libmhtml/session.c:230-298 | every step of work on the open database keeps the half-done call consistent, and the last one completes it as if done at once |
| `SessionLock.SweepMore` | libmhtml/session.c:277-292 | half-way through its second pass the reaper has removed exactly the sessions swept so far |
| `SessionLock.SweptAll` | libmhtml/session.c:230-298 | at the end of the second pass the file is what reaping at once gives, and the count is right |
| `SessionLock.CollectMore` | libmhtml/session.c:249-273 | the first pass has gathered exactly the due keys among those read |
| `SessionLock.FindFits` | libmhtml/session.c:396-426 | the search for a key answers the first session with it |
| `SessionLock.EntryKeepsKeys` | libmhtml/session.c:149-177 | one call on a database with unique keys leaves them unique if and only if it does not write a key that another session has |
| `SessionLock.KeysStayUniqueExactly` | libmhtml/session.c:149-177 | for every number of processes and every interleaving from a database with unique keys: keys are unique after every call if and only if every write meets no other session with its key |
| `SessionLock.WrittenBetween` | libmhtml/session.c:518-694 | a session that is there at one call and was not after an earlier one has been written in between and left in place since |
| `SessionLock.BeginBreaksKeysExactly` | libmhtml/session.c:149-177 | in every run, a write whose key an earlier look-up did not find makes it double if and only if a session with that key and another identifier was written in between and is still in place; by another process, if the writer did nothing else meanwhile |
| `SessionLock.BeginIsNotAtomic` | libmhtml/session.c:149-177 | a run of that kind: two processes begin a session with the same key, both are told there is none, and both store one |
| `SessionRaces.MeetsAnotherExactly` | libmhtml/session.c:300-334 | in every run: after a read of a session, another record is met under its identifier exactly if it was written in between and is still in place; by another process, if the reader did nothing else meanwhile |
| `SessionRaces.AccessDeletesLiveExactly` | libmhtml/session.c:300-334 | in every run: after reading a record whose time is up, the deletion of `session_access` hits a session that is alive exactly if one was stored in between and is still in place |
| `SessionRaces.PutRevivesExactly` | libmhtml/session.c:352-382 | in every run: `session_put_info` brings back an ended session exactly if that was removed or reaped since it was read, and not stored again |
| `SessionRaces.EndedBetween` | libmhtml/session.c:518-694 | a session that was there and is gone has been removed, or reaped when its time was up, and has been absent since |
| `SessionRaces.AccessDeletesLive` | libmhtml/session.c:300-334 | a run in which one process finds a session timed out, another stores it anew, and the first deletes it |
| `SessionRaces.BeginInParts` | libmhtml/session.c:149-177 | with nothing in between, the accesses of a begin do what it does |
| `SessionRaces.AccessInParts` | libmhtml/session.c:300-334 | those of an access |
| `SessionRaces.PutInParts` | libmhtml/session.c:352-382 | those of a put |
| `SessionRaces.RestoreInParts` | libmhtml/session.c:179-198 | those of a restore |
| `SessionRaces.EndInParts` | libmhtml/session.c:200-215 | those of an end |

## Left out

- Brackets other than plain ones: the configurable bracket pair is assumed to be characters that the scanners give no other meaning to, and not to open and close at once.
- TagMatcher.ComplexTagBounds: tag names that contain a bracket or a semicolon are not modelled.
- Arguments.ReadSexp1: of a text cut off by a lone backslash only the part of the answer is stated that does not depend on what the buffer held before.
- Reading.ReadExpression: what strings and escapes mean after an unmatched closing bracket is left to `Arguments.Turn`; so are unclosed strings and brackets.
- ArgumentLists.SnarfVars: does not model the gathering of a text that a lone backslash cuts off, where the source would go on reading behind the end of the text. A symbol that is not of string type, read-only symbols and notifiers are not modelled.
- ArrayVars.ParseTag: an index that is not a number is the name of a variable, whose number is an arbitrary function of that name; numbers that `atoi` cannot hold are not modelled.
- Macros.SubstituteBody: evaluating the body for `%xbody` is an arbitrary sequence of answers, because the interpreter is not modelled.
- Substitution.SubstInPagePivot: compiling and matching regular expressions is an arbitrary function with ordered offsets inside the text.
- Paths.RemoveDots: the document root and the prefix put in front of a relative path are not modelled; the loop is, on every path.
- Base64.DecodeText: does not model the length it also returns, which is rounded up to a multiple of three, nor texts with one letter more than whole groups of four, whose terminator is written outside the buffer (`Base64.TerminatorFits`).
- Base64 character tables: written as arithmetic on the alphabet, not as tables.
- Forms.UnparseItems: the pair under construction is a growable sequence; the size of its heap block is not modelled. A name is the full name of a symbol, its package and the colons included, and is parsed as one name; building it is not modelled.
- Symbol tables: they are maps from folded names, which is right for names that `Symbols.MatchIsExact` allows; rows and lists are not modelled.
- ArrayVars.Variable.SetCell: read-only variables and notifiers are not modelled.
- ArrayVars.Variable.Shift: a negative shift that leaves cells but takes more than there are after its start is not modelled; there the source frees and reads what lies behind the array.
- ArrayVars.Variable.AddValue: requires that there is room, where the source writes outside the array if there is not.
- `foreach`: its index loop runs an arbitrary body and is not modelled.
- Bindings.Exec: deleting packages, the debug level variable, notifiers and the FLAGGED mark of new symbols are not modelled; names are already translated to upper case and of 7 bits.
- Bindings.Interpreter.MhtmlLet: without a current package the source would fail; there always is one from the first variable on, and the model requires it. The page position saved beside the jump buffer and the text inserted into the page are not modelled.
- Calling a user function with a package of its own (libmhtml/parser.c:2485-2549): sets the current package without a jump handler, so that nothing is claimed about it.
- SymbolDump.AllPackages.LoadPackage: does not model streams that end inside a record, where the source goes on with stale bytes, nor packages without a name or with a name made of carats.
- SymbolFormat.SymRoundTrip: symbols with machine code are not modelled. The block of a binary symbol is read but never attached to the symbol, so for those only the position in the stream is claimed.
- SymbolDump.DumpAll: the file and the search for a package by its name are not modelled.
- SymbolDump.DumpAndLoad: requires names of less than 256 bytes, longer ones do not survive (`SymbolFormat.ShortRoundTrip`), and the names of packages that `AllPackages.LoadPackage` requires.
- SymbolDump.WriteSymbol: a value that is a null pointer inside a value list, which the source would dereference, is not modelled.
- Sessions.SessionBegin: locking is left to `SessionLock`; every lock and open succeeds in the sequential properties. The identifier made up from process and random numbers is a parameter, and so are all clocks.
- Sessions.Database: the order of keys and where new ones go is that of a list, not of GDBM; the packed text of a record is not modelled, and neither are encryption and sessions over TCP.
- SessionLock.CallsAreSerialisable: a call whose lock file, lock or database cannot be opened leaves no trace and is not in the history.
- Locks that remove or rename their file (libmhtml/sessionfuncs.c:331-343, libmhtml/dbfuncs.c:185-212): they do not exclude one another.
- The page interpreter, servers, streams, modules, documentation tables and number formatting.

# OwnWrapperCpp core, modelled in Dafny

This project models the parts of OwnWrapperCpp that hold state or logic of their own. The rest of the repository wraps a library call.

- **Configuration navigators.** There are four. QtTomlParser and CTomlParser work on a TOML table tree. QtJsonParser and CJsonParser work on JSON objects. Each keeps a stack of entered tables or objects. The operations are load, enter (`into`), leave (`outof`), dotted lookup, typed getters, setters, write-back and save.
- **QtSimpleLogger.** It formats messages by placeholder substitution. It rotates a log file into numbered backups once the file reaches its size limit. This holds both for the logger object and for the process-wide system log.
- **QtDelayStateChecker.** This is a debounce. The state follows the check function's result only after the two have disagreed for longer than the delay.
- **QtDownloader.** The model covers:
  - the bookkeeping of one transfer at a time: start codes, sinks, the save file, delivery of data and the finish signal;
  - the byte-unit choice;
  - the file name taken from a Content-Disposition header.

Modelling choices:

- Trees and stacks are values. A TOML table is a `map<string, Node>`. A pointer into the tree is the key path from the root.
- Objects whose fields change are classes with `modifies` clauses. Each method is proved against a function of the old state.
- The file system is a map from names to byte sequences.
- These are parameters: clocks, parsers and renderers, encoders, whether a file can be opened, and the validity of a URL.

Files:
- `wrappers.dfy`: Option.
- `text.dfy`: the string operations used by the wrappers.
- `toml_tree.dfy`: the TOML tree, dotted lookup and insertion, and navigation stacks.
- `qt_toml_parser.dfy`, `c_toml_parser.dfy`, `qt_json_parser.dfy`, `c_json_parser.dfy`: the four navigators.
- `simple_logger.dfy`, `delay_state_checker.dfy`, `downloader.dfy`.

## Model

| member | source | states |
|---|---|---|
| Text.SplitJoin | QtWrapperCpp/QtTomlParser/qttomlparser.cpp:235 | splitting a dot-joined key with empty parts skipped gives back its parts |
| Text.SplitSkipEmpty | WrapperCpp/CTomlParser/CTomlParser.h:14-15 | the parts of a split are non-empty and hold no separator |
| Text.SplitEmptyIff | QtWrapperCpp/QtTomlParser/qttomlparser.cpp:235-238 | a key has no parts exactly when it consists of dots only |
| Text.DecimalRoundTrip | WrapperCpp/CJsonParser/CJsonParser.cpp:199-205 | the decimal text of an integer parses back to that integer |
| Text.DecimalInjective | QtWrapperCpp/QtSimpleLogger/qtsimplelogger.cpp:221-222 | distinct numbers have distinct decimal texts |
| Text.IndexOf | QtWrapperCpp/QtDownloader/qtdownloader.cpp:147 | -1 exactly when the pattern is absent; otherwise a position where it occurs, with no earlier occurrence |
| Text.LastSegment | QtWrapperCpp/QtDownloader/qtdownloader.cpp:151-153 | the file name of a path is its suffix after the last '/' and holds no '/' |
| Text.BaseAndSuffixOf | QtWrapperCpp/QtSimpleLogger/qtsimplelogger.cpp:213-215 | cutting "<base>.<suffix>" at its last dot gives back complete base name and suffix |
| Text.ReplaceAbsent | QtWrapperCpp/QtSimpleLogger/qtsimplelogger.cpp:199-206 | replacing a placeholder that does not occur leaves the text unchanged |
| Text.ReplaceWhole | QtWrapperCpp/QtSimpleLogger/qtsimplelogger.cpp:199-206 | replacing inside a text that is exactly the placeholder yields the replacement |
| TomlTree.FindDotted | QtWrapperCpp/QtTomlParser/qttomlparser.cpp:232-250 | the lookup loop returns the dotted lookup: descend through tables for all parts but the last, then read the last |
| TomlTree.LookupIsTableAt | QtWrapperCpp/QtTomlParser/qttomlparser.cpp:240-249 | a dotted lookup is the last part's entry in the table reached along the other parts, none if a step is not a table |
| TomlTree.InsertDotted | QtWrapperCpp/QtTomlParser/qttomlparser.h:66-84 | the insertion loop computes the dotted insertion: missing or non-table steps become empty tables, the last part is inserted or overwritten |
| TomlTree.SetThenLookup | QtWrapperCpp/QtTomlParser/qttomlparser.h:66-84 | after setting a dotted key, looking it up yields the value |
| TomlTree.SetKeepsSiblings | QtWrapperCpp/QtTomlParser/qttomlparser.h:74-84 | keys other than the first part are neither added, removed nor changed |
| TomlTree.SetOverwritesScalar | QtWrapperCpp/QtTomlParser/qttomlparser.h:77-79 | an intermediate entry that is missing or not a table is replaced by a new table, losing its old value |
| TomlTree.SetKeepsOtherKeys | QtWrapperCpp/QtTomlParser/qttomlparser.h:74-84 | a dotted key that diverges from the inserted one below an existing table reads the same after the insertion |
| TomlTree.PushResolved | QtWrapperCpp/QtTomlParser/qttomlparser.cpp:115-121 | pushing a path that extends the top entry and names a table keeps the stack nested and every entry naming a table |
| TomlTree.ReplaceTopKeepsStack | QtWrapperCpp/QtTomlParser/qttomlparser.h:66-84 | writing through the current table keeps every stack entry naming a table |
| TomlTree.TopPath | QtWrapperCpp/QtTomlParser/qttomlparser.cpp:333-337 | the current table is the top entry, or the root when the stack is empty |
| QtToml.ConvertMember | QtWrapperCpp/QtTomlParser/qttomlparser.cpp:45-77 | a JSON member is dropped exactly when it is null |
| QtToml.ConvertItem | QtWrapperCpp/QtTomlParser/qttomlparser.cpp:55-68 | an array item is dropped exactly when it is null or an array |
| QtToml.ConvertObject | QtWrapperCpp/QtTomlParser/qttomlparser.cpp:38-79 | the converted table's keys are exactly the non-null members |
| QtToml.ConvertJsonToToml | QtWrapperCpp/QtTomlParser/qttomlparser.cpp:38-79 | the member loop builds the converted table |
| QtToml.ConvertArray | QtWrapperCpp/QtTomlParser/qttomlparser.cpp:51-71 | the item loop builds the converted array, in order |
| QtToml.ConvertRoundTrip | QtWrapperCpp/QtTomlParser/qttomlparser.cpp:38-79 | a JSON value without nulls or nested arrays, converted and read back, is itself |
| QtToml.ConvertDropsNull | QtWrapperCpp/QtTomlParser/qttomlparser.cpp:41-78 | a member vanishes iff null; otherwise it is stored converted |
| QtToml.ConvertItemsDrop | QtWrapperCpp/QtTomlParser/qttomlparser.cpp:54-69 | null and array items are skipped, others appended in order |
| QtToml.ConvertItemsKeep | QtWrapperCpp/QtTomlParser/qttomlparser.cpp:54-69 | every item of a keepable array survives, in place |
| QtToml.JsonToToml | QtWrapperCpp/QtTomlParser/qttomlparser.cpp:23-36 | "" unless the text is a JSON object; otherwise the rendering of its conversion |
| QtToml.TruncateTowardZero | QtWrapperCpp/QtTomlParser/qttomlparser.cpp:148 | the double-to-integer cast truncates toward zero |
| QtToml.PushesResolve | QtWrapperCpp/QtTomlParser/qttomlparser.cpp:115-121 | the entries `into` pushes name nested tables of the root |
| QtToml.QtTomlParser.constructor | QtWrapperCpp/QtTomlParser/qttomlparser.cpp:81-82 | an empty root and an empty stack |
| QtToml.QtTomlParser.CurTable | QtWrapperCpp/QtTomlParser/qttomlparser.cpp:333-337 | the current table is the one at the top path, the root with an empty stack |
| QtToml.QtTomlParser.LoadText | QtWrapperCpp/QtTomlParser/qttomlparser.cpp:96-108 | parse failure changes nothing; success replaces the root, clears the file name and cuts the stack to at most one entry, which is then stale |
| QtToml.QtTomlParser.LoadFile | QtWrapperCpp/QtTomlParser/qttomlparser.cpp:84-94 | an unreadable file fails with nothing changed; otherwise as LoadText, remembering the name on success |
| QtToml.QtTomlParser.Into | QtWrapperCpp/QtTomlParser/qttomlparser.cpp:110-123 | one entry pushed per part naming a table; true iff all parts do, and then the current table is the one at the dotted path |
| QtToml.QtTomlParser.Outof | QtWrapperCpp/QtTomlParser/qttomlparser.cpp:125-129 | pops one entry, nothing on an empty stack |
| QtToml.QtTomlParser.GetNode | QtWrapperCpp/QtTomlParser/qttomlparser.cpp:232-250 | none for a key without parts; otherwise the last part's entry in the table along the other parts |
| QtToml.QtTomlParser.GetBool | QtWrapperCpp/QtTomlParser/qttomlparser.cpp:131-137 | the boolean at the key, the default for anything else |
| QtToml.QtTomlParser.GetInt | QtWrapperCpp/QtTomlParser/qttomlparser.cpp:139-154 | integer as is, float truncated toward zero, decimal string parsed, default otherwise |
| QtToml.QtTomlParser.GetString | QtWrapperCpp/QtTomlParser/qttomlparser.cpp:173-180 | the string at the key, the default for anything else |
| QtToml.QtTomlParser.GetTable | QtWrapperCpp/QtTomlParser/qttomlparser.cpp:216-222 | some table iff the key names a table, and it is that table |
| QtToml.QtTomlParser.GetArray | QtWrapperCpp/QtTomlParser/qttomlparser.cpp:224-230 | some array iff the key names an array, and it is that array |
| QtToml.QtTomlParser.SetValue | QtWrapperCpp/QtTomlParser/qttomlparser.h:66-84 | the dotted insertion applied to the current table, written through to the root; the stack still names tables and the key reads back as the value |
| TomlTree.SaveTarget | QtWrapperCpp/QtTomlParser/qttomlparser.cpp:308-324 | a save writes iff the current table is non-empty and a name is given or remembered, the argument winning; CTomlParser.cpp:213-229 makes the same choice |
| QtToml.SetThenGetInt | QtWrapperCpp/QtTomlParser/qttomlparser.cpp:139-154 | an integer set as integer or as decimal text reads back through getInt |
| TomlTree.KeptByLoad | QtWrapperCpp/QtTomlParser/qttomlparser.cpp:102-103 | a load keeps at most the bottom entry of the stack, and keeps it whenever the stack is not empty |
| QtToml.LoadKeepsStaleEntry | QtWrapperCpp/QtTomlParser/qttomlparser.cpp:96-108 | on a parser at the root, `into("a")` then a successful load leaves the stack ["a"], stale, and naming no table when the new root has no "a" |
| QtToml.QtTomlParser.LoadTextResetting | QtWrapperCpp/QtTomlParser/qttomlparser.cpp:96-108 | corrected load: the stack is emptied and the current table is the new root |
| CToml.TomlToJson | WrapperCpp/CTomlParser/CTomlParser.cpp:6-16 | "" when the parse throws, otherwise the JSON rendering of the table |
| CToml.DottedKeyNotLiteral | WrapperCpp/CTomlParser/CTomlParser.cpp:153-161 | a dotted key set through the setter is not found under the same literal key |
| CToml.SetAB | WrapperCpp/CTomlParser/CTomlParser.h:61-81 | setting "a.b" creates table "a" holding "b" and no key "a.b" |
| Text.LiteralKeyParts | WrapperCpp/CTomlParser/CTomlParser.h:64 | a non-empty key without separators splits into itself |
| CToml.CTomlParser.CurTable | WrapperCpp/CTomlParser/CTomlParser.cpp:238-242 | the current table is the one at the top path, the root with an empty stack |
| CToml.CTomlParser.constructor | WrapperCpp/CTomlParser/CTomlParser.h:55-57 | an empty root table, an empty stack and no file name |
| CToml.CTomlParser.Reload | WrapperCpp/CTomlParser/CTomlParser.cpp:21-24 | root replaced, file name set, stack cut to at most one entry |
| CToml.CTomlParser.LoadFile | WrapperCpp/CTomlParser/CTomlParser.cpp:18-29 | a throwing read changes nothing; success replaces the root, remembers the name and cuts the stack to one entry |
| CToml.CTomlParser.LoadFileResetting | WrapperCpp/CTomlParser/CTomlParser.cpp:18-29 | corrected load: on success the stack is emptied and the current table is the new root |
| CToml.LoadKeepsStaleEntry | WrapperCpp/CTomlParser/CTomlParser.cpp:18-29 | on a parser at the root, `into("a")` then a successful file load leaves the stack ["a"], stale, and naming no table when the new root has no "a" |
| CToml.CTomlParser.LoadText | WrapperCpp/CTomlParser/CTomlParser.cpp:31-42 | as LoadFile, with the file name cleared |
| CToml.CTomlParser.Into | WrapperCpp/CTomlParser/CTomlParser.cpp:44-55 | true iff the current table holds a table under the literal key; then exactly that table is pushed |
| CToml.CTomlParser.Outof | WrapperCpp/CTomlParser/CTomlParser.cpp:57-61 | pops one entry, nothing on an empty stack |
| CToml.CTomlParser.GetNode | WrapperCpp/CTomlParser/CTomlParser.cpp:153-161 | the entry under the literal key, with no dot splitting |
| CToml.CTomlParser.GetTable | WrapperCpp/CTomlParser/CTomlParser.cpp:137-143 | some table iff the key holds a table, and it is that table |
| CToml.CTomlParser.GetArray | WrapperCpp/CTomlParser/CTomlParser.cpp:145-151 | some array iff the key holds an array, and it is that array |
| CToml.CTomlParser.GetBool | WrapperCpp/CTomlParser/CTomlParser.cpp:63-71 | the boolean at the key |
| CToml.CTomlParser.GetInt | WrapperCpp/CTomlParser/CTomlParser.cpp:73-81 | as written: defined only on booleans, giving 1 for true and 0 for false |
| CToml.CTomlParser.GetIntChecked | WrapperCpp/CTomlParser/CTomlParser.cpp:73-81 | corrected: the integer at the key |
| CToml.SetIntThenGetInt | WrapperCpp/CTomlParser/CTomlParser.cpp:168-171 | an integer set under a key without dots reads back through the corrected getter |
| CToml.CTomlParser.GetString | WrapperCpp/CTomlParser/CTomlParser.cpp:93-102 | the string at the key |
| CToml.CTomlParser.SetValue | WrapperCpp/CTomlParser/CTomlParser.h:61-81 | the dotted insertion on the current table, written through to the root; the key reads back as the value |
| QtJson.TextToObject | QtWrapperCpp/QtJsonParser/qtjsonparser.cpp:19-27 | the parsed object, the empty object on an error or a non-object |
| QtJson.GetValue | QtWrapperCpp/QtJsonParser/qtjsonparser.cpp:91-103 | the top object's member, the default with no frame or no member |
| QtJson.GetBool | QtWrapperCpp/QtJsonParser/qtjsonparser.cpp:105-111 | the member's boolean, the default otherwise |
| QtJson.GetInt | QtWrapperCpp/QtJsonParser/qtjsonparser.cpp:113-119 | an integral number in 32-bit range, the default otherwise |
| QtJson.GetString | QtWrapperCpp/QtJsonParser/qtjsonparser.cpp:129-135 | the member's string, the default otherwise |
| QtJson.GetArray | QtWrapperCpp/QtJsonParser/qtjsonparser.cpp:137-143 | the member's array, the default otherwise |
| QtJson.WrittenBackAt | QtWrapperCpp/QtJsonParser/qtjsonparser.cpp:209-215 | write-back keeps frame count, keys and top; each lower object gets its child's written-back object under the child's key |
| QtJson.WrittenBackReachesTop | QtWrapperCpp/QtJsonParser/qtjsonparser.cpp:209-215 | after write-back the root leads along the entry keys to the top object |
| QtJson.IntoThenOutof | QtWrapperCpp/QtJsonParser/qtjsonparser.cpp:64-89 | the frame pushed holds the current object; leaving stores that copy under the key |
| QtJson.IntoKeepsParent | QtWrapperCpp/QtJsonParser/qtjsonparser.cpp:77 | entering "a" of {"a": {"x": true}} does not see "x", and leaving changes the root |
| QtJson.AfterIntoChild | QtWrapperCpp/QtJsonParser/qtjsonparser.cpp:64-79 | corrected entry succeeds exactly when the as-written one does |
| QtJson.IntoChildThenOutof | QtWrapperCpp/QtJsonParser/qtjsonparser.cpp:64-89 | corrected entry reads the member's members, and leaving restores the frames |
| QtJson.IntoFailsIff | QtWrapperCpp/QtJsonParser/qtjsonparser.cpp:64-79 | entering fails, unchanged, iff no frame, empty object, missing key or non-object member |
| QtJson.SetThenGet | QtWrapperCpp/QtJsonParser/qtjsonparser.cpp:145-155 | a set member reads back as the value |
| QtJson.OutofCount | QtWrapperCpp/QtJsonParser/qtjsonparser.cpp:80-89 | leaving removes one frame when there are two or more |
| QtJson.SaveName | QtWrapperCpp/QtJsonParser/qtjsonparser.cpp:185-191 | the name is the argument or the first key, none when both are empty or the root is empty |
| QtJson.WriteBackStep | QtWrapperCpp/QtJsonParser/qtjsonparser.cpp:211-214 | one loop step extends the written-back prefix |
| QtJson.QtJsonParser.LoadFile | QtWrapperCpp/QtJsonParser/qtjsonparser.cpp:38-52 | clears the frames; a readable non-empty object becomes the one frame keyed by the file name |
| QtJson.QtJsonParser.constructor | QtWrapperCpp/QtJsonParser/qtjsonparser.h:75 | an empty frame list |
| QtJson.QtJsonParser.LoadText | QtWrapperCpp/QtJsonParser/qtjsonparser.cpp:54-62 | a non-empty object is pushed on top of the frames |
| QtJson.QtJsonParser.Into | QtWrapperCpp/QtJsonParser/qtjsonparser.cpp:64-79 | the entry of the navigation list as written |
| QtJson.QtJsonParser.Outof | QtWrapperCpp/QtJsonParser/qtjsonparser.cpp:80-89 | pops the top frame into the frame below |
| QtJson.QtJsonParser.SetValue | QtWrapperCpp/QtJsonParser/qtjsonparser.cpp:145-155 | sets the member in the top object, creating a root frame when there is none |
| QtJson.QtJsonParser.UpdateData | QtWrapperCpp/QtJsonParser/qtjsonparser.cpp:209-215 | the loop writes every frame back into its parent |
| QtJson.QtJsonParser.SaveFile | QtWrapperCpp/QtJsonParser/qtjsonparser.cpp:181-199 | writes back first; succeeds iff a name, a non-empty root and an opened file; then the first frame is keyed by the name |
| QtJson.QtJsonParser.GetJsonString | QtWrapperCpp/QtJsonParser/qtjsonparser.cpp:201-207 | writes back, then renders the root, "" with no frame |
| CJson.IsMember | WrapperCpp/CJsonParser/CJsonParser.cpp:87 | the member test: false on null, presence on an object, throws otherwise |
| CJson.SetMember | WrapperCpp/CJsonParser/CJsonParser.cpp:184 | member assignment turns null into an object, updates an object, throws otherwise |
| CJson.GetValue | WrapperCpp/CJsonParser/CJsonParser.cpp:123-131 | the default with no frame, a null top or a missing key; the member when present; a throw exactly when the member test throws |
| CJson.GetArray | WrapperCpp/CJsonParser/CJsonParser.cpp:164-170 | the member if it is an array, the default otherwise, a throw when the member test throws |
| CJson.BoolValue | WrapperCpp/CJsonParser/CJsonParser.cpp:192-198 | "true"/"false" in string format, the boolean otherwise |
| CJson.IntValue | WrapperCpp/CJsonParser/CJsonParser.cpp:199-205 | decimal text that parses back in string format, the integer otherwise |
| CJson.ErrorIsSticky | WrapperCpp/CJsonParser/CJsonParser.cpp:73-80 | once the error string is set, every later open fails and it stays set |
| CJson.OpenStringIff | WrapperCpp/CJsonParser/CJsonParser.cpp:73-80 | the open succeeds iff the root is not null and no error is recorded, and then pushes the root |
| CJson.IntoInsertsNull | WrapperCpp/CJsonParser/CJsonParser.cpp:82-94 | entering a missing key stores a null under it, so later reads see null |
| CJson.IntoKeepsFrames | WrapperCpp/CJsonParser/CJsonParser.cpp:82-94 | entering never adds a frame; it throws iff the top is neither null nor an object |
| CJson.IntoMissesObjectMember | WrapperCpp/CJsonParser/CJsonParser.cpp:87 | entering "a" of {"a": {}} fails as written and succeeds corrected |
| CJson.AfterIntoMember | WrapperCpp/CJsonParser/CJsonParser.cpp:82-94 | corrected entry: a success never throws, a failure keeps the frames |
| CJson.IntoMemberIff | WrapperCpp/CJsonParser/CJsonParser.cpp:82-94 | corrected entry succeeds iff the top is an object holding an object member |
| CJson.IntoMemberThenOutof | WrapperCpp/CJsonParser/CJsonParser.cpp:82-104 | after corrected entry reads see the member's members, and leaving restores the frames |
| CJson.OutofWritesBack | WrapperCpp/CJsonParser/CJsonParser.cpp:96-104 | leaving pops one frame and stores it under its key in the new top |
| CJson.SetThenGet | WrapperCpp/CJsonParser/CJsonParser.cpp:172-185 | a non-null member set without a throw reads back as the value |
| CJson.SetValueGuards | WrapperCpp/CJsonParser/CJsonParser.cpp:172-185 | null is ignored; setting throws iff the top is neither null nor an object |
| CJson.SetIntStringRoundTrip | WrapperCpp/CJsonParser/CJsonParser.cpp:199-205 | an integer set in string format reads back as text that parses to it |
| CJson.SetArrayThenGetArray | WrapperCpp/CJsonParser/CJsonParser.cpp:186-191 | a set array reads back through the array getter |
| CJson.CJsonParser.OpenString | WrapperCpp/CJsonParser/CJsonParser.cpp:73-80 | the open as a function of frames, error string and reader result |
| CJson.CJsonParser.constructor | WrapperCpp/CJsonParser/CJsonParser.h:66-68 | an empty frame list and no error |
| CJson.CJsonParser.Into | WrapperCpp/CJsonParser/CJsonParser.cpp:82-94 | never succeeds; frames change as the entry function says |
| CJson.CJsonParser.Outof | WrapperCpp/CJsonParser/CJsonParser.cpp:96-104 | the leave, including its throw after the pop |
| CJson.CJsonParser.SetValue | WrapperCpp/CJsonParser/CJsonParser.cpp:172-185 | the set, including ignored nulls and throws |
| CJson.CJsonParser.SetArray | WrapperCpp/CJsonParser/CJsonParser.cpp:186-191 | non-arrays are ignored; arrays are set |
| CJson.CJsonParser.SetBool | WrapperCpp/CJsonParser/CJsonParser.cpp:192-198 | sets the boolean or its text |
| CJson.CJsonParser.SetInt | WrapperCpp/CJsonParser/CJsonParser.cpp:199-205 | sets the integer or its decimal text |
| SimpleLogger.TypeLetter | QtWrapperCpp/QtSimpleLogger/qtsimplelogger.cpp:179-196 | each type has a one-letter tag |
| SimpleLogger.TypeLetterInjective | QtWrapperCpp/QtSimpleLogger/qtsimplelogger.cpp:179-196 | the tag identifies the type |
| SimpleLogger.FormatMsg | QtWrapperCpp/QtSimpleLogger/qtsimplelogger.cpp:171-209 | every formatted message ends with a newline |
| SimpleLogger.NoBraceUnchanged | QtWrapperCpp/QtSimpleLogger/qtsimplelogger.cpp:199-206 | a text without '{' is unchanged by every placeholder replacement |
| SimpleLogger.PlainFormat | QtWrapperCpp/QtSimpleLogger/qtsimplelogger.cpp:199-207 | a format without placeholders is copied with a newline |
| SimpleLogger.MsgOnlyFormat | QtWrapperCpp/QtSimpleLogger/qtsimplelogger.cpp:199-207 | the format "{msg}" yields the message and a newline |
| SimpleLogger.MsgPlaceholderRewritten | QtWrapperCpp/QtSimpleLogger/qtsimplelogger.cpp:202-204 | a "{file}" inside the message is rewritten by the later file step |
| SimpleLogger.BackupInjective | QtWrapperCpp/QtSimpleLogger/qtsimplelogger.cpp:221-222 | distinct numbers give distinct backup names |
| SimpleLogger.LiveIsNoBackup | QtWrapperCpp/QtSimpleLogger/qtsimplelogger.cpp:228-229 | the live name is no backup name |
| SimpleLogger.ShiftSpec | QtWrapperCpp/QtSimpleLogger/qtsimplelogger.cpp:220-226 | the renaming loop moves each backup one number up, frees backup 1, touches nothing else |
| SimpleLogger.RotationShifts | QtWrapperCpp/QtSimpleLogger/qtsimplelogger.cpp:216-230 | rotation: backups move up, the live file becomes backup 1 and is gone, other files unchanged |
| SimpleLogger.RotationMovesLog | QtWrapperCpp/QtSimpleLogger/qtsimplelogger.cpp:211-230 | a log named without a directory becomes backup 1 and backup 1 becomes backup 2 |
| SimpleLogger.RotationKeepsPathsWithSlash | QtWrapperCpp/QtSimpleLogger/qtsimplelogger.cpp:213-230 | no file whose name holds '/' is touched by a rotation, names compared as strings |
| SimpleLogger.RotationIgnoresDirectory | QtWrapperCpp/QtSimpleLogger/qtsimplelogger.cpp:213-230 | for a directory other than ".", a log "<dir>/<name>" stays unrotated while a file <name> in the current directory is rotated |
| SimpleLogger.DirOf | QtWrapperCpp/QtSimpleLogger/qtsimplelogger.cpp:213 | directory part and file name put together give the path |
| SimpleLogger.RotationInDirMovesLog | QtWrapperCpp/QtSimpleLogger/qtsimplelogger.cpp:213-230 | corrected rotation: the log becomes backup 1 in its own directory and is gone |
| SimpleLogger.WriteAt | QtWrapperCpp/QtSimpleLogger/qtsimplelogger.cpp:128 | a write overwrites from the position and grows the file as needed |
| SimpleLogger.WriteAtEnd | QtWrapperCpp/QtSimpleLogger/qtsimplelogger.cpp:79 | writing at the end appends |
| SimpleLogger.OpenedFiles | QtWrapperCpp/QtSimpleLogger/qtsimplelogger.cpp:79 | opening for writing creates a missing file empty and changes nothing else |
| SimpleLogger.LogFile.Open | QtWrapperCpp/QtSimpleLogger/qtsimplelogger.cpp:79 | opening creates a missing file; in append mode the position is the end |
| SimpleLogger.LogFile.Write | QtWrapperCpp/QtSimpleLogger/qtsimplelogger.cpp:128 | writes at the end in append mode and at the position otherwise |
| SimpleLogger.LogFile.Close | QtWrapperCpp/QtSimpleLogger/qtsimplelogger.cpp:138 | the file is closed |
| SimpleLogger.ShiftBackups | QtWrapperCpp/QtSimpleLogger/qtsimplelogger.cpp:216-226 | the loop deletes backup n and shifts the others as the rotation function says |
| SimpleLogger.RotateInDirThenWrite | QtWrapperCpp/QtSimpleLogger/qtsimplelogger.cpp:211-234 | a log in a directory other than "." is not moved by the rotation and is reopened at position 0, so the next message overwrites its first bytes and its size stays the same |
| SimpleLogger.CreateNewLogFile | QtWrapperCpp/QtSimpleLogger/qtsimplelogger.cpp:211-234 | rotation then reopening without append; fails iff the reopening fails |
| SimpleLogger.QtSimpleLogger.constructor | QtWrapperCpp/QtSimpleLogger/qtsimplelogger.cpp:66-71 | closed log, default format |
| SimpleLogger.QtSimpleLogger.Close | QtWrapperCpp/QtSimpleLogger/qtsimplelogger.cpp:133-139 | the log is closed |
| SimpleLogger.QtSimpleLogger.Create | QtWrapperCpp/QtSimpleLogger/qtsimplelogger.cpp:73-86 | opens in append mode at the end, stores the limits, rotates at once when already full and then leaves the reopened log in overwrite mode at position 0 |
| SimpleLogger.QtSimpleLogger.SetFormat | QtWrapperCpp/QtSimpleLogger/qtsimplelogger.cpp:88-92 | the format is replaced |
| SimpleLogger.QtSimpleLogger.Write | QtWrapperCpp/QtSimpleLogger/qtsimplelogger.cpp:94-131 | the formatted message is written at the end or the position; rotation iff the size afterwards reaches the limit, leaving the reopened log in overwrite mode at position 0; otherwise the mode is kept |
| SimpleLogger.SystemLog.constructor | QtWrapperCpp/QtSimpleLogger/qtsimplelogger.cpp:7-12 | closed system log, default system format |
| SimpleLogger.SystemLog.CreateSystemLog | QtWrapperCpp/QtSimpleLogger/qtsimplelogger.cpp:27-48 | refused while open; otherwise opens in append mode, rotates when full (reopening in overwrite mode at position 0), installs the handler on success and closes on failure |
| SimpleLogger.SystemLog.SetSystemLogFormat | QtWrapperCpp/QtSimpleLogger/qtsimplelogger.cpp:50-54 | the system format is replaced |
| SimpleLogger.SystemLog.CloseSystemLog | QtWrapperCpp/QtSimpleLogger/qtsimplelogger.cpp:56-63 | closes and uninstalls the handler when open, nothing otherwise |
| SimpleLogger.SystemLog.OutputMessage | QtWrapperCpp/QtSimpleLogger/qtsimplelogger.cpp:14-25 | formats with the system format and the line in decimal, writes, rotates at the limit (reopening in overwrite mode at position 0), otherwise keeps the mode |
| DelayStateChecker.Step | QtWrapperCpp/QtDelayStateChecker/qtdelaystatechecker.cpp:16-37 | the state changes iff the reading disagrees and more than the delay has passed in whole milliseconds (the clock difference truncated as `duration_cast` does), and only to the reading; the timer restarts unless a disagreement is ignored |
| DelayStateChecker.ElapsedExceedsIff | QtWrapperCpp/QtDelayStateChecker/qtdelaystatechecker.cpp:21-26 | with a non-negative delay, the truncated elapsed time exceeds the delay iff at least delay + 1 full milliseconds of clock ticks have passed |
| DelayStateChecker.PartMillisecondIgnored | QtWrapperCpp/QtDelayStateChecker/qtdelaystatechecker.cpp:21-26 | with delay 100, readings at 0.9 ms and 101.5 ms measure 100 ms, so the disagreement is ignored |
| DelayStateChecker.ShortDisagreementIgnored | QtWrapperCpp/QtDelayStateChecker/qtdelaystatechecker.cpp:25-32 | disagreeing readings within the delay leave state and timer alone |
| DelayStateChecker.RunStateIsReading | QtWrapperCpp/QtDelayStateChecker/qtdelaystatechecker.cpp:25-32 | every state reached is the initial state or one of the readings |
| DelayStateChecker.SwitchAfterDelay | QtWrapperCpp/QtDelayStateChecker/qtdelaystatechecker.cpp:25-32 | a reading after the delay switches the state, after an ignored one |
| DelayStateChecker.QtDelayStateChecker.constructor | QtWrapperCpp/QtDelayStateChecker/qtdelaystatechecker.cpp:4-5 | state 0, delay 0, timer started |
| DelayStateChecker.QtDelayStateChecker.SetCheckFunc | QtWrapperCpp/QtDelayStateChecker/qtdelaystatechecker.cpp:7-14 | functions set, timer restarted |
| DelayStateChecker.QtDelayStateChecker.UpdateData | QtWrapperCpp/QtDelayStateChecker/qtdelaystatechecker.cpp:16-37 | nothing without a check function; otherwise one step, with the callback called iff the state changed |
| DelayStateChecker.QtDelayStateChecker.SetDelayTime | QtWrapperCpp/QtDelayStateChecker/qtdelaystatechecker.cpp:39-43 | delay set, timer restarted |
| DelayStateChecker.QtDelayStateChecker.SetState | QtWrapperCpp/QtDelayStateChecker/qtdelaystatechecker.cpp:45-49 | state forced without the callback, timer restarted |
| Downloader.TransformUnit | QtWrapperCpp/QtDownloader/qtdownloader.cpp:163-190 | non-positive sizes show 0 B; otherwise value times unit is the size |
| Downloader.TransformUnitInRange | QtWrapperCpp/QtDownloader/qtdownloader.cpp:163-190 | away from 1024³ the value shown lies in [1, 1024) above B |
| Downloader.TransformUnitAtGiB | QtWrapperCpp/QtDownloader/qtdownloader.cpp:183-187 | exactly 1024³ is shown unscaled in B |
| Downloader.TransformUnitFixed | QtWrapperCpp/QtDownloader/qtdownloader.cpp:163-190 | corrected: value times unit is the size |
| Downloader.TransformUnitFixedInRange | QtWrapperCpp/QtDownloader/qtdownloader.cpp:163-190 | corrected: value in [1, 1024) above B, agreeing with the original except at 1024³, which is 1 GB |
| Downloader.FileNameFrom | QtWrapperCpp/QtDownloader/qtdownloader.cpp:146-154 | as written: the text after the marker; without the marker the text from position 8; none (the undefined fallback) when that text is empty |
| Downloader.FileNameWithoutMarker | QtWrapperCpp/QtDownloader/qtdownloader.cpp:147-148 | the header "attachment" gives the name "nt" |
| Downloader.NoHeaderReachesFallback | QtWrapperCpp/QtDownloader/qtdownloader.cpp:149-153 | a reply without the header reaches the undefined fallback |
| Downloader.FileNameFromCheckedSpec | QtWrapperCpp/QtDownloader/qtdownloader.cpp:146-154 | corrected: the text after the marker or the URL's file name; it takes the URL's file name wherever the original is undefined and agrees with the original when the marker is present and the original is defined |
| Downloader.QtDownloader.constructor | QtWrapperCpp/QtDownloader/qtdownloader.cpp:12-17 | idle, no save file |
| Downloader.QtDownloader.IsDownloading | QtWrapperCpp/QtDownloader/qtdownloader.cpp:79-83 | true iff a reply is in flight |
| Downloader.QtDownloader.Start | QtWrapperCpp/QtDownloader/qtdownloader.cpp:37-77 | -1 busy, -2 invalid URL, both changing nothing; else 0 with the request submitted and the counter reset |
| Downloader.QtDownloader.CloseFile | QtWrapperCpp/QtDownloader/qtdownloader.cpp:192-199 | the save file is closed and forgotten |
| Downloader.QtDownloader.StartFile | QtWrapperCpp/QtDownloader/qtdownloader.cpp:24-35 | -3 when the file cannot be opened; otherwise truncates it and starts, closing it on any refusal |
| Downloader.QtDownloader.Deliver | QtWrapperCpp/QtDownloader/qtdownloader.cpp:30-31 | a callback receives the data; an open save file has it appended |
| Downloader.QtDownloader.ReadyRead | QtWrapperCpp/QtDownloader/qtdownloader.cpp:60-64 | the available bytes go to the sink |
| Downloader.QtDownloader.Finished | QtWrapperCpp/QtDownloader/qtdownloader.cpp:49-59 | the rest is delivered only without error; reply dropped, file closed, finish signalled once with the error |
| Downloader.QtDownloader.Stop | QtWrapperCpp/QtDownloader/qtdownloader.cpp:85-91 | nothing when idle; otherwise finishes with the cancellation error and delivers nothing |
| Downloader.DownloadToFile | QtWrapperCpp/QtDownloader/qtdownloader.cpp:24-64 | a successful file download leaves the file holding all data in order, and the downloader idle |
| Downloader.BusyStartDetachesFile | QtWrapperCpp/QtDownloader/qtdownloader.cpp:24-35 | a file start refused as busy leaves the running transfer with no save file |
| Downloader.StartFileChecked | QtWrapperCpp/QtDownloader/qtdownloader.cpp:24-35 | corrected: a busy start returns -1 and leaves the running transfer's file alone |

## Left out

- Floating point: TOML floats and JSON numbers are exact reals. The float getters are not modelled (getFloat, getDouble, CJson GetDouble). Neither are the two-decimal rendering of `transformUnit`, nor the progress percentage and speed of the downloader.
- Dates, times and date-times: they are an opaque TOML node; their getters and setters are not modelled.
- The network transport is not modelled: requests, the HEAD probe of getFileInfo with its timeout, the progress signal and the event loops. Its events (ready-read, finished) are method calls. The blocking wait inside `stop` is taken as the immediate processing of the finished event.
- Mutexes and atomics: every operation is one atomic step.
- File contents, parsing and rendering are parameters: TOML/JSON text, jsoncpp's reader, `toLocal8Bit`, `QUrl` validity, whether a file can be opened. So are the clock and the thread id.
- QtToml.QtTomlParser.GetInt: a string node is read only when it spells a decimal integer exactly. `std::stoll`'s prefix parsing and its exceptions on other text are not modelled, nor the 64-bit range: `std::stoll` throws `out_of_range` on long digit strings and toml++ integers are 64-bit, while the model's integers are unbounded, so QtToml.SetThenGetInt holds only for integers in that range in the source.
- CToml.CTomlParser.GetBool, CToml.CTomlParser.GetInt and CToml.CTomlParser.GetString require a node of the type they read. On any other key they dereference a null pointer, which no catch handles. The float and date getters are left out for the same reason.
- CJson UpdateData: its loop steps a reverse iterator past the last frame on its first turn, which is undefined for any non-empty list. It is not modelled, and so neither are SaveFile and GetJsonString, which call it. OpenFile, SaveJson, GetErrorInfo and the jsoncpp conversions behind GetBool, GetInt and GetString are not modelled either.
- QtJson: jsonToText and textToJsonArray are parameters, and the typed setters are SetValue with a typed value. setDouble is omitted as floating point.
- QtToml and CToml: the typed setters are SetValue with a typed node. getTomlString is a rendering, and saveFile writes the rendering of the root (TomlTree.SaveTarget models its choice of file).
- QtToml.QtTomlParser.CurTable, QtToml.QtTomlParser.Into, QtToml.QtTomlParser.GetNode, QtToml.QtTomlParser.GetBool, QtToml.QtTomlParser.GetInt, QtToml.QtTomlParser.GetString, QtToml.QtTomlParser.GetTable, QtToml.QtTomlParser.GetArray and QtToml.QtTomlParser.SetValue require a stack that is not stale. After a load that kept an entry, the source reads and writes through a pointer into the destroyed old tree, which is undefined; the model gives those calls no meaning.
- CToml.CTomlParser.CurTable, CToml.CTomlParser.Into, CToml.CTomlParser.GetNode, CToml.CTomlParser.GetBool, CToml.CTomlParser.GetInt, CToml.CTomlParser.GetIntChecked, CToml.CTomlParser.GetString, CToml.CTomlParser.GetTable, CToml.CTomlParser.GetArray and CToml.CTomlParser.SetValue require a stack that is not stale, for the same reason.
- Downloader.FileNameFrom: when the header yields an empty name, the source declares `QUrl url(url)`, which copies the new object from itself; the result is undefined, so the model returns None there instead of a name.
- SimpleLogger.RotationKeepsPathsWithSlash: file names are compared as strings, with no path resolution. The lemma therefore holds of the source only for names that do not resolve into the working directory. A name such as "./app.log" or an absolute path into the working directory is the same file as "app.log" on disk, and the source does rotate it.
- SimpleLogger.RotationIgnoresDirectory: requires `dir != "."` and holds of the source only for a directory other than the working one. An absolute path to the working directory is one string among others in the model, so the lemma's claim that the log stays unrotated does not hold of the source for it.
- SimpleLogger.RotateInDirThenWrite: requires `dir != "."` and holds only for a directory other than the working one. A log in the working directory, reached through any path, is really rotated and reopened empty, as SimpleLogger.RotationMovesLog states for a name without a directory.
- Downloader.QtDownloader.Deliver, Downloader.QtDownloader.ReadyRead and Downloader.QtDownloader.Finished require a save file whenever the sink is the save file. A start refused as busy clears the running transfer's save file (Downloader.BusyStartDetachesFile). The next ready-read, or a finish without error, then writes through the null `m_saveFile` pointer (qtdownloader.cpp:30-31). That write is undefined, so the model gives those calls no meaning.
- SimpleLogger.QtSimpleLogger.Write: without an open log the message goes to Qt's own message logger, which is not modelled; a fatal message would abort the process there.
- The debug, info, warning, critical and fatal methods of the logger are Write with the message type as a parameter.
- Backup names are built with chained `QString::arg`. A '%' followed by digits in a base name would be substituted again; this is not modelled.
- A log name without a suffix: its rebuilt live name ends with '.', so the live file is not renamed. The model computes this but proves nothing about it.
- The delay checker's clock counts nanoseconds (DelayStateChecker.TicksPerMs). `steady_clock`'s tick length is implementation-defined; nanoseconds are what the common standard libraries use.
- DelayStateChecker.QtDelayStateChecker.UpdateData: the timer restart after the callback reads the clock a second time. The model takes both readings as the same instant. The callback itself is recorded as the list of states it was called with.

## Findings

| source | as written | input that shows it | evidently intended | confidence | as-written member | corrected member |
|---|---|---|---|---|---|---|
| QtWrapperCpp/QtTomlParser/qttomlparser.cpp:102-103 | loading pops the navigation stack while it holds more than one entry, so one pointer into the old tree is left behind | `into("a")`, then `loadText` of any document: the current table is the freed old table "a" | the stack is emptied, so the current table is the new root | not executed | QtToml.LoadKeepsStaleEntry | QtToml.QtTomlParser.LoadTextResetting |
| QtWrapperCpp/QtDownloader/qtdownloader.cpp:183-187 | the GB branch tests `size > 1024³`, while the smaller units go by their range | exactly 1073741824 bytes is shown as "1073741824.00 B" | 1024³ bytes is shown as "1.00 GB" | not executed | Downloader.TransformUnitAtGiB | Downloader.TransformUnitFixedInRange |
| QtWrapperCpp/QtJsonParser/qtjsonparser.cpp:77 | `into` pushes a frame holding the current object, not the member it entered | `{"a": {"x": true}}`, `into("a")`, then `getBool("x")` gives the default; `outof` stores the whole parent under "a" | the frame holds the member object | not executed | QtJson.IntoKeepsParent | QtJson.IntoChildThenOutof |
| QtWrapperCpp/QtSimpleLogger/qtsimplelogger.cpp:213-230 | backup names are built from `completeBaseName` and `suffix` alone, dropping the directory | a log "logs/app.log": the rotation renames "app.log" in the working directory and leaves "logs/app.log" in place; it is reopened at position 0, so each later message overwrites the start of "logs/app.log" and every write rotates again | the backups sit beside the log, in its directory | not executed | SimpleLogger.RotationIgnoresDirectory, SimpleLogger.RotateInDirThenWrite | SimpleLogger.RotationInDirMovesLog |
| QtWrapperCpp/QtDownloader/qtdownloader.cpp:147-148 | a header without "filename=" gives `indexOf` -1, and the name is taken from position -1 + 9 = 8 | the header "attachment" gives the file name "nt" | without the marker, the name comes from the URL | not executed | Downloader.FileNameWithoutMarker | Downloader.FileNameFromCheckedSpec |
| QtWrapperCpp/QtDownloader/qtdownloader.cpp:24-35 | `start(url, saveFile)` puts its new file in the downloader's one save-file slot before the busy test, and a refused start then closes and clears that slot, so the running transfer's next chunk is written through a null pointer | a second file download started while one runs: the running transfer's save-file pointer is cleared, and its next chunk is written through that null pointer | a refused start leaves the running transfer alone | not executed | Downloader.BusyStartDetachesFile | Downloader.StartFileChecked |
| WrapperCpp/CJsonParser/CJsonParser.cpp:87 | `Into` gives up when the key is a member, and otherwise enters `obj[key]`, which inserts a null | `{"a": {}}` and `Into("a")` fail; `Into("b")` stores `"b": null` and still fails | enter an existing object member and fail on a missing one | not executed | CJson.IntoMissesObjectMember | CJson.IntoMemberThenOutof |
| WrapperCpp/CTomlParser/CTomlParser.cpp:77 | `getInt` reads the node with `as_boolean()` | a key holding the integer 7: `as_boolean()` is null and is dereferenced; a key holding true gives 1 | the node is read with `as_integer()` | not executed | CToml.CTomlParser.GetInt | CToml.SetIntThenGetInt |
| WrapperCpp/CTomlParser/CTomlParser.cpp:23-24 | loading pops the navigation stack while it holds more than one entry, so one pointer into the old tree is left behind (also at lines 37-38) | `into("a")`, then `loadFile` of any document: the current table is the destroyed old table "a" | the stack is emptied, so the current table is the new root | not executed | CToml.LoadKeepsStaleEntry | CToml.CTomlParser.LoadFileResetting |
| QtWrapperCpp/QtDownloader/qtdownloader.cpp:151 | `QUrl url(url);` declares a new `url` and initialises it from itself, not from the parameter | a reply without a Content-Disposition header: `mid(8)` of "" is empty and the undefined fallback runs | the file name of the requested URL's path | not executed | Downloader.NoHeaderReachesFallback | Downloader.FileNameFromCheckedSpec |

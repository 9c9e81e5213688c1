# Leaderboard record store

A model of the C# `ScoreSaver` component that is embedded, as a code sample, in
`components/game-manual.tsx`. The component keeps a game's best times in a
singly linked list of `RecordNode`s. The list is ordered by time, best first.
It is loaded from a `records.txt` file when the component wakes up. A new
record is inserted in order when the player presses "Guardar", and then the
whole list is written back to the file.

The model has seven modules:

- `Wrappers`: `Option`.
- `Text`: the pieces of the .NET string library the component uses:
  - `char.IsWhiteSpace` and `string.IsNullOrWhiteSpace`;
  - `string.Trim`;
  - `string.Split(char)`, which keeps empty pieces.
- `IntParse`: `int.TryParse` with the default integer style:
  - surrounding whitespace U+0009–U+000D and U+0020 is allowed;
  - an optional sign;
  - ASCII digits only;
  - the result must fit the `Int32` range.
- `TimeCodec`: `ParseTimeToSeconds`. Here `min * 60 + sec` wraps around to 32 bits, as unchecked C# arithmetic does.
- `Records`: the record value, the sorted order, and sorted insertion on values (`InsertionPoint`, `Insert`). These are the specification of `InsertarOrdenado`.
- `RecordFile`: the file as a sequence of lines:
  - how one line becomes a record when loading (`ParseLine`);
  - how a record is written when saving (`FormatLine`);
  - what loading a whole file yields (`LoadLines`).
- `Leaderboard`: the two classes. `RecordNode` has an assignable `next`. `ScoreSaver` has the `head` reference and the `file` it reads and writes. Its methods are proved against the value-level functions above:
  - `InsertSorted` is `InsertarOrdenado`;
  - `LoadFromFile` is `CargarRecordsDesdeArchivo`;
  - `SaveListToFile` is `GuardarListaEnArchivo`;
  - `SaveRecord` is `GuardarRecord`;
  - the constructor is `Awake`.

  The list's ghost spine `nodes` and its records `Contents` are tied to the heap by `Valid()`. `Valid()` says that:
  - `head` starts a chain along `next` through every node;
  - the chain ends in `null`;
  - no node repeats, so the chain is acyclic;
  - the records are sorted by time.

Three behaviours of the code are kept as written:

- `GuardarRecord` stores the name as typed, without trimming (components/game-manual.tsx:86-88). Only a missing or all-white-space name is replaced by "SinNombre". Surrounding spaces and ';' in a name are saved as typed, and they change the record on reload (`RecordFile.ParseFormatLine`, `RecordFile.SemicolonNameSplits`).
- The sort key may be negative, for example for "-1:30" or "-5", because `int.TryParse` accepts a sign (components/game-manual.tsx:128, :136).
- A line with more than one ';' contributes only its first two fields; the rest of the line is ignored (components/game-manual.tsx:190-195).

## Model

| member | source | states |
|---|---|---|
| Text.Trim | components/game-manual.tsx:194-195 | The trimmed field has no white space at either end. It is empty exactly when the field is blank. A field that is already trimmed comes back unchanged. |
| Text.TrimCutsEnds | components/game-manual.tsx:194-195 | The trimmed field is a contiguous slice `s[a..b]` of the field, and everything before `a` and from `b` on is white space. |
| Text.StripKeeps | components/game-manual.tsx:194-195 | Every character that is not white space is still in the trimmed field, no character is added, and the result is empty exactly when every character is white space. |
| Text.Split | components/game-manual.tsx:190 | Splitting on ';' gives at least one piece. No piece contains the separator. Joining the pieces with the separator gives back the line, so empty pieces are kept. |
| Text.SplitJoin | components/game-manual.tsx:124 | Splitting undoes joining for pieces without the separator. |
| Text.SplitFindsSeparator | components/game-manual.tsx:191 | A line splits into two or more pieces exactly when it contains the separator. |
| Text.JoinInjective | components/game-manual.tsx:124 | Two lists of separator-free pieces that join to the same string are equal, so a split is unique. |
| IntParse.TryParseInt | components/game-manual.tsx:128 | A successful `int.TryParse` yields a value in the 32-bit signed range. |
| IntParse.TryParseDigits | components/game-manual.tsx:136 | A string of ASCII digits whose value fits in 32 bits parses to that value. |
| IntParse.TryParseRejects | components/game-manual.tsx:136 | A string holding any character outside white space, sign and digits (a ':' for one) fails to parse. |
| TimeCodec.Wrap32 | components/game-manual.tsx:130 | `min * 60 + sec` becomes the 32-bit signed value congruent to it modulo 2^32, as unchecked arithmetic gives. A value already in range is unchanged. |
| TimeCodec.ParseTimeToSeconds | components/game-manual.tsx:118-141 | The sort key is always a 32-bit int. |
| TimeCodec.ParseWithoutColon | components/game-manual.tsx:120-140 | Without a ':', blank text is 0 and other text is its integer value, or 0 if it does not parse. |
| TimeCodec.MinutesAndSecondsAtColon | components/game-manual.tsx:124-131 | With one ':', the "m:ss" reading exists exactly when both sides parse, and it is then minutes * 60 + seconds wrapped to 32 bits. |
| TimeCodec.ParseOneColon | components/game-manual.tsx:124-140 | With one ':', the result is minutes * 60 + seconds (wrapped) when both sides parse, and 0 otherwise. It is the exact sum when that fits. |
| TimeCodec.ParseManyColons | components/game-manual.tsx:124-140 | Two or more ':' always give 0. |
| TimeCodec.ParseMinutesExample | components/game-manual.tsx:124-131 | "1:23" is 83 seconds. |
| TimeCodec.ParseNegativeExample | components/game-manual.tsx:128-130 | "-1:30" is accepted and gives -30. |
| TimeCodec.ParseSecondsExample | components/game-manual.tsx:134-137 | "45" is 45. |
| TimeCodec.ParseZeroExamples | components/game-manual.tsx:120-140 | "", "abc" and "1:2:3" all give 0. |
| Records.SortedIffAdjacent | components/game-manual.tsx:143-145 | The list is in ascending time order exactly when each record's time is <= the next one's. |
| Records.InsertionPoint | components/game-manual.tsx:149-161 | The position where the new node goes has every earlier time <= the new time, and the first later time is strictly greater. |
| Records.InsertionPointSplits | components/game-manual.tsx:158 | In a sorted list, a position is before the insertion point exactly when its time is <= the new time. |
| Records.InsertAddsOne | components/game-manual.tsx:146-166 | Inserting adds one element, and the multiset of records gains exactly the new one. |
| Records.InsertPlacement | components/game-manual.tsx:146-166 | The new record sits at the insertion point. Removing it gives back the old list in its old order. |
| Records.InsertKeepsSorted | components/game-manual.tsx:146-166 | Inserting into a sorted list keeps it sorted. |
| Records.InsertAtEnd | components/game-manual.tsx:158-165 | A record whose time is not earlier than any other goes last. |
| Records.InsertFifo | components/game-manual.tsx:158 | Equal times keep arrival order. A record inserted earlier stays ahead of a later one with an equal or later time. With equal times, the later one lands immediately after the earlier one. |
| RecordFile.ParseLineAccepts | components/game-manual.tsx:186-198 | A line yields a record exactly when it contains ';'. The record's fields are trimmed and hold no ';', and its key is the parse of its time. |
| RecordFile.FormatLineSplits | components/game-manual.tsx:224 | When neither field contains ';', a saved line "name ; time" splits on ';' into exactly two pieces: the name with a trailing space and the time with a leading space. |
| RecordFile.TrimPadded | components/game-manual.tsx:194-195 | The single spaces the save adds around ';' are removed again by the load's trimming. |
| RecordFile.ParseFormatLine | components/game-manual.tsx:190-198 | A record reads back from the line saved for it exactly when it is clean: trimmed fields, no ';', and key equal to the parse of its time. |
| RecordFile.LoadedSorted | components/game-manual.tsx:171-210 | Whatever the order of the file, the loaded list is sorted. |
| RecordFile.LoadedPermutation | components/game-manual.tsx:184-202 | The loaded list holds each accepted line's record once and nothing else. |
| RecordFile.AcceptedClean | components/game-manual.tsx:194-198 | Every record a file yields is clean. |
| RecordFile.LoadedClean | components/game-manual.tsx:171-210 | Every record of a loaded list is clean. |
| RecordFile.LoadFormatLines | components/game-manual.tsx:215-234 | Saving a sorted list of clean records and loading the file gives the same list back. |
| RecordFile.ResaveIdentical | components/game-manual.tsx:215-234 | A file saved from a sorted list of clean records writes the same lines again after it is loaded and saved. |
| RecordFile.MalformedLineSkipped | components/game-manual.tsx:191-192 | A line without ';', wherever it stands in the file, is dropped: the file loads as if that line were absent. |
| RecordFile.SemicolonNameSplits | components/game-manual.tsx:190-198 | When `a` and `b` are trimmed and contain no ';' (and the time text has none), a saved name `a;b` does not come back. On reload the name is `a`, the time text is `b`, and the key is the parse of `b`. |
| RecordFile.SemicolonNameExample | components/game-manual.tsx:190-198 | The name "a;b" with time "1:23" reloads as name "a", time text "b" and key 0. |
| Leaderboard.SubmittedName | components/game-manual.tsx:86-88 | The stored name is never blank. A present, non-blank name is kept exactly as typed. A missing or blank name becomes "SinNombre". |
| Leaderboard.BlankNameExample | components/game-manual.tsx:86-103 | A name of three spaces with the time "12" is stored as the record ("SinNombre", 12, "12"). |
| Leaderboard.NullTimeExample | components/game-manual.tsx:97-103 | A null time text is stored as "0" with key 0. |
| Leaderboard.RecordNode.constructor | components/game-manual.tsx:30-36 | A new node holds the given name, seconds and time text, and has no successor. |
| Leaderboard.ScoreSaver.constructor | components/game-manual.tsx:50-81 | Waking up leaves a valid list that holds what the file loads to. The file itself is unchanged. |
| Leaderboard.ScoreSaver.InsertSorted | components/game-manual.tsx:146-166 | The list stays a valid, acyclic, sorted chain, its records become `Insert(old records, new record)`, and only the new node joins the footprint. |
| Leaderboard.ScoreSaver.FindPredecessor | components/game-manual.tsx:157-161 | The walk stops at a node whose time is <= the new time and whose successor is null or strictly later. That node sits just before the insertion point. |
| Leaderboard.ScoreSaver.LinkAtHead | components/game-manual.tsx:149-153 | The new node becomes the head and points to the old head. The chain stays well linked. |
| Leaderboard.ScoreSaver.LinkAfter | components/game-manual.tsx:163-165 | The new node is spliced in after the k-th node. The other nodes keep their order and the chain stays well linked. |
| Leaderboard.ScoreSaver.LoadFromFile | components/game-manual.tsx:171-210 | The list is cleared, and an absent file leaves it empty. Otherwise the list becomes what loading the file's lines in order gives, and the file is untouched. |
| Leaderboard.ScoreSaver.LoadLine | components/game-manual.tsx:184-202 | A blank or malformed line changes nothing. Any other line inserts its record in order. |
| Leaderboard.ScoreSaver.SaveListToFile | components/game-manual.tsx:215-234 | The file is rewritten with exactly one "name ; time" line per node, from head to tail. The list is unchanged. |
| Leaderboard.ScoreSaver.SaveRecord | components/game-manual.tsx:84-112 | Without a time label nothing changes. Otherwise the submission is inserted in order and the file is rewritten with the whole new list. A missing or blank name becomes "SinNombre" and a null time text becomes "0". |

## Left out

- Unity plumbing in `Awake` is left out: finding the `TextTime` object, building the save path, and creating the folder. The records file is a constructor parameter. A missing time label is the `NoLabel` case of `SaveRecord`.
- File I/O is modelled as a field holding the file's lines, with `None` for a file that does not exist:
  - The `try`/`catch` around reading and writing is not modelled. A read that throws leaves the list empty, as an absent file does.
  - A write that fails part-way, leaving a partial file, is not modelled.
- The file is modelled as a sequence of lines. A name or time text that contains a line break would split into several lines on reload, and this is not modelled.
- `Debug.Log`/`Debug.LogError` calls and `DebugImprimirLista` are left out. They only write to the console.
- The culture-dependent parts of `int.TryParse` are not modelled: culture-specific signs and the current culture's number format. The model uses the invariant culture's "-" and "+".
- `RecordNode`'s data fields are `const`. The component never reassigns them after construction; only `next` changes.
- IntParse.TryParseInt: the .NET parser also accepts trailing '\0' characters after the number, which this model rejects. A time text ending in NUL characters is not modelled.

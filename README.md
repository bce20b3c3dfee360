# LocalRecyclers store, modelled in Dafny

LocalRecyclers is a desktop address book of local recycling businesses.
Each business is one `Recycler` record with five text fields: business name,
address, phone, website, and what it recycles. The main window keeps up to
100 records in a fixed array. It also keeps a live count, a cursor on the
record shown, and a flag that decides whether Save appends or overwrites.
Its buttons add, overwrite, delete, navigate, filter by the recycles field,
find by name, sort, and binary-search by name. After every change the whole
array is written to a semicolon-separated text file, one record per line.
That file is read back on start-up.

This project models that core:

- `wrappers.dfy`: `Option`, standing in for Java's `null`.
- `strings.dfy` (module `Strings`): the `java.lang.String` operations the
  program relies on.
  - `toLowerCase` and `contains`.
  - `compareToIgnoreCase`, with its total-preorder lemmas.
  - `split` with a one-character delimiter, which drops trailing empty strings.
- `recycler.dfy` (module `Recyclers`): the record as a datatype.
  - Its constructor and field selectors are the Java constructor and getters.
  - The setters, `toString`, and both branches of `compareTo`.
- `sorting.dfy` (module `Sorting`): the two library routines the Sort and
  Binary Search buttons call.
  - `Arrays.sort` is stated by its contract: ascending, a permutation, and
    stable. It is realised by an insertion sort, and
    `SortByNameIsUnique` proves that contract determines the result.
  - `Arrays.binarySearch` is a method with Java's loop.
- `file_manager.dfy` (module `FileManager`): `WriteDataToFile` and
  `ReadDataFromFile` as methods over the slot array.
  - The file is modelled by its text: `Some(text)`, or `None` when it cannot
    be opened or read.
  - `readLine` ends a line at `\n`, `\r` or `\r\n`.
  - `Serialize` and `Deserialize` are the specification functions, with the
    round trip and its exact failure conditions.
- `main_form.dfy` (module `MainForm`): the class `MainForm`.
  - Its fields are `recyclers` (100 slots of `Option<Recycler>`),
    `numberOfRecyclers`, `currentRecycler` and `isNewEntry`.
  - It has one method per button and per store routine, all behind the
    class invariant `Valid()`. `Valid()` says slots `[0, count)` are filled,
    slots `[count, 100)` are empty, and the cursor is in range.
  - The queries are proved against functions of the live records
    `Records()`.

The record a Save stores, the Filter keyword, the Find text and the Binary
Search key are method parameters: in the program they come from text fields.
Writing the file is modelled by returning the text that would be written.

## Model

| member | source | states |
|---|---|---|
| Strings.Lower | src/MainForm.java:405 | an upper-case ASCII letter folds to the lower-case letter at the same alphabet position, and every other character is kept |
| Strings.ToLowerCase | src/MainForm.java:405 | the lower-cased string has the same length, and each character is the case-folded input character |
| Strings.Contains | src/MainForm.java:405 | `contains` is true exactly when the second string occurs at some index of the first |
| Strings.ContainsEmpty | src/MainForm.java:405 | every string contains the empty string |
| Strings.CompareIgnoreCase | src/Recycler.java:103 | `compareToIgnoreCase` gives 0 only for strings of equal length, and always for equal strings |
| Strings.CompareZeroIffSameFold | src/Recycler.java:103 | `compareToIgnoreCase` is 0 exactly when the two strings are equal after case folding |
| Strings.CompareReflexive | src/Recycler.java:103 | a string compares as 0 with itself |
| Strings.CompareAntisymmetric | src/Recycler.java:103 | swapping the arguments negates the result |
| Strings.CompareTransitive | src/Recycler.java:103 | "compares at or below" is transitive |
| Strings.CompareTransitiveStrict | src/Recycler.java:103 | a chain with one strict step is strict |
| Strings.CompareIgnoresCase | src/Recycler.java:103 | replacing an argument by one that differs only in letter case leaves the result unchanged |
| Strings.SplitAll | src/FileManager.java:78 | splitting, before trailing empties are dropped, yields at least one piece, none holding the delimiter, and exactly one when the string has no delimiter |
| Strings.DropTrailingEmpty | src/FileManager.java:78 | `split` keeps a prefix of the pieces that ends in a non-empty piece, and drops only empty pieces |
| Strings.JavaSplit | src/FileManager.java:78 | `split(";")`: no piece holds the delimiter; a string without it is returned whole; otherwise the last piece, if any, is non-empty |
| Strings.SplitAllJoin | src/FileManager.java:78 | splitting pieces joined by `;` gives the pieces back when none of them contains `;` |
| Strings.SplitAllNoSep | src/FileManager.java:78 | a string without the delimiter splits into itself alone |
| Strings.SplitAllPrefix | src/FileManager.java:78 | a delimiter-free prefix followed by the delimiter becomes the first piece |
| Strings.JoinHasSep | src/Recycler.java:88 | joining two or more fields puts the delimiter in the text |
| Recyclers.Fields | src/Recycler.java:10-14 | a record has exactly five fields, in the fixed order |
| Recyclers.ToString | src/Recycler.java:86-89 | `toString` is the five fields in order, joined by `;` |
| Recyclers.SetBusinessName | src/Recycler.java:49-51 | the name becomes the argument and the other four fields are unchanged |
| Recyclers.SetAddress | src/Recycler.java:57-59 | the address becomes the argument and the other four fields are unchanged |
| Recyclers.SetPhone | src/Recycler.java:65-67 | the phone becomes the argument and the other four fields are unchanged |
| Recyclers.SetWebsite | src/Recycler.java:73-75 | the website becomes the argument and the other four fields are unchanged |
| Recyclers.SetRecycles | src/Recycler.java:81-83 | the recycles field becomes the argument and the other four fields are unchanged |
| Recyclers.CompareToName | src/Recycler.java:97-104 | `compareTo` with a String argument is 0 exactly when the folded business name equals the folded string |
| Recyclers.CompareTo | src/Recycler.java:106-109 | `compareTo` with a Recycler argument is 0 exactly when the two folded business names are equal |
| Recyclers.CompareToOnlyNames | src/Recycler.java:106-109 | comparing two records depends on nothing but their case-folded names |
| Recyclers.CompareToZeroIffSameKey | src/Recycler.java:94-110 | both `compareTo` branches give 0 exactly when the case-folded names are equal |
| Recyclers.CompareToTotalPreorder | src/Recycler.java:94-110 | `compareTo` is reflexive, sign-flipping and transitive |
| Sorting.InsertByName | src/MainForm.java:448 | one insertion step adds exactly the inserted record to the multiset |
| Sorting.SortByName | src/MainForm.java:448 | the sorted copy has the same length and is a permutation of the snapshot |
| Sorting.SortedCons | src/MainForm.java:448 | a record at or below every element of an ascending sequence can go in front of it |
| Sorting.InsertByNameBounded | src/MainForm.java:448 | a lower bound of the inserted record and of the sequence bounds the result |
| Sorting.InsertByNameSorted | src/MainForm.java:448 | inserting into an ascending sequence keeps it ascending |
| Sorting.SortByNameSorted | src/MainForm.java:448 | the sorted copy is ascending under `compareTo` |
| Sorting.WithKeyConcat | src/MainForm.java:448 | selecting the records of one name distributes over concatenation |
| Sorting.WithKeySingleton | src/MainForm.java:448 | a one-record sequence keeps its record exactly when the name matches |
| Sorting.InsertByNameWithKey | src/MainForm.java:448 | insertion places the record before every record with an equal name |
| Sorting.SortByNameStable | src/MainForm.java:448 | sorting is stable: the records with equal names keep their relative order |
| Sorting.WithKeyMember | src/MainForm.java:448 | a record selected by name is in the sequence and has that name |
| Sorting.FirstIsLeast | src/MainForm.java:448 | the head of an ascending sequence sorts at or below any of its records |
| Sorting.SortedStableUnique | src/MainForm.java:448 | two ascending sequences that agree on the records of every name are equal |
| Sorting.SortByNameIsUnique | src/MainForm.java:448 | every ascending, stable rearrangement of the snapshot equals the sorted copy, so the sort is determined by its contract |
| Sorting.SortByNameIdempotent | src/MainForm.java:448 | sorting an ascending sequence leaves it unchanged |
| Sorting.BinarySearch | src/MainForm.java:463 | on an ascending array: a non-negative result indexes a record whose name equals the key ignoring case; a negative result means no record matches, and -(result+1) is the insertion point, with every record before it below the key and every record from it on above |
| FileManager.Unwrap | src/FileManager.java:66 | the records of a sequence of filled slots, one per slot, in order |
| FileManager.Slots | src/FileManager.java:66 | a 100-slot array with the records in its first slots and null after them |
| FileManager.LivePrefix | src/FileManager.java:30-38 | the records WriteDataToFile visits: the contents of the slots before the first null, which follows them unless the array ends first |
| FileManager.LivePrefixUpTo | src/FileManager.java:30-34 | the records before the first null are exactly the filled prefix up to that null |
| FileManager.LivePrefixIgnoresTail | src/FileManager.java:30-34 | slots after the first null have no effect on what is written |
| FileManager.LineEnd | src/FileManager.java:75 | a line ends at the first line break, or at the end of the text |
| FileManager.ReadLines | src/FileManager.java:75 | the lines `readLine` returns until it returns null: no more lines than characters, and no line holds a line break |
| FileManager.ReadLinesCons | src/FileManager.java:75 | a line without breaks followed by the `newLine` output reads back as that line |
| FileManager.Serialize | src/FileManager.java:30-38 | the text written for some records, at least one character (the line break) per record; ReadSerialized and RoundTrip read it back |
| FileManager.SerializeAppend | src/FileManager.java:36-37 | writing one more record appends its `toString` and a line break |
| FileManager.ParseLine | src/FileManager.java:78-84 | a line gives a record exactly when `split(";")` yields at least five pieces, and the record's fields are the first five pieces |
| FileManager.ParseLines | src/FileManager.java:75-87 | the lines give records exactly when every line does, one record per line, in order |
| FileManager.Deserialize | src/FileManager.java:53-100 | reading fails exactly when the file cannot be read, has more than 100 lines, or has a line of fewer than five pieces; otherwise line k gives record k |
| FileManager.ParseToString | src/FileManager.java:78-84 | a record whose fields hold no `;` or line break and whose recycles is non-empty parses back from its `toString` |
| FileManager.EmptyRecyclesUnreadable | src/FileManager.java:78-84 | a record with an empty recycles field and no `;` in any field is written as a line that cannot be read back |
| FileManager.ReadSerialized | src/FileManager.java:30-38 | the written text reads back as one line per record, each the record's `toString` |
| FileManager.NoLineBreakInToString | src/Recycler.java:86-89 | the text form of a record whose fields hold no line break has no line break |
| FileManager.ParseSerializedLines | src/FileManager.java:75-87 | the text forms of writable records parse back to those records, in order |
| FileManager.RoundTrip | src/FileManager.java:18-100 | writing at most 100 such records and reading the file back gives the same records in the same order |
| FileManager.EmptyRecyclesLosesFile | src/FileManager.java:78-98 | one record with an empty recycles field and no `;` in any field makes the whole written file unreadable |
| FileManager.WriteDataToFile | src/FileManager.java:18-47 | the text written is each record's `toString` and a line break, in array order, up to the first null |
| FileManager.ReadDataFromFile | src/FileManager.java:53-100 | the result is null exactly when reading fails; otherwise it is a fresh 100-slot array with record k from line k and null after the last line |
| MainForm.FilterByRecycles | src/MainForm.java:400-410 | the Filter output: no longer than the store, and every record in it is a live record whose recycles field contains the keyword ignoring case |
| MainForm.FilterByRecyclesConcat | src/MainForm.java:400-410 | filtering a concatenation filters each part, so the filter keeps the store's order |
| MainForm.FilterByRecyclesCount | src/MainForm.java:400-410 | each matching record is kept as often as it occurs in the store, and no other record is kept |
| MainForm.FilterEmptyKeyword | src/MainForm.java:405 | an empty keyword selects every live record |
| MainForm.LoadedCount | src/MainForm.java:258-268 | the index of the first null slot, or the length when there is none |
| MainForm.LoadedCountAsWritten | src/MainForm.java:258-268 | as written: the first null index when there is a null slot, the previous count otherwise |
| MainForm.LoadedCountIs | src/MainForm.java:258-268 | the first-null index is the only count with a filled prefix and a null (or the end) after it |
| MainForm.LoadedCountOfSlots | src/MainForm.java:258-268 | loading records into the slot array gives back their number and the records themselves |
| MainForm.FullFileLoadsAsEmpty | src/MainForm.java:258-268 | a 100-record file reads back in full, yet the count as written stays 0 |
| MainForm.ShiftedRecords | src/MainForm.java:479-497 | moving the slots after the cursor one place left and clearing the last live slot removes exactly the cursor's record |
| MainForm.MainForm.constructor | src/MainForm.java:98-114 | corrected (it counts with the corrected UpdateNumberOfRecyclers, see the first Findings row; as written a 100-line file loads as an empty store): the live records are the file's records (none when it cannot be read); with records the cursor is on the last one and Save overwrites, with none the cursor is 0 and Save appends |
| MainForm.MainForm.UpdateNumberOfRecyclers | src/MainForm.java:252-278 | corrected: a loaded array is kept with the count at its first null slot (100 when full); a null array becomes 100 empty slots with count 0 |
| MainForm.MainForm.UpdateNumberOfRecyclersAsWritten | src/MainForm.java:252-278 | as written: the count at the first null slot, or left at its previous value when no slot is null |
| MainForm.MainForm.DisplayCurrentRecycler | src/MainForm.java:281-292 | displaying an empty store makes the next Save an append; otherwise the flag is kept |
| MainForm.MainForm.WriteToFile | src/MainForm.java:502 | the text written is the serialised live records |
| MainForm.MainForm.New | src/MainForm.java:326-331 | the next Save appends |
| MainForm.MainForm.SaveRecycler | src/MainForm.java:506-541 | corrected: an append adds the record at the end, puts the cursor on it and raises the count, or changes nothing when 100 records are stored; an overwrite replaces only the cursor's record; afterwards Save overwrites and the file holds the live records |
| MainForm.MainForm.SaveRecyclerAsWritten | src/MainForm.java:530-540 | as written, on an empty store whose flag was cleared by another button: with the cursor at 0, slot 0 gets the record, the count stays 0, the store invariant breaks, and the file holds the record; with the cursor at -1 the store at index -1 throws and nothing changes |
| MainForm.MainForm.Delete | src/MainForm.java:341-349 | nothing happens to an empty store; otherwise as DeleteRecycler |
| MainForm.MainForm.DeleteRecycler | src/MainForm.java:477-503 | the cursor's record is removed from the live records, the count drops by one, the cursor moves back only when it was on the last record (to -1 when the store empties), and the file holds the live records |
| MainForm.MainForm.ShiftDown | src/MainForm.java:479-497 | the slots from the cursor on take their right neighbours, the last live slot is cleared, and the cursor steps back when it was on that slot |
| MainForm.MainForm.First | src/MainForm.java:352-357 | the cursor goes to 0, on an empty store too, keeping the invariant |
| MainForm.MainForm.Prev | src/MainForm.java:359-368 | one step back unless on the first record; the cursor stays in range |
| MainForm.MainForm.Next | src/MainForm.java:370-379 | one step on unless on the last record; the cursor stays in range |
| MainForm.MainForm.Last | src/MainForm.java:381-386 | the cursor goes to the last record, -1 on an empty store |
| MainForm.MainForm.FilterEntries | src/MainForm.java:400-410 | the matches are the live records whose recycles field contains the keyword ignoring case, in store order |
| MainForm.MainForm.Filter | src/MainForm.java:395-411 | the Filter button returns those matches; the store is unchanged |
| MainForm.MainForm.FindEntry | src/MainForm.java:417-429 | the smallest live index whose name contains the text ignoring case, or -1 when there is none |
| MainForm.MainForm.Find | src/MainForm.java:414-430 | the cursor moves to the first match and stays put when nothing matches |
| MainForm.MainForm.SortAndBinarySearchEntries | src/MainForm.java:440-474 | on an empty store the sort fails; otherwise the sorted copy is SortByName of the live records, and Binary Search returns Arrays.binarySearch's result on it; the store is only read |
| MainForm.MainForm.SortOrSearch | src/MainForm.java:388-392 | the Sort and Binary Search buttons: an empty store gives no result; otherwise the sorted copy of the live records and, for Binary Search, a found index naming a record equal to the key ignoring case, or a negative result exactly when no live record matches, whose insertion point lies in [0, count] with every record before it below the key and every record from it on above |

## Left out

- The Swing window is not modelled: its layout, the text fields, `JOptionPane` dialogs, the `txtOutput` text, and the `Exit` button's `System.exit`. The records, keywords and keys typed into the window become method parameters.
- The file name and the stream classes are not modelled. `Deserialize` and `ReadDataFromFile` take the file's text as `Option<string>`.
- Write failures are not modelled: writing always succeeds and returns the text written.
- The console prints are not modelled: the per-piece `println` loop in `ReadDataFromFile` and the exception messages.
- Strings.Lower and Strings.ToLowerCase fold ASCII letters only, not full Unicode `toLowerCase`. They also ignore the default locale that `toLowerCase()` uses, which the Filter and Find matches depend on (a Turkish locale maps `I` to a dotless `ı`). Java strings are UTF-16 code units, while a Dafny `char` is a Unicode scalar value, so surrogate pairs are not modelled.
- Strings.CompareIgnoreCase folds with the same ASCII mapping. Java folds each character through both upper and lower case.
- FileManager.Serialize writes `newLine` as `"\n"`. A platform that uses `"\r\n"` reads back the same, because `readLine` accepts both.
- Sorting.SortByName: `Arrays.sort` is a TimSort. The model is an insertion sort. `Sorting.SortByNameIsUnique` proves that any ascending, stable permutation equals it, so the result is the same.
- The no-argument `Recycler()` constructor is not modelled. Its fields would be `null`, and the program only uses it with all five setters called right after.
- Concurrency and the event loop are not modelled. Each button handler is one method call.

Where the behaviour differs from a plain reading of the program's description, the model follows the code:
- Saving a 101st record throws at the array store. The model returns `None` and changes nothing.
- A file of more than 100 lines, or with a line of fewer than five pieces, is rejected whole (`null`), not truncated.
- An empty recycles field, in a record none of whose fields holds `;`, makes its line, and hence the whole file, unreadable. (A `;` in another field adds a piece, and the line then reads back as a different record.)
- First and Last on an empty store set the cursor to 0 and -1, and the flag back to append.
- Find moves the cursor and clears the flag; it returns nothing.
- Sort on an empty store throws when it reads `sortedArray[0]`. The model reports `EmptyStore`.

## Findings

| source | as written | input that shows it | evidently intended | confidence | as-written member | corrected member |
|---|---|---|---|---|---|---|
| src/MainForm.java:258-268 | the count is assigned only when a null slot is found, so a full array leaves it at its previous value | a file of 100 lines `Acme;1 Main St;555;acme.example;glass`: all 100 records load, yet the count stays 0 and the store shows as empty | the count is 100 when every slot is filled | not executed | MainForm.FullFileLoadsAsEmpty | MainForm.MainForm.UpdateNumberOfRecyclers |
| src/MainForm.java:530-537 | any button other than New and Save clears `isNewEntry`, even on an empty store, so Save overwrites slot 0 without raising the count, or throws an ArrayIndexOutOfBoundsException when the cursor is -1 (after deleting the only record) | an empty file; press Filter, then Save with `Acme;1 Main St;555;acme.example;glass`: slot 0 and the file hold the record, and the count stays 0 | on an empty store Save appends, as the comment at src/MainForm.java:288 says it should | not executed | MainForm.MainForm.SaveRecyclerAsWritten | MainForm.MainForm.SaveRecycler |

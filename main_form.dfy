/** The record store behind the main window: a fixed array of 100 slots
    whose first numberOfRecyclers slots hold the records, a cursor on the
    record shown, and the flag that decides whether Save appends or
    overwrites. Each button of the window is a method; the loops of the
    Filter, Find and Sort/Binary Search buttons are read-only methods whose
    results are stated as functions of the live records. */
module MainForm {
  import opened Wrappers
  import opened Strings
  import opened Recyclers
  import opened Sorting
  import opened FileManager

  // ---- The queries, as functions of the live records ----

  /** The recycles field contains the keyword, ignoring case. */
  predicate RecyclesMatch(r: Recycler, keyword: string)
  {
    Contains(ToLowerCase(r.recycles), ToLowerCase(keyword))
  }

  /** The business name contains the search text, ignoring case. */
  predicate NameMatch(r: Recycler, text: string)
  {
    Contains(ToLowerCase(r.businessName), ToLowerCase(text))
  }

  /** The records whose recycles field contains the keyword, in store order. */
  function FilterByRecycles(records: seq<Recycler>, keyword: string): (matches: seq<Recycler>)
    ensures |matches| <= |records|
    ensures forall x :: x in matches ==> x in records && RecyclesMatch(x, keyword)
  {
    if records == [] then []
    else
      var last := records[|records| - 1];
      FilterByRecycles(records[..|records| - 1], keyword) + (if RecyclesMatch(last, keyword) then [last] else [])
  }

  /** Filtering a concatenation filters each part, so the filter keeps the
      store's order. */
  lemma {:induction false} FilterByRecyclesConcat(s: seq<Recycler>, t: seq<Recycler>, keyword: string)
    ensures FilterByRecycles(s + t, keyword) == FilterByRecycles(s, keyword) + FilterByRecycles(t, keyword)
  {
    if t == [] {
      assert s + t == s;
    } else {
      assert (s + t)[..|s + t| - 1] == s + t[..|t| - 1];
      FilterByRecyclesConcat(s, t[..|t| - 1], keyword);
    }
  }

  /** Every matching record is kept as often as it occurs, and no other. */
  lemma {:induction false} FilterByRecyclesCount(s: seq<Recycler>, keyword: string, x: Recycler)
    ensures multiset(FilterByRecycles(s, keyword))[x] == if RecyclesMatch(x, keyword) then multiset(s)[x] else 0
  {
    if s != [] {
      FilterByRecyclesCount(s[..|s| - 1], keyword, x);
      assert s == s[..|s| - 1] + [s[|s| - 1]];
    }
  }

  /** An empty keyword selects every live record. */
  lemma {:induction false} FilterEmptyKeyword(s: seq<Recycler>)
    ensures FilterByRecycles(s, "") == s
  {
    if s != [] {
      FilterEmptyKeyword(s[..|s| - 1]);
      ContainsEmpty(ToLowerCase(s[|s| - 1].recycles));
      assert ToLowerCase("") == "";
    }
  }

  /** What the Sort and Binary Search buttons produce: nothing when the
      store is empty (the first element of the empty sorted copy is read and
      the access throws), otherwise the sorted copy and, for Binary Search,
      the result of Arrays.binarySearch. */
  datatype SortReport =
    | EmptyStore
    | Sorted(entries: seq<Recycler>)
    | Searched(entries: seq<Recycler>, index: int)

  // ---- Counting the loaded records ----

  /** The index of the first null slot, or the length when there is none. */
  function LoadedCount(slots: seq<Option<Recycler>>): (n: nat)
    ensures n <= |slots|
    ensures forall i :: 0 <= i < n ==> slots[i].Some?
    ensures n < |slots| ==> slots[n].None?
  {
    if slots == [] || slots[0].None? then 0 else 1 + LoadedCount(slots[1..])
  }

  /** The count UpdateNumberOfRecyclers leaves as written: the index of the
      first null slot, or the previous count when no slot is null. */
  function LoadedCountAsWritten(slots: seq<Option<Recycler>>, prior: int): (n: int)
    ensures (exists i :: 0 <= i < |slots| && slots[i].None?) ==> n == LoadedCount(slots)
    ensures (forall i :: 0 <= i < |slots| ==> slots[i].Some?) ==> n == prior
  {
    var c := LoadedCount(slots);
    if c < |slots| then c else prior
  }

  /** LoadedCount is the only count with its three properties. */
  lemma {:induction false} LoadedCountIs(slots: seq<Option<Recycler>>, n: nat)
    requires n <= |slots|
    requires forall i :: 0 <= i < n ==> slots[i].Some?
    requires n == |slots| || slots[n].None?
    ensures LoadedCount(slots) == n
  {
    if n > 0 {
      LoadedCountIs(slots[1..], n - 1);
    }
  }

  /** Loading a sequence of records into the slot array gives back every
      record, a full array included. */
  lemma LoadedCountOfSlots(records: seq<Recycler>)
    requires |records| <= Capacity
    ensures LoadedCount(Slots(records)) == |records|
    ensures Unwrap(Slots(records)[..|records|]) == records
  {
    LoadedCountIs(Slots(records), |records|);
  }

  /** A file of exactly 100 records (for instance 100 copies of the line
      "Acme;1 Main St;555;acme.example;glass") reads back in full and fills
      every slot, yet the count as written stays at its initial 0 although
      slot 0 holds a record: the store shows as empty. */
  lemma FullFileLoadsAsEmpty(records: seq<Recycler>)
    requires |records| == Capacity
    requires forall i :: 0 <= i < |records| ==> Writable(records[i])
    ensures Deserialize(Some(Serialize(records))) == Some(records)
    ensures Slots(records)[0].Some?
    ensures LoadedCountAsWritten(Slots(records), 0) == 0
    ensures LoadedCount(Slots(records)) == Capacity
  {
    RoundTrip(records);
    LoadedCountOfSlots(records);
  }

  /** Shifting the slots after c one place down and nulling the old last
      slot removes record c from the live records and keeps them gap-free. */
  lemma ShiftedRecords(slots: seq<Option<Recycler>>, after: seq<Option<Recycler>>, n: int, c: int)
    requires |slots| == Capacity && |after| == Capacity && 0 <= c < n <= Capacity
    requires forall i :: 0 <= i < n ==> slots[i].Some?
    requires forall k :: 0 <= k < c ==> after[k] == slots[k]
    requires forall k :: c <= k < n - 1 ==> after[k] == slots[k + 1]
    requires forall k :: n - 1 <= k < Capacity ==> after[k] == if k == n - 1 then None else slots[k]
    ensures forall i :: 0 <= i < n - 1 ==> after[i].Some?
    ensures Unwrap(after[..n - 1]) == Unwrap(slots[..n])[..c] + Unwrap(slots[..n])[c + 1..]
  {
    var before := Unwrap(slots[..n]);
    var removed := before[..c] + before[c + 1..];
    var now := Unwrap(after[..n - 1]);
    forall k | 0 <= k < n - 1
      ensures now[k] == removed[k]
    {
      if k < c {
        assert removed[k] == before[k];
      } else {
        assert removed[k] == before[k + 1];
      }
    }
  }

  class MainForm {
    var recyclers: array<Option<Recycler>>
    var numberOfRecyclers: int
    var currentRecycler: int
    var isNewEntry: bool

    /** The store invariant: no gaps, and the cursor in range. */
    ghost predicate Valid()
      reads this, recyclers
    {
      && GapFree()
      && (if numberOfRecyclers > 0 then 0 <= currentRecycler < numberOfRecyclers
          else -1 <= currentRecycler <= 0)
    }

    /** Slots [0, numberOfRecyclers) are filled and [numberOfRecyclers, 100) are null. */
    ghost predicate GapFree()
      reads this`recyclers, this`numberOfRecyclers, recyclers
    {
      && recyclers.Length == Capacity
      && 0 <= numberOfRecyclers <= Capacity
      && (forall i :: 0 <= i < numberOfRecyclers ==> recyclers[i].Some?)
      && (forall i :: numberOfRecyclers <= i < Capacity ==> recyclers[i].None?)
    }

    /** The live records, slots 0 to numberOfRecyclers - 1. */
    ghost function Records(): (rs: seq<Recycler>)
      reads this`recyclers, this`numberOfRecyclers, recyclers
      requires GapFree()
      ensures |rs| == numberOfRecyclers
    {
      Unwrap(recyclers[..numberOfRecyclers])
    }

    /** Start-up: read the file, count the records, and put the cursor on
        the last one (isNewEntry then false); with no records the cursor
        stays 0 and Save appends. */
    constructor (file: Option<string>)
      ensures Valid() && fresh(recyclers)
      ensures Records() == if Deserialize(file).Some? then Deserialize(file).value else []
      ensures numberOfRecyclers > 0 ==> currentRecycler == numberOfRecyclers - 1 && !isNewEntry
      ensures numberOfRecyclers == 0 ==> currentRecycler == 0 && isNewEntry
    {
      recyclers := new Option<Recycler>[Capacity](_ => None);
      numberOfRecyclers := 0;
      currentRecycler := 0;
      isNewEntry := true;
      new;
      var loaded := ReadDataFromFile(file);
      UpdateNumberOfRecyclers(loaded);
      if Deserialize(file).Some? {
        LoadedCountOfSlots(Deserialize(file).value);
      }
      if numberOfRecyclers > 0 {
        currentRecycler := numberOfRecyclers - 1;
        DisplayCurrentRecycler();
        isNewEntry := false;
      }
    }

    /** UpdateNumberOfRecyclers, corrected, together with the assignment of
        the loaded array: a null array is replaced by 100 empty slots and
        count 0; otherwise the count is the index of the first null slot, or
        the full length when every slot is filled. */
    method UpdateNumberOfRecyclers(loaded: array?<Option<Recycler>>)
      modifies this`recyclers, this`numberOfRecyclers
      ensures loaded != null ==> recyclers == loaded && numberOfRecyclers == LoadedCount(loaded[..])
      ensures loaded == null ==> fresh(recyclers) && recyclers[..] == Slots([]) && numberOfRecyclers == 0
    {
      if loaded != null {
        recyclers := loaded;
        var i := 0;
        while i < recyclers.Length
          invariant 0 <= i <= recyclers.Length
          invariant forall k :: 0 <= k < i ==> recyclers[k].Some?
        {
          if recyclers[i].None? {
            numberOfRecyclers := i;
            break;
          }
          i := i + 1;
        }
        if i == recyclers.Length {
          numberOfRecyclers := i;
        }
      } else {
        recyclers := new Option<Recycler>[Capacity](_ => None);
        numberOfRecyclers := 0;
      }
    }

    /** UpdateNumberOfRecyclers as the source has it: when no slot is null
        the count is never assigned and keeps its previous value. */
    method UpdateNumberOfRecyclersAsWritten(loaded: array?<Option<Recycler>>)
      modifies this`recyclers, this`numberOfRecyclers
      ensures loaded != null ==>
        recyclers == loaded && numberOfRecyclers == LoadedCountAsWritten(loaded[..], old(numberOfRecyclers))
      ensures loaded == null ==> fresh(recyclers) && recyclers[..] == Slots([]) && numberOfRecyclers == 0
    {
      if loaded != null {
        recyclers := loaded;
        var i := 0;
        while i < recyclers.Length
          invariant 0 <= i <= recyclers.Length
          invariant forall k :: 0 <= k < i ==> recyclers[k].Some?
          invariant numberOfRecyclers == old(numberOfRecyclers)
        {
          if recyclers[i].None? {
            numberOfRecyclers := i;
            break;
          }
          i := i + 1;
        }
      } else {
        recyclers := new Option<Recycler>[Capacity](_ => None);
        numberOfRecyclers := 0;
      }
    }

    /** displayCurrentRecycler, without the text fields: with no records it
        makes the next Save an append. */
    method DisplayCurrentRecycler()
      modifies this`isNewEntry
      ensures isNewEntry == (old(isNewEntry) || numberOfRecyclers == 0)
    {
      if numberOfRecyclers == 0 {
        isNewEntry := true;
      }
    }

    /** The file text WriteDataToFile produces for the whole array. */
    method WriteToFile() returns (written: Option<string>)
      requires Valid()
      ensures written == Some(Serialize(Records()))
    {
      var text := WriteDataToFile(recyclers);
      LivePrefixUpTo(recyclers[..], numberOfRecyclers);
      assert recyclers[..][..numberOfRecyclers] == recyclers[..numberOfRecyclers];
      written := Some(text);
    }

    /** The New button: the next Save appends. */
    method New()
      modifies this`isNewEntry
      ensures isNewEntry
    {
      isNewEntry := true;
    }

    /** The Save button, corrected. When isNewEntry is set, or the store is
        empty, the record goes into slot numberOfRecyclers, which becomes
        the cursor, and the count grows by one; when all 100 slots are in
        use that store throws and nothing changes. Otherwise the record
        overwrites the one at the cursor. Afterwards isNewEntry is false and
        the whole array is written. */
    method SaveRecycler(data: Recycler) returns (written: Option<string>)
      requires Valid()
      modifies this, recyclers
      ensures Valid() && recyclers == old(recyclers)
      ensures old(isNewEntry) && old(numberOfRecyclers) == Capacity ==>
        && written == None && Records() == old(Records()) && isNewEntry
        && numberOfRecyclers == old(numberOfRecyclers) && currentRecycler == old(currentRecycler)
      ensures (old(isNewEntry) || old(numberOfRecyclers) == 0) && old(numberOfRecyclers) < Capacity ==>
        && Records() == old(Records()) + [data]
        && numberOfRecyclers == old(numberOfRecyclers) + 1
        && currentRecycler == old(numberOfRecyclers)
      ensures !old(isNewEntry) && old(numberOfRecyclers) > 0 ==>
        && Records() == old(Records())[old(currentRecycler) := data]
        && numberOfRecyclers == old(numberOfRecyclers) && currentRecycler == old(currentRecycler)
      ensures written.Some? || (old(isNewEntry) && old(numberOfRecyclers) == Capacity)
      ensures written.Some? ==> !isNewEntry && written == Some(Serialize(Records()))
    {
      ghost var before := Records();
      if isNewEntry || numberOfRecyclers == 0 {
        if numberOfRecyclers == recyclers.Length {
          return None;
        }
        recyclers[numberOfRecyclers] := Some(data);
        currentRecycler := numberOfRecyclers;
        numberOfRecyclers := numberOfRecyclers + 1;
        assert Records() == before + [data];
      } else {
        recyclers[currentRecycler] := Some(data);
        assert Records() == before[currentRecycler := data];
      }
      isNewEntry := false;
      written := WriteToFile();
    }

    /** The Save button as the source has it, in the state any button other
        than New and Save leaves an empty store in (isNewEntry false). With
        the cursor at 0 the record overwrites slot 0 as if it were the
        current record, the count stays 0, and the file gets a line the
        store does not count. With the cursor at -1 (the only record was
        deleted) the store at index -1 throws and nothing changes. */
    method SaveRecyclerAsWritten(data: Recycler) returns (written: Option<string>)
      requires Valid() && !isNewEntry && numberOfRecyclers == 0
      modifies recyclers, this`isNewEntry
      ensures old(currentRecycler) == -1 ==>
        written == None && recyclers[..] == old(recyclers[..]) && !isNewEntry && GapFree()
      ensures old(currentRecycler) == 0 ==>
        && recyclers[0] == Some(data) && recyclers[1..] == old(recyclers[1..])
        && numberOfRecyclers == 0 && !isNewEntry && !GapFree()
        && written == Some(Serialize([data]))
    {
      if currentRecycler < 0 {
        return None;
      }
      recyclers[currentRecycler] := Some(data);
      isNewEntry := false;
      var text := WriteDataToFile(recyclers);
      LivePrefixUpTo(recyclers[..], 1);
      assert recyclers[..][..1] == [Some(data)];
      written := Some(text);
    }

    /** The Delete button: nothing happens to an empty store. */
    method Delete() returns (written: Option<string>)
      requires Valid()
      modifies this, recyclers
      ensures Valid() && recyclers == old(recyclers)
      ensures old(numberOfRecyclers) == 0 ==>
        && written == None && numberOfRecyclers == 0
        && currentRecycler == old(currentRecycler) && !isNewEntry
      ensures old(numberOfRecyclers) > 0 ==>
        && Records() == old(Records())[..old(currentRecycler)] + old(Records())[old(currentRecycler) + 1..]
        && numberOfRecyclers == old(numberOfRecyclers) - 1
        && currentRecycler == (if old(currentRecycler) == old(numberOfRecyclers) - 1
                               then old(currentRecycler) - 1 else old(currentRecycler))
        && isNewEntry == (numberOfRecyclers == 0)
        && written == Some(Serialize(Records()))
    {
      isNewEntry := false;
      if numberOfRecyclers == 0 {
        return None;
      }
      written := DeleteRecycler();
    }

    /** DeleteRecycler: shifts the records after the cursor one slot left,
        clears the last live slot and lowers the count; the cursor moves
        back only when it was on the last record. */
    method DeleteRecycler() returns (written: Option<string>)
      requires Valid() && numberOfRecyclers > 0 && !isNewEntry
      modifies this, recyclers
      ensures Valid() && recyclers == old(recyclers)
      ensures Records() == old(Records())[..old(currentRecycler)] + old(Records())[old(currentRecycler) + 1..]
      ensures numberOfRecyclers == old(numberOfRecyclers) - 1
      ensures currentRecycler == if old(currentRecycler) == old(numberOfRecyclers) - 1
                                 then old(currentRecycler) - 1 else old(currentRecycler)
      ensures isNewEntry == (numberOfRecyclers == 0)
      ensures written == Some(Serialize(Records()))
    {
      ghost var slots := recyclers[..];
      ghost var c := currentRecycler;
      ShiftDown();
      ShiftedRecords(slots, recyclers[..], numberOfRecyclers, c);
      numberOfRecyclers := numberOfRecyclers - 1;
      DisplayCurrentRecycler();
      written := WriteToFile();
    }

    /** The shifting loop of DeleteRecycler: slot k takes slot k + 1 from the
        cursor up to the last live slot, which is cleared; the cursor steps
        back when it was on that last slot. */
    method ShiftDown()
      requires GapFree() && 0 <= currentRecycler < numberOfRecyclers
      modifies recyclers, this`currentRecycler
      ensures forall k :: 0 <= k < old(currentRecycler) ==> recyclers[k] == old(recyclers[k])
      ensures forall k :: old(currentRecycler) <= k < numberOfRecyclers - 1 ==> recyclers[k] == old(recyclers[k + 1])
      ensures forall k :: numberOfRecyclers - 1 <= k < Capacity ==>
                recyclers[k] == if k == numberOfRecyclers - 1 then None else old(recyclers[k])
      ensures currentRecycler == if old(currentRecycler) == numberOfRecyclers - 1
                                 then old(currentRecycler) - 1 else old(currentRecycler)
    {
      ghost var slots := recyclers[..];
      ghost var c := currentRecycler;
      var i := currentRecycler;
      while i < numberOfRecyclers
        invariant c <= i <= numberOfRecyclers - 1
        invariant currentRecycler == c
        invariant forall k :: 0 <= k < c ==> recyclers[k] == slots[k]
        invariant forall k :: c <= k < i ==> recyclers[k] == slots[k + 1]
        invariant forall k :: i <= k < Capacity ==> recyclers[k] == slots[k]
        decreases numberOfRecyclers - i
      {
        if i == numberOfRecyclers - 1 {
          recyclers[i] := None;
          if currentRecycler == numberOfRecyclers - 1 {
            currentRecycler := currentRecycler - 1;
          }
          break;
        }
        recyclers[i] := recyclers[i + 1];
        i := i + 1;
      }
    }

    /** The First button: the cursor goes to 0, even on an empty store. */
    method First()
      requires Valid()
      modifies this`currentRecycler, this`isNewEntry
      ensures Valid()
      ensures currentRecycler == 0
      ensures isNewEntry == (numberOfRecyclers == 0)
    {
      isNewEntry := false;
      currentRecycler := 0;
      DisplayCurrentRecycler();
    }

    /** The Prev button: one step back unless already on the first record. */
    method Prev()
      requires Valid()
      modifies this`currentRecycler, this`isNewEntry
      ensures Valid()
      ensures currentRecycler == if old(currentRecycler) > 0 then old(currentRecycler) - 1 else old(currentRecycler)
      ensures !isNewEntry
    {
      isNewEntry := false;
      if currentRecycler > 0 {
        currentRecycler := currentRecycler - 1;
        DisplayCurrentRecycler();
      }
    }

    /** The Next button: one step on unless already on the last record. */
    method Next()
      requires Valid()
      modifies this`currentRecycler, this`isNewEntry
      ensures Valid()
      ensures currentRecycler == if old(currentRecycler) < numberOfRecyclers - 1 then old(currentRecycler) + 1
                                 else old(currentRecycler)
      ensures !isNewEntry
    {
      isNewEntry := false;
      if currentRecycler < numberOfRecyclers - 1 {
        currentRecycler := currentRecycler + 1;
        DisplayCurrentRecycler();
      }
    }

    /** The Last button: the cursor goes to the last record, -1 on an empty store. */
    method Last()
      requires Valid()
      modifies this`currentRecycler, this`isNewEntry
      ensures Valid()
      ensures currentRecycler == numberOfRecyclers - 1
      ensures isNewEntry == (numberOfRecyclers == 0)
    {
      isNewEntry := false;
      currentRecycler := numberOfRecyclers - 1;
      DisplayCurrentRecycler();
    }

    /** The loop of the Filter button: the live records whose recycles field
        contains the keyword, ignoring case, in store order. */
    method FilterEntries(keyword: string) returns (matches: seq<Recycler>)
      requires Valid()
      ensures matches == FilterByRecycles(Records(), keyword)
    {
      matches := [];
      for i := 0 to numberOfRecyclers
        invariant matches == FilterByRecycles(Records()[..i], keyword)
      {
        var r := recyclers[i].value;
        assert Records()[..i + 1][..i] == Records()[..i];
        if Contains(ToLowerCase(r.recycles), ToLowerCase(keyword)) {
          matches := matches + [r];
        }
      }
      assert Records()[..numberOfRecyclers] == Records();
    }

    /** The Filter button. */
    method Filter(keyword: string) returns (matches: seq<Recycler>)
      requires Valid()
      modifies this`isNewEntry
      ensures Valid() && !isNewEntry
      ensures matches == FilterByRecycles(Records(), keyword)
    {
      isNewEntry := false;
      matches := FilterEntries(keyword);
    }

    /** The loop of the Find button: the first live index whose business
        name contains the text, ignoring case, or -1 when there is none. */
    method FindEntry(text: string) returns (index: int)
      requires Valid()
      ensures -1 <= index < numberOfRecyclers
      ensures 0 <= index ==> NameMatch(Records()[index], text)
      ensures forall j :: 0 <= j < index ==> !NameMatch(Records()[j], text)
      ensures index == -1 ==> forall j :: 0 <= j < numberOfRecyclers ==> !NameMatch(Records()[j], text)
    {
      for i := 0 to numberOfRecyclers
        invariant forall j :: 0 <= j < i ==> !NameMatch(Records()[j], text)
      {
        if Contains(ToLowerCase(recyclers[i].value.businessName), ToLowerCase(text)) {
          return i;
        }
      }
      return -1;
    }

    /** The Find button: the cursor moves to the first match and stays put
        when there is none. */
    method Find(text: string)
      requires Valid()
      modifies this`currentRecycler, this`isNewEntry
      ensures Valid() && !isNewEntry
      ensures (forall j :: 0 <= j < numberOfRecyclers ==> !NameMatch(Records()[j], text)) ==>
        currentRecycler == old(currentRecycler)
      ensures (exists j :: 0 <= j < numberOfRecyclers && NameMatch(Records()[j], text)) ==>
        && 0 <= currentRecycler < numberOfRecyclers
        && NameMatch(Records()[currentRecycler], text)
        && forall j :: 0 <= j < currentRecycler ==> !NameMatch(Records()[j], text)
    {
      isNewEntry := false;
      var i := FindEntry(text);
      if i >= 0 {
        currentRecycler := i;
        DisplayCurrentRecycler();
        assert NameMatch(Records()[i], text);
      }
    }

    /** SortAndBinarySearchEntries: a sorted copy of the live records and,
        for the Binary Search button (search is the key), where the key
        falls in it. The store itself is only read. */
    method SortAndBinarySearchEntries(search: Option<string>) returns (report: SortReport)
      requires Valid()
      ensures report.EmptyStore? <==> numberOfRecyclers == 0
      ensures report.Searched? <==> numberOfRecyclers > 0 && search.Some?
      ensures !report.EmptyStore? ==> report.entries == SortByName(Records())
      ensures report.Searched? ==>
        && report.index < numberOfRecyclers
        && (0 <= report.index ==> CompareToName(report.entries[report.index], search.value) == 0)
        && (report.index < 0 <==> forall r :: r in Records() ==> CompareToName(r, search.value) != 0)
        && (report.index < 0 ==> 0 <= -(report.index + 1) <= numberOfRecyclers)
        && (report.index < 0 ==> forall i :: 0 <= i < -(report.index + 1) ==>
              CompareToName(report.entries[i], search.value) < 0)
        && (report.index < 0 ==> forall i :: -(report.index + 1) <= i < numberOfRecyclers ==>
              CompareToName(report.entries[i], search.value) > 0)
    {
      var snapshot := Unwrap(recyclers[..numberOfRecyclers]);
      var sortedArray := SortByName(snapshot);
      if numberOfRecyclers == 0 {
        return EmptyStore;
      }
      if search.None? {
        return Sorted(sortedArray);
      }
      SortByNameSorted(snapshot);
      var index := BinarySearch(sortedArray, search.value);
      assert forall r :: r in Records() <==> r in sortedArray by {
        assert forall r :: r in Records() <==> r in multiset(Records());
        assert forall r :: r in sortedArray <==> r in multiset(sortedArray);
      }
      report := Searched(sortedArray, index);
    }

    /** The Sort button (search None) and the Binary Search button (search
        holds the key). */
    method SortOrSearch(search: Option<string>) returns (report: SortReport)
      requires Valid()
      modifies this`isNewEntry
      ensures Valid() && !isNewEntry
      ensures report.EmptyStore? <==> numberOfRecyclers == 0
      ensures report.Searched? <==> numberOfRecyclers > 0 && search.Some?
      ensures !report.EmptyStore? ==> report.entries == SortByName(Records())
      ensures report.Searched? ==> report.index < numberOfRecyclers
      ensures report.Searched? ==> 0 <= report.index ==>
        CompareToName(report.entries[report.index], search.value) == 0
      ensures report.Searched? ==>
        (report.index < 0 <==> forall r :: r in Records() ==> CompareToName(r, search.value) != 0)
      ensures report.Searched? && report.index < 0 ==> 0 <= -(report.index + 1) <= numberOfRecyclers
      ensures report.Searched? && report.index < 0 ==> forall i :: 0 <= i < -(report.index + 1) ==>
        CompareToName(report.entries[i], search.value) < 0
      ensures report.Searched? && report.index < 0 ==> forall i :: -(report.index + 1) <= i < numberOfRecyclers ==>
        CompareToName(report.entries[i], search.value) > 0
    {
      isNewEntry := false;
      report := SortAndBinarySearchEntries(search);
    }
  }
}

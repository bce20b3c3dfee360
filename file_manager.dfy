/** The persistence of the record store: one line per record, the five
    fields joined by semicolons, written in array order up to the first
    empty slot and read back into a fresh 100-slot array. The file is
    modelled by its text: Some(text) when it can be opened and read, None
    when opening or reading throws. */
module FileManager {
  import opened Wrappers
  import opened Strings
  import opened Recyclers

  /** The size of the array ReadDataFromFile fills. */
  const Capacity: nat := 100

  // ---- Slot arrays: Java's Recycler[] with null for an empty slot ----

  /** The records of a slot sequence in which every slot is filled. */
  function Unwrap(slots: seq<Option<Recycler>>): (rs: seq<Recycler>)
    requires forall i :: 0 <= i < |slots| ==> slots[i].Some?
    ensures |rs| == |slots| && forall i :: 0 <= i < |slots| ==> slots[i] == Some(rs[i])
  {
    seq(|slots|, i requires 0 <= i < |slots| && slots[i].Some? => slots[i].value)
  }

  /** A 100-slot array holding records in its first slots and null after them. */
  function Slots(records: seq<Recycler>): (s: seq<Option<Recycler>>)
    requires |records| <= Capacity
    ensures |s| == Capacity
    ensures forall i :: 0 <= i < |records| ==> s[i] == Some(records[i])
    ensures forall i :: |records| <= i < Capacity ==> s[i] == None
  {
    seq(Capacity, i requires 0 <= i < Capacity => if i < |records| then Some(records[i]) else None)
  }

  /** The records before the first null slot. */
  function LivePrefix(slots: seq<Option<Recycler>>): (rs: seq<Recycler>)
    ensures |rs| <= |slots|
    ensures forall i :: 0 <= i < |rs| ==> slots[i] == Some(rs[i])
    ensures |rs| < |slots| ==> slots[|rs|].None?
  {
    if slots == [] || slots[0].None? then [] else [slots[0].value] + LivePrefix(slots[1..])
  }

  /** The live prefix is everything before the first null (or everything,
      when no slot is null). */
  lemma {:induction false} LivePrefixUpTo(slots: seq<Option<Recycler>>, n: nat)
    requires n <= |slots|
    requires forall i :: 0 <= i < n ==> slots[i].Some?
    requires n == |slots| || slots[n].None?
    ensures LivePrefix(slots) == Unwrap(slots[..n])
  {
    if n > 0 {
      LivePrefixUpTo(slots[1..], n - 1);
      assert slots[1..][..n - 1] == slots[..n][1..];
    }
  }

  /** Slots after the first null make no difference to the live prefix. */
  lemma {:induction false} LivePrefixIgnoresTail(slots: seq<Option<Recycler>>, slots': seq<Option<Recycler>>, i: nat)
    requires i < |slots| && i < |slots'| && slots[..i + 1] == slots'[..i + 1]
    requires slots[i].None?
    ensures LivePrefix(slots) == LivePrefix(slots')
  {
    assert slots[0] == slots'[0];
    if i > 0 && slots[0].Some? {
      assert slots[1..][..i] == slots[..i + 1][1..];
      assert slots'[1..][..i] == slots'[..i + 1][1..];
      LivePrefixIgnoresTail(slots[1..], slots'[1..], i - 1);
    }
  }

  // ---- Lines: BufferedWriter.newLine and BufferedReader.readLine ----

  predicate IsLineBreak(c: char)
  {
    c == '\n' || c == '\r'
  }

  /** The length of the first line of s: the index of its first line break,
      or |s| when it has none. */
  function LineEnd(s: string): (i: nat)
    ensures i <= |s|
    ensures i < |s| ==> IsLineBreak(s[i])
    ensures forall k :: 0 <= k < i ==> !IsLineBreak(s[k])
  {
    if s == [] || IsLineBreak(s[0]) then 0 else 1 + LineEnd(s[1..])
  }

  /** The lines readLine returns before it returns null: a line ends at
      "\n", "\r" or "\r\n", and a last line needs no terminator. */
  function ReadLines(text: string): (lines: seq<string>)
    ensures |lines| <= |text|
    ensures forall k :: 0 <= k < |lines| ==> forall j :: 0 <= j < |lines[k]| ==> !IsLineBreak(lines[k][j])
    decreases |text|
  {
    if text == [] then []
    else
      var i := LineEnd(text);
      var next := if i == |text| then i
                  else if text[i] == '\r' && i + 1 < |text| && text[i + 1] == '\n' then i + 2
                  else i + 1;
      [text[..i]] + ReadLines(text[next..])
  }

  /** A line followed by "\n" reads back as that line. */
  lemma ReadLinesCons(line: string, rest: string)
    requires forall k :: 0 <= k < |line| ==> !IsLineBreak(line[k])
    ensures ReadLines(line + "\n" + rest) == [line] + ReadLines(rest)
  {
    var text := line + "\n" + rest;
    var i := LineEnd(text);
    assert text[|line|] == '\n';
    assert forall k :: 0 <= k < |line| ==> text[k] == line[k];
    assert i == |line|;
    assert text[..i] == line;
    assert text[i + 1..] == rest;
  }

  // ---- The text form of the whole store ----

  /** What WriteDataToFile writes for the given records: each record's
      toString followed by a line break. */
  function Serialize(records: seq<Recycler>): (text: string)
    ensures |text| >= |records|
  {
    if records == [] then "" else ToString(records[0]) + "\n" + Serialize(records[1..])
  }

  lemma {:induction false} SerializeAppend(records: seq<Recycler>, r: Recycler)
    ensures Serialize(records + [r]) == Serialize(records) + ToString(r) + "\n"
  {
    if records == [] {
      assert records + [r] == [r];
    } else {
      assert (records + [r])[1..] == records[1..] + [r];
      SerializeAppend(records[1..], r);
    }
  }

  /** One line as ReadDataFromFile turns it into a record: the first five
      pieces of line.split(";"), or None when there are fewer than five
      (the access temp[4] throws). */
  function ParseLine(line: string): (r: Option<Recycler>)
    ensures r.None? <==> |JavaSplit(line, Separator)| < 5
    ensures r.Some? ==> Fields(r.value) == JavaSplit(line, Separator)[..5]
  {
    var temp := JavaSplit(line, Separator);
    if |temp| < 5 then None else Some(Recycler(temp[0], temp[1], temp[2], temp[3], temp[4]))
  }

  /** All lines parsed, or None when any of them fails. */
  function ParseLines(lines: seq<string>): (r: Option<seq<Recycler>>)
    ensures r.None? <==> exists k :: 0 <= k < |lines| && ParseLine(lines[k]).None?
    ensures r.Some? ==> |r.value| == |lines|
    ensures r.Some? ==> forall k :: 0 <= k < |lines| ==> ParseLine(lines[k]) == Some(r.value[k])
  {
    if lines == [] then Some([])
    else
      match (ParseLine(lines[0]), ParseLines(lines[1..]))
      case (Some(first), Some(rest)) =>
        assert forall k :: 1 <= k < |lines| ==> lines[k] == lines[1..][k - 1];
        Some([first] + rest)
      case (None, _) => None
      case (_, None) =>
        var k :| 0 <= k < |lines[1..]| && ParseLine(lines[1..][k]).None?;
        assert ParseLine(lines[k + 1]).None?;
        None
  }

  /** What ReadDataFromFile returns, as a sequence: None when the file
      cannot be read, when it has more than 100 lines, or when any line has
      fewer than five pieces; otherwise one record per line, in order. */
  function Deserialize(file: Option<string>): (r: Option<seq<Recycler>>)
    ensures r.None? <==>
      || file.None?
      || |ReadLines(file.value)| > Capacity
      || exists k :: 0 <= k < |ReadLines(file.value)| && ParseLine(ReadLines(file.value)[k]).None?
    ensures r.Some? ==> |r.value| == |ReadLines(file.value)| <= Capacity
    ensures r.Some? ==> forall k :: 0 <= k < |r.value| ==> ParseLine(ReadLines(file.value)[k]) == Some(r.value[k])
  {
    match file
    case None => None
    case Some(text) =>
      var lines := ReadLines(text);
      if |lines| > Capacity then None else ParseLines(lines)
  }

  // ---- Round trip ----

  /** A record that survives the text form: no field holds the delimiter or
      a line break, and recycles is not empty (String.split would drop an
      empty last piece). */
  predicate Writable(r: Recycler)
  {
    && SingleLine(r)
    && (forall f :: f in Fields(r) ==> Separator !in f)
    && r.recycles != ""
  }

  /** No field of r holds a line break. */
  predicate SingleLine(r: Recycler)
  {
    forall f :: f in Fields(r) ==> '\n' !in f && '\r' !in f
  }

  /** Splitting a record's text form gives its fields back. */
  lemma ParseToString(r: Recycler)
    requires Writable(r)
    ensures ParseLine(ToString(r)) == Some(r)
  {
    var fs := Fields(r);
    assert forall k :: 0 <= k < 5 ==> fs[k] in fs;
    SplitAllJoin(fs, Separator);
    JoinHasSep(fs, Separator);
    assert JavaSplit(ToString(r), Separator) == fs;
  }

  /** A record whose recycles field is empty is written but cannot be read:
      the trailing empty piece is dropped, leaving four. */
  lemma EmptyRecyclesUnreadable(r: Recycler)
    requires forall f :: f in Fields(r) ==> Separator !in f
    requires r.recycles == ""
    ensures ParseLine(ToString(r)).None?
  {
    var fs := Fields(r);
    assert forall k :: 0 <= k < 5 ==> fs[k] in fs;
    SplitAllJoin(fs, Separator);
    JoinHasSep(fs, Separator);
    assert |DropTrailingEmpty(fs)| < 5;
  }

  lemma {:induction false} ReadSerialized(records: seq<Recycler>)
    requires forall i :: 0 <= i < |records| ==> SingleLine(records[i])
    ensures |ReadLines(Serialize(records))| == |records|
    ensures forall i :: 0 <= i < |records| ==> ReadLines(Serialize(records))[i] == ToString(records[i])
  {
    if records != [] {
      var r := records[0];
      var line := ToString(r);
      forall k | 0 <= k < |line|
        ensures !IsLineBreak(line[k])
      {
        NoLineBreakInToString(r, k);
      }
      var rest := Serialize(records[1..]);
      assert Serialize(records) == line + "\n" + rest;
      ReadLinesCons(line, rest);
      ReadSerialized(records[1..]);
      assert ReadLines(Serialize(records)) == [line] + ReadLines(rest);
      assert forall i :: 1 <= i < |records| ==> records[i] == records[1..][i - 1];
    }
  }

  lemma NoLineBreakInToString(r: Recycler, k: nat)
    requires SingleLine(r) && k < |ToString(r)|
    ensures !IsLineBreak(ToString(r)[k])
  {
    var fs := Fields(r);
    assert forall j :: 0 <= j < 5 ==> fs[j] in fs;
    var s := ToString(r);
    assert s == fs[0] + ";" + fs[1] + ";" + fs[2] + ";" + fs[3] + ";" + fs[4];
    if k < |fs[0]| {
      assert s[k] == fs[0][k];
    } else if k == |fs[0]| {
    } else if k < |fs[0]| + 1 + |fs[1]| {
      assert s[k] == fs[1][k - |fs[0]| - 1];
    } else if k == |fs[0]| + 1 + |fs[1]| {
    } else if k < |fs[0]| + |fs[1]| + 2 + |fs[2]| {
      assert s[k] == fs[2][k - |fs[0]| - |fs[1]| - 2];
    } else if k == |fs[0]| + |fs[1]| + 2 + |fs[2]| {
    } else if k < |fs[0]| + |fs[1]| + |fs[2]| + 3 + |fs[3]| {
      assert s[k] == fs[3][k - |fs[0]| - |fs[1]| - |fs[2]| - 3];
    } else if k == |fs[0]| + |fs[1]| + |fs[2]| + 3 + |fs[3]| {
    } else {
      assert s[k] == fs[4][k - |fs[0]| - |fs[1]| - |fs[2]| - |fs[3]| - 4];
    }
  }

  /** Lines that are the text forms of writable records parse back to them. */
  lemma ParseSerializedLines(records: seq<Recycler>, lines: seq<string>)
    requires |lines| == |records|
    requires forall i :: 0 <= i < |records| ==> Writable(records[i]) && lines[i] == ToString(records[i])
    ensures ParseLines(lines) == Some(records)
  {
    forall k | 0 <= k < |lines|
      ensures ParseLine(lines[k]) == Some(records[k])
    {
      ParseToString(records[k]);
    }
    var parsed := ParseLines(lines);
    assert parsed.Some?;
    assert parsed.value == records;
  }

  /** Writing a store and reading the file back gives the same records in
      the same order. */
  lemma RoundTrip(records: seq<Recycler>)
    requires |records| <= Capacity
    requires forall i :: 0 <= i < |records| ==> Writable(records[i])
    ensures Deserialize(Some(Serialize(records))) == Some(records)
  {
    var lines := ReadLines(Serialize(records));
    ReadSerialized(records);
    ParseSerializedLines(records, lines);
  }

  /** One record with an empty recycles field makes the whole file
      unreadable on the next start. */
  lemma EmptyRecyclesLosesFile(records: seq<Recycler>, i: nat)
    requires i < |records|
    requires forall j :: 0 <= j < |records| ==> SingleLine(records[j])
    requires forall f :: f in Fields(records[i]) ==> Separator !in f
    requires records[i].recycles == ""
    ensures Deserialize(Some(Serialize(records))).None?
  {
    ReadSerialized(records);
    EmptyRecyclesUnreadable(records[i]);
    assert ParseLine(ReadLines(Serialize(records))[i]).None?;
  }

  // ---- The two methods ----

  /** WriteDataToFile: walks the array and writes each record's toString
      and a line break, stopping at the first null. The result is the text
      of the file. */
  method WriteDataToFile(data: array<Option<Recycler>>) returns (text: string)
    ensures text == Serialize(LivePrefix(data[..]))
  {
    text := "";
    var i := 0;
    while i < data.Length
      invariant 0 <= i <= data.Length
      invariant forall k :: 0 <= k < i ==> data[k].Some?
      invariant text == Serialize(Unwrap(data[..i]))
    {
      if data[i].None? {
        break;
      }
      SerializeAppend(Unwrap(data[..i]), data[i].value);
      assert Unwrap(data[..i + 1]) == Unwrap(data[..i]) + [data[i].value];
      text := text + ToString(data[i].value) + "\n";
      i := i + 1;
    }
    LivePrefixUpTo(data[..], i);
    assert data[..][..i] == data[..i];
  }

  /** ReadDataFromFile: reads the lines one by one into a fresh 100-slot
      array; null when the file cannot be read, a line has fewer than five
      pieces, or a 101st line arrives. */
  method ReadDataFromFile(file: Option<string>) returns (data: array?<Option<Recycler>>)
    ensures data == null <==> Deserialize(file).None?
    ensures data != null ==> fresh(data) && data[..] == Slots(Deserialize(file).value)
  {
    if file.None? {
      return null;
    }
    var lines := ReadLines(file.value);
    var result := new Option<Recycler>[Capacity](_ => None);
    var counter := 0;
    while counter < |lines|
      invariant 0 <= counter <= |lines| && counter <= Capacity
      invariant forall k :: 0 <= k < counter ==> ParseLine(lines[k]).Some? && result[k] == ParseLine(lines[k])
      invariant forall k :: counter <= k < Capacity ==> result[k].None?
    {
      var temp := JavaSplit(lines[counter], Separator);
      if |temp| < 5 {
        assert ParseLine(lines[counter]).None?;
        return null;
      }
      if counter >= Capacity {
        assert |lines| > Capacity;
        return null;
      }
      result[counter] := Some(Recycler(temp[0], temp[1], temp[2], temp[3], temp[4]));
      counter := counter + 1;
    }
    ghost var records := ParseLines(lines);
    assert records.Some? && Deserialize(file) == records;
    assert result[..] == Slots(records.value);
    data := result;
  }
}

/** A reader for Rightmove BLM property-listing files: a header block of
    `KEY : value` lines, a definition block naming the fields, and a data
    block of records. The field and record delimiters are themselves header
    values (`EOF`, `EOR`). `Read` takes the text of a file and returns its
    headers, the field names and the records, or the first failure. */
module Blm {
  import opened Text
  import opened Blocks

  /** The failures of the reader, one per exception it raises. */
  datatype Error =
    | MissingHeader          // no `#HEADER#` followed by a `#`
    | MalformedHeaderLine    // a non-blank header line without " : " (an IndexError)
    | HeadersNotSet          // definitions asked for with no headers
    | MissingDefinition      // no `#DEFINITION#` followed by a `#`
    | DefinitionsNotSet      // data asked for with no field names
    | MissingData            // no `#DATA#` followed by an `#END#`
    | MissingKey(key: string)  // `EOF` or `EOR` absent from the headers (a KeyError)
    | EmptySeparator         // `EOF` or `EOR` is the empty string (a ValueError from split)
    | IndexOutOfRange        // a record written to a row index past the records made so far

  datatype Result<+T> = Success(value: T) | Failure(error: Error) {
    predicate IsFailure() { Failure? }
    function PropagateFailure<U>(): Result<U> requires Failure? { Failure(error) }
    function Extract(): T requires Success? { value }
  }

  type Headers = map<string, string>
  type Record = map<string, string>

  /** What `Read` returns: the headers, the field names, the records. */
  datatype Listing = Listing(headers: Headers, definitions: seq<string>, data: seq<Record>)

  // ---------------------------------------------------------------- headers

  const KeyValueSeparator: string := " : "

  predicate IsQuote(c: char) { c == '\'' || c == '"' }

  /** `re.sub(r'(^[\'"]|[\'"]$)', '', v)`: one leading and one trailing quote
      go, each on its own; a lone quote character is removed once. */
  function Unquote(v: string): (r: string)
    ensures |v| >= 2 && IsQuote(v[0]) && IsQuote(v[|v| - 1]) ==> r == v[1..|v| - 1]
    ensures |v| >= 1 && IsQuote(v[0]) && !IsQuote(v[|v| - 1]) ==> r == v[1..]
    ensures |v| >= 1 && !IsQuote(v[0]) && IsQuote(v[|v| - 1]) ==> r == v[..|v| - 1]
    ensures |v| == 1 && IsQuote(v[0]) ==> r == ""
    ensures (|v| == 0 || (!IsQuote(v[0]) && !IsQuote(v[|v| - 1]))) ==> r == v
  {
    var v' := if |v| > 0 && IsQuote(v[0]) then v[1..] else v;
    if |v'| > 0 && IsQuote(v'[|v'| - 1]) then v'[..|v'| - 1] else v'
  }

  /** `line.strip() == ''` */
  predicate IsBlank(line: string) { Strip(line) == "" }

  /** A non-blank line with a " : " in it: it yields a header entry. */
  predicate IsEntry(line: string) {
    !IsBlank(line) && |Split(line, KeyValueSeparator)| > 1
  }

  /** A non-blank line without " : ": `parts[1]` fails on it. */
  predicate IsMalformed(line: string) {
    !IsBlank(line) && |Split(line, KeyValueSeparator)| == 1
  }

  function EntryKey(line: string): string
    requires IsEntry(line)
  {
    Strip(Split(line, KeyValueSeparator)[0])
  }

  function EntryValue(line: string): string
    requires IsEntry(line)
  {
    Unquote(Strip(Split(line, KeyValueSeparator)[1]))
  }

  /** The dictionary the header loop builds from `lines`, one line at a time. */
  function Entries(lines: seq<string>): Headers
  {
    if |lines| == 0 then map[]
    else
      var before := Entries(lines[..|lines| - 1]);
      var line := lines[|lines| - 1];
      if IsEntry(line) then before[EntryKey(line) := EntryValue(line)] else before
  }

  /** The headers of the lines of a header block, or the failure a malformed
      line causes. */
  function HeaderLines(lines: seq<string>): Result<Headers>
  {
    if exists i | 0 <= i < |lines| :: IsMalformed(lines[i]) then Failure(MalformedHeaderLine)
    else Success(Entries(lines))
  }

  /** What `parse_headers` returns for the file text `contents`.
      `ParseHeaders` is its imperative form. */
  function HeadersOf(contents: string): Result<Headers>
  {
    match HeaderBlock(contents)
    case None => Failure(MissingHeader)
    case Some(block) => HeaderLines(Split(block, "\n"))
  }

  /** `parse_headers`: split the header block into lines and, for each
      non-blank one, store its key and value. */
  method ParseHeaders(contents: string) returns (r: Result<Headers>)
    ensures r == HeadersOf(contents)
  {
    var block := HeaderBlock(contents);
    if block.None? {
      return Failure(MissingHeader);
    }
    var lines := Split(block.value, "\n");
    var headers: Headers := map[];
    for i := 0 to |lines|
      invariant headers == Entries(lines[..i])
      invariant forall j :: 0 <= j < i ==> !IsMalformed(lines[j])
    {
      var line := lines[i];
      EntriesStep(lines, i);
      if Strip(line) != "" {
        var parts := Split(line, KeyValueSeparator);
        if |parts| < 2 {
          assert IsMalformed(lines[i]);
          return Failure(MalformedHeaderLine);
        }
        headers := headers[Strip(parts[0]) := Unquote(Strip(parts[1]))];
      }
    }
    assert lines[..|lines|] == lines;
    return Success(headers);
  }

  /** The header loop's step: line `i` adds its entry, if it has one. */
  lemma EntriesStep(lines: seq<string>, i: nat)
    requires i < |lines|
    ensures Entries(lines[..i + 1]) ==
              if IsEntry(lines[i]) then Entries(lines[..i])[EntryKey(lines[i]) := EntryValue(lines[i])]
              else Entries(lines[..i])
  {
    assert lines[..i + 1][..i] == lines[..i];
  }

  /** A header line is laid out as key, " : ", value, and then either nothing
      or a further " : " and text that is discarded. The key ends at the
      FIRST " : " of the line and the value at the second: no " : " starts
      inside either. */
  lemma EntryLayout(line: string)
    requires IsEntry(line)
    ensures var parts := Split(line, KeyValueSeparator);
            var v := |parts[0]| + |KeyValueSeparator|;
            && EntryKey(line) == Strip(parts[0])
            && EntryValue(line) == Unquote(Strip(parts[1]))
            && line == parts[0] + KeyValueSeparator + parts[1]
                       + (if |parts| == 2 then "" else KeyValueSeparator + Join(parts[2..], KeyValueSeparator))
            && (forall j :: 0 <= j < |parts[0]| ==> !OccursAt(line, KeyValueSeparator, j))
            && OccursAt(line, KeyValueSeparator, |parts[0]|)
            && (forall j :: v <= j < v + |parts[1]| ==> !OccursAt(line, KeyValueSeparator, j))
            && (|parts| > 2 ==> OccursAt(line, KeyValueSeparator, v + |parts[1]|))
  {
    EntryJoin(line);
    EntryBounds(line);
  }

  /** The line is the joined pieces of its split. */
  lemma EntryJoin(line: string)
    requires IsEntry(line)
    ensures var parts := Split(line, KeyValueSeparator);
            line == parts[0] + KeyValueSeparator + parts[1]
                    + (if |parts| == 2 then "" else KeyValueSeparator + Join(parts[2..], KeyValueSeparator))
  {
    var sep := KeyValueSeparator;
    var parts := Split(line, sep);
    SplitJoin(line, sep);
    assert parts == [parts[0]] + parts[1..];
    JoinCons(parts[0], parts[1..], sep);
    if |parts| > 2 {
      assert parts[1..] == [parts[1]] + parts[2..];
      JoinCons(parts[1], parts[2..], sep);
    }
  }

  /** Where the first two " : " of the line start. */
  lemma EntryBounds(line: string)
    requires IsEntry(line)
    ensures var parts := Split(line, KeyValueSeparator);
            var v := |parts[0]| + |KeyValueSeparator|;
            && (forall j :: 0 <= j < |parts[0]| ==> !OccursAt(line, KeyValueSeparator, j))
            && OccursAt(line, KeyValueSeparator, |parts[0]|)
            && (forall j :: v <= j < v + |parts[1]| ==> !OccursAt(line, KeyValueSeparator, j))
            && (|parts| > 2 ==> OccursAt(line, KeyValueSeparator, v + |parts[1]|))
  {
    SplitFirst(line, KeyValueSeparator);
    SplitSecond(line, KeyValueSeparator);
  }

  /** A key is present exactly when some entry line has it. */
  lemma {:induction false} EntriesKeys(lines: seq<string>, key: string)
    ensures key in Entries(lines) <==>
            exists i :: 0 <= i < |lines| && IsEntry(lines[i]) && EntryKey(lines[i]) == key
  {
    if |lines| > 0 {
      var init := lines[..|lines| - 1];
      EntriesKeys(init, key);
      assert forall i :: 0 <= i < |init| ==> init[i] == lines[i];
    }
  }

  /** Of the entry lines with one key, the last one sets its value. */
  lemma {:induction false} EntriesLastWins(lines: seq<string>, i: nat)
    requires i < |lines| && IsEntry(lines[i])
    requires forall j :: i < j < |lines| && IsEntry(lines[j]) ==> EntryKey(lines[j]) != EntryKey(lines[i])
    ensures EntryKey(lines[i]) in Entries(lines)
    ensures Entries(lines)[EntryKey(lines[i])] == EntryValue(lines[i])
  {
    if i < |lines| - 1 {
      var init := lines[..|lines| - 1];
      assert init[i] == lines[i];
      EntriesLastWins(init, i);
    }
  }

  /** A later entry with a key already present overwrites that key's value
      and changes no other entry. */
  lemma EntriesOverwrite(lines: seq<string>, line: string)
    requires IsEntry(line)
    ensures var before, after := Entries(lines), Entries(lines + [line]);
            && after.Keys == before.Keys + {EntryKey(line)}
            && after[EntryKey(line)] == EntryValue(line)
            && forall k :: k in before && k != EntryKey(line) ==> after[k] == before[k]
  {
    assert (lines + [line])[..|lines|] == lines;
  }

  /** A blank line anywhere among the header lines changes nothing. */
  lemma {:induction false} HeaderLinesSkipBlank(before: seq<string>, line: string, after: seq<string>)
    requires IsBlank(line)
    ensures HeaderLines(before + [line] + after) == HeaderLines(before + after)
  {
    EntriesSkipBlank(before, line, after);
    var with, without := before + [line] + after, before + after;
    if exists i | 0 <= i < |with| :: IsMalformed(with[i]) {
      var i :| 0 <= i < |with| && IsMalformed(with[i]);
      if i < |before| {
        assert without[i] == with[i];
      } else {
        assert i > |before|;
        assert without[i - 1] == with[i];
      }
    }
    if exists i | 0 <= i < |without| :: IsMalformed(without[i]) {
      var i :| 0 <= i < |without| && IsMalformed(without[i]);
      if i < |before| {
        assert with[i] == without[i];
      } else {
        assert with[i + 1] == without[i];
      }
    }
  }

  lemma {:induction false} EntriesSkipBlank(before: seq<string>, line: string, after: seq<string>)
    requires IsBlank(line)
    ensures Entries(before + [line] + after) == Entries(before + after)
  {
    if |after| == 0 {
      assert before + [line] + after == before + [line];
      assert (before + [line])[..|before|] == before;
      assert before + after == before;
    } else {
      var init := after[..|after| - 1];
      EntriesSkipBlank(before, line, init);
      assert (before + [line] + after)[..|before| + 1 + |init|] == before + [line] + init;
      assert (before + after)[..|before| + |init|] == before + init;
    }
  }

  /** Removing quotes keeps only characters of the value. */
  lemma UnquoteChars(v: string, c: char)
    requires c !in v
    ensures c !in Unquote(v)
  {
    assert forall j :: 0 <= j < |v| ==> v[j] != c;
  }

  /** An entry's key and value hold only characters of its line. */
  lemma EntryChars(line: string, c: char)
    requires IsEntry(line) && c !in line
    ensures c !in EntryKey(line) && c !in EntryValue(line)
  {
    var parts := Split(line, KeyValueSeparator);
    SplitChars(line, KeyValueSeparator, c);
    StripChars(parts[0], c);
    StripChars(parts[1], c);
    UnquoteChars(Strip(parts[1]), c);
  }

  /** A character no line holds appears in no key and no value. */
  lemma {:induction false} EntriesChars(lines: seq<string>, c: char)
    requires forall i :: 0 <= i < |lines| ==> c !in lines[i]
    ensures forall key :: key in Entries(lines) ==> c !in key && c !in Entries(lines)[key]
  {
    if |lines| > 0 {
      var init := lines[..|lines| - 1];
      EntriesChars(init, c);
      var line := lines[|lines| - 1];
      if IsEntry(line) {
        EntryChars(line, c);
      }
    }
  }

  /** No header key or value contains `#`: the header block ends at the
      first `#`, and lines, keys and values are pieces of it. In particular
      `EOF` and `EOR` never contain `#` when they come from a file. */
  lemma HeadersHaveNoHash(contents: string)
    ensures HeadersOf(contents).Success? ==>
              forall key :: key in HeadersOf(contents).value ==>
                '#' !in key && '#' !in HeadersOf(contents).value[key]
  {
    HeaderBlockSpan(contents);
    if HeaderBlock(contents).Some? {
      var block := HeaderBlock(contents).value;
      forall j | 0 <= j < |block| ensures block[j] != '#' {
        assert !OccursAt(block, "#", j);
        assert block[j..j + 1] == [block[j]];
      }
      SplitChars(block, "\n", '#');
      EntriesChars(Split(block, "\n"), '#');
    }
  }

  // ------------------------------------------------------------ definitions

  /** `parse_definitions`: the field names are the stripped `EOF`-separated
      pieces of the definition block, less a last piece equal to `EOR`. */
  function ParseDefinitions(headers: Headers, contents: string): (r: Result<seq<string>>)
    ensures |headers| == 0 ==> r == Failure(HeadersNotSet)
    ensures |headers| > 0 && DefinitionBlock(contents).None? ==> r == Failure(MissingDefinition)
    ensures |headers| > 0 && DefinitionBlock(contents).Some? ==>
              && ("EOF" !in headers ==> r == Failure(MissingKey("EOF")))
              && ("EOF" in headers && headers["EOF"] == "" ==> r == Failure(EmptySeparator))
              && ("EOF" in headers && headers["EOF"] != "" && "EOR" !in headers ==> r == Failure(MissingKey("EOR")))
    ensures r.Success? <==>
              |headers| > 0 && DefinitionBlock(contents).Some?
              && "EOF" in headers && headers["EOF"] != "" && "EOR" in headers
    ensures r.Success? ==>
              var pieces := Split(DefinitionBlock(contents).value, headers["EOF"]);
              && (|r.value| == |pieces| - 1 <==> Strip(pieces[|pieces| - 1]) == headers["EOR"])
              && (|r.value| == |pieces| || |r.value| == |pieces| - 1)
              && forall k :: 0 <= k < |r.value| ==> r.value[k] == Strip(pieces[k])
  {
    if |headers| == 0 then Failure(HeadersNotSet)
    else
      match DefinitionBlock(contents)
      case None => Failure(MissingDefinition)
      case Some(block) =>
        if "EOF" !in headers then Failure(MissingKey("EOF"))
        else if headers["EOF"] == "" then Failure(EmptySeparator)
        else
          var pieces := Split(block, headers["EOF"]);
          var definitions := StripAll(pieces);
          var last := |definitions| - 1;
          assert definitions[last] == Strip(pieces[last]);
          if "EOR" !in headers then Failure(MissingKey("EOR"))
          else if definitions[last] == headers["EOR"] then
            Success(definitions[..last])
          else Success(definitions)
  }

  // ------------------------------------------------------------------- data

  /** The stripped `EOF`-separated fields of a row. */
  function Fields(row: string, eof: string): (fields: seq<string>)
    requires |eof| > 0
  {
    StripAll(Split(row, eof))
  }

  /** A row with more than one field: the reader makes a record of it. */
  predicate IsRecordRow(row: string, eof: string)
    requires |eof| > 0
  {
    |Split(row, eof)| > 1
  }

  /** For each row, whether it is a record row. */
  function RowKinds(rows: seq<string>, eof: string): (kinds: seq<bool>)
    requires |eof| > 0
  {
    seq(|rows|, j requires 0 <= j < |rows| => IsRecordRow(rows[j], eof))
  }

  /** The number of `true`s: of record rows, for the kinds of the rows. */
  function CountTrue(kinds: seq<bool>): (n: nat)
    ensures n <= |kinds|
  {
    if |kinds| == 0 then 0
    else CountTrue(kinds[..|kinds| - 1]) + (if kinds[|kinds| - 1] then 1 else 0)
  }

  /** A `false` before a `true`: a short row before a record row. */
  predicate ShortBeforeRecord(kinds: seq<bool>) {
    exists i, j | 0 <= i < j < |kinds| :: !kinds[i] && kinds[j]
  }

  /** `names[k]` is not repeated after position `k`. */
  predicate IsLastOf(names: seq<string>, k: nat)
    requires k < |names|
  {
    forall j :: k < j < |names| ==> names[j] != names[k]
  }

  /** The dictionary made by setting `names[k]` to `values[k]` for k = 0, 1, …
      in turn. */
  function Zip(names: seq<string>, values: seq<string>): Record
    requires |names| == |values|
  {
    if |names| == 0 then map[]
    else
      var n := |names| - 1;
      Zip(names[..n], values[..n])[names[n] := values[n]]
  }

  /** The keys of `Zip(names, values)` are the names, and a repeated name
      keeps its last value. */
  lemma {:induction false} ZipContents(names: seq<string>, values: seq<string>)
    requires |names| == |values|
    ensures Zip(names, values).Keys == set k | 0 <= k < |names| :: names[k]
    ensures forall k :: 0 <= k < |names| && IsLastOf(names, k) ==>
              names[k] in Zip(names, values) && Zip(names, values)[names[k]] == values[k]
  {
    if |names| > 0 {
      var n := |names| - 1;
      var before := Zip(names[..n], values[..n]);
      ZipContents(names[..n], values[..n]);
      assert (set k | 0 <= k < n :: names[..n][k]) == (set k | 0 <= k < n :: names[k]);
      ZipKeysStep(names, before);
      ZipValuesStep(names, values, before);
    }
  }

  lemma ZipKeysStep(names: seq<string>, before: Record)
    requires |names| > 0
    requires before.Keys == set k | 0 <= k < |names| - 1 :: names[k]
    ensures before[names[|names| - 1] := ""].Keys == set k | 0 <= k < |names| :: names[k]
  {
    var n := |names| - 1;
    assert (set k | 0 <= k < |names| :: names[k]) == (set k | 0 <= k < n :: names[k]) + {names[n]};
  }

  lemma ZipValuesStep(names: seq<string>, values: seq<string>, before: Record)
    requires |names| == |values| > 0
    requires var n := |names| - 1;
             forall k :: 0 <= k < n && IsLastOf(names[..n], k) ==> names[..n][k] in before && before[names[..n][k]] == values[..n][k]
    ensures var n := |names| - 1;
            var after := before[names[n] := values[n]];
            forall k :: 0 <= k < |names| && IsLastOf(names, k) ==> names[k] in after && after[names[k]] == values[k]
  {
    var n := |names| - 1;
    forall k | 0 <= k < n && IsLastOf(names, k)
      ensures names[k] in before[names[n] := values[n]] && before[names[n] := values[n]][names[k]] == values[k]
    {
      assert IsLastOf(names[..n], k) && names[..n][k] == names[k];
    }
  }

  /** The record of a row with fields `fields`: field k under name
      `definitions[k]`, for the positions both have. */
  function RecordOf(definitions: seq<string>, fields: seq<string>): Record
  {
    var n := if |fields| < |definitions| then |fields| else |definitions|;
    Zip(definitions[..n], fields[..n])
  }

  /** A record's keys are the names of the first min(fields, names)
      positions; each holds the field at its position, and a name repeated
      in the definitions holds the field of its last position. Fields past
      the names are dropped; names past the fields are absent. */
  lemma RecordContents(definitions: seq<string>, fields: seq<string>)
    ensures var m := RecordOf(definitions, fields);
            var n := if |fields| < |definitions| then |fields| else |definitions|;
            && m.Keys == (set k | 0 <= k < n :: definitions[k])
            && forall k :: 0 <= k < n && IsLastOf(definitions[..n], k) ==>
                 definitions[k] in m && m[definitions[k]] == fields[k]
  {
    var n := if |fields| < |definitions| then |fields| else |definitions|;
    ZipContents(definitions[..n], fields[..n]);
    assert (set k | 0 <= k < n :: definitions[..n][k]) == (set k | 0 <= k < n :: definitions[k]);
  }

  /** The records of the rows: one per record row, record j made from row
      j. A short row before a record row makes the reader index past the end
      of its list of records. */
  function RowsToRecords(definitions: seq<string>, rows: seq<string>, eof: string): Result<seq<Record>>
    requires |eof| > 0
  {
    var kinds := RowKinds(rows, eof);
    if ShortBeforeRecord(kinds) then Failure(IndexOutOfRange)
    else
      var n := CountTrue(kinds);
      Success(seq(n, j requires 0 <= j < n => RecordOf(definitions, Fields(rows[j], eof))))
  }

  /** What `parse_data` returns for the file text `contents`. `ParseData` is
      its imperative form; the lemmas are about this function. */
  function DataOf(headers: Headers, definitions: seq<string>, contents: string): Result<seq<Record>>
  {
    if |definitions| == 0 then Failure(DefinitionsNotSet)
    else
      match DataBlock(contents)
      case None => Failure(MissingData)
      case Some(block) =>
        if "EOR" !in headers then Failure(MissingKey("EOR"))
        else if headers["EOR"] == "" then Failure(EmptySeparator)
        else if "EOF" !in headers then Failure(MissingKey("EOF"))
        else if headers["EOF"] == "" then Failure(EmptySeparator)
        else RowsToRecords(definitions, StripAll(Split(block, headers["EOR"])), headers["EOF"])
  }

  /** `parse_data` checks the field names before the text, and fails without
      a `#DATA#` that some `#END#` follows. */
  lemma DataNeedsDefinitionsAndBlock(headers: Headers, definitions: seq<string>, contents: string)
    ensures |definitions| == 0 ==> DataOf(headers, definitions, contents) == Failure(DefinitionsNotSet)
    ensures |definitions| > 0 && (forall p, q :: !Match(contents, "#DATA#", "#END#", p, q)) ==>
              DataOf(headers, definitions, contents) == Failure(MissingData)
    ensures DataOf(headers, definitions, contents).Success? ==>
              |definitions| > 0 && exists p, q :: Match(contents, "#DATA#", "#END#", p, q)
  {
  }

  /** `parse_data`: split the data block into rows on `EOR`, then make the
      records of the rows. */
  method ParseData(headers: Headers, definitions: seq<string>, contents: string) returns (r: Result<seq<Record>>)
    ensures r == DataOf(headers, definitions, contents)
  {
    if |definitions| == 0 {
      return Failure(DefinitionsNotSet);
    }
    var block := DataBlock(contents);
    if block.None? {
      return Failure(MissingData);
    }
    if "EOR" !in headers {
      return Failure(MissingKey("EOR"));
    }
    if headers["EOR"] == "" {
      return Failure(EmptySeparator);
    }
    var rows := StripAll(Split(block.value, headers["EOR"]));
    // `headers['EOF']` is first looked up and split on in the first pass of
    // the row loop, and there is always one: a split has at least one piece.
    if "EOF" !in headers {
      return Failure(MissingKey("EOF"));
    }
    var eof := headers["EOF"];
    if eof == "" {
      return Failure(EmptySeparator);
    }
    r := ParseRows(definitions, rows, eof);
  }

  /** The row loop of `parse_data`: for a record row append an empty record,
      then write the row's fields into `data[i]`, `i` being the ROW's index. */
  method ParseRows(definitions: seq<string>, rows: seq<string>, eof: string) returns (r: Result<seq<Record>>)
    requires |definitions| > 0 && |eof| > 0
    ensures r == RowsToRecords(definitions, rows, eof)
  {
    ghost var kinds := RowKinds(rows, eof);
    var data: seq<Record> := [];
    for i := 0 to |rows|
      invariant !ShortBeforeRecord(kinds[..i])
      invariant |data| == CountTrue(kinds[..i])
      invariant forall j :: 0 <= j < |data| ==> data[j] == RecordOf(definitions, Fields(rows[j], eof))
    {
      var fields := Fields(rows[i], eof);
      assert kinds[i] == (|fields| > 1);
      if |fields| > 1 {
        data := data + [map[]];
        var written := WriteRecord(data, i, definitions, fields);
        if written.Failure? {
          ShortRowBeforeRecordRow(kinds, i);
          return written;
        }
        data := written.value;
      }
      KindsStep(kinds, i);
    }
    assert kinds[..|rows|] == kinds;
    var n := CountTrue(kinds);
    assert data == seq(n, j requires 0 <= j < n => RecordOf(definitions, Fields(rows[j], eof)));
    return Success(data);
  }

  /** The inner loop of `parse_data`: write field k of a row under name k
      into the record `data[i]`, which starts out empty, for as many
      positions as there are both names and fields. With `i` past the end of
      `data` the first write fails. */
  method WriteRecord(data: seq<Record>, i: nat, definitions: seq<string>, fields: seq<string>)
    returns (r: Result<seq<Record>>)
    requires |definitions| > 0 && |fields| > 0
    requires i < |data| ==> data[i] == map[]
    ensures r == if i < |data| then Success(data[i := RecordOf(definitions, fields)])
                 else Failure(IndexOutOfRange)
  {
    var written := data;
    for k := 0 to |fields|
      invariant |written| == |data|
      invariant i >= |data| ==> k == 0
      invariant i < |data| ==>
                  var m := if k < |definitions| then k else |definitions|;
                  written == data[i := Zip(definitions[..m], fields[..m])]
    {
      if k < |definitions| {
        if i >= |written| {
          return Failure(IndexOutOfRange);
        }
        assert definitions[..k + 1][..k] == definitions[..k];
        assert fields[..k + 1][..k] == fields[..k];
        written := written[i := written[i][definitions[k] := fields[k]]];
      }
    }
    return Success(written);
  }

  /** A record row at index `i` after fewer than `i` record rows: some
      earlier row is short. */
  lemma ShortRowBeforeRecordRow(kinds: seq<bool>, i: nat)
    requires i < |kinds| && kinds[i] && CountTrue(kinds[..i]) < i
    ensures exists a :: 0 <= a < i && !kinds[a]
    ensures ShortBeforeRecord(kinds)
  {
    CountTrueShort(kinds[..i]);
    var a :| 0 <= a < i && !kinds[..i][a];
    assert !kinds[a];
  }

  /** One more row keeps "no short row before a record row" when it is
      short, or when every row before it is a record row. */
  lemma KindsStep(kinds: seq<bool>, i: nat)
    requires i < |kinds| && !ShortBeforeRecord(kinds[..i])
    requires kinds[i] ==> CountTrue(kinds[..i]) == i
    ensures !ShortBeforeRecord(kinds[..i + 1])
    ensures CountTrue(kinds[..i + 1]) == CountTrue(kinds[..i]) + (if kinds[i] then 1 else 0)
  {
    var prefix := kinds[..i + 1];
    assert prefix[..i] == kinds[..i];
    if kinds[i] {
      CountTrueFull(kinds[..i]);
    }
  }

  /** Fewer `true`s than elements: there is a `false`. */
  lemma {:induction false} CountTrueShort(kinds: seq<bool>)
    requires CountTrue(kinds) < |kinds|
    ensures exists a :: 0 <= a < |kinds| && !kinds[a]
  {
    var init := kinds[..|kinds| - 1];
    if kinds[|kinds| - 1] {
      CountTrueShort(init);
      var a :| 0 <= a < |init| && !init[a];
      assert !kinds[a];
    }
  }

  /** As many `true`s as elements: all are `true`. */
  lemma {:induction false} CountTrueFull(kinds: seq<bool>)
    requires CountTrue(kinds) == |kinds|
    ensures forall a :: 0 <= a < |kinds| ==> kinds[a]
  {
    if |kinds| > 0 {
      var init := kinds[..|kinds| - 1];
      CountTrueFull(init);
      assert forall a :: 0 <= a < |init| ==> kinds[a] == init[a];
    }
  }

  /** With no `false` before a `true`, the `true`s are exactly the first
      `CountTrue(kinds)` elements. */
  lemma {:induction false} TrueLead(kinds: seq<bool>)
    requires !ShortBeforeRecord(kinds)
    ensures forall j :: 0 <= j < |kinds| ==> (kinds[j] <==> j < CountTrue(kinds))
  {
    if |kinds| > 0 {
      var n := |kinds| - 1;
      var init := kinds[..n];
      assert forall i :: 0 <= i < n ==> init[i] == kinds[i];
      assert !ShortBeforeRecord(init);
      TrueLead(init);
    }
  }

  /** The records `parse_data` returns, described row by row: it fails
      exactly when a short row precedes a record row; otherwise the record
      rows are exactly the first `|data|` rows, and record j is the record of
      row j. */
  lemma RowsToRecordsShape(definitions: seq<string>, rows: seq<string>, eof: string)
    requires |eof| > 0
    ensures RowsToRecords(definitions, rows, eof).Failure? <==>
              exists i, j :: 0 <= i < j < |rows| && !IsRecordRow(rows[i], eof) && IsRecordRow(rows[j], eof)
    ensures RowsToRecords(definitions, rows, eof).Success? ==>
              var data := RowsToRecords(definitions, rows, eof).value;
              && |data| <= |rows|
              && (forall j :: 0 <= j < |rows| ==> (IsRecordRow(rows[j], eof) <==> j < |data|))
              && (forall j :: 0 <= j < |data| ==> data[j] == RecordOf(definitions, Fields(rows[j], eof)))
  {
    var kinds := RowKinds(rows, eof);
    if ShortBeforeRecord(kinds) {
      var i, j :| 0 <= i < j < |kinds| && !kinds[i] && kinds[j];
      assert !IsRecordRow(rows[i], eof) && IsRecordRow(rows[j], eof);
    } else {
      TrueLead(kinds);
      assert |RowsToRecords(definitions, rows, eof).value| == CountTrue(kinds);
      assert forall j :: 0 <= j < |rows| ==> kinds[j] == IsRecordRow(rows[j], eof);
      forall i, j | 0 <= i < j < |rows| && !IsRecordRow(rows[i], eof)
        ensures !IsRecordRow(rows[j], eof)
      {
        assert !kinds[i];
        assert !kinds[j];
      }
    }
  }

  /** A short row after the rest changes nothing. */
  lemma TrailingShortRow(definitions: seq<string>, rows: seq<string>, row: string, eof: string)
    requires |eof| > 0 && !IsRecordRow(row, eof)
    ensures RowsToRecords(definitions, rows + [row], eof) == RowsToRecords(definitions, rows, eof)
  {
    var rows' := rows + [row];
    var kinds, kinds' := RowKinds(rows, eof), RowKinds(rows', eof);
    assert kinds' == kinds + [false];
    assert kinds'[..|kinds|] == kinds;
    if ShortBeforeRecord(kinds') {
      var i, j :| 0 <= i < j < |kinds'| && !kinds'[i] && kinds'[j];
      assert !kinds[i] && kinds[j];
    }
    var n := CountTrue(kinds);
    var a := seq(n, j requires 0 <= j < n => RecordOf(definitions, Fields(rows'[j], eof)));
    var b := seq(n, j requires 0 <= j < n => RecordOf(definitions, Fields(rows[j], eof)));
    assert forall j :: 0 <= j < n ==> rows'[j] == rows[j];
    assert a == b;
  }

  // ------------------------------------------------------------------- read

  /** What `read` returns for the file text `contents`: the three stages in
      turn, the first failure ending the call. `Read` is its imperative form. */
  function ListingOf(contents: string): Result<Listing>
  {
    var headers :- HeadersOf(contents);
    var definitions :- ParseDefinitions(headers, contents);
    var data :- DataOf(headers, definitions, contents);
    Success(Listing(headers, definitions, data))
  }

  /** `read`, given the file's text. */
  method Read(contents: string) returns (r: Result<Listing>)
    ensures r == ListingOf(contents)
  {
    var headers :- ParseHeaders(contents);
    var definitions :- ParseDefinitions(headers, contents);
    var data :- ParseData(headers, definitions, contents);
    return Success(Listing(headers, definitions, data));
  }

  /** A listing that reads successfully declares non-empty `EOF` and `EOR`
      delimiters and at least one field name, and every key of every record
      is a field name. */
  lemma ListingWellFormed(contents: string)
    requires ListingOf(contents).Success?
    ensures var l := ListingOf(contents).value;
            && "EOF" in l.headers && l.headers["EOF"] != ""
            && "EOR" in l.headers && l.headers["EOR"] != ""
            && |l.definitions| > 0
            && forall j, name :: 0 <= j < |l.data| && name in l.data[j] ==> name in l.definitions
  {
    var headers := HeadersOf(contents).value;
    var definitions := ParseDefinitions(headers, contents).value;
    var block := DataBlock(contents).value;
    var eof := headers["EOF"];
    var rows := StripAll(Split(block, headers["EOR"]));
    var data := RowsToRecords(definitions, rows, eof).value;
    RowsToRecordsShape(definitions, rows, eof);
    forall j, name | 0 <= j < |data| && name in data[j]
      ensures name in definitions
    {
      var fields := Fields(rows[j], eof);
      RecordContents(definitions, fields);
      var k :| 0 <= k < |definitions| && k < |fields| && definitions[k] == name;
    }
  }

  /** Without a `#HEADER#` block the read stops at once. */
  lemma ListingNeedsHeader(contents: string)
    requires forall p :: !OccursAt(contents, "#HEADER#", p)
    ensures ListingOf(contents) == Failure(MissingHeader)
  {
  }
}

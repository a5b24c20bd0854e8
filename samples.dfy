/** Small worked cases of the reader on concrete text, with `|*|` as the
    field delimiter. */
module Samples {
  import opened Text
  import opened Blocks
  import opened Blm

  /** A text without the first character of `pat` does not contain `pat`. */
  lemma AbsentFirst(s: string, pat: string)
    requires |pat| > 0 && forall i :: 0 <= i < |s| ==> s[i] != pat[0]
    ensures FindFrom(s, pat, 0) == None
  {
    forall j | 0 <= j && j + |pat| <= |s| ensures !OccursAt(s, pat, j) {
      assert s[j..j + |pat|][0] == s[j];
    }
  }

  /** A quoted header value loses its quotes and keeps the delimiter, when
      the line is read on its own. */
  lemma QuotedHeaderLine(line: string)
    requires line == "EOR : '|#|'"
    ensures IsEntry(line) && EntryKey(line) == "EOR" && EntryValue(line) == "|#|"
  {
    var key, raw := "EOR", "'|#|'";
    assert line == key + (KeyValueSeparator + raw);
    SimpleEntry(line, key, raw);
    assert raw[1..4] == "|#|";
  }

  /** A line `key : raw` whose key and raw value hold no blank and do not
      start or end with white space. */
  lemma SimpleEntry(line: string, key: string, raw: string)
    requires |key| > 0 && !IsSpace(key[0]) && !IsSpace(key[|key| - 1]) && ' ' !in key
    requires |raw| > 0 && !IsSpace(raw[0]) && !IsSpace(raw[|raw| - 1]) && ' ' !in raw
    requires line == key + (KeyValueSeparator + raw)
    ensures IsEntry(line) && EntryKey(line) == key && EntryValue(line) == Unquote(raw)
  {
    SplitStep(key, KeyValueSeparator, raw);
    AbsentFirst(raw, KeyValueSeparator);
    assert Split(raw, KeyValueSeparator) == [raw];
    StripPlain(key);
    StripPlain(raw);
    assert line[0] == key[0] && line[|line| - 1] == raw[|raw| - 1];
    StripPlain(line);
  }

  /** A `#` inside a header value ends the header block: any file whose
      header declares `EOR` as `|#|` after `EOF` as `|*|` gets `EOR` set
      to `|`, whatever follows the `#`. */
  lemma HashInHeaderValue(text: string, rest: string)
    requires text == "#HEADER#\nEOF : '|*|'\nEOR : '|#" + rest
    ensures HeadersOf(text) == Success(map["EOF" := "|*|", "EOR" := "|"])
  {
    var block := "\nEOF : '|*|'\nEOR : '|";
    SampleHeaderBlock(text, block, rest);
    var eofLine, eorLine := "EOF : '|*|'", "EOR : '|";
    SampleHeaderLines(block, eofLine, eorLine);
    SampleHeaderEntries(eofLine, eorLine);
    ThreeLineHeaders(["", eofLine, eorLine], eofLine, eorLine);
  }

  /** A blank line and two entry lines give the two entries, the later one
      winning on a shared key. */
  lemma ThreeLineHeaders(lines: seq<string>, first: string, second: string)
    requires lines == ["", first, second] && IsEntry(first) && IsEntry(second)
    ensures HeaderLines(lines)
         == Success(map[EntryKey(first) := EntryValue(first)][EntryKey(second) := EntryValue(second)])
  {
    assert Strip("") == "";
    assert forall i | 0 <= i < |lines| :: !IsMalformed(lines[i]);
    assert lines[..2] == ["", first] && lines[..2][..1] == [""] && [""][..0] == [];
    assert Entries([""]) == map[];
    assert Entries(lines[..2]) == map[EntryKey(first) := EntryValue(first)];
  }

  lemma SampleHeaderBlock(text: string, block: string, rest: string)
    requires block == "\nEOF : '|*|'\nEOR : '|"
    requires text == "#HEADER#\nEOF : '|*|'\nEOR : '|#" + rest
    ensures HeaderBlock(text) == Some(block)
  {
    assert text == "#HEADER#" + block + ("#" + rest);
    assert text[0..8] == "#HEADER#";
    FirstAt(text, "#HEADER#", 0, 0);
    assert text[29..30] == "#";
    assert forall j :: 8 <= j < 29 ==> text[j] == block[j - 8];
    FirstAt(text, "#", 8, 29);
    assert text[8..29] == block;
  }

  lemma SampleHeaderLines(block: string, eofLine: string, eorLine: string)
    requires eofLine == "EOF : '|*|'" && eorLine == "EOR : '|"
    requires block == "\nEOF : '|*|'\nEOR : '|"
    ensures Split(block, "\n") == ["", eofLine, eorLine]
  {
    assert block == "" + ("\n" + (eofLine + ("\n" + eorLine)));
    AbsentFirst(eorLine, "\n");
    assert Split(eorLine, "\n") == [eorLine];
    SplitStep(eofLine, "\n", eorLine);
    SplitStep("", "\n", eofLine + ("\n" + eorLine));
  }

  lemma SampleHeaderEntries(eofLine: string, eorLine: string)
    requires eofLine == "EOF : '|*|'" && eorLine == "EOR : '|"
    ensures IsEntry(eofLine) && EntryKey(eofLine) == "EOF" && EntryValue(eofLine) == "|*|"
    ensures IsEntry(eorLine) && EntryKey(eorLine) == "EOR" && EntryValue(eorLine) == "|"
  {
    var eofRaw, eorRaw := "'|*|'", "'|";
    assert eofLine == "EOF" + (KeyValueSeparator + eofRaw);
    assert eorLine == "EOR" + (KeyValueSeparator + eorRaw);
    SimpleEntry(eofLine, "EOF", eofRaw);
    SimpleEntry(eorLine, "EOR", eorRaw);
    assert eofRaw[1..4] == "|*|" && eorRaw[1..] == "|";
  }

  /** Through `read`: the file below declares `EOR` as `|#|`, so its header
      block is cut and `EOR` becomes `|`; the definition block is cut inside
      the final `|#|` as well, its leftover `|` now equals `EOR` and is
      dropped, and the names are the three the format intends. */
  lemma HashInDelimiterWholeFile(text: string)
    requires text == "#HEADER#\nEOF : '|*|'\nEOR : '|#" + ("|'\n" + ("#DEFINITION#" + ("Name|*|Address|*|Price|*||" + "#|\n#")))
    ensures HeadersOf(text) == Success(map["EOF" := "|*|", "EOR" := "|"])
    ensures ParseDefinitions(map["EOF" := "|*|", "EOR" := "|"], text)
         == Success(["Name", "Address", "Price"])
  {
    HashInHeaderValue(text, "|'\n" + ("#DEFINITION#" + ("Name|*|Address|*|Price|*||" + "#|\n#")));
    var block := "Name|*|Address|*|Price|*||";
    WholeFileDefinitionBlock(text, block);
    CutEorNames(map["EOF" := "|*|", "EOR" := "|"], text, block);
  }

  lemma WholeFileDefinitionBlock(text: string, block: string)
    requires block == "Name|*|Address|*|Price|*||"
    requires text == "#HEADER#\nEOF : '|*|'\nEOR : '|#" + ("|'\n" + ("#DEFINITION#" + ("Name|*|Address|*|Price|*||" + "#|\n#")))
    ensures DefinitionBlock(text) == Some(block)
  {
    var header := "#HEADER#\nEOF : '|*|'\nEOR : '|#" + "|'\n";
    assert text == header + ("#DEFINITION#" + (block + "#|\n#"));
    WholeFileDefinitionOpen(text, header, block);
    WholeFileDefinitionClose(text, header, block);
  }

  lemma WholeFileDefinitionOpen(text: string, header: string, block: string)
    requires header == "#HEADER#\nEOF : '|*|'\nEOR : '|#" + "|'\n" && |block| == 26
    requires text == header + ("#DEFINITION#" + (block + "#|\n#"))
    ensures FindFrom(text, "#DEFINITION#", 0) == Some(33)
  {
    assert |header| == 33 && header[32] != '#';
    assert forall j :: 0 <= j < 32 ==> header[j] != '#' || header[j + 1] != 'D';
    assert forall j :: 0 <= j < 33 ==> text[j] == header[j];
    assert text[33..45] == "#DEFINITION#";
    FirstAtPair(text, "#DEFINITION#", 0, 33);
  }

  lemma WholeFileDefinitionClose(text: string, header: string, block: string)
    requires |header| == 33 && block == "Name|*|Address|*|Price|*||"
    requires text == header + ("#DEFINITION#" + (block + "#|\n#"))
    ensures FindFrom(text, "#", 45) == Some(71) && text[45..71] == block
  {
    assert text[71..72] == "#";
    assert forall j :: 45 <= j < 71 ==> text[j] == block[j - 45];
    FirstAt(text, "#", 45, 71);
  }

  /** Like `FirstAt`, for a pattern whose first character occurs earlier but
      never followed by its second. */
  lemma FirstAtPair(s: string, pat: string, from: nat, i: nat)
    requires |pat| > 1 && from <= i && OccursAt(s, pat, i)
    requires forall j :: from <= j < i ==> s[j] != pat[0] || s[j + 1] != pat[1]
    ensures FindFrom(s, pat, from) == Some(i)
  {
    var r := FindFrom(s, pat, from);
    if r.Some? {
      assert s[r.value..r.value + |pat|][0] == s[r.value];
      assert s[r.value..r.value + |pat|][1] == s[r.value + 1];
    }
  }

  /** With `EOR` set to `|`, a definition block cut inside its final `|#|`
      gives three names: the leftover `|` equals `EOR` and is dropped. */
  lemma CutEorNames(headers: Headers, text: string, block: string)
    requires headers == map["EOF" := "|*|", "EOR" := "|"]
    requires block == "Name|*|Address|*|Price|*||" && DefinitionBlock(text) == Some(block)
    ensures ParseDefinitions(headers, text) == Success(["Name", "Address", "Price"])
  {
    var names := ["Name", "Address", "Price", "|"];
    SampleDefinitionSplit(block, headers["EOF"]);
    SampleNamesStripped(names);
    assert names[3] == headers["EOR"];
    assert names[..3] == ["Name", "Address", "Price"];
  }

  /** A row with fewer fields than names: the missing names are absent. */
  lemma RaggedRow(definitions: seq<string>, row: string, eof: string)
    requires definitions == ["A", "B", "C"] && row == "x|*|y" && eof == "|*|"
    ensures RecordOf(definitions, Fields(row, eof)) == map["A" := "x", "B" := "y"]
  {
    var x, y := "x", "y";
    assert row == x + (eof + y);
    SplitStep(x, eof, y);
    assert FindFrom(y, eof, 0) == None;
    assert Split(y, eof) == [y];
    StripPlain(x);
    StripPlain(y);
    var fields := Fields(row, eof);
    assert fields == [x, y];
    assert definitions[..2] == ["A", "B"] && fields[..2] == fields;
    assert ["A", "B"][..1] == ["A"] && fields[..1] == [x];
    assert ["A"][..0] == [] && [x][..0] == [];
    assert Zip(["A"], [x]) == map["A" := x];
  }

  /** The first occurrence of `pat` from `from` on is at `i` when none of the
      characters in between starts `pat`. */
  lemma FirstAt(s: string, pat: string, from: nat, i: nat)
    requires |pat| > 0 && from <= i && OccursAt(s, pat, i)
    requires forall j :: from <= j < i ==> s[j] != pat[0]
    ensures FindFrom(s, pat, from) == Some(i)
  {
    var r := FindFrom(s, pat, from);
    if r.Some? {
      assert s[r.value..r.value + |pat|][0] == s[r.value];
    }
  }

  /** Rows before a record row that have one field make the reader fail. */
  lemma EarlyShortRow()
    ensures RowsToRecords(["A", "B", "C"], ["", "x|*|y"], "|*|") == Failure(IndexOutOfRange)
  {
    var rows := ["", "x|*|y"];
    assert Split("", "|*|") == [""];
    var row := rows[1];
    assert row[1..4] == "|*|";
    FirstAt(row, "|*|", 0, 1);
    SplitHead(row, "|*|", 1);
    var kinds := RowKinds(rows, "|*|");
    assert !kinds[0] && kinds[1];
  }

  /** An empty row after the last record, left by a final `EOR`, adds no
      record. */
  lemma TrailingEmptyRow(definitions: seq<string>, rows: seq<string>, eof: string)
    requires definitions == ["A", "B", "C"] && eof == "|*|" && rows == ["x|*|y", ""]
    ensures RowsToRecords(definitions, rows, eof) == Success([map["A" := "x", "B" := "y"]])
  {
    var row := "x|*|y";
    assert FindFrom("", eof, 0) == None;
    assert !IsRecordRow("", eof);
    assert rows == [row] + [""];
    TrailingShortRow(definitions, [row], "", eof);
    assert row == "x" + (eof + "y");
    SplitStep("x", eof, "y");
    assert FindFrom("y", eof, 0) == None;
    assert Split(row, eof) == ["x", "y"];
    var kinds := RowKinds([row], eof);
    assert kinds[0];
    assert kinds[..0] == [] && kinds == kinds[..0] + [true];
    assert CountTrue(kinds) == 1;
    assert !ShortBeforeRecord(kinds);
    RaggedRow(definitions, row, eof);
    var r := RowsToRecords(definitions, [row], eof);
    assert r.Success? && |r.value| == 1;
    assert r.value[0] == RecordOf(definitions, Fields(row, eof));
    assert RecordOf(definitions, Fields(row, eof)) == map["A" := "x", "B" := "y"];
    assert r.value == [map["A" := "x", "B" := "y"]];
  }

  /** A `#` inside a delimiter cuts the definition block short: called with
      `EOR` set to `|#|` by hand, the block ends inside the final `|#|`, the
      leftover `|` is not `EOR`, and it stays as a fourth field name. */
  lemma HashInDelimiter(headers: Headers, text: string)
    requires headers == map["EOF" := "|*|", "EOR" := "|#|"]
    requires text == "#DEFINITION#Name|*|Address|*|Price|*||#|\n#"
    ensures ParseDefinitions(headers, text) == Success(["Name", "Address", "Price", "|"])
  {
    var block := "Name|*|Address|*|Price|*||";
    var names := ["Name", "Address", "Price", "|"];
    SampleDefinitionBlock(text, block);
    SampleDefinitionSplit(block, headers["EOF"]);
    SampleNamesStripped(names);
    assert names[3] != headers["EOR"];
  }

  lemma SampleNamesStripped(names: seq<string>)
    requires names == ["Name", "Address", "Price", "|"]
    ensures StripAll(names) == names
  {
    StripPlain(names[0]);
    StripPlain(names[1]);
    StripPlain(names[2]);
    StripPlain(names[3]);
  }

  lemma SampleDefinitionBlock(text: string, block: string)
    requires block == "Name|*|Address|*|Price|*||"
    requires text == "#DEFINITION#Name|*|Address|*|Price|*||#|\n#"
    ensures DefinitionBlock(text) == Some(block)
  {
    SampleDefinitionOpen(text);
    SampleDefinitionClose(text, block);
  }

  lemma SampleDefinitionOpen(text: string)
    requires text == "#DEFINITION#Name|*|Address|*|Price|*||#|\n#"
    ensures FindFrom(text, "#DEFINITION#", 0) == Some(0)
  {
    assert text[0..12] == "#DEFINITION#";
    FirstAt(text, "#DEFINITION#", 0, 0);
  }

  lemma SampleDefinitionClose(text: string, block: string)
    requires block == "Name|*|Address|*|Price|*||"
    requires text == "#DEFINITION#Name|*|Address|*|Price|*||#|\n#"
    ensures FindFrom(text, "#", 12) == Some(38) && text[12..38] == block
  {
    assert text == "#DEFINITION#" + block + "#|\n#";
    assert text[38..39] == "#";
    assert forall j :: 12 <= j < 38 ==> text[j] == block[j - 12];
    FirstAt(text, "#", 12, 38);
  }

  lemma SampleDefinitionSplit(block: string, sep: string)
    requires sep == "|*|" && block == "Name|*|Address|*|Price|*||"
    ensures Split(block, sep) == ["Name", "Address", "Price", "|"]
  {
    SampleDefinitionLayout(block, sep);
    SplitFour("Name", "Address", "Price", "|", sep);
  }

  lemma SampleDefinitionLayout(block: string, sep: string)
    requires sep == "|*|" && block == "Name|*|Address|*|Price|*||"
    ensures block == "Name" + (sep + ("Address" + (sep + ("Price" + (sep + "|")))))
  {
  }

  /** Four pieces, none but the last holding the separator's first
      character and the last shorter than the separator, split apart again. */
  lemma SplitFour(a: string, b: string, c: string, d: string, sep: string)
    requires |sep| > 0 && sep[0] !in a && sep[0] !in b && sep[0] !in c && |d| < |sep|
    ensures Split(a + (sep + (b + (sep + (c + (sep + d))))), sep) == [a, b, c, d]
  {
    assert FindFrom(d, sep, 0) == None;
    assert Split(d, sep) == [d];
    SplitStep(c, sep, d);
    SplitStep(b, sep, c + (sep + d));
    SplitStep(a, sep, b + (sep + (c + (sep + d))));
  }

  /** A text that neither starts nor ends with white space is its own strip. */
  lemma StripPlain(s: string)
    requires |s| > 0 && !IsSpace(s[0]) && !IsSpace(s[|s| - 1])
    ensures Strip(s) == s
  {
  }

  /** Splitting `head + sep + rest`, where `head` holds no character that
      starts `sep`, gives `head` and then the pieces of `rest`. */
  lemma SplitStep(head: string, sep: string, rest: string)
    requires |sep| > 0 && sep[0] !in head
    ensures Split(head + (sep + rest), sep) == [head] + Split(rest, sep)
  {
    var s := head + (sep + rest);
    assert s[|head|..|head| + |sep|] == sep;
    assert forall j :: 0 <= j < |head| ==> s[j] == head[j];
    FirstAt(s, sep, 0, |head|);
    SplitHead(s, sep, |head|);
    assert s[..|head|] == head && s[|head| + |sep|..] == rest;
  }
}

/** The columns of RegInfo: parsing the list of those wanted, and the rows written for them. */
module RegInfo {
  import opened Windows
  import opened CommaList
  import opened AsciiCase

  datatype Column =
    | ComputerName | TermName | TermDescription | LastModDate | KeyName | KeyTree
    | ValueName | ValueType | ValueSize | ValueFlag | Value | ValueDumpFile

  /** A combination of columns, one bit each. */
  type Columns = set<Column>

  const TIMELINE: Columns := {LastModDate, KeyName}
  const ALL: Columns :=
    {ComputerName, TermName, TermDescription, LastModDate, KeyName, KeyTree,
     ValueName, ValueType, ValueSize, ValueFlag, Value, ValueDumpFile}

  datatype Description = Description(columns: Columns, name: string)

  const INFO_DESCRIPTION := [
    Description({ComputerName}, "ComputerName"),
    Description({TermName}, "TemplateName"),
    Description({TermDescription}, "TermDescription"),
    Description({LastModDate}, "LastModificationDate"),
    Description({KeyName}, "KeyName"),
    Description({KeyTree}, "KeyTree"),
    Description({ValueName}, "ValueName"),
    Description({ValueType}, "ValueType"),
    Description({ValueSize}, "ValueSize"),
    Description({ValueFlag}, "ValueFlag"),
    Description({Value}, "ValueData"),
    Description({ValueDumpFile}, "ValueDumpFile")]

  const ALIAS_DESCRIPTION := [Description(TIMELINE, "TimeLine"), Description(ALL, "All")]

  // ------------------------------------------------------- parsing the columns

  /** The columns of the first entry with this name. */
  function Find(table: seq<Description>, name: string): Columns {
    if table == [] then {}
    else if SameText(name, table[0].name) then table[0].columns
    else Find(table[1..], name)
  }

  function Lookup(token: string): Columns {
    Find(INFO_DESCRIPTION, token) + Find(ALIAS_DESCRIPTION, token)
  }

  function Combined(tokens: seq<string>): Columns {
    if tokens == [] then {} else Combined(tokens[..|tokens| - 1]) + Lookup(tokens[|tokens| - 1])
  }

  const MAX_PATH: nat := 260

  /** What the buffer holds: the list and a comma, as far as they fit with the terminating null. */
  function Buffered(list: string): (text: string)
    ensures |text| < MAX_PATH
  {
    if |list| + 1 < MAX_PATH then list + "," else list[..MAX_PATH - 1]
  }

  /** The tokens followed by a comma. */
  function Ended(text: string): seq<string> {
    Split(text)[..|Split(text)| - 1]
  }

  /** The string that starts at an index of a buffer. */
  method StringAt(buffer: array<char>, from: nat, ghost end: nat) returns (s: string)
    requires from <= end < buffer.Length && buffer[end] == '\0'
    requires forall i :: from <= i < end ==> buffer[i] != '\0'
    ensures s == buffer[from..end]
  {
    var at := from;
    while buffer[at] != '\0'
      invariant from <= at <= end
      decreases end - at
    {
      at := at + 1;
    }
    s := buffer[from..at];
  }

  method FindEntry(table: seq<Description>, name: string) returns (columns: Columns)
    ensures columns == Find(table, name)
  {
    var i := 0;
    while i < |table|
      invariant i <= |table| && Find(table, name) == Find(table[i..], name)
    {
      if SameText(name, table[i].name) {
        return table[i].columns;
      }
      i := i + 1;
    }
    columns := {};
  }

  /** Looks up the token that ends at a comma, cutting the buffer there and mending it again. */
  method LookupToken(buffer: array<char>, from: nat, end: nat) returns (columns: Columns)
    requires from <= end < buffer.Length && buffer[end] == ','
    requires forall i :: from <= i < end ==> buffer[i] != '\0'
    modifies buffer
    ensures columns == Lookup(old(buffer[from..end]))
    ensures buffer[..] == old(buffer[..])
  {
    ghost var before := buffer[..];
    buffer[end] := '\0';
    var token := StringAt(buffer, from, end);
    assert token == before[from..end];
    columns := FindEntry(INFO_DESCRIPTION, token);
    var aliases := FindEntry(ALIAS_DESCRIPTION, token);
    columns := columns + aliases;
    buffer[end] := ',';
    assert buffer[..] == before;
  }

  /** Looks up every token of a buffer. */
  method ParseBuffer(buffer: array<char>, length: nat) returns (columns: Columns)
    requires length < buffer.Length && forall i :: 0 <= i < length ==> buffer[i] != '\0'
    modifies buffer
    ensures columns == Combined(Ended(old(buffer[..length])))
    ensures buffer[..] == old(buffer[..])
  {
    hide Lookup, Split, Combined, Ended, Parsed;
    ghost var all := buffer[..];
    ghost var text := all[..length];
    columns := {};
    var cur := 0;
    NothingParsed(text);
    for i := 0 to length
      invariant cur <= i && buffer[..] == all && Parsed(text, i, cur, columns)
    {
      if buffer[i] == ',' {
        assert buffer[cur..i] == text[cur..i];
        var found := LookupToken(buffer, cur, i);
        ParsedComma(text, i, cur, columns);
        columns := columns + found;
        cur := i + 1;
      } else {
        ParsedOther(text, i, cur, columns);
      }
    }
    ParsedAll(text, cur, columns);
  }

  /** The columns of the first `i` characters are combined, but for the token from `cur` on. */
  ghost predicate Parsed(text: string, i: nat, cur: nat, columns: Columns)
    requires cur <= i <= |text|
  {
    && Split(text[..i])[|Split(text[..i])| - 1] == text[cur..i]
    && columns == Combined(Ended(text[..i]))
  }

  lemma NothingParsed(text: string)
    ensures Parsed(text, 0, 0, {})
  {
    assert text[..0] == "";
  }

  lemma ParsedComma(text: string, i: nat, cur: nat, columns: Columns)
    requires cur <= i < |text| && Parsed(text, i, cur, columns) && text[i] == ','
    ensures Parsed(text, i + 1, i + 1, columns + Lookup(text[cur..i]))
  {
    hide Lookup, Combined, Split, Ended;
    assert text[..i + 1] == text[..i] + ",";
    SplitAppend(text[..i], ',');
    EndedAtComma(text[..i]);
  }

  lemma ParsedOther(text: string, i: nat, cur: nat, columns: Columns)
    requires cur <= i < |text| && Parsed(text, i, cur, columns) && text[i] != ','
    ensures Parsed(text, i + 1, cur, columns)
  {
    hide Lookup, Combined, Split, Ended;
    assert text[..i + 1] == text[..i] + [text[i]];
    SplitAppend(text[..i], text[i]);
    EndedGoesOn(text[..i], text[i]);
  }

  lemma ParsedAll(text: string, cur: nat, columns: Columns)
    requires cur <= |text| && Parsed(text, |text|, cur, columns)
    ensures columns == Combined(Ended(text))
  {
    assert text[..|text|] == text;
  }

  lemma EndedAtComma(text: string)
    ensures var last := Split(text)[|Split(text)| - 1];
            Combined(Ended(text + ",")) == Combined(Ended(text)) + Lookup(last)
  {
    hide Lookup;
    SplitAppend(text, ',');
    assert Ended(text + ",") == Split(text);
  }

  lemma EndedGoesOn(text: string, c: char)
    requires c != ','
    ensures Ended(text + [c]) == Ended(text)
  {
    SplitAppend(text, c);
  }

  method GetRegInfoType(params: Option<string>) returns (columns: Columns)
    requires params.Some? ==> '\0' !in params.value
    ensures columns == if params.None? then {} else Combined(Ended(Buffered(params.value)))
    ensures params.Some? && |params.value| <= MAX_PATH - 2 ==> columns == Combined(Split(params.value))
  {
    if params.None? {
      return {};
    }
    var text := Buffered(params.value);
    assert forall i :: 0 <= i < |text| ==> text[i] == ',' || text[i] in params.value;
    var buffer := new char[MAX_PATH](i => if 0 <= i < |text| then text[i] else '\0');
    assert buffer[..|text|] == text;
    columns := ParseBuffer(buffer, |text|);
    if |params.value| <= MAX_PATH - 2 {
      SplitAppend(params.value, ',');
      assert Ended(text) == Split(params.value);
    }
  }

  /** The tokens of a list that are followed by a comma within its first `n` characters. */
  lemma {:induction false} EndedIsPrefix(list: string, n: nat)
    requires n <= |list|
    ensures Commas(list[..n]) < |Split(list)| && Ended(list[..n]) == Split(list)[..Commas(list[..n])]
  {
    hide Split, Commas;
    if n == |list| {
      assert list[..n] == list;
    } else {
      var m := |list| - 1;
      EndedIsPrefix(list[..m], n);
      assert list[..m][..n] == list[..n] && list == list[..m] + [list[m]];
      SplitAppend(list[..m], list[m]);
    }
  }

  lemma {:induction false} CombinedGrows(tokens: seq<string>, more: seq<string>)
    ensures Combined(tokens + more) == Combined(tokens) <==>
      forall k :: 0 <= k < |more| ==> Lookup(more[k]) <= Combined(tokens)
  {
    hide Lookup, Combined;
    CombinedConcat(tokens, more);
    if Combined(tokens + more) == Combined(tokens) {
      forall k, column | 0 <= k < |more| && column in Lookup(more[k]) ensures column in Combined(tokens) {
        CombinedIff(more, column);
      }
    } else {
      var column :| column in Combined(more) && column !in Combined(tokens);
      CombinedIff(more, column);
    }
  }

  /** A list too long for the buffer loses its tokens from the one on that is not ended by a comma within the first
      259 characters; nothing is lost exactly when they ask for no column of their own. */
  lemma {:induction false} LongListIff(list: string)
    requires |list| > MAX_PATH - 2
    ensures var tokens, kept := Split(list), Commas(list[..MAX_PATH - 1]);
            && kept < |tokens| && Combined(Ended(Buffered(list))) == Combined(tokens[..kept])
            && (Combined(Ended(Buffered(list))) == Combined(tokens) <==>
                  forall k :: kept <= k < |tokens| ==> Lookup(tokens[k]) <= Combined(tokens[..kept]))
  {
    hide Lookup, Combined, Split, Commas, Ended;
    var tokens, kept := Split(list), Commas(list[..MAX_PATH - 1]);
    EndedIsPrefix(list, MAX_PATH - 1);
    CombinedGrows(tokens[..kept], tokens[kept..]);
    assert tokens == tokens[..kept] + tokens[kept..];
    assert forall k :: kept <= k < |tokens| ==> tokens[k] == tokens[kept..][k - kept];
  }

  function Padding(n: nat): string {
    if n == 0 then "" else Padding(n - 1) + "x"
  }

  lemma {:induction false} PaddingIs(n: nat)
    ensures |Padding(n)| == n && forall i :: 0 <= i < n ==> Padding(n)[i] == 'x'
  {
    if n > 0 { PaddingIs(n - 1); }
  }

  /** A name of 251 characters, a comma and "KeyName": one character too many, and the key name is not selected. */
  lemma LastTokenIsLost()
    ensures var list := Padding(251) + "," + "KeyName";
            && |list| == 259 && Combined(Split(list)) == {KeyName}
            && Combined(Ended(Buffered(list))) == {}
  {
    hide Combined, Split, Lookup, Padding;
    var first := Padding(251);
    var list := first + "," + "KeyName";
    PaddingIs(251);
    assert Buffered(list) == list;
    SplitConcat(first, "KeyName");
    SplitNoComma(first);
    SplitNoComma("KeyName");
    assert Ended(list) == [first] by { hide Buffered; assert Split(list) == [first, "KeyName"]; }
    CombinedPair(first, "KeyName");
    LookupKeyName();
    LookupLong(first);
  }

  lemma CombinedPair(first: string, second: string)
    ensures Combined([first]) == Lookup(first) && Combined([first, second]) == Lookup(first) + Lookup(second)
  {
    hide Lookup;
    assert [first, second][..1] == [first] && [first][..0] == [];
  }

  lemma LookupLong(name: string)
    requires |name| > 20
    ensures Lookup(name) == {}
  {
    hide Find;
    FindByName(INFO_DESCRIPTION, name, |INFO_DESCRIPTION|);
    FindByName(ALIAS_DESCRIPTION, name, |ALIAS_DESCRIPTION|);
  }

  lemma LookupKeyName()
    ensures Lookup("KeyName") == {KeyName}
  {
    ColumnOfName(4);
  }

  /** The names differ in length, or somewhere even in upper case. */
  ghost predicate Differ(a: string, b: string) {
    |a| != |b| || exists i :: 0 <= i < |a| && ToUpper(a[i]) != ToUpper(b[i])
  }

  /** A name is found at the first entry from which it does not differ, if that is the one, and not at all if there is
      none. */
  lemma {:induction false} FindByName(table: seq<Description>, name: string, at: nat)
    requires at <= |table| && forall k :: 0 <= k < at ==> Differ(name, table[k].name)
    requires at < |table| ==> table[at].name == name
    ensures Find(table, name) == if at < |table| then table[at].columns else {}
  {
    if at > 0 {
      DifferIsNotSame(name, table[0].name);
      FindByName(table[1..], name, at - 1);
    }
  }

  lemma DifferIsNotSame(a: string, b: string)
    ensures Differ(a, b) <==> !SameText(a, b)
  {
    SameTextIsEquivalence(a, b, a);
  }

  /** Names are found whatever the case of their letters. */
  lemma {:induction false} LookupIgnoresCase(a: string, b: string)
    requires SameText(a, b)
    ensures Lookup(a) == Lookup(b)
  {
    FindIgnoresCase(INFO_DESCRIPTION, a, b);
    FindIgnoresCase(ALIAS_DESCRIPTION, a, b);
  }

  lemma {:induction false} FindIgnoresCase(table: seq<Description>, a: string, b: string)
    requires SameText(a, b)
    ensures Find(table, a) == Find(table, b)
  {
    if table != [] { FindIgnoresCase(table[1..], a, b); }
  }

  /** The names of the columns, in the order of their flags. */
  const NAMES := ["ComputerName", "TemplateName", "TermDescription", "LastModificationDate", "KeyName", "KeyTree",
                  "ValueName", "ValueType", "ValueSize", "ValueFlag", "ValueData", "ValueDumpFile"]
  const COLUMNS := [ComputerName, TermName, TermDescription, LastModDate, KeyName, KeyTree,
                    ValueName, ValueType, ValueSize, ValueFlag, Value, ValueDumpFile]

  lemma NamesDiffer(k: nat, j: nat)
    requires j < k < 12
    ensures Differ(NAMES[k], NAMES[j])
  {
    var a, b := NAMES[k], NAMES[j];
    if |a| == |b| {
      if k == 1 {
        assert a[0] == 'T' && b[0] == 'C';
      } else if k == 5 {
        assert a[3] == 'T' && b[3] == 'N';
      } else {
        assert a[5] in {'N', 'T', 'S', 'F', 'D'} && b[5] in {'N', 'T', 'S', 'F', 'D'} && a[5] != b[5];
      }
    }
  }

  lemma NotAnAlias(k: nat)
    requires k < 12
    ensures Find(ALIAS_DESCRIPTION, NAMES[k]) == {}
  {
    FindByName(ALIAS_DESCRIPTION, NAMES[k], 2);
  }

  /** Each column name asks for its own column. */
  lemma {:induction false} ColumnOfName(k: nat)
    requires k < 12
    ensures Lookup(NAMES[k]) == {COLUMNS[k]}
  {
    hide Find, Differ;
    assert INFO_DESCRIPTION[k].name == NAMES[k] && INFO_DESCRIPTION[k].columns == {COLUMNS[k]};
    forall j | 0 <= j < k ensures Differ(NAMES[k], INFO_DESCRIPTION[j].name) {
      NamesDiffer(k, j);
      assert INFO_DESCRIPTION[j].name == NAMES[j];
    }
    FindByName(INFO_DESCRIPTION, NAMES[k], k);
    NotAnAlias(k);
  }

  /** One alias asks for the time line. */
  lemma TimeLineAsksFor()
    ensures Lookup("TimeLine") == {LastModDate, KeyName}
  {
    hide Find, Differ;
    NoColumnNamed("TimeLine");
    FindByName(ALIAS_DESCRIPTION, "TimeLine", 0);
  }

  /** The other asks for every column. */
  lemma AllAsksFor(column: Column)
    ensures column in Lookup("All")
  {
    hide Find;
    assert Differ("All", "TimeLine");
    FindByName(ALIAS_DESCRIPTION, "All", 1);
  }

  lemma NoColumnNamed(name: string)
    requires |name| == 8
    ensures Find(INFO_DESCRIPTION, name) == {}
  {
    hide Find;
    FindByName(INFO_DESCRIPTION, name, 12);
  }

  lemma {:induction false} CombinedConcat(a: seq<string>, b: seq<string>)
    ensures Combined(a + b) == Combined(a) + Combined(b)
  {
    hide Lookup;
    if b == [] {
      assert a + b == a;
    } else {
      var n := |b| - 1;
      CombinedConcat(a, b[..n]);
      assert (a + b)[..|a| + n] == a + b[..n];
    }
  }

  /** Parsing two lists joined by a comma combines what each of them gives. */
  lemma ParseConcat(a: string, b: string)
    ensures Combined(Split(a + "," + b)) == Combined(Split(a)) + Combined(Split(b))
  {
    SplitConcat(a, b);
    CombinedConcat(Split(a), Split(b));
  }

  /** A column is wanted exactly when some token asks for it, so order and repetition do not matter. */
  lemma {:induction false} CombinedIff(tokens: seq<string>, column: Column)
    ensures column in Combined(tokens) <==> exists k :: 0 <= k < |tokens| && column in Lookup(tokens[k])
  {
    hide Lookup;
    if tokens != [] {
      var n := |tokens| - 1;
      CombinedIff(tokens[..n], column);
      if k :| 0 <= k < n && column in Lookup(tokens[..n][k]) { assert column in Lookup(tokens[k]); }
      if k :| 0 <= k < |tokens| && column in Lookup(tokens[k]) {
        if k < n { assert column in Lookup(tokens[..n][k]); }
      }
    }
  }

  // ---------------------------------------------------------------- the rows

  datatype Presence = NotInHive | DumpFile | Present | HasBadChars

  /** What a cell holds: a field of the match that its column names, the presence of a value, or its data. */
  datatype Cell =
    | Nothing
    | Field(column: Column)
    | Flag(flag: Presence)
    | Bytes(bytes: seq<nat>)
    | WideText(text: seq<nat>)

  datatype RegType =
    | RegNone | RegSZ | RegExpandSZ | RegBinary | RegDWORD | RegDWORDBigEndian | RegLink | RegMultiSZ
    | RegResourceList | RegFullResourceDescriptor | RegResourceRequirementsList | RegQWORD | RegOther

  /** A value found in a hive: its type and data, whose length is `|data.value|` when it is there. */
  datatype ValueMatch = ValueMatch(regType: RegType, data: Option<seq<nat>>, length: nat)

  const OUTPUT_BAD_CHARS: seq<nat> := [10, 34]

  /** The wide characters of some bytes; an odd last byte is dropped. */
  function WideChars(data: seq<nat>): seq<nat> {
    seq(|data| / 2, i requires 0 <= i < |data| / 2 => data[2 * i] + 0x100 * data[2 * i + 1])
  }

  ghost predicate HasBadChar(text: seq<nat>) {
    exists j :: 0 <= j < |text| && text[j] in OUTPUT_BAD_CHARS
  }

  method ContainsBadChars(text: seq<nat>) returns (bad: bool)
    ensures bad <==> HasBadChar(text)
  {
    var i := 0;
    while i < |OUTPUT_BAD_CHARS|
      invariant i <= |OUTPUT_BAD_CHARS|
      invariant forall j :: 0 <= j < |text| ==> text[j] !in OUTPUT_BAD_CHARS[..i]
    {
      for j := 0 to |text|
        invariant forall k :: 0 <= k < j ==> text[k] != OUTPUT_BAD_CHARS[i]
      {
        if text[j] == OUTPUT_BAD_CHARS[i] {
          return true;
        }
      }
      i := i + 1;
    }
    bad := false;
  }

  predicate IsString(t: RegType) { t in {RegSZ, RegMultiSZ, RegExpandSZ} }

  /** The types whose data goes into the value cell. */
  predicate IsPrintable(t: RegType) {
    IsString(t) || t in {RegBinary, RegDWORDBigEndian, RegDWORD, RegQWORD}
  }

  ghost function PresenceOf(v: ValueMatch, limit: nat): Presence {
    if v.data.None? then NotInHive
    else if v.length > limit then DumpFile
    else if IsString(v.regType) && HasBadChar(WideChars(v.data.value)) then HasBadChars
    else Present
  }

  // ---------------------------------------------------- the data of a value

  function Reversed(data: seq<nat>): (r: seq<nat>)
    ensures |r| == |data|
  {
    seq(|data|, i requires 0 <= i < |data| => data[|data| - 1 - i])
  }

  method ReverseBytes(data: seq<nat>) returns (r: seq<nat>)
    ensures r == Reversed(data)
  {
    var buffer := new nat[|data|];
    var left := |data|;
    while left > 0
      invariant 0 <= left <= |data|
      invariant forall k :: 0 <= k < |data| - left ==> buffer[k] == data[|data| - 1 - k]
    {
      buffer[|data| - left] := data[left - 1];
      left := left - 1;
    }
    r := buffer[..];
  }

  /** The number some bytes denote, the least significant one first. */
  function LittleEndian(data: seq<nat>): nat {
    if data == [] then 0 else data[0] + 0x100 * LittleEndian(data[1..])
  }

  function BigEndian(data: seq<nat>): nat {
    if data == [] then 0 else 0x100 * BigEndian(data[..|data| - 1]) + data[|data| - 1]
  }

  /** The bytes of an integer, reversed, read as that integer from left to right. */
  lemma {:induction false} ReversedReadsAsNumber(data: seq<nat>)
    ensures BigEndian(Reversed(data)) == LittleEndian(data)
  {
    if data != [] {
      ReversedReadsAsNumber(data[1..]);
      assert Reversed(data)[..|data| - 1] == Reversed(data[1..]);
    }
  }

  /** The string at the front of a text, up to a null character. */
  function FirstString(text: seq<nat>): (s: seq<nat>)
    ensures |s| <= |text|
  {
    if text == [] || text[0] == 0 then [] else [text[0]] + FirstString(text[1..])
  }

  /** The strings of a text, each ended by a null character. */
  function Strings(text: seq<nat>): seq<seq<nat>>
    decreases |text|
  {
    if text == [] then []
    else
      var s := FirstString(text);
      [s] + if |s| < |text| then Strings(text[|s| + 1..]) else []
  }

  const SEPARATOR: seq<nat> := [32, 60, 62, 32]

  function Joined(strings: seq<seq<nat>>): seq<nat> {
    if strings == [] then [] else strings[0] + SEPARATOR + Joined(strings[1..])
  }

  method StringFrom(text: seq<nat>, from: nat) returns (s: seq<nat>)
    requires from <= |text|
    ensures s == FirstString(text[from..])
  {
    s := [];
    while from + |s| < |text| && text[from + |s|] != 0
      invariant from + |s| <= |text|
      invariant FirstString(text[from..]) == s + FirstString(text[from + |s|..])
    {
      assert text[from + |s|..][1..] == text[from + |s| + 1..];
      s := s + [text[from + |s|]];
    }
  }

  /** The strings from an index on, if any, joined. */
  ghost function JoinedFrom(text: seq<nat>, cur: nat): seq<nat> {
    if cur < |text| then Joined(Strings(text[cur..])) else []
  }

  method JoinStrings(text: seq<nat>) returns (joined: seq<nat>)
    ensures joined == Joined(Strings(text))
  {
    hide Joined, Strings, FirstString, JoinedFrom;
    var cur := 0;
    joined := [];
    JoinedFromEnds(text);
    while cur < |text|
      invariant Joined(Strings(text)) == joined + JoinedFrom(text, cur)
      decreases |text| - cur
    {
      JoinNext(text, cur);
      var s := StringFrom(text, cur);
      joined := joined + s + SEPARATOR;
      cur := cur + |s| + 1;
    }
    assert JoinedFrom(text, cur) == [] by { JoinedFromEnds(text); }
  }

  lemma JoinedFromEnds(text: seq<nat>)
    ensures JoinedFrom(text, 0) == Joined(Strings(text)) && forall cur :: cur >= |text| ==> JoinedFrom(text, cur) == []
  {
    assert text[0..] == text;
  }

  lemma JoinNext(text: seq<nat>, cur: nat)
    requires cur < |text|
    ensures var s := FirstString(text[cur..]);
            JoinedFrom(text, cur) == s + SEPARATOR + JoinedFrom(text, cur + |s| + 1)
  {
    hide FirstString;
    var rest := text[cur..];
    var s := FirstString(rest);
    var tail := if |s| < |rest| then Strings(rest[|s| + 1..]) else [];
    assert Strings(rest) == [s] + tail && ([s] + tail)[1..] == tail;
    assert Joined([s] + tail) == s + SEPARATOR + Joined(tail);
    assert Joined(tail) == JoinedFrom(text, cur + |s| + 1) by {
      if |s| < |rest| { assert rest[|s| + 1..] == text[cur + |s| + 1..]; }
    }
  }

  function Terminated(strings: seq<seq<nat>>): seq<nat> {
    if strings == [] then [] else strings[0] + [0] + Terminated(strings[1..])
  }

  /** Null-terminated strings are told apart again, the empty ones included. */
  lemma {:induction false} StringsOfTerminated(strings: seq<seq<nat>>)
    requires forall k :: 0 <= k < |strings| ==> 0 !in strings[k]
    ensures Strings(Terminated(strings)) == strings
  {
    if strings != [] {
      StringsOfTerminated(strings[1..]);
      var text := Terminated(strings);
      FirstOfTerminated(strings[0], Terminated(strings[1..]));
      assert text[|strings[0]| + 1..] == Terminated(strings[1..]);
    }
  }

  lemma {:induction false} FirstOfTerminated(s: seq<nat>, rest: seq<nat>)
    requires 0 !in s
    ensures FirstString(s + [0] + rest) == s
  {
    if s != [] {
      FirstOfTerminated(s[1..], rest);
      assert (s + [0] + rest)[1..] == s[1..] + [0] + rest;
    }
  }

  /** The cell for the data of a value that is present. */
  function DataCell(regType: RegType, data: seq<nat>): Cell {
    match regType
    case RegBinary => Bytes(data)
    case RegDWORDBigEndian => Bytes(data)
    case RegDWORD => Bytes(Reversed(data))
    case RegQWORD => Bytes(Reversed(data))
    case RegExpandSZ => WideText(FirstString(WideChars(data)))
    case RegSZ => WideText(FirstString(WideChars(data)))
    case RegMultiSZ => WideText(Joined(Strings(WideChars(data))))
    case _ => Nothing
  }

  // --------------------------------------------------- what the cells tell

  /** What a flag says of a value. */
  lemma PresenceIs(v: ValueMatch, limit: nat)
    ensures var flag := PresenceOf(v, limit);
            var text := v.regType == RegSZ || v.regType == RegExpandSZ || v.regType == RegMultiSZ;
            var bad := v.data.Some? && HasWide(v.data.value, 10, 34);
            && (flag == NotInHive <==> v.data.None?)
            && (flag == DumpFile <==> v.data.Some? && v.length > limit)
            && (flag == HasBadChars <==> v.data.Some? && v.length <= limit && text && bad)
            && (flag == Present <==> v.data.Some? && v.length <= limit && !(text && bad))
  {
    if v.data.Some? {
      var text := WideChars(v.data.value);
      assert forall j :: 0 <= j < |text| ==> text[j] == WideAt(v.data.value, j);
      assert forall c :: c in OUTPUT_BAD_CHARS <==> c == 10 || c == 34;
    }
  }

  /** One of two wide characters is among those of some bytes. */
  ghost predicate HasWide(data: seq<nat>, p: nat, q: nat) {
    exists j :: 0 <= j < |data| / 2 && WideAt(data, j) in {p, q}
  }

  /** Wide character `j` of some bytes, the low byte first. */
  function WideAt(data: seq<nat>, j: nat): nat
    requires j < |data| / 2
  {
    data[2 * j] + 256 * data[2 * j + 1]
  }

  /** The bytes of a text of wide characters. */
  function BytesOf(text: seq<nat>): (data: seq<nat>)
    ensures |data| == 2 * |text|
  {
    if text == [] then [] else [text[0] % 256, text[0] / 256] + BytesOf(text[1..])
  }

  /** The wide characters of its bytes are the text. */
  lemma {:induction false} WideCharsOfBytes(text: seq<nat>)
    ensures WideChars(BytesOf(text)) == text
  {
    if text != [] {
      var rest := text[1..];
      WideCharsOfBytes(rest);
      var data := BytesOf(text);
      forall j | 0 < j < |text| ensures WideChars(data)[j] == text[j] {
        assert data[2 * j] == BytesOf(rest)[2 * (j - 1)] && data[2 * j + 1] == BytesOf(rest)[2 * (j - 1) + 1];
        assert WideChars(BytesOf(rest))[j - 1] == rest[j - 1];
      }
    }
  }

  /** The cell of an integer reads, from left to right, as the integer its bytes denote. */
  lemma IntegerCell(regType: RegType, data: seq<nat>)
    requires regType == RegDWORD || regType == RegQWORD || regType == RegDWORDBigEndian
    ensures var cell := DataCell(regType, data);
            && cell.Bytes? && |cell.bytes| == |data|
            && BigEndian(cell.bytes) == if regType == RegDWORDBigEndian then BigEndian(data) else LittleEndian(data)
  {
    ReversedReadsAsNumber(data);
  }

  /** The cell of binary data is the data; other types than these, integers and strings leave it empty. */
  lemma OtherCells(regType: RegType, data: seq<nat>)
    ensures DataCell(RegBinary, data) == Bytes(data)
    ensures regType in {RegNone, RegLink, RegResourceList, RegFullResourceDescriptor, RegResourceRequirementsList, RegOther} ==>
      DataCell(regType, data) == Nothing
  {
  }

  /** The cell of a string is its text, up to the null character that ends it. */
  lemma {:induction false} StringCell(regType: RegType, text: seq<nat>, rest: seq<nat>)
    requires regType == RegSZ || regType == RegExpandSZ
    requires 0 !in text
    ensures DataCell(regType, BytesOf(text + [0] + rest)) == WideText(text)
  {
    WideCharsOfBytes(text + [0] + rest);
    FirstOfTerminated(text, rest);
  }

  /** The cell of a multi-string holds its strings, each followed by " <> ". */
  lemma {:induction false} MultiStringCell(strings: seq<seq<nat>>)
    requires forall k :: 0 <= k < |strings| ==> 0 !in strings[k]
    ensures DataCell(RegMultiSZ, BytesOf(Terminated(strings))) == WideText(Joined(strings))
  {
    WideCharsOfBytes(Terminated(strings));
    StringsOfTerminated(strings);
  }

  lemma {:induction false} JoinedIs(strings: seq<seq<nat>>, last: seq<nat>)
    ensures Joined([]) == []
    ensures Joined(strings + [last]) == Joined(strings) + last + [' ' as nat, '<' as nat, '>' as nat, ' ' as nat]
  {
    hide Joined;
    JoinedSteps([], last);
    if strings == [] {
      assert strings + [last] == [last] + [];
    } else {
      var rest := strings[1..];
      JoinedIs(rest, last);
      JoinedSteps(rest, strings[0]);
      JoinedSteps(rest + [last], strings[0]);
      assert strings == [strings[0]] + rest && strings + [last] == [strings[0]] + (rest + [last]);
      Regrouped(strings[0] + SEPARATOR, Joined(rest), last, SEPARATOR);
    }
  }

  lemma JoinedSteps(strings: seq<seq<nat>>, first: seq<nat>)
    ensures Joined([]) == [] && Joined([first] + strings) == first + SEPARATOR + Joined(strings)
  {
    assert ([first] + strings)[1..] == strings;
  }

  lemma Regrouped(a: seq<nat>, b: seq<nat>, c: seq<nat>, d: seq<nat>)
    ensures a + (b + c + d) == a + b + c + d
  {
  }

  // ------------------------------------------------------------ writing rows

  /** The columns of the cells common to key rows and value rows, in order; value rows go on with three more. */
  const LEADING := [ComputerName, TermName, TermDescription, LastModDate, KeyName, KeyTree]
  const LEADING_OF_VALUE := LEADING + [ValueName, ValueType, ValueSize]

  class Main {
    const information: Columns
    const csvValueLengthLimit: nat
    var row: seq<Cell>

    constructor (information: Columns, limit: nat)
      ensures this.information == information && csvValueLengthLimit == limit && row == []
    {
      this.information, csvValueLengthLimit, row := information, limit, [];
    }

    /** One cell, empty unless its column is wanted. */
    method WriteIf(column: Column)
      modifies this`row
      ensures row == old(row) + [if column in information then Field(column) else Nothing]
    {
      row := row + [if column in information then Field(column) else Nothing];
    }

    /** What key rows and value rows have in common. */
    method WriteLeadingCells()
      modifies this`row
      ensures row == old(row) + FieldsOf(LEADING, information)
    {
      WriteIf(ComputerName);
      WriteIf(TermName);
      WriteIf(TermDescription);
      WriteIf(LastModDate);
      WriteIf(KeyName);
      WriteIf(KeyTree);
    }

    method WriteKeyRow()
      modifies this`row
      ensures |row| == 12
      ensures row == FieldsOf(LEADING, information) + [Nothing, Nothing, Nothing, Nothing, Nothing, Nothing]
    {
      row := [];
      WriteLeadingCells();
      row := row + [Nothing, Nothing, Nothing, Nothing, Nothing, Nothing];
    }

    method WriteValueFields()
      modifies this`row
      ensures row == FieldsOf(LEADING_OF_VALUE, information)
    {
      row := [];
      WriteLeadingCells();
      WriteIf(ValueName);
      WriteIf(ValueType);
      WriteIf(ValueSize);
      FieldsConcat(LEADING, [ValueName, ValueType, ValueSize], information);
    }

    /** A value row; without the value column it ends two cells early. */
    method WriteValueRow(v: ValueMatch)
      requires v.data.Some? ==> v.length == |v.data.value|
      modifies this`row
      ensures |row| == if Value in information then 12 else 10
      ensures row[..9] == FieldsOf(LEADING_OF_VALUE, information)
      ensures row[9] == if ValueFlag in information then Flag(PresenceOf(v, csvValueLengthLimit)) else Nothing
      ensures Value in information ==>
        var presence := PresenceOf(v, csvValueLengthLimit);
        && row[10] == (if presence == Present then DataCell(v.regType, v.data.value) else Nothing)
        && (row[10] == Nothing <==> presence != Present || !IsPrintable(v.regType))
        && row[11] == (if presence == HasBadChars || (presence == DumpFile && ValueDumpFile in information)
                       then Field(ValueDumpFile) else Nothing)
    {
      hide PresenceOf, FieldsOf, WideChars, HasBadChar;
      WriteValueFields();
      var bad := false;
      if v.data.Some? {
        bad := ContainsBadChars(WideChars(v.data.value));
      }
      WriteFlag(v, bad);
      if Value in information {
        WriteValue(v, bad);
      }
    }

    method WriteFlag(v: ValueMatch, bad: bool)
      requires v.data.Some? ==> (bad <==> HasBadChar(WideChars(v.data.value)))
      modifies this`row
      ensures row == old(row) + [if ValueFlag in information then Flag(PresenceOf(v, csvValueLengthLimit)) else Nothing]
    {
      if ValueFlag !in information {
        row := row + [Nothing];
      } else if v.data.None? {
        row := row + [Flag(NotInHive)];
      } else if v.length > csvValueLengthLimit {
        row := row + [Flag(DumpFile)];
      } else if IsString(v.regType) && bad {
        row := row + [Flag(HasBadChars)];
      } else {
        row := row + [Flag(Present)];
      }
    }

    /** The value cell and the dump cell. */
    method WriteValue(v: ValueMatch, bad: bool)
      requires v.data.Some? ==> (bad <==> HasBadChar(WideChars(v.data.value)))
      modifies this`row
      ensures var presence := PresenceOf(v, csvValueLengthLimit);
              row == old(row) + [
                if presence == Present then DataCell(v.regType, v.data.value) else Nothing,
                if presence == HasBadChars || (presence == DumpFile && ValueDumpFile in information)
                then Field(ValueDumpFile) else Nothing]
    {
      if v.data.None? {
        row := row + [Nothing, Nothing];
      } else if v.length > csvValueLengthLimit {
        row := row + [Nothing] + if ValueDumpFile in information then [Field(ValueDumpFile)] else [Nothing];
      } else {
        var data := v.data.value;
        match v.regType {
          case RegBinary => row := row + [Bytes(data), Nothing];
          case RegDWORDBigEndian => row := row + [Bytes(data), Nothing];
          case RegDWORD =>
            var reversed := ReverseBytes(data);
            row := row + [Bytes(reversed), Nothing];
          case RegQWORD =>
            var reversed := ReverseBytes(data);
            row := row + [Bytes(reversed), Nothing];
          case RegExpandSZ => WriteString(data, bad);
          case RegSZ => WriteString(data, bad);
          case RegMultiSZ =>
            if bad {
              row := row + [Nothing, Field(ValueDumpFile)];
            } else {
              var joined := JoinStrings(WideChars(data));
              row := row + [WideText(joined), Nothing];
            }
          case _ => row := row + [Nothing, Nothing];
        }
      }
    }

    method WriteString(data: seq<nat>, bad: bool)
      modifies this`row
      ensures row == old(row) +
        if bad then [Nothing, Field(ValueDumpFile)] else [WideText(FirstString(WideChars(data))), Nothing]
    {
      if bad {
        row := row + [Nothing, Field(ValueDumpFile)];
      } else {
        var text := StringFrom(WideChars(data), 0);
        row := row + [WideText(text), Nothing];
      }
    }
  }

  function FieldsOf(columns: seq<Column>, information: Columns): (cells: seq<Cell>)
    ensures |cells| == |columns|
  {
    seq(|columns|, i requires 0 <= i < |columns| => if columns[i] in information then Field(columns[i]) else Nothing)
  }

  /** The first nine cells of a value row are those of the first nine columns, wanted or empty. */
  lemma LeadingFieldsAre(information: Columns, k: nat)
    requires k < 9
    ensures FieldsOf(LEADING_OF_VALUE, information)[k] == if COLUMNS[k] in information then Field(COLUMNS[k]) else Nothing
    ensures k < 6 ==> FieldsOf(LEADING, information)[k] == FieldsOf(LEADING_OF_VALUE, information)[k]
  {
    assert LEADING_OF_VALUE[k] == COLUMNS[k] && (k < 6 ==> LEADING[k] == COLUMNS[k]);
  }

  lemma FieldsConcat(a: seq<Column>, b: seq<Column>, information: Columns)
    ensures FieldsOf(a + b, information) == FieldsOf(a, information) + FieldsOf(b, information)
  {
  }
}

/** Splitting a list of file extensions: one pass counts them, a second one fills a
    null-terminated array and cuts the list in place. */
module FilterExtensions {
  import opened Windows
  import opened CommaList
  import opened AsciiCase

  /** The list, its terminating null character included. */
  ghost predicate IsCString(text: seq<char>) {
    |text| > 0 && text[|text| - 1] == '\0' && forall i :: 0 <= i < |text| - 1 ==> text[i] != '\0'
  }

  function UpperAll(tokens: seq<string>): (r: seq<string>)
    ensures |r| == |tokens|
  {
    seq(|tokens|, i requires 0 <= i < |tokens| => Upper(tokens[i]))
  }

  /** The list with its commas replaced by null characters. */
  function Cut(text: seq<char>): (r: seq<char>)
    ensures |r| == |text|
  {
    seq(|text|, i requires 0 <= i < |text| => if text[i] == ',' then '\0' else text[i])
  }

  datatype Extensions = NoList | TooMany | List(entries: array<Option<string>>)

  /** The index of the first comma from `from` on, or that of the terminating null. */
  method FindComma(text: array<char>, from: nat) returns (at: nat)
    requires from < text.Length && text[text.Length - 1] == '\0'
    requires forall i :: from <= i < text.Length - 1 ==> text[i] != '\0'
    ensures from <= at < text.Length && (text[at] == ',' || at == text.Length - 1)
    ensures forall i :: from <= i < at ==> text[i] != ','
  {
    at := from;
    while text[at] != '\0' && text[at] != ','
      invariant from <= at < text.Length
      invariant forall i :: from <= i < at ==> text[i] != ','
      decreases text.Length - at
    {
      at := at + 1;
    }
  }

  lemma {:induction false} SplitAtComma(text: string, at: nat)
    requires at < |text| && text[at] == ',' && forall i :: 0 <= i < at ==> text[i] != ','
    ensures Split(text) == [text[..at]] + Split(text[at + 1..])
  {
    SplitNoComma(text[..at]);
    SplitConcat(text[..at], text[at + 1..]);
    assert text == text[..at] + "," + text[at + 1..];
  }

  method CountExtensions(text: array<char>) returns (count: nat)
    requires IsCString(text[..])
    ensures count == |Split(text[..text.Length - 1])|
  {
    hide Split;
    ghost var list := text[..text.Length - 1];
    var cur, more := 0, true;
    count := 0;
    assert list[0..] == list;
    while more
      invariant cur < text.Length
      invariant |Split(list)| == count + if more then |Split(list[cur..])| else 0
      decreases text.Length - cur, more
    {
      var next := FindComma(text, cur);
      NextToken(list, cur, next);
      count := count + 1;
      if text[next] == ',' {
        cur := next + 1;
      } else {
        more := false;
      }
    }
  }

  /** Duplicates a token in upper case. */
  method Duplicate(text: array<char>, from: nat, to: nat) returns (token: string)
    requires from <= to <= text.Length
    ensures token == Upper(text[from..to])
  {
    token := text[from..to];
    for i := 0 to |token|
      invariant |token| == to - from
      invariant forall k :: 0 <= k < |token| ==>
        token[k] == if k < i then ToUpper(text[from + k]) else text[from + k]
    {
      token := token[i := ToUpper(token[i])];
    }
  }

  /** More extensions than a USHORT can count, with their terminator, are refused. */
  method GetFilterExtCustomFromString(text: array?<char>) returns (r: Extensions)
    requires text != null ==> IsCString(text[..])
    modifies text
    ensures text == null ==> r.NoList?
    ensures text != null ==>
      var tokens := Split(old(text[..text.Length - 1]));
      && (r.TooMany? <==> |tokens| > 65534) && (r.TooMany? ==> text[..] == old(text[..]))
      && (!r.TooMany? ==>
            && r.List? && fresh(r.entries) && r.entries.Length == |tokens| + 1 && r.entries[|tokens|] == None
            && (forall k :: 0 <= k < |tokens| ==> r.entries[k] == Some(UpperAll(tokens)[k]))
            && text[..] == Cut(old(text[..])))
  {
    if text == null {
      return NoList;
    }
    var count := CountExtensions(text);
    if count > 65534 {
      return TooMany;
    }
    var entries := new Option<string>[count + 1](_ => None);
    ghost var list := text[..text.Length - 1];
    assert text[..] == list + ['\0'];
    Fill(text, entries, list);
    return List(entries);
  }

  /** Cuts the list at a comma and duplicates the token before it. */
  method CutToken(text: array<char>, from: nat, to: nat) returns (token: string)
    requires from <= to < text.Length
    modifies text
    ensures token == Upper(old(text[from..to])) && text[..] == old(text[..])[to := '\0']
  {
    text[to] := '\0';
    token := Duplicate(text, from, to);
  }

  /** The first `count` entries hold the tokens in upper case; the others are null. */
  ghost predicate Filled(entries: array<Option<string>>, tokens: seq<string>, count: nat)
    reads entries
  {
    && entries.Length == |tokens| + 1 && count <= |tokens|
    && forall k :: 0 <= k < entries.Length ==> entries[k] == if k < count then Some(Upper(tokens[k])) else None
  }

  method SetEntry(entries: array<Option<string>>, ghost tokens: seq<string>, count: nat, token: string)
    requires Filled(entries, tokens, count) && count < |tokens| && token == Upper(tokens[count])
    modifies entries
    ensures Filled(entries, tokens, count + 1)
  {
    entries[count] := Some(token);
  }

  /** The list is cut before index `cur` and as it was from there on. */
  ghost predicate CutTo(text: array<char>, all: seq<char>, cur: nat)
    reads text
  {
    cur <= |all| == text.Length && text[..] == Cut(all[..cur]) + all[cur..]
  }

  lemma RestAsBefore(text: array<char>, all: seq<char>, cur: nat)
    requires CutTo(text, all, cur)
    ensures text[cur..] == all[cur..]
  {
  }

  lemma HeadAndTail(tokens: seq<string>, count: nat, token: string, rest: seq<string>)
    requires count <= |tokens| && tokens[count..] == [token] + rest
    ensures count < |tokens| && tokens[count] == token && tokens[count + 1..] == rest
  {
    assert tokens[count + 1..] == tokens[count..][1..];
  }

  /** Fills the entries from the list, cutting it at each comma. */
  method Fill(text: array<char>, entries: array<Option<string>>, ghost list: string)
    requires text[..] == list + ['\0'] && '\0' !in list && Filled(entries, Split(list), 0)
    modifies text, entries
    ensures Filled(entries, Split(list), |Split(list)|)
    ensures text[..] == Cut(old(text[..]))
  {
    hide Split, Upper, Cut;
    ghost var all, tokens := text[..], Split(list);
    assert tokens[0..] == tokens && list[0..] == list;
    NothingCutYet(all);
    var cur, count, more := 0, 0, true;
    while more
      invariant Filled(entries, tokens, count)
      invariant more ==> cur < |all| && CutTo(text, all, cur) && tokens[count..] == Split(list[cur..])
      invariant !more ==> count == |tokens| && text[..] == Cut(all)
      decreases text.Length - cur, more
    {
      cur, more := FillNext(text, entries, list, tokens, cur, count);
      count := count + 1;
    }
  }

  /** One token more, and where the next one starts if there is one. */
  method FillNext(text: array<char>, entries: array<Option<string>>, ghost list: string, ghost tokens: seq<string>,
                  cur: nat, count: nat) returns (start: nat, more: bool)
    requires '\0' !in list && cur <= |list| && CutTo(text, list + ['\0'], cur)
    requires Filled(entries, tokens, count) && tokens[count..] == Split(list[cur..])
    modifies text, entries
    ensures count < |tokens| && Filled(entries, tokens, count + 1)
    ensures if more then
              cur < start <= |list| && CutTo(text, list + ['\0'], start) && tokens[count + 1..] == Split(list[start..])
            else start == cur && count + 1 == |tokens| && text[..] == Cut(list + ['\0'])
  {
    hide Split, Upper, Cut, Filled;
    ghost var all := list + ['\0'];
    assert forall i :: 0 <= i < |list| ==> list[i] == all[i];
    RestAsBefore(text, all, cur);
    var next := NextComma(text, cur, all);
    NextToken(list, cur, next);
    assert text[cur..next] == list[cur..next] by { assert text[cur..next] == text[cur..][..next - cur]; }
    var token: string;
    assert count <= |tokens| by { FilledCount(entries, tokens, count); }
    HeadAndTail(tokens, count, list[cur..next], if next < |list| then Split(list[next + 1..]) else []);
    if text[next] == ',' {
      CutOneMore(all, cur, next);
      token := CutToken(text, cur, next);
      start, more := next + 1, true;
    } else {
      CutToEndOf(text, all, cur, next);
      token := Duplicate(text, cur, next);
      start, more := cur, false;
    }
    SetEntry(entries, tokens, count, token);
  }

  lemma FilledCount(entries: array<Option<string>>, tokens: seq<string>, count: nat)
    requires Filled(entries, tokens, count)
    ensures count <= |tokens|
  {
  }

  lemma CutToEndOf(text: array<char>, all: seq<char>, cur: nat, next: nat)
    requires CutTo(text, all, cur) && cur <= next == |all| - 1 && all[next] != ','
    requires forall i :: cur <= i < next ==> all[i] != ','
    ensures text[..] == Cut(all)
  {
    NothingToCut(all, cur);
  }

  /** The same comma in the list as in what is left of it. */
  method NextComma(text: array<char>, cur: nat, ghost all: seq<char>) returns (next: nat)
    requires cur < text.Length == |all| && text[cur..] == all[cur..]
    requires all[|all| - 1] == '\0' && forall i :: 0 <= i < |all| - 1 ==> all[i] != '\0'
    ensures cur <= next < |all| && text[next] == all[next] && (all[next] == ',' || next == |all| - 1)
    ensures forall i :: cur <= i < next ==> all[i] != ','
  {
    assert forall i :: cur <= i < |all| ==> text[i] == text[cur..][i - cur] == all[i];
    next := FindComma(text, cur);
  }

  lemma NothingCutYet(all: seq<char>)
    ensures Cut(all[..0]) + all[0..] == all
  {
  }

  /** The first token of the rest of a list, and what follows it. */
  lemma NextToken(list: string, cur: nat, next: nat)
    requires cur <= next <= |list| && (forall i :: cur <= i < next ==> list[i] != ',')
    requires next < |list| ==> list[next] == ','
    ensures Split(list[cur..]) == [list[cur..next]] + if next < |list| then Split(list[next + 1..]) else []
  {
    var rest := list[cur..];
    assert rest[..next - cur] == list[cur..next];
    if next < |list| {
      SplitAtComma(rest, next - cur);
      assert rest[next - cur + 1..] == list[next + 1..];
    } else {
      SplitNoComma(rest);
      assert rest == list[cur..next];
    }
  }

  lemma CutOneMore(all: seq<char>, cur: nat, next: nat)
    requires cur <= next < |all| && all[next] == ',' && forall i :: cur <= i < next ==> all[i] != ','
    ensures (Cut(all[..cur]) + all[cur..])[next := '\0'] == Cut(all[..next + 1]) + all[next + 1..]
  {
  }

  lemma NothingToCut(all: seq<char>, cur: nat)
    requires cur <= |all| && ',' !in all[cur..]
    ensures Cut(all[..cur]) + all[cur..] == Cut(all)
  {
    assert forall i :: cur <= i < |all| ==> all[i] == all[cur..][i - cur];
  }

  // ------------------------------------------------------------- the results

  lemma {:induction false} JoinUpper(tokens: seq<string>)
    requires tokens != []
    ensures Join(UpperAll(tokens)) == Upper(Join(tokens))
  {
    if |tokens| > 1 {
      var n := |tokens| - 1;
      JoinUpper(tokens[..n]);
      assert UpperAll(tokens)[..n] == UpperAll(tokens[..n]);
      assert Upper(Join(tokens[..n]) + "," + tokens[n]) == Upper(Join(tokens[..n])) + "," + Upper(tokens[n]);
    }
  }

  /** The entries joined with commas are the list in upper case, and there is one more of them than commas. */
  lemma EntriesJoinToUpper(list: string)
    ensures Join(UpperAll(Split(list))) == Upper(list) && |UpperAll(Split(list))| == Commas(list) + 1
  {
    JoinUpper(Split(list));
    JoinSplit(list);
  }

  /** What a C string reads up to its null character. */
  function UpToNull(text: seq<char>): string {
    if text == [] || text[0] == '\0' then "" else [text[0]] + UpToNull(text[1..])
  }

  /** Once cut, the list reads as its first extension only. */
  lemma {:induction false} CutLeavesFirst(list: string)
    requires '\0' !in list
    ensures UpToNull(Cut(list + ['\0'])) == Split(list)[0]
  {
    var at := 0;
    while at < |list| && list[at] != ','
      invariant at <= |list| && forall i :: 0 <= i < at ==> list[i] != ','
    {
      at := at + 1;
    }
    var cut := Cut(list + ['\0']);
    if at < |list| { SplitAtComma(list, at); } else { SplitNoComma(list); }
    assert cut[..at] == list[..at] && cut[at] == '\0';
    forall i | 0 <= i < at ensures cut[i] != '\0' { assert list[i] in list; }
    UpToNullIs(cut, at);
    if at == |list| { assert list[..at] == list; }
  }

  lemma {:induction false} UpToNullIs(text: seq<char>, at: nat)
    requires at < |text| && text[at] == '\0' && forall i :: 0 <= i < at ==> text[i] != '\0'
    ensures UpToNull(text) == text[..at]
  {
    if at > 0 {
      UpToNullIs(text[1..], at - 1);
      assert text[..at] == [text[0]] + text[1..][..at - 1];
    }
  }
}

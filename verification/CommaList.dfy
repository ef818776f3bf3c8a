/** Lists separated by commas: the text between one comma and the next. */
module CommaList {

  /** The tokens of a text; there is always one more than there are commas. */
  function Split(text: string): (tokens: seq<string>)
    ensures |tokens| == Commas(text) + 1
  {
    if text == "" then [""]
    else
      var before, last := Split(text[..|text| - 1]), text[|text| - 1];
      if last == ',' then before + [""]
      else Appended(before, last)
  }

  function Commas(text: string): nat {
    if text == "" then 0 else Commas(text[..|text| - 1]) + if text[|text| - 1] == ',' then 1 else 0
  }

  function Join(tokens: seq<string>): string
    requires tokens != []
  {
    if |tokens| == 1 then tokens[0] else Join(tokens[..|tokens| - 1]) + "," + tokens[|tokens| - 1]
  }

  /** Joining what was split gives the text back. */
  lemma {:induction false} JoinSplit(text: string)
    ensures Join(Split(text)) == text
  {
    if text != "" {
      hide Split, Join;
      var n := |text| - 1;
      assert text == text[..n] + [text[n]];
      JoinSplit(text[..n]);
      SplitAppend(text[..n], text[n]);
      if text[n] == ',' {
        JoinOneMore(Split(text[..n]), "");
      } else {
        JoinLonger(Split(text[..n]), text[n]);
      }
    }
  }

  lemma JoinOneMore(tokens: seq<string>, last: string)
    requires tokens != []
    ensures Join(tokens + [last]) == Join(tokens) + "," + last
  {
    assert (tokens + [last])[..|tokens|] == tokens;
  }

  lemma JoinLonger(tokens: seq<string>, c: char)
    requires tokens != []
    ensures Join(Appended(tokens, c)) == Join(tokens) + [c]
  {
    assert Appended(tokens, c)[..|tokens| - 1] == tokens[..|tokens| - 1];
  }

  /** No token holds a comma. */
  lemma {:induction false} TokensHaveNoComma(text: string, k: nat)
    requires k < |Split(text)|
    ensures ',' !in Split(text)[k]
  {
    if text != "" {
      var before := Split(text[..|text| - 1]);
      if k < |before| { TokensHaveNoComma(text[..|text| - 1], k); }
    }
  }

  /** Splitting is compatible with putting a comma between two texts. */
  lemma {:induction false} SplitConcat(a: string, b: string)
    ensures Split(a + "," + b) == Split(a) + Split(b)
  {
    if b == "" {
      SplitAppend(a, ',');
      assert a + "," + b == a + [','];
    } else {
      var n := |b| - 1;
      SplitConcat(a, b[..n]);
      SplitAppend(a + "," + b[..n], b[n]);
      SplitAppend(b[..n], b[n]);
      assert b == b[..n] + [b[n]];
      assert a + "," + b == (a + "," + b[..n]) + [b[n]];
      AppendToLast(Split(a), Split(b[..n]), b[n]);
    }
  }

  lemma SplitAppend(text: string, c: char)
    ensures Split(text + [c]) == if c == ',' then Split(text) + [""] else Appended(Split(text), c)
  {
    assert (text + [c])[..|text|] == text;
  }

  /** The character goes to the last token. */
  function Appended(tokens: seq<string>, c: char): seq<string>
    requires tokens != []
  {
    tokens[..|tokens| - 1] + [tokens[|tokens| - 1] + [c]]
  }

  lemma AppendToLast(a: seq<string>, b: seq<string>, c: char)
    requires b != []
    ensures a + Appended(b, c) == Appended(a + b, c) && (a + b) + [""] == a + (b + [""])
  {
  }

  /** A text without commas is its only token. */
  lemma {:induction false} SplitNoComma(text: string)
    requires ',' !in text
    ensures Split(text) == [text]
  {
    if text != "" {
      hide Split;
      var n := |text| - 1;
      assert text == text[..n] + [text[n]];
      SplitNoComma(text[..n]);
      SplitAppend(text[..n], text[n]);
    }
  }
}

/** File names of collected samples, and the search for one not used yet. */
module SampleNaming {
  import opened Windows
  import Decimal

  datatype ContentType = INVALID | DATA | STRINGS | RAW

  /** The name attribute of a file: the reference of its parent directory and its name. */
  datatype FileName = FileName(parentSequence: nat, parentHigh: nat, parentLow: nat, name: string)

  function HexDigit(d: nat): char
    requires d < 16
  {
    if d < 10 then ('0' as int + d) as char else ('A' as int + d - 10) as char
  }

  /** The low `width` hexadecimal digits. */
  function Hex(n: nat, width: nat): string {
    if width == 0 then "" else Hex(n / 16, width - 1) + [HexDigit(n % 16)]
  }

  function ContentName(content: ContentType): string {
    match content
    case DATA => "data"
    case STRINGS => "strings"
    case RAW => "raw"
    case INVALID => ""
  }

  predicate IsUnsafe(c: char) {
    c in {' ', '\t', '\n', '\r', '\U{B}', '\U{C}', ':', '#'}
  }

  function Sanitize(s: string): (r: string)
    ensures |r| == |s|
  {
    seq(|s|, i requires 0 <= i < |s| => if IsUnsafe(s[i]) then '_' else s[i])
  }

  function ParentReference(file: FileName): string {
    Hex(file.parentSequence, 4) + Hex(file.parentHigh, 4) + Hex(file.parentLow, 8)
  }

  /** What stands before the index. */
  function Stem(file: FileName, dataName: string): string {
    if dataName != "" then ParentReference(file) + "_" + file.name + "_" + dataName + "_"
    else ParentReference(file) + "__" + file.name + "_"
  }

  /** The name of a sample; `idx` is 0 at the first attempt and tells later ones apart. */
  function SampleFileName(content: ContentType, file: FileName, dataName: string, idx: nat): string {
    if idx != 0 then
      Sanitize(Stem(file, dataName) + Decimal.Print(idx) + ("_" + ContentName(content)))
    else if dataName != "" then
      Sanitize(ParentReference(file) + "__" + file.name + "_" + dataName + "_" + ContentName(content))
    else
      Sanitize(ParentReference(file) + "_" + file.name + "_" + ContentName(content))
  }

  /** What a sample is named after. */
  datatype Request = Request(specName: string, content: ContentType, file: FileName, dataName: string)

  function Directory(r: Request): string {
    if r.specName == "" then "" else r.specName + "\\"
  }

  /** The `idx`-th name tried, below the directory of its specification. */
  function Candidate(r: Request, idx: nat): string {
    Directory(r) + SampleFileName(r.content, r.file, r.dataName, idx)
  }

  // ------------------------------------------------------- what a name holds

  /** The number a string of upper-case hexadecimal digits denotes. */
  function HexValue(s: string): nat {
    if s == "" then 0
    else
      var c := s[|s| - 1];
      16 * HexValue(s[..|s| - 1]) +
      if '0' <= c <= '9' then c as nat - '0' as nat else if 'A' <= c <= 'F' then c as nat - 'A' as nat + 10 else 0
  }

  function Power16(width: nat): (p: nat)
    ensures p > 0
  {
    if width == 0 then 1 else 16 * Power16(width - 1)
  }

  lemma {:induction false} HexReads(n: nat, width: nat)
    requires n < Power16(width)
    ensures |Hex(n, width)| == width && HexValue(Hex(n, width)) == n
    ensures forall i :: 0 <= i < width ==> '0' <= Hex(n, width)[i] <= '9' || 'A' <= Hex(n, width)[i] <= 'F'
  {
    if width > 0 {
      HexReads(n / 16, width - 1);
      assert Hex(n, width)[..width - 1] == Hex(n / 16, width - 1);
    }
  }

  /** The parent reference is its sequence number, high part and low part in 4, 4 and 8 digits. */
  lemma {:induction false} ReferenceReads(file: FileName)
    requires file.parentSequence < 0x1_0000 && file.parentHigh < 0x1_0000 && file.parentLow < TWO_32
    ensures var s := ParentReference(file);
            && |s| == 16 && HexValue(s[..4]) == file.parentSequence
            && HexValue(s[4..8]) == file.parentHigh && HexValue(s[8..]) == file.parentLow
  {
    hide Hex, HexValue;
    assert Power16(4) == 0x1_0000 && Power16(8) == TWO_32 by { Powers(); }
    HexReads(file.parentSequence, 4);
    HexReads(file.parentHigh, 4);
    HexReads(file.parentLow, 8);
    var s := ParentReference(file);
    assert s[..4] == Hex(file.parentSequence, 4) && s[4..8] == Hex(file.parentHigh, 4) && s[8..] == Hex(file.parentLow, 8);
  }

  lemma Powers()
    ensures Power16(4) == 0x1_0000 && Power16(8) == TWO_32
  {
    assert Power16(2) == 256;
    assert Power16(4) == 0x1_0000;
    assert Power16(6) == 256 * 0x1_0000;
  }

  /** White space, colons and hash signs become underscores; everything else stays. */
  lemma SanitizedIs(s: string, i: nat)
    requires i < |s|
    ensures var c := s[i] as int;
            Sanitize(s)[i] == if 9 <= c <= 13 || c == 32 || c == 58 || c == 35 then '_' else s[i]
  {
  }

  /** The name of a sample: the parent reference, the file, its stream, the index from the second attempt on, and the
      kind of content. */
  lemma {:induction false} SampleNameIs(content: ContentType, file: FileName, dataName: string, idx: nat)
    returns (digits: string)
    ensures Decimal.AllDigits(digits) && |digits| > 0 && Decimal.Value(digits) == idx
    ensures var name, reference := SampleFileName(content, file, dataName, idx), ParentReference(file);
            var kind := "_" + if content == DATA then "data" else if content == STRINGS then "strings"
                              else if content == RAW then "raw" else "";
            name == Sanitize(
              if idx == 0 && dataName == "" then reference + "_" + file.name + kind
              else if idx == 0 then reference + "__" + file.name + "_" + dataName + kind
              else if dataName == "" then reference + "__" + file.name + "_" + digits + kind
              else reference + "_" + file.name + "_" + dataName + "_" + digits + kind)
  {
    hide Sanitize, ParentReference;
    digits := Decimal.Print(idx);
    Decimal.PrintThenValue(idx);
    var reference, kind := ParentReference(file), "_" + ContentName(content);
    if idx == 0 && dataName == "" {
      assert reference + "_" + file.name + "_" + ContentName(content) == reference + "_" + file.name + kind;
    } else if idx == 0 {
      assert reference + "__" + file.name + "_" + dataName + "_" + ContentName(content)
          == reference + "__" + file.name + "_" + dataName + kind;
    }
  }

  /** Candidates stand in the directory of their specification, if it has a name. */
  lemma CandidateIs(r: Request, idx: nat)
    ensures var name := SampleFileName(r.content, r.file, r.dataName, idx);
            Candidate(r, idx) == if r.specName == "" then name else r.specName + "\\" + name
  {
    hide SampleFileName;
    assert "" + SampleFileName(r.content, r.file, r.dataName, idx) == SampleFileName(r.content, r.file, r.dataName, idx);
  }

  // ---------------------------------------------------- candidates are distinct

  lemma SanitizeConcat(a: string, b: string)
    ensures Sanitize(a + b) == Sanitize(a) + Sanitize(b)
  {
  }

  lemma SanitizeDigits(s: string)
    requires Decimal.AllDigits(s)
    ensures Sanitize(s) == s
  {
  }

  lemma CandidateShape(r: Request, idx: nat)
    requires idx != 0
    ensures Candidate(r, idx) ==
      (Directory(r) + Sanitize(Stem(r.file, r.dataName))) + Decimal.Print(idx) + Sanitize("_" + ContentName(r.content))
  {
    var stem, digits, after := Stem(r.file, r.dataName), Decimal.Print(idx), "_" + ContentName(r.content);
    SanitizeDigits(digits);
    SanitizeConcat(stem, digits);
    SanitizeConcat(stem + digits, after);
  }

  /** Names tried for two different non-zero indices differ. */
  lemma {:induction false} CandidatesDistinct(r: Request, i: nat, j: nat)
    requires i != 0 && j != 0 && Candidate(r, i) == Candidate(r, j)
    ensures i == j
  {
    var before, after := Directory(r) + Sanitize(Stem(r.file, r.dataName)), Sanitize("_" + ContentName(r.content));
    CandidateShape(r, i);
    CandidateShape(r, j);
    var a, b := Decimal.Print(i), Decimal.Print(j);
    assert |a| == |b|;
    assert a == (before + a + after)[|before|..|before| + |a|];
    assert b == (before + b + after)[|before|..|before| + |b|];
    Decimal.PrintInjective(i, j);
  }

  // --------------------------------------------------- the search terminates

  ghost function FirstCandidates(r: Request, n: nat): set<string> {
    if n == 0 then {} else FirstCandidates(r, n - 1) + {Candidate(r, n)}
  }

  lemma {:induction false} LaterCandidateIsNew(r: Request, n: nat, later: nat)
    requires n < later
    ensures Candidate(r, later) !in FirstCandidates(r, n)
  {
    if n > 0 {
      LaterCandidateIsNew(r, n - 1, later);
      if Candidate(r, n) == Candidate(r, later) { CandidatesDistinct(r, n, later); }
    }
  }

  /** If the names for 1 to `n` are all taken, at least `n` names are. */
  lemma {:induction false} Pigeonhole(r: Request, names: set<string>, n: nat)
    requires forall i: nat :: 1 <= i <= n ==> Candidate(r, i) in names
    ensures |FirstCandidates(r, n)| == n && FirstCandidates(r, n) <= names
    ensures n <= |names|
  {
    if n > 0 {
      Pigeonhole(r, names, n - 1);
      LaterCandidateIsNew(r, n - 1, n);
    }
    SubsetSize(FirstCandidates(r, n), names);
  }

  lemma {:induction false} SubsetSize(a: set<string>, b: set<string>)
    requires a <= b
    ensures |a| <= |b|
    decreases a
  {
    if a != {} {
      var x :| x in a;
      SubsetSize(a - {x}, b - {x});
    }
  }

  /** The first index, from `from` on, whose name is not taken. At most `|names| + 2` are tried. */
  function FirstFree(r: Request, names: set<string>, from: nat): (idx: nat)
    requires forall i: nat :: i < from ==> Candidate(r, i) in names
    ensures Candidate(r, idx) !in names
    ensures forall i: nat :: i < idx ==> Candidate(r, i) in names
    ensures idx <= |names| + 1
    decreases |names| + 2 - from
  {
    Pigeonhole(r, names, if from == 0 then 0 else from - 1);
    if Candidate(r, from) !in names then from
    else FirstFree(r, names, from + 1)
  }

  /** The name given to a sample by the attempts in order. */
  function UniqueName(r: Request, names: set<string>): (name: string)
    ensures name !in names
  {
    Candidate(r, FirstFree(r, names, 0))
  }

  /** The attempts of the program, one index after the other. */
  method FindUniqueName(r: Request, names: set<string>) returns (name: string, tries: nat)
    ensures name == UniqueName(r, names) && name !in names
    ensures 1 <= tries <= |names| + 2
  {
    hide Candidate;
    var idx: nat := 0;
    name := Candidate(r, idx);
    idx := idx + 1;
    while name in names
      invariant idx >= 1 && name == Candidate(r, idx - 1)
      invariant forall i: nat :: i < idx - 1 ==> Candidate(r, i) in names
      decreases FirstFree(r, names, 0) + 1 - idx
    {
      name := Candidate(r, idx);
      idx := idx + 1;
    }
    tries := idx;
  }
}

/** Letter case, for the ASCII letters. */
module AsciiCase {

  function ToUpper(c: char): char {
    if 'a' <= c <= 'z' then (c as int - 'a' as int + 'A' as int) as char else c
  }

  function Upper(text: string): (r: string)
    ensures |r| == |text|
  {
    seq(|text|, i requires 0 <= i < |text| => ToUpper(text[i]))
  }

  /** Equality up to case. */
  predicate SameText(a: string, b: string) { Upper(a) == Upper(b) }

  /** Exactly the 26 small letters change, each to its own capital. */
  lemma ToUpperIs(c: char)
    ensures var n := c as int;
            ToUpper(c) as int == if 97 <= n <= 122 then 65 + (n - 97) else n
  {
  }

  lemma AlphabetIsPaired()
    ensures Upper("abcdefghijklmnopqrstuvwxyz") == "ABCDEFGHIJKLMNOPQRSTUVWXYZ"
  {
  }

  /** A text in upper case holds no small letter, and stays as it is. */
  lemma UpperIsUpper(text: string)
    ensures Upper(Upper(text)) == Upper(text)
    ensures forall i :: 0 <= i < |text| ==> !('a' <= Upper(text)[i] <= 'z')
  {
  }

  /** Equality up to case is an equivalence, and a text equals its upper case. */
  lemma SameTextIsEquivalence(a: string, b: string, c: string)
    ensures SameText(a, a) && (SameText(a, b) <==> SameText(b, a)) && SameText(a, Upper(a))
    ensures SameText(a, b) && SameText(b, c) ==> SameText(a, c)
    ensures SameText(a, b) <==> |a| == |b| && forall i :: 0 <= i < |a| ==> ToUpper(a[i]) == ToUpper(b[i])
  {
    UpperIsUpper(a);
    if |a| == |b| && forall i :: 0 <= i < |a| ==> ToUpper(a[i]) == ToUpper(b[i]) {
      assert forall i :: 0 <= i < |a| ==> Upper(a)[i] == Upper(b)[i];
    }
    if SameText(a, b) {
      assert |a| == |Upper(a)| == |b|;
      forall i | 0 <= i < |a| ensures ToUpper(a[i]) == ToUpper(b[i]) {
        assert Upper(a)[i] == Upper(b)[i];
      }
    }
  }
}

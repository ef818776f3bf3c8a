/** The few Windows conventions every part of the model relies on: unsigned widths,
    result codes, and the outcome of a call into the system. */
module Windows {
  const TWO_32: nat := 0x1_0000_0000
  const TWO_64: nat := 0x1_0000_0000_0000_0000

  /** A DWORD keeps the low 32 bits of what is assigned to it. */
  function Low32(n: nat): (r: nat)
    ensures r < TWO_32 && r <= n && (n < TWO_32 ==> r == n)
  {
    n % 0x1_0000_0000
  }

  /** A ULONGLONG keeps the low 64 bits of what is assigned to it. */
  function Low64(n: nat): (r: nat)
    ensures r < TWO_64 && r <= n && (n < TWO_64 ==> r == n)
  {
    n % 0x1_0000_0000_0000_0000
  }

  /** Truncating a term before a sum does not change the truncated sum. */
  lemma Low32Sum(a: nat, b: nat)
    ensures Low32(Low32(a) + b) == Low32(a + b)
  {
  }

  lemma Low64Sum(a: nat, b: nat)
    ensures Low64(Low64(a) + b) == Low64(a + b)
  {
  }

  datatype HResult = S_OK | S_FALSE | Failed(code: int)

  datatype Outcome<+T> = Success(value: T) | Failure(error: int)

  datatype Option<+T> = None | Some(value: T)
}

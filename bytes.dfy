/** Machine-level vocabulary of the inode table: the C integer widths it
    stores, and the few C-library string operations it relies on (strchr,
    the NUL that ends a C string, strncpy's truncation, printf's decimal
    conversion), each stated as a function on byte sequences. */
module Bytes {

  type byte = x: int | 0 <= x < 0x100
  type u32 = x: int | 0 <= x < 0x1_0000_0000

  datatype Option<+T> = None | Some(value: T)

  const Nul: byte := 0
  const Newline: byte := 10
  const Space: byte := 32
  const Zero: byte := 48   // '0'

  /** The part of s before the first c, or all of s when c does not occur:
      what `strchr` finds and what a C string ends at. */
  function TakeUntil(s: seq<byte>, c: byte): (r: seq<byte>)
    ensures r <= s
    ensures c !in r
    ensures |r| < |s| ==> s[|r|] == c
  {
    if s == [] || s[0] == c then []
    else
      var rest := TakeUntil(s[1..], c);
      assert s == [s[0]] + s[1..];
      [s[0]] + rest
  }

  /** The three properties above pin TakeUntil down completely. */
  lemma {:induction false} TakeUntilIs(s: seq<byte>, c: byte, t: seq<byte>)
    requires t <= s && c !in t
    requires |t| < |s| ==> s[|t|] == c
    ensures TakeUntil(s, c) == t
  {
    if s != [] && s[0] != c {
      assert t != [] && t[0] == s[0];
      TakeUntilIs(s[1..], c, t[1..]);
    }
  }

  /** The string a NUL-terminated buffer holds, as `strcmp` and `%s` read it. */
  function CString(s: seq<byte>): seq<byte>
  {
    TakeUntil(s, Nul)
  }

  /** At most the first n bytes of s (`strncpy` into an n-byte buffer). */
  function Truncate(s: seq<byte>, n: nat): seq<byte>
  {
    if |s| <= n then s else s[..n]
  }

  predicate IsDigit(b: byte)
  {
    Zero <= b < Zero + 10
  }

  /** The decimal text of n, as `%zu` and `%u` print it. */
  function Digits(n: nat): (r: seq<byte>)
    ensures |r| >= 1
    ensures forall i | 0 <= i < |r| :: IsDigit(r[i])
    ensures n >= 10 ==> r[0] != Zero
  {
    if n < 10 then [Zero + n] else Digits(n / 10) + [Zero + n % 10]
  }

  /** The number a string of decimal digits denotes. */
  function DigitsValue(s: seq<byte>): nat
    requires forall i | 0 <= i < |s| :: IsDigit(s[i])
  {
    if s == [] then 0
    else
      assert IsDigit(s[|s| - 1]);
      10 * DigitsValue(s[..|s| - 1]) + (s[|s| - 1] - Zero)
  }

  /** Reading back printed decimal text yields the number printed. */
  lemma {:induction false} DigitsRoundTrip(n: nat)
    ensures DigitsValue(Digits(n)) == n
  {
    if n >= 10 {
      var d := Digits(n);
      assert d[..|d| - 1] == Digits(n / 10);
      DigitsRoundTrip(n / 10);
    }
  }
}

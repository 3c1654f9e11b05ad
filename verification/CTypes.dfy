/** The C conversions the modelled code relies on. */
module CTypes {
  const NUL: char := '\0'

  /** The six characters C's isspace accepts in the default locale. */
  predicate IsSpace(c: char) {
    c == ' ' || '\t' <= c <= '\r'
  }

  /** The characters a C string function sees: those before the first NUL. */
  function CStr(s: string): (r: string)
    ensures NUL !in r && r <= s
    ensures r == s <==> NUL !in s
  {
    if s == "" || s[0] == NUL then "" else [s[0]] + CStr(s[1..])
  }

  /** strchr: the position of the first c, or the length if there is none. */
  function Strchr(s: string, c: char): (k: nat)
    ensures k <= |s|
    ensures c !in s[..k]
    ensures k < |s| ==> s[k] == c
  {
    if s == "" || s[0] == c then 0
    else
      var k := Strchr(s[1..], c);
      assert s[..k + 1] == [s[0]] + s[1..][..k];
      k + 1
  }

  lemma {:induction false} StrchrOf(f: string, c: char, rest: string)
    requires c !in f
    ensures Strchr(f + [c] + rest, c) == |f|
  {
    if f == "" {
      assert f + [c] + rest == [c] + rest;
    } else {
      assert (f + [c] + rest)[1..] == f[1..] + [c] + rest;
      assert forall x :: x in f[1..] ==> x in f;
      StrchrOf(f[1..], c, rest);
    }
  }

  /** strncpy or snprintf of a C string into a buffer of `size` bytes. */
  function Fit(s: string, size: nat): string
    requires size > 0
  {
    if |s| < size then s else s[..size - 1]
  }

  /** Concatenation is associative. */
  lemma Regroup<T>(a: seq<T>, b: seq<T>, c: seq<T>)
    ensures a + b + c == a + (b + c)
  {
  }

  /** What an integer becomes in a size_t. */
  function AsSize(n: int): nat {
    n % 0x1_0000_0000_0000_0000
  }
}

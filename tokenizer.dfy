/**
 * The tokenizer's synonym order and its word-length settings.
 *
 * Strings are byte sequences. A C string is read up to its first NUL byte
 * or its end, whichever comes first, and `strcmp` compares the bytes as
 * unsigned values; its sign is all any caller looks at, so it is -1, 0 or 1
 * here.
 */
module Tokenizer {

  /** An unsigned byte, as `strcmp` compares them. */
  type Byte = b: int | 0 <= b < 0x100

  /** The bytes of `s` before its first NUL (`cstr()` as a C string). */
  function CStr(s: seq<Byte>): (r: seq<Byte>)
    ensures |r| <= |s| && r == s[..|r|]
    ensures forall i :: 0 <= i < |r| ==> r[i] != 0
    ensures |r| < |s| ==> s[|r|] == 0
  {
    if |s| == 0 || s[0] == 0 then []
    else [s[0]] + CStr(s[1..])
  }

  /** The first byte of a C string, reading the end of the sequence as NUL. */
  function Head(s: seq<Byte>): Byte
  {
    if |s| == 0 then 0 else s[0]
  }

  /**
   * `strcmp`: walk both strings while the bytes agree; the first differing
   * byte decides, and reaching a common NUL means equal.
   */
  function StrCmp(a: seq<Byte>, b: seq<Byte>): (r: int)
    ensures -1 <= r <= 1
    decreases |a|
  {
    var x, y := Head(a), Head(b);
    if x < y then -1
    else if x > y then 1
    else if x == 0 then 0
    else StrCmp(a[1..], b[1..])
  }

  /** `strcmp` reports equality exactly when the two C strings are equal. */
  lemma {:induction false} StrCmpZeroIff(a: seq<Byte>, b: seq<Byte>)
    ensures StrCmp(a, b) == 0 <==> CStr(a) == CStr(b)
    decreases |a|
  {
    if Head(a) == Head(b) && Head(a) != 0 {
      StrCmpZeroIff(a[1..], b[1..]);
      assert CStr(a) == [a[0]] + CStr(a[1..]);
      assert CStr(b) == [b[0]] + CStr(b[1..]);
      if CStr(a) == CStr(b) {
        assert CStr(a)[1..] == CStr(a[1..]);
        assert CStr(b)[1..] == CStr(b[1..]);
      }
    } else if Head(a) != Head(b) {
      if |CStr(a)| > 0 && |CStr(b)| > 0 {
        assert CStr(a)[0] == Head(a);
        assert CStr(b)[0] == Head(b);
      }
    }
  }

  /** Swapping the operands of `strcmp` flips the sign. */
  lemma {:induction false} StrCmpAntisymmetric(a: seq<Byte>, b: seq<Byte>)
    ensures StrCmp(b, a) == -StrCmp(a, b)
    decreases |a|
  {
    if Head(a) == Head(b) && Head(a) != 0 {
      StrCmpAntisymmetric(a[1..], b[1..]);
    }
  }

  /** `strcmp`'s "less than" is transitive. */
  lemma {:induction false} StrCmpTransitive(a: seq<Byte>, b: seq<Byte>, c: seq<Byte>)
    requires StrCmp(a, b) < 0 && StrCmp(b, c) < 0
    ensures StrCmp(a, c) < 0
    decreases |a|
  {
    if Head(a) == Head(b) && Head(b) == Head(c) {
      StrCmpTransitive(a[1..], b[1..], c[1..]);
    }
  }

  /** `strcmp` looks at nothing past the first NUL. */
  lemma {:induction false} StrCmpOfCStr(a: seq<Byte>, b: seq<Byte>)
    ensures StrCmp(a, b) == StrCmp(CStr(a), CStr(b))
    decreases |a|
  {
    var ca, cb := CStr(a), CStr(b);
    assert Head(ca) == Head(a);
    assert Head(cb) == Head(b);
    if Head(a) == Head(b) && Head(a) != 0 {
      StrCmpOfCStr(a[1..], b[1..]);
      assert ca[1..] == CStr(a[1..]);
      assert cb[1..] == CStr(b[1..]);
    }
  }

  /**
   * `CSphSynonym`: a packed list of map-from tokens, the map-to string and
   * their cached lengths.
   */
  datatype Synonym = Synonym(from: seq<Byte>, to: seq<Byte>, fromLen: int, toLen: int)

  /** `CSphSynonym::operator <`: ordered by `strcmp` of the map-from strings. */
  predicate SynonymLess(a: Synonym, b: Synonym): (r: bool)
    ensures r ==> CStr(a.from) != CStr(b.from)
    ensures r <==> StrCmp(b.from, a.from) > 0
  {
    StrCmpZeroIff(a.from, b.from);
    StrCmpAntisymmetric(a.from, b.from);
    StrCmp(a.from, b.from) < 0
  }

  /**
   * The synonym order is a strict weak order: irreflexive, asymmetric,
   * transitive, and two synonyms are unordered exactly when their map-from
   * C strings are equal, whatever they map to.
   */
  lemma SynonymLessIsStrictWeakOrder(a: Synonym, b: Synonym, c: Synonym)
    ensures !SynonymLess(a, a)
    ensures SynonymLess(a, b) ==> !SynonymLess(b, a)
    ensures SynonymLess(a, b) && SynonymLess(b, c) ==> SynonymLess(a, c)
    ensures !SynonymLess(a, b) && !SynonymLess(b, a) <==> CStr(a.from) == CStr(b.from)
  {
    StrCmpZeroIff(a.from, a.from);
    StrCmpAntisymmetric(a.from, b.from);
    StrCmpZeroIff(a.from, b.from);
    if SynonymLess(a, b) && SynonymLess(b, c) {
      StrCmpTransitive(a.from, b.from, c.from);
    }
  }

  /** `Max(iLen, 1)`: the minimum word length actually kept. */
  function ClampMinWordLen(len: int): (r: int)
    ensures r >= 1 && r >= len
    ensures r == len || r == 1
  {
    if len > 1 then len else 1
  }

  /** The part of `ISphTokenizer` that has bodies: its word-length settings. */
  class BaseTokenizer {
    var minWordLen: int
    var lastTokenLen: int

    /** The trivial constructor: minimum word length 1, no token seen yet. */
    constructor ()
      ensures minWordLen == 1 && lastTokenLen == 0
    {
      minWordLen := 1;
      lastTokenLen := 0;
    }

    /**
     * `SetMinWordLen(iLen)`: a length of at least 1 is kept as given; anything
     * smaller becomes 1.
     */
    method SetMinWordLen(len: int)
      modifies this
      ensures minWordLen >= 1
      ensures minWordLen == ClampMinWordLen(len)
      ensures lastTokenLen == old(lastTokenLen)
    {
      minWordLen := ClampMinWordLen(len);
    }
  }
}

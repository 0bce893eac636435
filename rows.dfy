/**
 * Bit-packed document attribute rows.
 *
 * A row is a sequence of 32-bit row items (`CSphRowitem`, a DWORD). An
 * attribute is addressed either by a row item index, or by a bit offset into
 * the row and a bit count. `sphSetRowAttr` writes a bit field in place and
 * `CSphDocInfo` owns one document's id and row buffer.
 *
 * Row items are DWORD values (see module Words): a right shift is a division
 * by a power of two, masking with `(1 << n) - 1` keeps the remainder modulo
 * 2^n, and clearing or or-ing a group of bits subtracts or adds them.
 */
module Rows {
  import opened Words

  /** Width of one row item in bits (`ROWITEM_BITS`). */
  const ROWITEM_BITS: nat := WORD_BITS

  /** A row item (`CSphRowitem`). */
  type Rowitem = Word

  /**
   * `(x >> shift) & ((1 << cnt) - 1)`: the `cnt` bits of `x` that start at
   * bit `shift`.
   */
  function Field(x: int, shift: nat, cnt: nat): (r: nat)
    ensures r < Pow2(cnt)
  {
    (x / Pow2(shift)) % Pow2(cnt)
  }

  /**
   * How many bits of `((1 << cnt) - 1) << shift` survive truncation to a row
   * item: all `cnt` of them unless the field runs past bit 31.
   */
  function MaskWidth(shift: nat, cnt: nat): (w: nat)
    requires shift < ROWITEM_BITS && 0 < cnt < ROWITEM_BITS
    ensures 0 < w <= cnt && shift + w <= ROWITEM_BITS
    ensures shift + cnt <= ROWITEM_BITS ==> w == cnt
    ensures w == cnt || shift + w == ROWITEM_BITS
  {
    if shift + cnt <= ROWITEM_BITS then cnt else ROWITEM_BITS - shift
  }

  /**
   * The mask `((1UL << cnt) - 1) << shift`, stored into a row item, keeps
   * exactly `MaskWidth(shift, cnt)` one bits from bit `shift` upwards: the
   * bits the shift carries past bit 31 are lost.
   */
  lemma TruncatedMask(shift: nat, cnt: nat)
    requires shift < ROWITEM_BITS && 0 < cnt < ROWITEM_BITS
    ensures ((Pow2(cnt) - 1) * Pow2(shift)) % WORD_LIMIT
      == (Pow2(MaskWidth(shift, cnt)) - 1) * Pow2(shift)
  {
    var a, c := Pow2(shift), Pow2(cnt);
    var w := MaskWidth(shift, cnt);
    Pow2Add(shift, cnt);
    Pow2Word();
    if shift + cnt <= ROWITEM_BITS {
      Pow2Monotone(shift + cnt, ROWITEM_BITS);
      MaskFits(a, c, WORD_LIMIT);
    } else {
      var e := shift + cnt - ROWITEM_BITS;
      Pow2Add(ROWITEM_BITS, e);
      Pow2Add(shift, w);
      MaskWraps(a, c, Pow2(e), Pow2(w), WORD_LIMIT);
    }
  }

  /** A mask whose top bit is below the word's limit is stored unchanged. */
  lemma MaskFits(a: int, c: int, l: int)
    requires a > 0 && c >= 1 && a * c <= l
    ensures ((c - 1) * a) % l == (c - 1) * a
  {
    assert (c - 1) * a == a * c - a;
    ModBelow((c - 1) * a, l);
  }

  /**
   * A mask whose top bit `a * c` is `g` words: it wraps to the `p` low
   * digits of `a` that remain below the limit `l == p * a`.
   */
  lemma MaskWraps(a: int, c: int, g: int, p: int, l: int)
    requires a > 0 && p >= 1 && g >= 1 && a * c == l * g && l == a * p
    ensures ((c - 1) * a) % l == (p - 1) * a
  {
    var y := (c - 1) * a;
    assert y == a * c - a;
    assert (p - 1) * a == l - a;
    assert y == (g - 1) * l + (p - 1) * a;
    DivModUnique(y, l, g - 1, (p - 1) * a);
  }

  /** `x & ~mask`, for the mask of `w` bits at bit `shift`: the field's bits are cleared. */
  function ClearField(x: Rowitem, shift: nat, w: nat): (r: Rowitem)
    requires shift + w <= ROWITEM_BITS
    ensures r % Pow2(shift) == x % Pow2(shift)
    ensures r / Pow2(shift + w) == x / Pow2(shift + w)
    ensures Field(r, shift, w) == 0
  {
    StoreField(x, shift, w, 0);
    x - Field(x, shift, w) * Pow2(shift)
  }

  /**
   * One row item after the masked store of `sphSetRowAttr` with a partial
   * width: the bits under the mask receive the low bits of `v`, and every
   * bit below and above the mask keeps its value.
   */
  function ItemWithField(x: Rowitem, shift: nat, cnt: nat, v: Rowitem): (r: Rowitem)
    requires shift < ROWITEM_BITS && 0 < cnt < ROWITEM_BITS
    ensures r % Pow2(shift) == x % Pow2(shift)
    ensures r / Pow2(shift + MaskWidth(shift, cnt)) == x / Pow2(shift + MaskWidth(shift, cnt))
    ensures Field(r, shift, MaskWidth(shift, cnt)) == v % Pow2(MaskWidth(shift, cnt))
  {
    var w := MaskWidth(shift, cnt);
    StoreField(x, shift, w, v % Pow2(w));
    ClearField(x, shift, w) + (v % Pow2(w)) * Pow2(shift)
  }

  /** The part of `v` a field of `cnt` bits keeps: `v & ((1 << cnt) - 1)`, or all of `v`. */
  function FieldValue(v: Rowitem, cnt: nat): Rowitem
    requires 0 < cnt <= ROWITEM_BITS
  {
    if cnt == ROWITEM_BITS then v
    else
      ModAtMost(v, Pow2(cnt));
      v % Pow2(cnt)
  }

  /**
   * Whether the source's accessor assertions admit (`off`, `cnt`) on a row of
   * `rowitems` items: the field starts inside the row and ends inside it.
   */
  predicate AttrAsserted(off: int, cnt: int, rowitems: int)
  {
    0 <= off < rowitems * ROWITEM_BITS && 0 < cnt && off + cnt <= rowitems * ROWITEM_BITS
  }

  /** Whether a field lies inside a single row item. */
  predicate FieldInOneItem(off: nat, cnt: nat)
  {
    off % ROWITEM_BITS + cnt <= ROWITEM_BITS
  }

  /** The accessor precondition the row layout relies on: asserted and inside one item. */
  predicate AttrInRow(off: int, cnt: int, rowitems: int)
  {
    AttrAsserted(off, cnt, rowitems) && FieldInOneItem(off, cnt)
  }

  /**
   * `CSphDocInfo::GetAttr(iBitOffset, iBitCount)` on the row items `row`, as
   * written: a full-width field is the whole item; any other field is shifted
   * down and masked; only item `off / 32` is ever read.
   */
  function GetRowAttr(row: seq<Rowitem>, off: nat, cnt: nat): (r: Rowitem)
    requires off / ROWITEM_BITS < |row| && 0 < cnt <= ROWITEM_BITS
    ensures cnt < ROWITEM_BITS ==> r < Pow2(cnt)
    ensures cnt == ROWITEM_BITS ==> r == row[off / ROWITEM_BITS]
  {
    var item := off / ROWITEM_BITS;
    if cnt == ROWITEM_BITS then row[item]
    else
      Pow2Monotone(cnt, ROWITEM_BITS);
      Pow2Word();
      Field(row[item], off % ROWITEM_BITS, cnt)
  }

  /**
   * The row items after `sphSetRowAttr(row, off, cnt, v)`, as written: only
   * item `off / 32` is rewritten. A full-width field is stored verbatim, at
   * an item-aligned offset.
   */
  function RowWithAttr(row: seq<Rowitem>, off: nat, cnt: nat, v: Rowitem): (r: seq<Rowitem>)
    requires off / ROWITEM_BITS < |row| && 0 < cnt <= ROWITEM_BITS
    requires cnt == ROWITEM_BITS ==> off % ROWITEM_BITS == 0
    ensures |r| == |row|
    ensures forall j :: 0 <= j < |row| && j != off / ROWITEM_BITS ==> r[j] == row[j]
  {
    var item := off / ROWITEM_BITS;
    var updated := if cnt == ROWITEM_BITS then v
                   else ItemWithField(row[item], off % ROWITEM_BITS, cnt, v);
    row[item := updated]
  }

  /** Reading a field back after storing `v` into it yields the bits of `v` it keeps. */
  lemma SetGetRoundTrip(row: seq<Rowitem>, off: nat, cnt: nat, v: Rowitem)
    requires off / ROWITEM_BITS < |row| && 0 < cnt <= ROWITEM_BITS
    requires FieldInOneItem(off, cnt)
    ensures GetRowAttr(RowWithAttr(row, off, cnt, v), off, cnt) == FieldValue(v, cnt)
  {
  }

  /** A full-width store replaces the whole item, which the item accessor then returns. */
  lemma FullWidthStore(row: seq<Rowitem>, off: nat, v: Rowitem)
    requires off / ROWITEM_BITS < |row| && off % ROWITEM_BITS == 0
    ensures RowWithAttr(row, off, ROWITEM_BITS, v)[off / ROWITEM_BITS] == v
    ensures GetRowAttr(RowWithAttr(row, off, ROWITEM_BITS, v), off, ROWITEM_BITS) == v
  {
  }

  /**
   * Storing into a field changes no bit outside its mask: every single bit of
   * the row that lies outside bits [off, off + cnt) reads the same afterwards.
   */
  lemma SetRowAttrOnlyMaskedBits(row: seq<Rowitem>, off: nat, cnt: nat, v: Rowitem, bit: nat)
    requires off / ROWITEM_BITS < |row| && 0 < cnt <= ROWITEM_BITS && FieldInOneItem(off, cnt)
    requires bit / ROWITEM_BITS < |row| && (bit < off || off + cnt <= bit)
    ensures GetRowAttr(RowWithAttr(row, off, cnt, v), bit, 1) == GetRowAttr(row, bit, 1)
  {
    DisjointFieldUnchanged(row, off, cnt, v, bit, 1);
  }

  /**
   * Storing into one field leaves every other field that does not overlap it
   * reading the same, whether it lives in the same row item or another one.
   */
  lemma DisjointFieldUnchanged(row: seq<Rowitem>, off: nat, cnt: nat, v: Rowitem, off2: nat, cnt2: nat)
    requires off / ROWITEM_BITS < |row| && 0 < cnt <= ROWITEM_BITS && FieldInOneItem(off, cnt)
    requires off2 / ROWITEM_BITS < |row| && 0 < cnt2 <= ROWITEM_BITS && FieldInOneItem(off2, cnt2)
    requires off + cnt <= off2 || off2 + cnt2 <= off
    ensures GetRowAttr(RowWithAttr(row, off, cnt, v), off2, cnt2) == GetRowAttr(row, off2, cnt2)
  {
    var item, item2 := off / ROWITEM_BITS, off2 / ROWITEM_BITS;
    if item == item2 {
      var x := row[item];
      var s, s2 := off % ROWITEM_BITS, off2 % ROWITEM_BITS;
      assert cnt < ROWITEM_BITS && cnt2 < ROWITEM_BITS;
      var y := ItemWithField(x, s, cnt, v);
      assert RowWithAttr(row, off, cnt, v)[item] == y;
      if s2 + cnt2 <= s {
        FieldBelow(y, s, s2, cnt2);
        FieldBelow(x, s, s2, cnt2);
      } else {
        assert s + cnt <= s2;
        FieldAbove(y, s + cnt, s2, cnt2);
        FieldAbove(x, s + cnt, s2, cnt2);
      }
    }
  }

  /**
   * The assertions of `SetAttr` and `GetAttr` admit a field that runs past
   * the end of its row item into the next one, but the code reads and writes
   * item `off / 32` only: the mask is cut at bit 31, so the field reads back
   * as the low `32 - off % 32` bits of the stored value, and the next item is
   * never written. Any value with a bit set in between reads back wrong (for
   * example 0x1FF stored in 16 bits at bit 24 reads back as 0xFF).
   */
  lemma StraddlingFieldLosesBits(row: seq<Rowitem>, off: nat, cnt: nat, v: Rowitem)
    requires cnt < ROWITEM_BITS && AttrAsserted(off, cnt, |row|) && !FieldInOneItem(off, cnt)
    ensures off / ROWITEM_BITS + 1 < |row|
    ensures RowWithAttr(row, off, cnt, v)[off / ROWITEM_BITS + 1] == row[off / ROWITEM_BITS + 1]
    ensures GetRowAttr(RowWithAttr(row, off, cnt, v), off, cnt) == v % Pow2(ROWITEM_BITS - off % ROWITEM_BITS)
    ensures Pow2(ROWITEM_BITS - off % ROWITEM_BITS) <= v % Pow2(cnt) ==>
      GetRowAttr(RowWithAttr(row, off, cnt, v), off, cnt) != FieldValue(v, cnt)
  {
    var item, s := off / ROWITEM_BITS, off % ROWITEM_BITS;
    assert off == item * ROWITEM_BITS + s;
    DivBelow(off + cnt - 1, |row|, ROWITEM_BITS);
    assert (off + cnt - 1) / ROWITEM_BITS > item by {
      DivModUnique(off + cnt - 1, ROWITEM_BITS, item + 1, s + cnt - 1 - ROWITEM_BITS);
    }
    var w := ROWITEM_BITS - s;
    assert MaskWidth(s, cnt) == w;
    var y := ItemWithField(row[item], s, cnt, v);
    var a, b := Pow2(s), Pow2(w);
    Pow2Add(s, w);
    Pow2Word();
    var ab := a * b;
    assert y < ab;
    TopDigit(y, a, b);
    var q := y / a;
    assert q == v % b;
    Pow2Monotone(w, cnt);
    ModBelow(q, Pow2(cnt));
    assert GetRowAttr(RowWithAttr(row, off, cnt, v), off, cnt) == Field(y, s, cnt);
  }

  // ---------------------------------------------------------------------------
  // Arithmetic of a single field

  /**
   * Replacing the field of `c` bits at `s` by `m`, by subtracting the old
   * field and adding the new one, keeps the bits below and above it and
   * keeps a row item inside its 32 bits.
   */
  lemma StoreField(x: Rowitem, s: nat, c: nat, m: nat)
    requires s + c <= ROWITEM_BITS && m < Pow2(c)
    ensures var y := x - Field(x, s, c) * Pow2(s) + m * Pow2(s);
      && 0 <= y < WORD_LIMIT
      && y % Pow2(s) == x % Pow2(s)
      && y / Pow2(s + c) == x / Pow2(s + c)
      && Field(y, s, c) == m
  {
    var a, b, k := Pow2(s), Pow2(c), Pow2(ROWITEM_BITS - (s + c));
    Pow2Add(s, c);
    Pow2Add(s + c, ROWITEM_BITS - (s + c));
    Pow2Word();
    assert a * b == Pow2(s + c);
    var ab := a * b;
    assert ab * k == WORD_LIMIT;
    assert x < k * ab;
    assert Field(x, s, c) == (x / a) % b;
    ReplaceDigit(x, a, b, k, m);
  }

  /** A field that ends at or below bit `s` only depends on the bits below `s`. */
  lemma FieldBelow(y: nat, s: nat, s2: nat, c2: nat)
    requires s2 + c2 <= s
    ensures Field(y, s2, c2) == Field(y % Pow2(s), s2, c2)
  {
    Pow2Add(s2, s - s2);
    Pow2Add(c2, s - s2 - c2);
    DigitIgnoresHigh(y, Pow2(s2), Pow2(c2), Pow2(s - s2 - c2));
  }

  /** A field that starts at or above bit `t` only depends on the bits above `t`. */
  lemma FieldAbove(y: nat, t: nat, s2: nat, c2: nat)
    requires t <= s2
    ensures Field(y, s2, c2) == Field(y / Pow2(t), s2 - t, c2)
  {
    var a, b := Pow2(t), Pow2(s2 - t);
    Pow2Add(t, s2 - t);
    var ab := a * b;
    assert ab == Pow2(s2);
    DivDiv(y, a, b);
    assert y / a / b == y / Pow2(s2);
  }

  // ---------------------------------------------------------------------------
  // In-place row operations

  /** `sphSetRowAttr`: store the low `cnt` bits of `v` at bit `off` of `row`, in place. */
  method SetRowAttr(row: array<Rowitem>, off: nat, cnt: nat, v: Rowitem)
    requires off / ROWITEM_BITS < row.Length && 0 < cnt <= ROWITEM_BITS
    requires cnt == ROWITEM_BITS ==> off % ROWITEM_BITS == 0
    modifies row
    ensures row[..] == RowWithAttr(old(row[..]), off, cnt, v)
  {
    var item := off / ROWITEM_BITS;
    if cnt == ROWITEM_BITS {
      row[item] := v;
    } else {
      var shift := off % ROWITEM_BITS;
      var width := MaskWidth(shift, cnt);
      ghost var x := row[item];
      StoreField(x, shift, width, v % Pow2(width));
      row[item] := ClearField(row[item], shift, width);
      row[item] := row[item] + (v % Pow2(width)) * Pow2(shift);
      assert row[item] == ItemWithField(x, shift, cnt, v);
    }
  }

  /**
   * `CSphDocInfo`: a document id and a buffer of `rowitems` row items. The
   * NULL buffer of a document without row items is an empty array here.
   */
  class DocInfo {
    var docId: nat
    var rowitems: nat
    var row: array<Rowitem>

    ghost predicate Valid()
      reads this
    {
      row.Length == rowitems
    }

    /** Default constructor: clears everything. */
    constructor ()
      ensures Valid() && fresh(row)
      ensures docId == 0 && rowitems == 0
    {
      docId := 0;
      rowitems := 0;
      row := new Rowitem[0];
    }

    /** Copy constructor: starts empty, then assigns from `rhs`. */
    constructor Copy(rhs: DocInfo)
      requires rhs.Valid()
      ensures Valid() && fresh(row)
      ensures docId == rhs.docId && rowitems == rhs.rowitems && row[..] == rhs.row[..]
    {
      docId := 0;
      rowitems := 0;
      row := new Rowitem[0];
      new;
      Assign(rhs);
    }

    /**
     * `Reset(iNewRowitems)`: zero the id; reallocate the buffer only when the
     * item count changes (its new contents are unspecified).
     */
    method Reset(n: nat)
      requires Valid()
      modifies this
      ensures Valid()
      ensures docId == 0 && rowitems == n
      ensures n == old(rowitems) ==> row == old(row) && row[..] == old(row[..])
      ensures n != old(rowitems) ==> fresh(row)
    {
      docId := 0;
      if n != rowitems {
        rowitems := n;
        row := new Rowitem[rowitems];
      }
    }

    /**
     * `operator=`: copy the id and every row item of `rhs`, reallocating the
     * buffer only when the item counts differ.
     */
    method Assign(rhs: DocInfo)
      requires Valid() && rhs.Valid()
      modifies this, row
      ensures Valid()
      ensures docId == old(rhs.docId) && rowitems == old(rhs.rowitems)
      ensures row[..] == old(rhs.row[..])
      ensures old(rowitems) == old(rhs.rowitems) ==> row == old(row)
      ensures old(rowitems) != old(rhs.rowitems) ==> fresh(row)
      ensures rhs.Valid() && rhs.row == old(rhs.row) && rhs.row[..] == old(rhs.row[..])
    {
      ghost var src := rhs.row[..];
      docId := rhs.docId;
      if rowitems != rhs.rowitems {
        rowitems := rhs.rowitems;
        row := new Rowitem[rowitems];
      }
      var i := 0;
      while i < rowitems
        invariant 0 <= i <= rowitems == |src| == row.Length
        invariant rhs.rowitems == |src| && rhs.row == old(rhs.row)
        invariant docId == old(rhs.docId)
        invariant old(rowitems) == old(rhs.rowitems) ==> row == old(row)
        invariant old(rowitems) != old(rhs.rowitems) ==> fresh(row)
        invariant row[..i] == src[..i]
        invariant rhs.row[i..] == src[i..]
      {
        row[i] := rhs.row[i];
        i := i + 1;
      }
    }

    /** `GetAttr(iItem)`: the whole row item `i`, the same as an aligned 32-bit field. */
    function GetAttrItem(i: int): (r: Rowitem)
      requires Valid() && 0 <= i < rowitems
      reads this, row
      ensures r == GetRowAttr(row[..], i * ROWITEM_BITS, ROWITEM_BITS)
    {
      row[i]
    }

    /** `GetAttr(iBitOffset, iBitCount)`: the field's value, which fits in `cnt` bits. */
    function GetAttrBits(off: int, cnt: int): (r: Rowitem)
      requires Valid() && AttrInRow(off, cnt, rowitems)
      reads this, row
      ensures cnt < ROWITEM_BITS ==> r < Pow2(cnt)
      ensures cnt == ROWITEM_BITS ==> r == GetAttrItem(off / ROWITEM_BITS)
    {
      GetRowAttr(row[..], off, cnt)
    }

    /**
     * `SetAttr(iBitOffset, iBitCount, uValue)`: only the field changes, and it
     * then reads back as the low `cnt` bits of `v`.
     */
    method SetAttr(off: int, cnt: int, v: Rowitem)
      requires Valid() && AttrInRow(off, cnt, rowitems)
      modifies row
      ensures row[..] == RowWithAttr(old(row[..]), off, cnt, v)
      ensures GetAttrBits(off, cnt) == FieldValue(v, cnt)
    {
      SetRowAttr(row, off, cnt, v);
      SetGetRoundTrip(old(row[..]), off, cnt, v);
    }
  }
}

/**
 * Search matches and the sorter's comparator state.
 *
 * `CSphMatch` extends `CSphDocInfo` with a weight, a geodistance and a tag.
 * Here a match holds its document part as a `DocInfo` object of its own;
 * the geodistance is a float the model never interprets, so it is carried
 * as its 32-bit pattern.
 */
module Matches {
  import opened Words
  import opened Rows

  /** `CSphMatch`. */
  class Match {
    /** The `CSphDocInfo` base part: id and row. */
    const doc: DocInfo
    var weight: int
    /** `m_fGeodist`, kept as the bit pattern of the float. */
    var geodist: Word
    var tag: int

    ghost predicate Valid()
      reads this, doc
    {
      doc.Valid()
    }

    /** The constructor: an empty document part, weight, geodistance and tag all 0. */
    constructor ()
      ensures Valid() && fresh(doc) && fresh(doc.row)
      ensures doc.docId == 0 && doc.rowitems == 0
      ensures weight == 0 && geodist == 0 && tag == 0
    {
      doc := new DocInfo();
      weight := 0;
      geodist := 0;
      tag := 0;
    }
  }

  /** `CSphMatch::operator ==`: two matches are equal when their document ids are. */
  predicate SameDocument(a: Match, b: Match): (r: bool)
    reads a, b, a.doc, b.doc
    ensures a == b || a.doc == b.doc ==> r
    ensures r ==> b.doc.docId == a.doc.docId
  {
    a.doc.docId == b.doc.docId
  }

  /**
   * Match equality is an equivalence relation, and it ignores everything but
   * the document id: weight, tag, geodistance and row contents play no part.
   */
  lemma SameDocumentIsEquivalence(a: Match, b: Match, c: Match)
    ensures SameDocument(a, a)
    ensures SameDocument(a, b) ==> SameDocument(b, a)
    ensures SameDocument(a, b) && SameDocument(b, c) ==> SameDocument(a, c)
    ensures SameDocument(a, b) <==> a.doc.docId == b.doc.docId
  {
  }

  /**
   * `Swap(CSphMatch&, CSphMatch&)`: exchange the document id, the row item
   * count, the row buffer, the weight, the tag and the geodistance.
   */
  method Swap(a: Match, b: Match)
    modifies a, b, a.doc, b.doc
    ensures a.doc.docId == old(b.doc.docId) && b.doc.docId == old(a.doc.docId)
    ensures a.doc.rowitems == old(b.doc.rowitems) && b.doc.rowitems == old(a.doc.rowitems)
    ensures a.doc.row == old(b.doc.row) && b.doc.row == old(a.doc.row)
    ensures a.weight == old(b.weight) && b.weight == old(a.weight)
    ensures a.tag == old(b.tag) && b.tag == old(a.tag)
    ensures a.geodist == old(b.geodist) && b.geodist == old(a.geodist)
    ensures old(a.Valid()) && old(b.Valid()) ==> a.Valid() && b.Valid()
  {
    a.doc.docId, b.doc.docId := b.doc.docId, a.doc.docId;
    a.doc.rowitems, b.doc.rowitems := b.doc.rowitems, a.doc.rowitems;
    a.doc.row, b.doc.row := b.doc.row, a.doc.row;
    a.weight, b.weight := b.weight, a.weight;
    a.tag, b.tag := b.tag, a.tag;
    a.geodist, b.geodist := b.geodist, a.geodist;
  }

  /** C's `%`, which truncates toward zero: the remainder takes the sign of `a`. */
  function CRem(a: int, d: int): (r: int)
    requires d > 0
    ensures -d < r < d
    ensures a >= 0 ==> r == a % d
    ensures r == 0 <==> a % d == 0
  {
    if a >= 0 then a % d
    else
      NegDivides(-a, d);
      -((-a) % d)
  }

  /** `CSphMatchComparatorState::MAX_ATTRS`: how many sort-by attributes fit. */
  const MAX_ATTRS: nat := 5

  /** `CSphMatchComparatorState`: which attributes a sorter compares, and how. */
  class ComparatorState {
    /** `m_iAttr`: sort-by attribute index, -1 for an unused slot. */
    const attr: array<int>
    /** `m_iRowitem`: the row item of a whole-item attribute, else -1. */
    const rowitem: array<int>
    /** `m_iBitOffset`: bit offset of the attribute in the row. */
    const bitOffset: array<int>
    /** `m_iBitCount`: bit count of the attribute. */
    const bitCount: array<int>
    /** `m_uAttrDesc`: bit `i` set means slot `i` sorts descending. */
    var attrDesc: Word
    /** `m_iNow`: the timestamp time-segment sorting works from. */
    var now: Word

    ghost predicate Valid()
      reads this
    {
      attr.Length == MAX_ATTRS && rowitem.Length == MAX_ATTRS
      && bitOffset.Length == MAX_ATTRS && bitCount.Length == MAX_ATTRS
    }

    /** The default, empty state: every slot -1 in all four arrays, mask and time 0. */
    constructor ()
      ensures Valid() && fresh(attr) && fresh(rowitem) && fresh(bitOffset) && fresh(bitCount)
      ensures forall i :: 0 <= i < MAX_ATTRS ==>
        attr[i] == -1 && rowitem[i] == -1 && bitOffset[i] == -1 && bitCount[i] == -1
      ensures attrDesc == 0 && now == 0
      ensures forall i :: 0 <= i < MAX_ATTRS ==> !IsBitfieldSlot(i)
    {
      attr := new int[MAX_ATTRS];
      rowitem := new int[MAX_ATTRS];
      bitOffset := new int[MAX_ATTRS];
      bitCount := new int[MAX_ATTRS];
      attrDesc := 0;
      now := 0;
      new;
      var i := 0;
      while i < MAX_ATTRS
        invariant 0 <= i <= MAX_ATTRS
        invariant forall j :: 0 <= j < i ==>
          attr[j] == -1 && rowitem[j] == -1 && bitOffset[j] == -1 && bitCount[j] == -1
        invariant attrDesc == 0 && now == 0
      {
        attr[i] := -1;
        rowitem[i] := -1;
        bitOffset[i] := -1;
        bitCount[i] := -1;
        i := i + 1;
      }
    }

    /**
     * Whether slot `i` is in use and its attribute is not a whole, aligned
     * row item, so that it must be read by bit offset and count.
     */
    predicate IsBitfieldSlot(i: int)
      requires Valid() && 0 <= i < MAX_ATTRS
      reads this, attr, bitOffset, bitCount
    {
      attr[i] >= 0 && (bitCount[i] != ROWITEM_BITS || CRem(bitOffset[i], ROWITEM_BITS) != 0)
    }

    /** `UsesBitfields()`: whether any slot in use is a bit field. */
    method UsesBitfields() returns (b: bool)
      requires Valid()
      ensures b <==> exists i :: 0 <= i < MAX_ATTRS && IsBitfieldSlot(i)
    {
      var i := 0;
      while i < MAX_ATTRS
        invariant 0 <= i <= MAX_ATTRS
        invariant forall j :: 0 <= j < i ==> !IsBitfieldSlot(j)
      {
        if attr[i] >= 0 {
          if bitCount[i] != ROWITEM_BITS || CRem(bitOffset[i], ROWITEM_BITS) != 0 {
            assert IsBitfieldSlot(i);
            return true;
          }
        }
        i := i + 1;
      }
      return false;
    }

    /**
     * `GetAttr<BITS>(m, i)`: with `bits`, the field at slot `i`'s bit offset
     * and count; without, the whole row item the slot names.
     */
    function GetAttr(bits: bool, m: Match, i: int): (r: Rowitem)
      requires Valid() && m.Valid() && 0 <= i < MAX_ATTRS
      requires bits ==> AttrInRow(bitOffset[i], bitCount[i], m.doc.rowitems)
      requires !bits ==> 0 <= rowitem[i] < m.doc.rowitems
      reads this, rowitem, bitOffset, bitCount, m, m.doc, m.doc.row
      ensures bits && bitCount[i] < ROWITEM_BITS ==> r < Pow2(bitCount[i])
      ensures !bits ==> r == m.doc.row[rowitem[i]]
    {
      if bits then m.doc.GetAttrBits(bitOffset[i], bitCount[i])
      else m.doc.GetAttrItem(rowitem[i])
    }

    /**
     * For a slot in use that is not a bit field and names the row item its
     * bit offset points at, the whole-item read and the bit-field read agree:
     * which is why a sorter may take the faster whole-item path when
     * `UsesBitfields()` is false.
     */
    lemma ItemPathAgrees(m: Match, i: int)
      requires Valid() && m.Valid() && 0 <= i < MAX_ATTRS
      requires attr[i] >= 0 && !IsBitfieldSlot(i)
      requires 0 <= bitOffset[i] < m.doc.rowitems * ROWITEM_BITS
      requires rowitem[i] == bitOffset[i] / ROWITEM_BITS
      ensures AttrInRow(bitOffset[i], bitCount[i], m.doc.rowitems)
      ensures GetAttr(true, m, i) == GetAttr(false, m, i)
    {
      var off := bitOffset[i];
      assert bitCount[i] == ROWITEM_BITS && off % ROWITEM_BITS == 0;
      DivBelow(off, m.doc.rowitems, ROWITEM_BITS);
      assert off == rowitem[i] * ROWITEM_BITS;
    }
  }
}

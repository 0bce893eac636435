/**
 * Purging during an index merge (`CSphPurgeData`): a merged document is
 * dropped when purging is enabled and one of its attributes lies outside a
 * configured range.
 */
module Purge {
  import opened Wrappers
  import opened Words

  /**
   * `CSphPurgeData`: the attribute name, its index in the attribute row
   * (-1 when unknown), the range of values to keep and whether purging is on.
   */
  datatype PurgeData = PurgeData(key: string, attrIndex: int, minValue: Word, maxValue: Word, purge: bool)

  /** The default purge data: no attribute, empty range at 0, purging off. */
  function DefaultPurgeData(): (p: PurgeData)
    ensures p.attrIndex == -1 && p.minValue == 0 && p.maxValue == 0 && !p.purge
  {
    PurgeData("", -1, 0, 0, false)
  }

  /** `IsEnabled()`: whether purging is switched on; when it is off, nothing is purged. */
  predicate IsEnabled(p: PurgeData): (r: bool)
    ensures !r ==> forall attrs: Option<seq<Word>> :: CanCheck(p, attrs) && !IsShouldPurge(p, attrs)
  {
    p.purge
  }

  /**
   * What `IsShouldPurge` needs of its caller: whenever it goes on to read
   * the attribute row, the index names an attribute in it.
   */
  predicate CanCheck(p: PurgeData, attrs: Option<seq<Word>>)
  {
    p.attrIndex != -1 && p.purge && attrs.Some? ==> 0 <= p.attrIndex < |attrs.value|
  }

  /**
   * `IsShouldPurge(pAttrs)`: no attribute index, purging off or no attribute
   * row (`None` for NULL) keep the document; otherwise it goes exactly when
   * its attribute is below the minimum or above the maximum.
   */
  function IsShouldPurge(p: PurgeData, attrs: Option<seq<Word>>): (r: bool)
    requires CanCheck(p, attrs)
    ensures r ==> p.attrIndex != -1 && p.purge && attrs.Some?
  {
    if p.attrIndex == -1 || !p.purge || attrs.None? then false
    else p.minValue > attrs.value[p.attrIndex] || p.maxValue < attrs.value[p.attrIndex]
  }

  /**
   * With an attribute index, purging on and an attribute row, a document is
   * kept exactly when its attribute lies in [min, max].
   */
  lemma KeptIffInRange(p: PurgeData, attrs: seq<Word>)
    requires p.attrIndex != -1 && IsEnabled(p) && 0 <= p.attrIndex < |attrs|
    ensures CanCheck(p, Some(attrs))
    ensures !IsShouldPurge(p, Some(attrs)) <==> p.minValue <= attrs[p.attrIndex] <= p.maxValue
  {
  }

  /** Default purge data, or any data with purging switched off, never purges. */
  lemma DisabledNeverPurges(p: PurgeData, attrs: Option<seq<Word>>)
    requires !IsEnabled(p)
    ensures CanCheck(p, attrs) && CanCheck(DefaultPurgeData(), attrs)
    ensures !IsShouldPurge(p, attrs) && !IsShouldPurge(DefaultPurgeData(), attrs)
  {
  }

  /** An empty range (min above max) purges every document once enabled. */
  lemma EmptyRangePurgesAll(p: PurgeData, attrs: seq<Word>)
    requires p.attrIndex != -1 && IsEnabled(p) && 0 <= p.attrIndex < |attrs|
    requires p.minValue > p.maxValue
    ensures CanCheck(p, Some(attrs)) && IsShouldPurge(p, Some(attrs))
  {
  }

  /**
   * Widening the range to keep never purges more: a document the wider range
   * purges, the narrower range purges too.
   */
  lemma WiderRangePurgesLess(p: PurgeData, q: PurgeData, attrs: Option<seq<Word>>)
    requires CanCheck(p, attrs)
    requires q == p.(minValue := q.minValue, maxValue := q.maxValue)
    requires q.minValue <= p.minValue && p.maxValue <= q.maxValue
    ensures CanCheck(q, attrs)
    ensures IsShouldPurge(q, attrs) ==> IsShouldPurge(p, attrs)
  {
  }
}

/** The 128b/132b conversions between link rates (10 Mbit/s units) and data rates (bytes per second),
    in 64-bit unsigned arithmetic with its wrap-around written out. */
module LinkRate {
  import opened Powers

  const MODULUS: nat := 0x1_0000_0000_0000_0000
  const UNIT: nat := 40_000_000

  /** Rounds down. */
  function LinkToData(link: Word64): Word64 { link * 4 % MODULUS * 10_000_000 % MODULUS / 33 }

  /** Rounds up, as NV_UNSIGNED_DIV_CEIL does. */
  function DataToLink(data: Word64): Word64 { (data * 33 % MODULUS + (UNIT - 1)) % MODULUS / UNIT }

  /** The greatest link rate whose products stay below 2^64 both ways. */
  const MAX_LINK: nat := 461_168_601_841

  /** While nothing wraps, the two conversions form a Galois connection: the link rate for a data
      rate is the least one that carries it. */
  lemma LeastCarrier(link: Word64, data: Word64)
    requires link * UNIT < MODULUS && data * 33 + (UNIT - 1) < MODULUS
    ensures DataToLink(data) <= link <==> data <= LinkToData(link)
  {
    hide LinkToData, DataToLink;
    DataBounds(link);
    LinkBounds(data);
  }

  lemma DataBounds(link: Word64)
    requires link * UNIT < MODULUS
    ensures LinkToData(link) * 33 <= link * UNIT < LinkToData(link) * 33 + 33
  {
  }

  lemma LinkBounds(data: Word64)
    requires data * 33 + (UNIT - 1) < MODULUS
    ensures data * 33 <= DataToLink(data) * UNIT < data * 33 + UNIT
  {
  }

  lemma FittingReturns(link: Word64)
    requires link <= MAX_LINK
    ensures DataToLink(LinkToData(link)) == link
  {
    hide LinkToData, DataToLink;
    var data := LinkToData(link);
    DataBounds(link);
    LeastCarrier(link, data);
    if link > 0 {
      LeastCarrier(link - 1, data);
      assert link * UNIT == (link - 1) * UNIT + UNIT;
      FloorGrows(link);
    }
  }

  /** One more unit of link rate carries strictly more data. */
  lemma FloorGrows(link: Word64)
    requires 0 < link && link * UNIT < MODULUS
    ensures LinkToData(link - 1) < LinkToData(link)
  {
    hide LinkToData, DataToLink;
    DataBounds(link);
    DataBounds(link - 1);
  }

  lemma LinkBound(data: Word64)
    ensures DataToLink(data) <= MAX_LINK + 1
  {
  }

  lemma FirstWraps()
    ensures DataToLink(LinkToData(MAX_LINK + 1)) == 0
  {
    assert LinkToData(MAX_LINK + 1) == 558_992_244_656_969_696;
  }

  lemma WrappingDiffers(link: Word64)
    requires link > MAX_LINK
    ensures DataToLink(LinkToData(link)) != link
  {
    hide *;
    LinkBound(LinkToData(link));
    FirstWraps();
  }

  /** Converting to a data rate and back returns the link rate exactly when nothing wraps. */
  lemma RoundTripExactly(link: Word64)
    ensures DataToLink(LinkToData(link)) == link <==> link <= MAX_LINK
  {
    hide *;
    if link <= MAX_LINK { FittingReturns(link); } else { WrappingDiffers(link); }
  }
}

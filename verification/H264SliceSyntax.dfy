/**
 * Picture parameter set and slice header prefixes (ITU-T H.264, sections 7.3.2.2 and
 * 7.3.3) in the progressive, single slice group scope of the range observer, and the
 * picture key of section 7.4.1.2.4.
 */
module SliceSyntax {
  import opened Basics
  import opened BitSyntax
  import opened SpsSyntax

  // ---- picture parameter sets ------------------------------------------------------

  datatype PpsIds = PpsIds(pps: nat, sps: nat)

  function GetPpsIds(bits: Bits): (p: Parsed<PpsIds>)
    ensures !p.Unsupported?
  {
    var (pps, bits) :- GetUE(bits);
    var (sps, bits) :- GetUE(bits);
    if pps > 255 || sps > 31 then Invalid else Got(PpsIds(pps, sps), bits)
  }

  ghost function PutPpsIds(ids: PpsIds, tail: Bits): Bits { PutUE(ids.pps, PutUE(ids.sps, tail)) }

  lemma GetPutPpsIds(ids: PpsIds, tail: Bits)
    requires ids.pps <= 255 && ids.sps <= 31
    ensures GetPpsIds(PutPpsIds(ids, tail)) == Got(ids, tail)
  {
    GetPutUE(ids.pps, PutUE(ids.sps, tail));
    GetPutUE(ids.sps, tail);
  }

  /** One slice group and no redundant pictures; only the POC flag is kept. */
  datatype PpsPicture = PpsPicture(
    entropy: bool, bottomFieldPoc: bool, refs0: nat, refs1: nat, weighted: bool, bipred: nat,
    qp: int, qs: int, chroma: int, deblocking: bool, constrainedIntra: bool)

  ghost predicate ValidPpsPicture(p: PpsPicture) {
    && p.refs0 <= 31 && p.refs1 <= 31 && p.bipred <= 2
    && -26 <= p.qp <= 25 && -26 <= p.qs <= 25 && -12 <= p.chroma <= 12
  }

  datatype Quantisers = Quantisers(qp: int, qs: int, chroma: int)

  function GetQuantisers(bits: Bits): (p: Parsed<Quantisers>)
    ensures !p.Unsupported?
  {
    var (qp, bits) :- GetSE(bits);
    if qp < -26 || qp > 25 then Invalid else
    var (qs, bits) :- GetSE(bits);
    if qs < -26 || qs > 25 then Invalid else
    var (chroma, bits) :- GetSE(bits);
    if chroma < -12 || chroma > 12 then Invalid else Got(Quantisers(qp, qs, chroma), bits)
  }

  datatype References = References(refs0: nat, refs1: nat, weighted: bool, bipred: nat)

  function GetReferences(bits: Bits): (p: Parsed<References>)
    ensures !p.Unsupported?
  {
    var (groups, bits) :- GetUE(bits);
    if groups != 0 then Invalid else
    var (refs0, bits) :- GetUE(bits);
    if refs0 > 31 then Invalid else
    var (refs1, bits) :- GetUE(bits);
    if refs1 > 31 then Invalid else
    var (weighted, bits) :- GetFlag(bits);
    var (bipred, bits) :- GetU(2, bits);
    if bipred > 2 then Invalid else Got(References(refs0, refs1, weighted, bipred), bits)
  }

  datatype PpsFlags = PpsFlags(deblocking: bool, constrainedIntra: bool)

  function GetPpsFlags(bits: Bits): (p: Parsed<PpsFlags>)
    ensures !p.Unsupported?
  {
    var (deblocking, bits) :- GetFlag(bits);
    var (constrainedIntra, bits) :- GetFlag(bits);
    var (redundant, bits) :- GetFlag(bits);
    if redundant then Invalid else Got(PpsFlags(deblocking, constrainedIntra), bits)
  }

  function GetPpsPicture(bits: Bits): (p: Parsed<PpsPicture>)
    ensures !p.Unsupported?
  {
    var (entropy, bits) :- GetFlag(bits);
    var (bottom, bits) :- GetFlag(bits);
    var (r, bits) :- GetReferences(bits);
    var (q, bits) :- GetQuantisers(bits);
    var (f, bits) :- GetPpsFlags(bits);
    Got(PpsPicture(entropy, bottom, r.refs0, r.refs1, r.weighted, r.bipred, q.qp, q.qs, q.chroma,
                   f.deblocking, f.constrainedIntra), bits)
  }

  ghost function PutPpsPicture(p: PpsPicture, tail: Bits): Bits
    requires ValidPpsPicture(p)
  {
    Pow2Values();
    PutFlag(p.entropy, PutFlag(p.bottomFieldPoc,
      PutUE(0, PutUE(p.refs0, PutUE(p.refs1, PutFlag(p.weighted, PutU(2, p.bipred,
      PutSE(p.qp, PutSE(p.qs, PutSE(p.chroma,
      PutFlag(p.deblocking, PutFlag(p.constrainedIntra, PutFlag(false, tail)))))))))))))
  }

  lemma GetPutReferences(p: PpsPicture, tail: Bits)
    requires ValidPpsPicture(p)
    ensures GetReferences(PutUE(0, PutUE(p.refs0, PutUE(p.refs1, PutFlag(p.weighted, PutU(2, p.bipred, tail))))))
      == Got(References(p.refs0, p.refs1, p.weighted, p.bipred), tail)
  {
    Pow2Values();
    var r3 := PutFlag(p.weighted, PutU(2, p.bipred, tail));
    var r2 := PutUE(p.refs1, r3);
    GetPutUE(0, PutUE(p.refs0, r2));
    GetPutUE(p.refs0, r2);
    GetPutUE(p.refs1, r3);
    GetPutU(2, p.bipred, tail);
  }

  lemma GetPutQuantisers(p: PpsPicture, tail: Bits)
    requires ValidPpsPicture(p)
    ensures GetQuantisers(PutSE(p.qp, PutSE(p.qs, PutSE(p.chroma, tail)))) == Got(Quantisers(p.qp, p.qs, p.chroma), tail)
  {
    GetPutSE(p.qp, PutSE(p.qs, PutSE(p.chroma, tail)));
    GetPutSE(p.qs, PutSE(p.chroma, tail));
    GetPutSE(p.chroma, tail);
  }

  lemma GetPutPpsPicture(p: PpsPicture, tail: Bits)
    requires ValidPpsPicture(p)
    ensures GetPpsPicture(PutPpsPicture(p, tail)) == Got(p, tail)
  {
    Pow2Values();
    var f := PutFlag(p.deblocking, PutFlag(p.constrainedIntra, PutFlag(false, tail)));
    assert GetPpsFlags(f) == Got(PpsFlags(p.deblocking, p.constrainedIntra), tail);
    var q := PutSE(p.qp, PutSE(p.qs, PutSE(p.chroma, f)));
    GetPutQuantisers(p, f);
    GetPutReferences(p, q);
  }

  // ---- slice headers ---------------------------------------------------------------

  datatype SliceStart = SliceStart(firstMb: nat, sliceType: nat, pps: nat)

  function GetSliceStart(bits: Bits): (p: Parsed<SliceStart>)
    ensures !p.Unsupported?
  {
    var (firstMb, bits) :- GetUE(bits);
    var (sliceType, bits) :- GetUE(bits);
    var (pps, bits) :- GetUE(bits);
    Got(SliceStart(firstMb, sliceType, pps), bits)
  }

  ghost function PutSliceStart(s: SliceStart, tail: Bits): Bits {
    PutUE(s.firstMb, PutUE(s.sliceType, PutUE(s.pps, tail)))
  }

  /** The picture order count fields; those a header does not carry are zero. */
  datatype Order = Order(lsb: nat, deltaBottom: int, delta0: int, delta1: int)

  function GetOrder(sps: SpsRange, bottom: bool, bits: Bits): (p: Parsed<Order>)
    ensures !p.Unsupported?
  {
    if sps.pocType == 0 then
      if sps.pocLsbBits < 4 || sps.pocLsbBits > 16 then Invalid else
      var (lsb, bits) :- GetU(sps.pocLsbBits, bits);
      if !bottom then Got(Order(lsb, 0, 0, 0), bits) else
      var (delta, bits) :- GetSE(bits);
      Got(Order(lsb, delta, 0, 0), bits)
    else if sps.pocType == 1 && !sps.deltaPicOrderAlwaysZero then
      var (delta0, bits) :- GetSE(bits);
      if !bottom then Got(Order(0, 0, delta0, 0), bits) else
      var (delta1, bits) :- GetSE(bits);
      Got(Order(0, 0, delta0, delta1), bits)
    else Got(Order(0, 0, 0, 0), bits)
  }

  ghost predicate ValidOrder(sps: SpsRange, bottom: bool, o: Order) {
    if sps.pocType == 0 then
      && 4 <= sps.pocLsbBits <= 16 && o.lsb < Pow2(sps.pocLsbBits) && SeRange(o.deltaBottom)
      && (!bottom ==> o.deltaBottom == 0) && o.delta0 == 0 && o.delta1 == 0
    else if sps.pocType == 1 && !sps.deltaPicOrderAlwaysZero then
      && o.lsb == 0 && o.deltaBottom == 0 && SeRange(o.delta0) && SeRange(o.delta1)
      && (!bottom ==> o.delta1 == 0)
    else o == Order(0, 0, 0, 0)
  }

  ghost function PutOrder(sps: SpsRange, bottom: bool, o: Order, tail: Bits): Bits
    requires ValidOrder(sps, bottom, o)
  {
    if sps.pocType == 0 then
      PutU(sps.pocLsbBits, o.lsb, if bottom then PutSE(o.deltaBottom, tail) else tail)
    else if sps.pocType == 1 && !sps.deltaPicOrderAlwaysZero then
      PutSE(o.delta0, if bottom then PutSE(o.delta1, tail) else tail)
    else tail
  }

  lemma GetPutOrder(sps: SpsRange, bottom: bool, o: Order, tail: Bits)
    requires ValidOrder(sps, bottom, o)
    ensures GetOrder(sps, bottom, PutOrder(sps, bottom, o, tail)) == Got(o, tail)
  {
    if sps.pocType == 0 {
      GetPutU(sps.pocLsbBits, o.lsb, if bottom then PutSE(o.deltaBottom, tail) else tail);
      GetPutSE(o.deltaBottom, tail);
    } else if sps.pocType == 1 && !sps.deltaPicOrderAlwaysZero {
      GetPutSE(o.delta0, if bottom then PutSE(o.delta1, tail) else tail);
      GetPutSE(o.delta1, tail);
    }
  }

  /** struct chd_h264_range_picture */
  datatype Picture = Picture(
    firstMb: nat, ppsId: nat, frameNum: nat, idrPicId: nat, order: Order, idr: bool, reference: bool)

  const NO_PICTURE := Picture(0, 0, 0, 0, Order(0, 0, 0, 0), false, false)

  /** The rest of a slice header whose parameter sets are known, up to the POC fields. */
  function GetPicture(sps: SpsRange, bottom: bool, start: SliceStart, idr: bool, reference: bool, bits: Bits)
    : (p: Parsed<Picture>)
    ensures !p.Unsupported?
  {
    var (frameNum, bits) :- GetU(sps.frameNumBits, bits);
    var (idrPicId, bits) :- GetIdr(start, idr, frameNum, bits);
    var (order, bits) :- GetOrder(sps, bottom, bits);
    Got(Picture(start.firstMb, start.pps, frameNum, idrPicId, order, idr, reference), bits)
  }

  function GetIdr(start: SliceStart, idr: bool, frameNum: nat, bits: Bits): (p: Parsed<nat>)
    ensures !p.Unsupported?
  {
    if !idr then Got(0, bits) else
    var (idrPicId, bits) :- GetUE(bits);
    if frameNum != 0 || start.sliceType % 5 != 2 || idrPicId > 65535 then Invalid else Got(idrPicId, bits)
  }

  ghost predicate ValidPicture(sps: SpsRange, bottom: bool, sliceType: nat, p: Picture) {
    && p.frameNum < Pow2(sps.frameNumBits) && ValidOrder(sps, bottom, p.order)
    && (if p.idr then p.frameNum == 0 && sliceType % 5 == 2 && p.idrPicId <= 65535 else p.idrPicId == 0)
  }

  ghost function PutPicture(sps: SpsRange, bottom: bool, sliceType: nat, p: Picture, tail: Bits): Bits
    requires ValidPicture(sps, bottom, sliceType, p)
  {
    var order := PutOrder(sps, bottom, p.order, tail);
    PutU(sps.frameNumBits, p.frameNum, if p.idr then PutUE(p.idrPicId, order) else order)
  }

  lemma GetPutPicture(sps: SpsRange, bottom: bool, sliceType: nat, p: Picture, tail: Bits)
    requires ValidPicture(sps, bottom, sliceType, p)
    ensures GetPicture(sps, bottom, SliceStart(p.firstMb, sliceType, p.ppsId), p.idr, p.reference,
                       PutPicture(sps, bottom, sliceType, p, tail)) == Got(p, tail)
  {
    var order := PutOrder(sps, bottom, p.order, tail);
    GetPutU(sps.frameNumBits, p.frameNum, if p.idr then PutUE(p.idrPicId, order) else order);
    if p.idr {
      GetPutUE(p.idrPicId, order);
    }
    GetPutOrder(sps, bottom, p.order, tail);
  }

  // ---- reading a prefix of the bits ------------------------------------------------

  lemma GetSliceStartExtends(bits: Bits, more: Bits)
    requires GetSliceStart(bits).Got?
    ensures GetSliceStart(bits + more) == Got(GetSliceStart(bits).value, GetSliceStart(bits).rest + more)
  {
    GetUEExtends(bits, more, 0);
    var b1 := GetUE(bits).rest;
    GetUEExtends(b1, more, 0);
    GetUEExtends(GetUE(b1).rest, more, 0);
  }

  lemma GetOrderExtends(sps: SpsRange, bottom: bool, bits: Bits, more: Bits)
    requires GetOrder(sps, bottom, bits).Got?
    ensures GetOrder(sps, bottom, bits + more) ==
      Got(GetOrder(sps, bottom, bits).value, GetOrder(sps, bottom, bits).rest + more)
  {
    if sps.pocType == 0 {
      GetUExtends(sps.pocLsbBits, bits, more, 0);
      if bottom {
        GetSEExtends(GetU(sps.pocLsbBits, bits).rest, more);
      }
    } else if sps.pocType == 1 && !sps.deltaPicOrderAlwaysZero {
      GetSEExtends(bits, more);
      if bottom {
        GetSEExtends(GetSE(bits).rest, more);
      }
    }
  }

  lemma GetPictureExtends(sps: SpsRange, bottom: bool, start: SliceStart, idr: bool, reference: bool,
                          bits: Bits, more: Bits)
    requires GetPicture(sps, bottom, start, idr, reference, bits).Got?
    ensures var p := GetPicture(sps, bottom, start, idr, reference, bits);
      GetPicture(sps, bottom, start, idr, reference, bits + more) == Got(p.value, p.rest + more)
  {
    GetUExtends(sps.frameNumBits, bits, more, 0);
    var frameNum, b1 := GetU(sps.frameNumBits, bits).value, GetU(sps.frameNumBits, bits).rest;
    if idr {
      GetUEExtends(b1, more, 0);
    }
    assert GetIdr(start, idr, frameNum, b1 + more) ==
      Got(GetIdr(start, idr, frameNum, b1).value, GetIdr(start, idr, frameNum, b1).rest + more);
    GetOrderExtends(sps, bottom, GetIdr(start, idr, frameNum, b1).rest, more);
  }

  // ---- picture boundaries ----------------------------------------------------------

  /** chd_h264_range_same_picture */
  predicate SamePicture(a: Picture, b: Picture) {
    && a.ppsId == b.ppsId && a.frameNum == b.frameNum
    && a.idr == b.idr && a.idrPicId == b.idrPicId
    && a.reference == b.reference
    && a.order.lsb == b.order.lsb
    && a.order.deltaBottom == b.order.deltaBottom
    && a.order.delta0 == b.order.delta0
    && a.order.delta1 == b.order.delta1
  }

  /** Section 7.4.1.2.4, first VCL NAL unit of a new primary coded picture, for frames. */
  ghost predicate StartsNewPicture(sps: SpsRange, a: Picture, b: Picture) {
    || a.frameNum != b.frameNum
    || a.ppsId != b.ppsId
    || (a.reference != b.reference)
    || (sps.pocType == 0 && (a.order.lsb != b.order.lsb || a.order.deltaBottom != b.order.deltaBottom))
    || (sps.pocType == 1 && (a.order.delta0 != b.order.delta0 || a.order.delta1 != b.order.delta1))
    || a.idr != b.idr
    || (a.idr && b.idr && a.idrPicId != b.idrPicId)
  }

  /** On headers read under one SPS, the equality key is the standard's boundary test. */
  lemma SamePictureIsStandard(sps: SpsRange, bottomA: bool, bottomB: bool, startA: SliceStart, startB: SliceStart,
                              a: Picture, b: Picture, bitsA: Bits, bitsB: Bits)
    requires GetPicture(sps, bottomA, startA, a.idr, a.reference, bitsA).Got?
    requires GetPicture(sps, bottomA, startA, a.idr, a.reference, bitsA).value == a
    requires GetPicture(sps, bottomB, startB, b.idr, b.reference, bitsB).Got?
    requires GetPicture(sps, bottomB, startB, b.idr, b.reference, bitsB).value == b
    ensures SamePicture(a, b) <==> !StartsNewPicture(sps, a, b)
  {
    UnusedOrderIsZero(sps, bottomA, startA, a, bitsA);
    UnusedOrderIsZero(sps, bottomB, startB, b, bitsB);
  }

  lemma UnusedOrderIsZero(sps: SpsRange, bottom: bool, start: SliceStart, p: Picture, bits: Bits)
    requires GetPicture(sps, bottom, start, p.idr, p.reference, bits).Got?
    requires GetPicture(sps, bottom, start, p.idr, p.reference, bits).value == p
    ensures !p.idr ==> p.idrPicId == 0
    ensures sps.pocType != 0 ==> p.order.lsb == 0 && p.order.deltaBottom == 0
    ensures sps.pocType != 1 ==> p.order.delta0 == 0 && p.order.delta1 == 0
  {
    var frameNum, b1 := GetU(sps.frameNumBits, bits).value, GetU(sps.frameNumBits, bits).rest;
    var o := GetOrder(sps, bottom, GetIdr(start, p.idr, frameNum, b1).rest);
    assert p.order == o.value && p.idrPicId == GetIdr(start, p.idr, frameNum, b1).value;
  }
}

/** The steps of the update protocol on the two regions of a client record, carried out
    by the region code. */
module ClientRecord {
  import opened RegionForm
  import opened Regions
  import P = UpdateProtocol

  /** The points of a region, as the protocol speaks of them. */
  ghost function Points(reg: Region): iset<P.Point>
    reads reg
  {
    iset p: P.Point | reg.Has(p.0, p.1)
  }

  ghost function Area(b: Box): iset<P.Point> {
    iset p: P.Point | InBox(b, p.0, p.1)
  }

  lemma SomePoint(reg: Region)
    ensures Points(reg) != iset{} <==> exists x, y :: reg.Has(x, y)
  {
    if x, y :| reg.Has(x, y) {
      assert (x, y) in Points(reg);
    }
    if Points(reg) != iset{} {
      var p :| p in Points(reg);
      assert reg.Has(p.0, p.1);
    }
  }

  lemma NoPoints(reg: Region)
    requires reg.Nil()
    ensures Points(reg) == iset{}
  {
  }

  // ---- Points off the screen ----

  ghost predicate KeepsToScreen(reg: Region, sw: nat, sh: nat)
    reads reg
  {
    forall x, y :: reg.Has(x, y) ==> 0 <= x < sw && 0 <= y < sh
  }

  /** A caller's test whether a rectangle has points off the screen. */
  predicate RequestOnScreen(x: int, y: int, w: nat, h: nat, sw: nat, sh: nat) {
    w == 0 || h == 0 || (0 <= x && 0 <= y && x + w <= sw && y + h <= sh)
  }

  lemma ScreenPoints(reg: Region, sw: nat, sh: nat)
    ensures KeepsToScreen(reg, sw, sh) <==> Points(reg) <= Area(Box(0, 0, sw, sh))
  {
    if Points(reg) <= Area(Box(0, 0, sw, sh)) {
      forall x, y | reg.Has(x, y)
        ensures 0 <= x < sw && 0 <= y < sh
      {
        assert (x, y) in Points(reg);
      }
    }
  }

  lemma AreaOnScreen(x: int, y: int, w: nat, h: nat, sw: nat, sh: nat)
    ensures Area(Box(x, y, x + w, y + h)) <= Area(Box(0, 0, sw, sh)) <==> RequestOnScreen(x, y, w, h, sw, sh)
  {
    var a, screen := Area(Box(x, y, x + w, y + h)), Area(Box(0, 0, sw, sh));
    if a <= screen && w > 0 && h > 0 {
      assert (x, y) in a && (x + w - 1, y + h - 1) in a;
    }
  }

  /** The extents of a region tell whether it keeps to the screen. */
  lemma ExtentsTell(reg: Region, sw: nat, sh: nat)
    requires reg.Valid()
    ensures KeepsToScreen(reg, sw, sh) <==>
      reg.Nil() || (0 <= reg.extents.x1 && 0 <= reg.extents.y1 && reg.extents.x2 <= sw && reg.extents.y2 <= sh)
  {
    hide Coalesced;
    var e, rs := reg.extents, reg.Boxes();
    forall k | 0 <= k < |rs|
      ensures reg.Has(rs[k].x1, rs[k].y1) && reg.Has(rs[k].x2 - 1, rs[k].y2 - 1)
    {
      BoxCovers(rs, k, rs[k].x1, rs[k].y1);
      BoxCovers(rs, k, rs[k].x2 - 1, rs[k].y2 - 1);
    }
    forall x, y | reg.Has(x, y)
      ensures e.x1 <= x < e.x2 && e.y1 <= y < e.y2
    {
    }
  }

  /** SAFE_REGION_INIT. */
  method SafeRegionInit(b: Box) returns (reg: Region)
    requires b.x1 <= b.x2 && b.y1 <= b.y2
    ensures fresh(reg) && reg.Valid() && Points(reg) == Area(b)
  {
    if b.x2 == b.x1 || b.y2 == b.y1 {
      reg := new Region.Empty();
    } else {
      reg := new Region.FromBox(b);
    }
  }

  class ClientRec {
    const modifiedRegion: Region
    const requestedRegion: Region

    ghost predicate Valid()
      reads this, modifiedRegion, requestedRegion
    {
      modifiedRegion != requestedRegion && modifiedRegion.Valid() && requestedRegion.Valid()
    }

    /** What the record holds of the state of a client in the protocol. */
    ghost predicate Holds(k: P.Client)
      reads this, modifiedRegion, requestedRegion
    {
      k.modified == Points(modifiedRegion) && k.requested == Points(requestedRegion)
    }

    /** The region setup of rfbNewClient. */
    constructor (width: int, height: int)
      requires 0 < width && 0 < height
      ensures Valid() && fresh(modifiedRegion) && fresh(requestedRegion)
      ensures Points(modifiedRegion) == Area(Box(0, 0, width, height))
      ensures Points(requestedRegion) == iset{}
      ensures forall k :: P.NewClient(Area(Box(0, 0, width, height)), k) ==> Holds(k)
    {
      var m := new Region.FromBox(Box(0, 0, width, height));
      var r := new Region.Empty();
      modifiedRegion, requestedRegion := m, r;
    }

    /** refreshCallback on one rectangle and this client. */
    method ReportRect(region: Region)
      requires Valid() && region.Valid() && region != modifiedRegion && region != requestedRegion
      modifies modifiedRegion
      ensures Valid()
      ensures Points(modifiedRegion) == old(Points(modifiedRegion)) + Points(region)
      ensures forall k, k' :: old(Holds(k)) && P.Reports(k, k', Points(region)) ==> Holds(k')
      ensures forall sw: nat, sh: nat :: old(KeepsToScreen(modifiedRegion, sw, sh)) ==>
        (KeepsToScreen(modifiedRegion, sw, sh) <==> KeepsToScreen(region, sw, sh))
    {
      hide Canonical;
      hide IsExtents;
      hide Covers;
      modifiedRegion.Union(modifiedRegion, region);
    }

    /** The framebuffer update request. */
    method UpdateRequest(x: int, y: int, w: nat, h: nat, incremental: bool)
      requires Valid()
      modifies modifiedRegion, requestedRegion
      ensures Valid()
      ensures Points(requestedRegion) == old(Points(requestedRegion)) + Area(Box(x, y, x + w, y + h))
      ensures Points(modifiedRegion) ==
        if incremental then old(Points(modifiedRegion)) else old(Points(modifiedRegion)) + Area(Box(x, y, x + w, y + h))
      ensures forall k, k' :: old(Holds(k)) && P.Requests(k, k', Area(Box(x, y, x + w, y + h)), incremental) ==> Holds(k')
      ensures forall sw: nat, sh: nat :: old(KeepsToScreen(modifiedRegion, sw, sh)) ==>
        (KeepsToScreen(modifiedRegion, sw, sh) <==> incremental || RequestOnScreen(x, y, w, h, sw, sh))
    {
      hide Canonical;
      hide IsExtents;
      hide Covers;
      ghost var modified := Points(modifiedRegion);
      forall sw: nat, sh: nat
        ensures KeepsToScreen(modifiedRegion, sw, sh) <==> modified <= Area(Box(0, 0, sw, sh))
      {
        ScreenPoints(modifiedRegion, sw, sh);
      }
      var box := Box(x, y, x + w, y + h);
      var tmpRegion := SafeRegionInit(box);
      requestedRegion.Union(requestedRegion, tmpRegion);
      if !incremental {
        modifiedRegion.Union(modifiedRegion, tmpRegion);
      }
      forall sw: nat, sh: nat | modified <= Area(Box(0, 0, sw, sh))
        ensures KeepsToScreen(modifiedRegion, sw, sh) <==> incremental || RequestOnScreen(x, y, w, h, sw, sh)
      {
        ScreenPoints(modifiedRegion, sw, sh);
        AreaOnScreen(x, y, w, h, sw, sh);
      }
    }

    /** The sender's test whether it has an update to deliver. */
    method UpdateWaits(deferred: bool, other: bool) returns (haveUpdate: bool)
      requires Valid()
      ensures haveUpdate <==>
        && Points(requestedRegion) != iset{}
        && (other || !deferred || Points(modifiedRegion) * Points(requestedRegion) != iset{})
      ensures forall k :: Holds(k) ==> (haveUpdate <==> P.HaveUpdate(k, deferred, other))
    {
      hide Canonical;
      hide IsExtents;
      hide Covers;
      haveUpdate := false;
      var asked := requestedRegion.NotEmpty();
      SomePoint(requestedRegion);
      if asked {
        if deferred {
          var updateRegion := new Region.Empty();
          updateRegion.Intersect(modifiedRegion, requestedRegion);
          haveUpdate := updateRegion.NotEmpty();
          SomePoint(updateRegion);
          assert Points(updateRegion) == Points(modifiedRegion) * Points(requestedRegion);
        } else {
          haveUpdate := true;
        }
        if other { haveUpdate := true; }
      }
    }

    /** The sender takes the update out of the modified region and forgets the requests. */
    method TakeUpdate() returns (updateRegion: Region)
      requires Valid()
      modifies modifiedRegion, requestedRegion
      ensures Valid() && fresh(updateRegion) && updateRegion.Valid()
      ensures Points(updateRegion) == old(Points(modifiedRegion) * Points(requestedRegion))
      ensures Points(modifiedRegion) == old(Points(modifiedRegion)) - Points(updateRegion)
      ensures Points(requestedRegion) == iset{}
      ensures forall k, k' :: old(Holds(k)) && P.Takes(k, k') ==> Holds(k') && k'.update == Points(updateRegion)
    {
      hide Canonical;
      hide IsExtents;
      hide Covers;
      updateRegion := new Region.Empty();
      updateRegion.Intersect(modifiedRegion, requestedRegion);
      modifiedRegion.Subtract(modifiedRegion, updateRegion);
      requestedRegion.InitEmpty();
      NoPoints(requestedRegion);
    }
  }

  /** What a new client asks for, not incrementally, is taken as it is: nothing clips it to
      the screen. */
  method FirstUpdate(width: nat, height: nat, x: int, y: int, w: nat, h: nat) returns (updateRegion: Region)
    requires 0 < width && 0 < height
    ensures updateRegion.Valid() && Points(updateRegion) == Area(Box(x, y, x + w, y + h))
    ensures KeepsToScreen(updateRegion, width, height) <==> RequestOnScreen(x, y, w, h, width, height)
  {
    hide Canonical;
    hide IsExtents;
    hide Covers;
    hide KeepsToScreen;
    hide RequestOnScreen;
    hide P.Requests;
    hide P.Takes;
    hide P.NewClient;
    var rec := new ClientRec(width, height);
    rec.UpdateRequest(x, y, w, h, false);
    updateRegion := rec.TakeUpdate();
    ScreenPoints(updateRegion, width, height);
    AreaOnScreen(x, y, w, h, width, height);
  }

  /** So on a screen of 10 by 10 pixels a point at (20, 20) is sent to a client that asks. */
  method OffTheScreen() returns (updateRegion: Region)
    ensures updateRegion.Valid() && updateRegion.Has(20, 20) && !KeepsToScreen(updateRegion, 10, 10)
  {
    updateRegion := FirstUpdate(10, 10, 20, 20, 1, 1);
    assert (20, 20) in Points(updateRegion);
  }
}

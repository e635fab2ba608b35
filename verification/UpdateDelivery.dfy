/** The messages of the sender as runs of the update protocol: every rectangle that goes out is
    one piece of the update in flight, shown as the framebuffer is at that moment, and with
    the last one the update is finished. */
module UpdateDelivery {
  import opened Basics
  import opened BoxTally
  import opened Bytes
  import opened ClientRecord
  import opened Images
  import opened RegionForm
  import opened Rectangles
  import opened Regions
  import opened TightFormat
  import opened TightGradientFields
  import opened TightRect
  import opened TightWire
  import opened UpdateBuffer
  import P = UpdateProtocol
  import TightUpdate
  import U = FramebufferUpdate

  type Shown = P.Point -> int

  // ---- The events of a message ----

  /** What has to be damaged to get from one framebuffer to the other. */
  ghost function Changed(fb: Shown, fb': Shown): iset<P.Point> {
    iset p: P.Point | fb(p) != fb'(p)
  }

  /** A part of a run. */
  ghost predicate Segment(ws: seq<P.World>, es: seq<P.Event>) {
    |ws| == |es| + 1 && forall i :: 0 <= i < |es| ==> P.Step(ws[i], es[i], ws[i + 1])
  }

  /** The framebuffer has this on the box. */
  ghost predicate SameOn(b: Box, fb: Shown, fb': Shown) {
    forall i, j :: InBox(b, i, j) ==> fb((i, j)) == fb'((i, j))
  }

  /** What the sender of c does in a part of a run is to send these rectangles, each while
      the framebuffer has the one given on its box. Whatever else happens, happens in between:
      changes of the framebuffer, signals, new clients, steps of the others. */
  ghost predicate Interleaved(ws: seq<P.World>, es: seq<P.Event>, c: nat, fbs: seq<Shown>, rs: seq<Placed>)
    requires |ws| == |es| + 1 && |fbs| == |rs|
    decreases |es|
  {
    if es == [] then rs == []
    else
      var l, m := |es| - 1, |rs| - 1;
      if es[l].SendPiece? && es[l].c == c then
        && m >= 0 && es[l].area == ClientRecord.Area(rs[m].box) && SameOn(rs[m].box, ws[l].fb, fbs[m])
        && Interleaved(ws[..|es|], es[..l], c, fbs[..m], rs[..m])
      else es[l] != P.Finish(c) && Interleaved(ws[..|es|], es[..l], c, fbs, rs)
  }

  lemma SegmentMore(ws: seq<P.World>, es: seq<P.Event>, e: P.Event, w: P.World)
    requires Segment(ws, es) && ws != [] && P.Step(ws[|ws| - 1], e, w)
    ensures Segment(ws + [w], es + [e]) && (ws + [w])[0] == ws[0]
  {
    hide P.Step;
    var ws', es' := ws + [w], es + [e];
    forall i | 0 <= i < |es'|
      ensures P.Step(ws'[i], es'[i], ws'[i + 1])
    {
      if i < |es| {
        assert P.Step(ws[i], es[i], ws[i + 1]);
      }
    }
  }

  /** The client's view is this picture, as far as look tells pixels apart. */
  ghost predicate Views(k: P.Client, img: Image, sw: nat, sh: nat, look: int -> int) {
    IsImage(img, sw, sh) && forall i, j :: 0 <= i < sw && 0 <= j < sh ==> k.view((i, j)) == look(img[j][i])
  }

  /** Rectangle m shows what is in framebuffer m. */
  ghost predicate Shows(rs: seq<Placed>, fbs: seq<Shown>, sw: nat, sh: nat, look: int -> int)
    requires AllShaped(rs, sw, sh)
  {
    |fbs| == |rs| && forall m :: 0 <= m < |rs| ==> ShowsOne(rs[m], fbs[m], sw, sh, look)
  }

  ghost predicate ShowsOne(r: Placed, fb: Shown, sw: nat, sh: nat, look: int -> int)
    requires Shaped(r, sw, sh)
  {
    forall i, j :: InBox(r.box, i, j) ==> look(PixelIn(r, sw, sh, i, j)) == fb((i, j))
  }

  /** The update in flight is what the rectangles cover, each point once. */
  ghost predicate Due(k: P.Client, rs: seq<Placed>) {
    && k.sender.Sending?
    && forall x, y :: Mult(Where(rs), x, y) == if (x, y) in k.sending then 1 else 0
  }

  // ---- One rectangle ----

  /** After some of the rectangles: what is still to go, and what the client shows. */
  ghost predicate Halfway(w: P.World, c: nat, k0: P.Client, rs: seq<Placed>, canvas: Image,
                          sw: nat, sh: nat, look: int -> int) {
    && c in w.clients
    && var k := w.clients[c];
    && k.sender.Sending? && Views(k, PlaceAll(canvas, rs), sw, sh, look)
    && (forall x, y :: (x, y) in k.sending <==> (x, y) in k0.sending && Mult(Where(rs), x, y) == 0)
    && forall x, y :: k.sent((x, y)) == k0.sent((x, y)) + Mult(Where(rs), x, y)
  }

  /** Nothing but a rectangle of its own changes what the client shows and is still to get. */
  lemma OtherStep(w: P.World, e: P.Event, w': P.World, c: nat, k0: P.Client, rs: seq<Placed>, canvas: Image,
                  sw: nat, sh: nat, look: int -> int)
    requires Halfway(w, c, k0, rs, canvas, sw, sh, look) && P.Step(w, e, w')
    requires e != P.Finish(c) && !(e.SendPiece? && e.c == c)
    ensures Halfway(w', c, k0, rs, canvas, sw, sh, look)
  {
    hide PlaceAll;
    hide Mult;
    hide Where;
    UntouchedBy(w, e, w', c);
  }

  lemma UntouchedBy(w: P.World, e: P.Event, w': P.World, c: nat)
    requires P.Step(w, e, w') && c in w.clients && w.clients[c].sender.Sending?
    requires e != P.Finish(c) && !(e.SendPiece? && e.c == c)
    ensures c in w'.clients
    ensures var k, k' := w.clients[c], w'.clients[c];
      k'.sender.Sending? && k'.view == k.view && k'.sending == k.sending && k'.sent == k.sent
  {
  }

  lemma DamageStep(w: P.World, fb: Shown) returns (w': P.World)
    ensures P.Step(w, P.Damage(Changed(w.fb, fb)), w') && w'.fb == fb
  {
    var area := Changed(w.fb, fb);
    w' := P.World(w.screen, fb, map d | d in w.clients :: w.clients[d].(pending := w.clients[d].pending + area));
  }

  /** A rectangle goes out. */
  lemma PieceStep(w: P.World, w': P.World, c: nat, k0: P.Client, rs: seq<Placed>, r: Placed, canvas: Image,
                  sw: nat, sh: nat, look: int -> int)
    requires Halfway(w, c, k0, rs, canvas, sw, sh, look) && IsImage(canvas, sw, sh)
    requires Shaped(r, sw, sh) && ShowsOne(r, w.fb, sw, sh, look)
    requires P.Step(w, P.SendPiece(c, ClientRecord.Area(r.box)), w')
    ensures Halfway(w', c, k0, rs + [r], canvas, sw, sh, look)
  {
    hide PlaceAll;
    hide Mult;
    hide Shaped;
    var k, k' := w.clients[c], w'.clients[c];
    assert P.Sends(k, k', w.fb, ClientRecord.Area(r.box));
    hide P.Step;
    PieceSeen(k, k', w.fb, rs, r, canvas, sw, sh, look);
    hide Views;
    forall x, y
      ensures Mult(Where(rs + [r]), x, y) == Mult(Where(rs), x, y) + if InBox(r.box, x, y) then 1 else 0
    {
      WhereSnoc(rs, r, x, y);
    }
  }

  /** Nothing holds up the next rectangle, and the sender cannot be finished before. */
  lemma PieceCanGo(w: P.World, c: nat, k0: P.Client, rs: seq<Placed>, r: Placed, canvas: Image,
                   sw: nat, sh: nat, look: int -> int) returns (w': P.World)
    requires Halfway(w, c, k0, rs, canvas, sw, sh, look) && NonEmpty(r.box)
    requires forall i, j :: InBox(r.box, i, j) ==> (i, j) in k0.sending && Mult(Where(rs), i, j) == 0
    ensures P.Step(w, P.SendPiece(c, ClientRecord.Area(r.box)), w')
    ensures forall v :: !P.Step(w, P.Finish(c), v)
  {
    hide PlaceAll;
    hide Mult;
    hide Where;
    hide Views;
    var k, area := w.clients[c], ClientRecord.Area(r.box);
    var k' := k.(view := (p: P.Point) => if InBox(r.box, p.0, p.1) then w.fb(p) else k.view(p),
                 sent := (p: P.Point) => if InBox(r.box, p.0, p.1) then k.sent(p) + 1 else k.sent(p),
                 sending := k.sending - area);
    w' := w.(clients := w.clients[c := k']);
    forall p | p in area
      ensures p in k.sending
    {
      assert (p.0, p.1) == p;
    }
    assert P.Sends(k, k', w.fb, area);
    assert InBox(r.box, r.box.x1, r.box.y1);
    assert (r.box.x1, r.box.y1) in k.sending;
  }

  lemma PieceSeen(k: P.Client, k': P.Client, fb: Shown, rs: seq<Placed>, r: Placed, canvas: Image,
                  sw: nat, sh: nat, look: int -> int)
    requires IsImage(canvas, sw, sh) && Views(k, PlaceAll(canvas, rs), sw, sh, look)
    requires Shaped(r, sw, sh) && ShowsOne(r, fb, sw, sh, look)
    requires forall p: P.Point :: k'.view(p) == if InBox(r.box, p.0, p.1) then fb(p) else k.view(p)
    ensures Views(k', PlaceAll(canvas, rs + [r]), sw, sh, look)
  {
    hide PlaceAll;
    forall i, j | 0 <= i < sw && 0 <= j < sh
      ensures k'.view((i, j)) == look(PlaceAll(canvas, rs + [r])[j][i])
    {
      PlacedLast(canvas, rs, r, sw, sh, i, j);
    }
  }

  /** A rectangle of the list is due, and none of its points has gone out before. */
  lemma NextIsDue(k: P.Client, rs: seq<Placed>, m: nat, i: int, j: int)
    requires Due(k, rs) && m < |rs| && InBox(rs[m].box, i, j)
    ensures (i, j) in k.sending && Mult(Where(rs[..m]), i, j) == 0
  {
    assert rs == rs[..m] + rs[m..];
    WhereConcat(rs[..m], rs[m..], i, j);
    BoxCovers(Where(rs[m..]), 0, i, j);
    MultCovers(Where(rs[m..]), i, j);
  }

  lemma ShowsSame(r: Placed, fb: Shown, fb': Shown, sw: nat, sh: nat, look: int -> int)
    requires Shaped(r, sw, sh) && ShowsOne(r, fb', sw, sh, look) && SameOn(r.box, fb, fb')
    ensures ShowsOne(r, fb, sw, sh, look)
  {
  }

  /** However the rectangles are interleaved with what else happens, after m of them the
      client shows these m and the others are still to go. */
  lemma {:induction false} Interleaving(ws: seq<P.World>, es: seq<P.Event>, c: nat, fbs: seq<Shown>, rs: seq<Placed>, canvas: Image,
                                        sw: nat, sh: nat, look: int -> int)
    requires Segment(ws, es) && |fbs| == |rs| && Interleaved(ws, es, c, fbs, rs)
    requires c in ws[0].clients && ws[0].clients[c].sender.Sending?
    requires IsImage(canvas, sw, sh) && Views(ws[0].clients[c], canvas, sw, sh, look)
    requires |fbs| == |rs| && AllShaped(rs, sw, sh) && Shows(rs, fbs, sw, sh, look)
    ensures Halfway(ws[|es|], c, ws[0].clients[c], rs, canvas, sw, sh, look)
    decreases |es|
  {
    hide Shaped;
    hide Mult;
    hide P.Step;
    hide SameOn;
    hide Views;
    hide ShowsOne;
    var k := ws[0].clients[c];
    if es == [] {
      Untouched(ws[0], c, canvas, sw, sh, look);
    } else {
      hide Halfway;
      var l, m := |es| - 1, |rs| - 1;
      var w, e := ws[l], es[l];
      SegmentInit(ws, es);
      if e.SendPiece? && e.c == c {
        Interleaving(ws[..|es|], es[..l], c, fbs[..m], rs[..m], canvas, sw, sh, look);
        ShowsSame(rs[m], w.fb, fbs[m], sw, sh, look);
        PieceStep(w, ws[|es|], c, k, rs[..m], rs[m], canvas, sw, sh, look);
        assert rs[..m] + [rs[m]] == rs;
      } else {
        Interleaving(ws[..|es|], es[..l], c, fbs, rs, canvas, sw, sh, look);
        OtherStep(w, e, ws[|es|], c, k, rs, canvas, sw, sh, look);
      }
    }
  }

  lemma SegmentInit(ws: seq<P.World>, es: seq<P.Event>)
    requires Segment(ws, es) && es != []
    ensures var l := |es| - 1; Segment(ws[..|es|], es[..l]) && ws[..|es|][0] == ws[0] && ws[..|es|][l] == ws[l]
    ensures P.Step(ws[|es| - 1], es[|es| - 1], ws[|es|])
  {
    hide P.Step;
    var us, fs := ws[..|es|], es[..|es| - 1];
    forall i | 0 <= i < |fs|
      ensures P.Step(us[i], fs[i], us[i + 1])
    {
      assert P.Step(ws[i], es[i], ws[i + 1]);
    }
    assert P.Step(ws[|fs|], es[|fs|], ws[|fs| + 1]);
  }

  lemma Untouched(w: P.World, c: nat, canvas: Image, sw: nat, sh: nat, look: int -> int)
    requires c in w.clients && w.clients[c].sender.Sending? && Views(w.clients[c], canvas, sw, sh, look)
    ensures Halfway(w, c, w.clients[c], [], canvas, sw, sh, look)
  {
    NothingPlaced(canvas);
    assert Where([]) == [];
  }

  // ---- A whole message ----

  /** From w the rectangles go out one by one and the update is finished. Whatever else
      happens in between, and wherever the run has come to after some of the rectangles, the
      next one can go and the sender is not finished; after the last it can be, and then the
      client shows this picture, every point of the update has gone out once more, and
      nothing is left of it. */
  ghost predicate Delivered(w: P.World, c: nat, fbs: seq<Shown>, rs: seq<Placed>, now: Image, sw: nat, sh: nat, look: int -> int)
    requires |fbs| == |rs| && c in w.clients
  {
    && (forall ws, es, m :: Between(w, ws, es, c, fbs, rs, m) ==> GoesOn(ws[|es|], c, w.clients[c], rs, m, now, sw, sh, look))
    && exists ws, es :: Between(w, ws, es, c, fbs, rs, |rs|)
  }

  /** A part of a run from w in which the first m rectangles go out. */
  ghost predicate Between(w: P.World, ws: seq<P.World>, es: seq<P.Event>, c: nat, fbs: seq<Shown>, rs: seq<Placed>, m: nat)
    requires |fbs| == |rs|
  {
    |ws| == |es| + 1 && Segment(ws, es) && ws[0] == w && m <= |rs| && Interleaved(ws, es, c, fbs[..m], rs[..m])
  }

  ghost predicate GoesOn(w: P.World, c: nat, k0: P.Client, rs: seq<Placed>, m: nat, now: Image, sw: nat, sh: nat, look: int -> int)
    requires m <= |rs|
  {
    if m < |rs| then
      && (exists w' :: P.Step(w, P.SendPiece(c, ClientRecord.Area(rs[m].box)), w'))
      && forall w' :: !P.Step(w, P.Finish(c), w')
    else exists w' :: P.Step(w, P.Finish(c), w') && Arrived(w', c, k0, now, sw, sh, look)
  }

  ghost predicate Arrived(w: P.World, c: nat, k0: P.Client, now: Image, sw: nat, sh: nat, look: int -> int) {
    && c in w.clients
    && var k := w.clients[c];
    && k.sender.Locking? && k.sending == iset{} && Views(k, now, sw, sh, look)
    && forall p :: k.sent(p) == k0.sent(p) + if p in k0.sending then 1 else 0
  }

  lemma DeliveryIsARun(w: P.World, c: nat, fbs: seq<Shown>, rs: seq<Placed>, canvas: Image, sw: nat, sh: nat, look: int -> int)
    requires c in w.clients && Due(w.clients[c], rs)
    requires IsImage(canvas, sw, sh) && Views(w.clients[c], canvas, sw, sh, look)
    requires |fbs| == |rs| && AllShaped(rs, sw, sh) && Shows(rs, fbs, sw, sh, look)
    ensures Delivered(w, c, fbs, rs, PlaceAll(canvas, rs), sw, sh, look)
  {
    hide Due;
    hide Views;
    hide AllShaped;
    hide Shows;
    hide GoesOn;
    hide Segment;
    hide Interleaved;
    forall ws, es, m | Between(w, ws, es, c, fbs, rs, m)
      ensures GoesOn(ws[|es|], c, w.clients[c], rs, m, PlaceAll(canvas, rs), sw, sh, look)
    {
      NeverStuck(w, ws, es, c, fbs, rs, m, canvas, sw, sh, look);
    }
    var ws, es := PiecesCanGo(w, c, fbs, rs, |rs|, canvas, sw, sh, look);
  }

  lemma NeverStuck(w: P.World, ws: seq<P.World>, es: seq<P.Event>, c: nat, fbs: seq<Shown>, rs: seq<Placed>, m: nat, canvas: Image,
                   sw: nat, sh: nat, look: int -> int)
    requires c in w.clients && Due(w.clients[c], rs)
    requires IsImage(canvas, sw, sh) && Views(w.clients[c], canvas, sw, sh, look)
    requires |fbs| == |rs| && AllShaped(rs, sw, sh) && Shows(rs, fbs, sw, sh, look) && Between(w, ws, es, c, fbs, rs, m)
    ensures |ws| == |es| + 1 && m <= |rs| && Halfway(ws[|es|], c, w.clients[c], rs[..m], canvas, sw, sh, look)
    ensures GoesOn(ws[|es|], c, w.clients[c], rs, m, PlaceAll(canvas, rs), sw, sh, look)
  {
    var v, k := ws[|es|], w.clients[c];
    hide Views;
    hide ShowsOne;
    hide Segment;
    hide Interleaved;
    hide PlaceAll;
    hide Halfway;
    hide P.Step;
    hide Mult;
    Interleaving(ws, es, c, fbs[..m], rs[..m], canvas, sw, sh, look);
    if m < |rs| {
      assert Shaped(rs[m], sw, sh);
      forall i, j | InBox(rs[m].box, i, j)
        ensures (i, j) in k.sending && Mult(Where(rs[..m]), i, j) == 0
      {
        NextIsDue(k, rs, m, i, j);
      }
      var v' := PieceCanGo(v, c, k, rs[..m], rs[m], canvas, sw, sh, look);
    } else {
      assert rs[..m] == rs;
      var v' := AllSent(v, c, k, rs, canvas, sw, sh, look);
    }
  }

  /** A run in which nothing but the framebuffer changes in between. */
  lemma {:induction false} PiecesCanGo(w: P.World, c: nat, fbs: seq<Shown>, rs: seq<Placed>, m: nat, canvas: Image,
                                       sw: nat, sh: nat, look: int -> int) returns (ws: seq<P.World>, es: seq<P.Event>)
    requires c in w.clients && Due(w.clients[c], rs) && m <= |rs|
    requires IsImage(canvas, sw, sh) && Views(w.clients[c], canvas, sw, sh, look)
    requires |fbs| == |rs| && AllShaped(rs, sw, sh) && Shows(rs, fbs, sw, sh, look)
    ensures Between(w, ws, es, c, fbs, rs, m)
    decreases m
  {
    hide Due;
    hide Views;
    hide Shaped;
    hide P.Step;
    if m == 0 {
      ws, es := [w], [];
    } else {
      ws, es := PiecesCanGo(w, c, fbs, rs, m - 1, canvas, sw, sh, look);
      ws, es := OneMorePiece(w, ws, es, c, fbs, rs, m - 1, canvas, sw, sh, look);
    }
  }

  lemma OneMorePiece(w: P.World, ws0: seq<P.World>, es0: seq<P.Event>, c: nat, fbs: seq<Shown>, rs: seq<Placed>, m: nat, canvas: Image,
                     sw: nat, sh: nat, look: int -> int) returns (ws: seq<P.World>, es: seq<P.Event>)
    requires c in w.clients && Due(w.clients[c], rs) && m < |rs|
    requires IsImage(canvas, sw, sh) && Views(w.clients[c], canvas, sw, sh, look)
    requires |fbs| == |rs| && AllShaped(rs, sw, sh) && Shows(rs, fbs, sw, sh, look) && Between(w, ws0, es0, c, fbs, rs, m)
    ensures Between(w, ws, es, c, fbs, rs, m + 1)
  {
    hide Due;
    hide Views;
    hide AllShaped;
    hide Shows;
    hide P.Step;
    hide Halfway;
    hide Interleaved;
    hide GoesOn;
    var v := ws0[|es0|];
    NeverStuck(w, ws0, es0, c, fbs, rs, m, canvas, sw, sh, look);
    var v1 := DamageStep(v, fbs[m]);
    var damage := P.Damage(Changed(v.fb, fbs[m]));
    SegmentMore(ws0, es0, damage, v1);
    StillBetween(ws0, es0, damage, v1, c, fbs[..m], rs[..m]);
    var ws1, es1 := ws0 + [v1], es0 + [damage];
    assert Between(w, ws1, es1, c, fbs, rs, m);
    NeverStuck(w, ws1, es1, c, fbs, rs, m, canvas, sw, sh, look);
    var v2 := CanGo(v1, c, w.clients[c], rs, m, PlaceAll(canvas, rs), sw, sh, look);
    var piece := P.SendPiece(c, ClientRecord.Area(rs[m].box));
    SegmentMore(ws1, es1, piece, v2);
    OneMoreBetween(ws1, es1, piece, v2, c, fbs, rs, m);
    ws, es := ws1 + [v2], es1 + [piece];
  }

  lemma CanGo(w: P.World, c: nat, k0: P.Client, rs: seq<Placed>, m: nat, now: Image, sw: nat, sh: nat, look: int -> int)
    returns (w': P.World)
    requires m < |rs| && GoesOn(w, c, k0, rs, m, now, sw, sh, look)
    ensures P.Step(w, P.SendPiece(c, ClientRecord.Area(rs[m].box)), w')
  {
    hide P.Step;
    w' :| P.Step(w, P.SendPiece(c, ClientRecord.Area(rs[m].box)), w');
  }

  lemma StillBetween(ws: seq<P.World>, es: seq<P.Event>, e: P.Event, w: P.World, c: nat, fbs: seq<Shown>, rs: seq<Placed>)
    requires |ws| == |es| + 1 && |fbs| == |rs| && Interleaved(ws, es, c, fbs, rs) && e.Damage?
    ensures Interleaved(ws + [w], es + [e], c, fbs, rs)
  {
    assert (ws + [w])[..|es| + 1] == ws && (es + [e])[..|es|] == es;
  }

  lemma OneMoreBetween(ws: seq<P.World>, es: seq<P.Event>, e: P.Event, w: P.World, c: nat, fbs: seq<Shown>, rs: seq<Placed>, m: nat)
    requires |ws| == |es| + 1 && |fbs| == |rs| && m < |rs| && Interleaved(ws, es, c, fbs[..m], rs[..m])
    requires ws[|es|].fb == fbs[m] && e == P.SendPiece(c, ClientRecord.Area(rs[m].box))
    ensures Interleaved(ws + [w], es + [e], c, fbs[..m + 1], rs[..m + 1])
  {
    assert (ws + [w])[..|es| + 1] == ws && (es + [e])[..|es|] == es;
    assert fbs[..m + 1][..m] == fbs[..m] && rs[..m + 1][..m] == rs[..m];
  }

  lemma AllSent(w: P.World, c: nat, k0: P.Client, rs: seq<Placed>, canvas: Image,
                sw: nat, sh: nat, look: int -> int) returns (w': P.World)
    requires Halfway(w, c, k0, rs, canvas, sw, sh, look) && Due(k0, rs)
    ensures P.Step(w, P.Finish(c), w') && Arrived(w', c, k0, PlaceAll(canvas, rs), sw, sh, look)
  {
    hide PlaceAll;
    hide Mult;
    var k := w.clients[c];
    forall p: P.Point
      ensures p !in k.sending
      ensures k.sent(p) == k0.sent(p) + if p in k0.sending then 1 else 0
    {
      var x, y := p.0, p.1;
      assert p == (x, y);
      assert Mult(Where(rs), x, y) == if (x, y) in k0.sending then 1 else 0;
      assert (x, y) in k.sending <==> (x, y) in k0.sending && Mult(Where(rs), x, y) == 0;
      assert k.sent((x, y)) == k0.sent((x, y)) + Mult(Where(rs), x, y);
    }
    assert k.sending == iset{};
    w' := w.(clients := w.clients[c := k.(sender := P.Locking)]);
  }

  // ---- What the senders send ----

  /** The framebuffer in the client's pixel format, as far as look tells pixels apart. */
  function ScreenFb(s: Screen, look: int -> int): Shown {
    (p: P.Point) => look(PixelAt(s, p.0, p.1))
  }

  /** The framebuffer that each rectangle was taken from. */
  function Fbs(parts: seq<seq<Placed>>, shot: nat -> Screen, look: int -> int): (fbs: seq<Shown>)
    ensures |fbs| == |Flatten(parts)|
  {
    if parts == [] then []
    else
      var l := |parts| - 1;
      Fbs(parts[..l], shot, look) + seq(|parts[l]|, _ => ScreenFb(shot(l), look))
  }

  /** All pixels are told apart. */
  function Same(): int -> int {
    v => v
  }

  ghost predicate AllShow(rs: seq<Placed>, s: Screen, sw: nat, sh: nat, look: int -> int) {
    AllShaped(rs, sw, sh) && forall k :: 0 <= k < |rs| ==> ShowsOne(rs[k], ScreenFb(s, look), sw, sh, look)
  }

  lemma {:induction false} PartsShow(parts: seq<seq<Placed>>, shot: nat -> Screen, sw: nat, sh: nat, look: int -> int)
    requires forall i :: 0 <= i < |parts| ==> AllShow(parts[i], shot(i), sw, sh, look)
    ensures AllShaped(Flatten(parts), sw, sh) && Shows(Flatten(parts), Fbs(parts, shot, look), sw, sh, look)
    decreases |parts|
  {
    hide ShowsOne;
    if parts != [] {
      var l := |parts| - 1;
      PartsShow(parts[..l], shot, sw, sh, look);
      assert AllShow(parts[l], shot(l), sw, sh, look);
    }
  }

  lemma ExactShows(rs: seq<Placed>, s: Screen, sw: nat, sh: nat, look: int -> int)
    requires AllShaped(rs, sw, sh) && AllExact(rs, s, sw, sh)
    ensures AllShow(rs, s, sw, sh, look)
  {
    forall k | 0 <= k < |rs|
      ensures ShowsOne(rs[k], ScreenFb(s, look), sw, sh, look)
    {
      var r := rs[k];
      assert Exact(r, s, sw, sh);
      forall i, j | InBox(r.box, i, j)
        ensures look(PixelIn(r, sw, sh, i, j)) == ScreenFb(s, look)((i, j))
      {
        assert PixelIn(r, sw, sh, i, j) == PixelAt(s, i, j);
      }
    }
  }

  /** The colours of a pixel. */
  function Colours(f: Format): int -> int
    requires IsFormat(f)
  {
    v => if f.n > 1 then Plain(v, f) else v
  }

  lemma AlikeShows(rs: seq<Placed>, s: Screen, sw: nat, sh: nat, f: Format)
    requires IsFormat(f) && AllShaped(rs, sw, sh) && AllAlike(rs, s, sw, sh, f)
    ensures AllShow(rs, s, sw, sh, Colours(f))
  {
    hide IsForm;
    hide Plain;
    forall k | 0 <= k < |rs|
      ensures ShowsOne(rs[k], ScreenFb(s, Colours(f)), sw, sh, Colours(f))
    {
      var r := rs[k];
      assert Alike(r, s, sw, sh, f);
      forall i, j | InBox(r.box, i, j)
        ensures Colours(f)(PixelIn(r, sw, sh, i, j)) == ScreenFb(s, Colours(f))((i, j))
      {
        assert ShowsPixel(r.img[j - r.box.y1][i - r.box.x1], BoxArea(s, r.box)[j - r.box.y1][i - r.box.x1], f);
        if f.n > 1 {
          PlainTwice(PixelAt(s, i, j), f);
        }
      }
    }
  }

  lemma PlainTwice(v: int, f: Format)
    requires IsFormat(f) && f.n > 1
    ensures Plain(Plain(v, f), f) == Plain(v, f)
  {
    PlainKeepsSamples(v, f);
  }

  /** Whatever the framebuffer, the other clients and the sender's client are when it takes an
      update of what is modified and requested: sending these parts is a run of the protocol
      that ends with the update finished and with the picture drawn from them. */
  ghost predicate FollowsProtocol(modified: iset<P.Point>, requested: iset<P.Point>, parts: seq<seq<Placed>>,
                                  shot: nat -> Screen, sw: nat, sh: nat, look: int -> int) {
    forall w, w', c, canvas ::
      Taken(w, w', c, modified, requested) && IsImage(canvas, sw, sh) && Views(w.clients[c], canvas, sw, sh, look) ==>
        Delivered(w', c, Fbs(parts, shot, look), Flatten(parts), PlaceAll(canvas, Flatten(parts)), sw, sh, look)
  }

  ghost predicate Taken(w: P.World, w': P.World, c: nat, modified: iset<P.Point>, requested: iset<P.Point>) {
    && c in w.clients && w.clients[c].modified == modified && w.clients[c].requested == requested
    && P.Step(w, P.Take(c), w') && c in w'.clients
  }

  /** Parts that tile the boxes of what was taken follow the protocol. */
  lemma TilingsFollow(modified: iset<P.Point>, requested: iset<P.Point>, parts: seq<seq<Placed>>, shot: nat -> Screen,
                      sw: nat, sh: nat, boxes: seq<Box>, look: int -> int)
    requires Tilings(parts, sw, sh, boxes) && Banded(boxes)
    requires forall i :: 0 <= i < |boxes| ==> AllShow(parts[i], shot(i), sw, sh, look)
    requires modified * requested == iset p: P.Point | Covers(boxes, p.0, p.1)
    ensures FollowsProtocol(modified, requested, parts, shot, sw, sh, look)
  {
    hide Delivered;
    hide Covers;
    hide PlaceAll;
    hide AllShow;
    hide Banded;
    PartsShow(parts, shot, sw, sh, look);
    SentOnce(parts, sw, sh, boxes);
    var rs := Flatten(parts);
    forall w, w', c, canvas | Taken(w, w', c, modified, requested) && IsImage(canvas, sw, sh)
      && Views(w.clients[c], canvas, sw, sh, look)
      ensures Delivered(w', c, Fbs(parts, shot, look), rs, PlaceAll(canvas, rs), sw, sh, look)
    {
      var k := w'.clients[c];
      assert k.sending == modified * requested;
      forall x, y
        ensures (x, y) in k.sending <==> Covers(boxes, x, y)
      {
      }
      DeliveryIsARun(w', c, Fbs(parts, shot, look), rs, canvas, sw, sh, look);
    }
  }

  // ---- From the record to the wire ----

  /** What would be taken for an update lies on the screen. */
  ghost predicate TakesOnScreen(rec: ClientRec, sw: nat, sh: nat)
    reads rec, rec.modifiedRegion, rec.requestedRegion
  {
    forall x, y :: rec.modifiedRegion.Has(x, y) && rec.requestedRegion.Has(x, y) ==> 0 <= x < sw && 0 <= y < sh
  }

  /** In a run in which no report and no request that is not incremental reaches beyond the
      screen, the record of every client keeps to it. */
  lemma RunsTakeOnScreen(states: seq<P.World>, events: seq<P.Event>, i: nat, c: nat, rec: ClientRec, sw: nat, sh: nat)
    requires P.IsRun(states, events) && i < |states| && c in states[i].clients && rec.Holds(states[i].clients[c])
    requires states[0].screen == ClientRecord.Area(Box(0, 0, sw, sh))
    requires forall j :: 0 <= j < |events| ==> P.Adds(events[j]) <= states[0].screen
    ensures KeepsToScreen(rec.modifiedRegion, sw, sh) && TakesOnScreen(rec, sw, sh)
  {
    P.RunsOnScreen(states, events);
    P.SameScreen(states, events, i);
    assert P.OnScreen(states[i]);
    ScreenPoints(rec.modifiedRegion, sw, sh);
  }

  /** The framebuffer is one piece of memory, its rows a stride apart. What the encoders
      read as a screen of sw by sh pixels may be larger than the screen. */
  function Readable(memory: int -> int, stride: nat, sw: nat, sh: nat, translate: int -> int): (s: Screen)
    ensures IsImage(s.pixels, sw, sh)
  {
    Screen(seq(sh, j => seq(sw, i => memory(j * stride + i))), translate)
  }

  /** A client that asks for points right of the screen is shown the beginning of the next
      rows. */
  lemma BeyondTheRow(memory: int -> int, stride: nat, sw: nat, sh: nat, translate: int -> int, i: nat, j: nat)
    requires stride <= i < sw && j + 1 < sh
    ensures var s := Readable(memory, stride, sw, sh, translate); PixelAt(s, i, j) == PixelAt(s, i - stride, j + 1)
  {
    OneMore(j, stride);
  }

  lemma BoxesOnScreen(boxes: seq<Box>, sw: nat, sh: nat)
    requires Banded(boxes) && forall x, y :: Covers(boxes, x, y) ==> 0 <= x < sw && 0 <= y < sh
    ensures forall k :: 0 <= k < |boxes| ==> OnScreen(boxes[k], sw, sh)
  {
    forall k | 0 <= k < |boxes|
      ensures OnScreen(boxes[k], sw, sh)
    {
      var b := boxes[k];
      BoxCovers(boxes, k, b.x1, b.y1);
      BoxCovers(boxes, k, b.x2 - 1, b.y2 - 1);
    }
  }

  /** The end of the sender's round: it takes the update and sends it. The record changes as
      in the Take step, and the message is the rest of the update in the protocol. */
  method TakeAndSend(rec: ClientRec, cl: UpdateBuf, shot: nat -> Screen, sw: nat, sh: nat, n: nat, e: U.Encoding)
    returns (ok: bool, ghost msg: seq<Byte>, ghost parts: seq<seq<Placed>>)
    requires rec.Valid() && TakesOnScreen(rec, sw, sh)
    requires cl.Valid() && cl.ublen == 0 && (forall i :: IsScreen(shot(i), sw, sh, n)) && U.Supported(e) && U.Followed(e)
    modifies rec.modifiedRegion, rec.requestedRegion, cl, cl.updateBuf
    ensures rec.Valid() && cl.Valid()
    ensures Points(rec.modifiedRegion) == old(Points(rec.modifiedRegion) - Points(rec.requestedRegion))
    ensures Points(rec.requestedRegion) == iset{}
    ensures ok ==> cl.ublen == 0 && cl.wire == old(cl.wire) + msg
    ensures ok ==> FollowsProtocol(old(Points(rec.modifiedRegion)), old(Points(rec.requestedRegion)), parts, shot, sw, sh, Same())
    ensures ok && |Flatten(parts)| <= 0xFFFF ==> U.Draws(msg, Flatten(parts), n)
    ensures cl.healthy && sw * n <= UPDATE_BUF_SIZE ==> ok
  {
    hide IsScreen;
    hide FollowsProtocol;
    hide U.Draws;
    hide U.Updates;
    hide U.InStep;
    hide U.AsCounted;
    hide U.TotalRects;
    hide Coalesced;
    hide IsExtents;
    hide Covers;
    hide Banded;
    ghost var modified, requested := Points(rec.modifiedRegion), Points(rec.requestedRegion);
    var updateRegion := rec.TakeUpdate();
    ghost var boxes := updateRegion.Boxes();
    forall x, y | Covers(boxes, x, y)
      ensures 0 <= x < sw && 0 <= y < sh
    {
      assert (x, y) in Points(updateRegion);
    }
    BoxesOnScreen(boxes, sw, sh);
    ok, msg, parts := U.SendFramebufferUpdate(cl, shot, sw, sh, n, updateRegion, e);
    if !ok { return; }
    U.DeliveredTilings(parts, shot, sw, sh, boxes);
    forall i | 0 <= i < |boxes|
      ensures AllShow(parts[i], shot(i), sw, sh, Same())
    {
      ExactShows(parts[i], shot(i), sw, sh, Same());
    }
    TilingsFollow(modified, requested, parts, shot, sw, sh, boxes, Same());
    U.AnnouncedTotal(parts, boxes, e, n);
  }

  /** The same for a client that prefers Tight, up to bits of a pixel that belong to no
      colour. */
  method TakeAndSendTight(rec: ClientRec, coder: TightCoder, shot: nat -> Screen, sw: nat, sh: nat, enableLastRect: bool)
    returns (ok: bool, ghost msg: seq<Byte>, ghost parts: seq<seq<Placed>>)
    requires rec.Valid() && TakesOnScreen(rec, sw, sh)
    requires coder.Valid() && coder.cl.ublen == 0 && forall i :: IsScreen(shot(i), sw, sh, coder.format.n)
    modifies rec.modifiedRegion, rec.requestedRegion
    modifies coder, coder.cl, coder.cl.updateBuf, coder.before, coder.after, coder.prevRowBuf
    ensures rec.Valid() && (ok ==> coder.Valid())
    ensures Points(rec.modifiedRegion) == old(Points(rec.modifiedRegion) - Points(rec.requestedRegion))
    ensures Points(rec.requestedRegion) == iset{}
    ensures ok ==> coder.cl.ublen == 0 && coder.cl.wire == old(coder.cl.wire) + msg
    ensures ok ==> FollowsProtocol(old(Points(rec.modifiedRegion)), old(Points(rec.requestedRegion)), parts, shot, sw, sh,
                                   Colours(coder.format))
    ensures ok && |Flatten(parts)| < 0xFFFF ==>
      TightUpdate.ReadsAs(msg, old(coder.past), Flatten(parts), coder.past, coder.format, coder.codec, enableLastRect)
    ensures coder.cl.healthy && coder.Roomy() ==> ok
  {
    hide IsScreen;
    hide IsFormat;
    hide FollowsProtocol;
    hide TightUpdate.ReadsAs;
    hide TightUpdate.TightUpdates;
    hide TightUpdate.SentFor;
    hide U.TotalRects;
    hide U.Unknown;
    hide Coalesced;
    hide IsExtents;
    hide Covers;
    hide Banded;
    hide TightCoder.Roomy;
    ghost var modified, requested := Points(rec.modifiedRegion), Points(rec.requestedRegion);
    var updateRegion := rec.TakeUpdate();
    ghost var boxes := updateRegion.Boxes();
    forall x, y | Covers(boxes, x, y)
      ensures 0 <= x < sw && 0 <= y < sh
    {
      assert (x, y) in Points(updateRegion);
    }
    BoxesOnScreen(boxes, sw, sh);
    ghost var pieces;
    ok, msg, pieces, parts := TightUpdate.SendFramebufferUpdate(coder, shot, sw, sh, updateRegion, enableLastRect);
    if !ok { return; }
    TightUpdate.SentForDelivers(pieces, parts, shot, sw, sh, coder.format, boxes, U.Tight(coder.conf, enableLastRect));
    forall i | 0 <= i < |boxes|
      ensures AllShow(parts[i], shot(i), sw, sh, Colours(coder.format))
    {
      AlikeShows(parts[i], shot(i), sw, sh, coder.format);
    }
    TilingsFollow(modified, requested, parts, shot, sw, sh, boxes, Colours(coder.format));
    TightUpdate.UnknownHasMarker(U.Tight(coder.conf, enableLastRect), boxes);
  }
}

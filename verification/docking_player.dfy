/** The video controller of app.js and floating_vid_backup/2/app.js (their
    controller lines are identical): at most one active player, floated to
    a corner by restyling when its wrapper leaves the viewport and docked
    again when it returns or when the player reports a pause. */
module DockingPlayer {
  import opened Options
  import opened Browser

  datatype Mode = Docked | Floating

  datatype FloatSize = FloatSize(width: int, height: int)

  /** A created iframe: the wrapper it replaced the thumbnail of, whether
      it is still in the document (`contentWindow` is non-null), its
      current style, and the floating size fixed when it was created. */
  datatype Frame = Frame(wrapper: WrapperId, videoId: string, attached: bool, mode: Mode, floatSize: FloatSize)

  /** `active` points at the active iframe; `observing` holds the iframes
      whose observer is still connected; `bound` lists the wrappers whose
      click handler was installed, in installation order; `played` holds the
      wrappers whose thumbnail a click has already replaced. */
  datatype Controller = Controller(
    frames: map<IframeId, Frame>,
    active: Option<IframeId>,
    observing: set<IframeId>,
    bound: seq<WrapperId>,
    played: set<WrapperId>,
    nextId: IframeId)

  /** Side effects of a click, in the order the handler performs them. */
  datatype Effect = PostPause(frame: IframeId) | Disconnect(frame: IframeId) | Create(frame: IframeId, wrapper: WrapperId, videoId: string)

  datatype Outcome = Outcome(next: Controller, effects: seq<Effect>)

  /** A `.video-wrapper` found by the re-scan, and whether it still holds
      its `.video-thumbnail`. */
  datatype WrapperView = WrapperView(id: WrapperId, hasThumbnail: bool)

  const Initial: Controller := Controller(map[], None, {}, [], {}, 0)

  /** `Math.round`: halves round up. */
  function Round(x: real): int {
    (x + 0.5).Floor
  }

  function MinReal(a: real, b: real): real {
    if a <= b then a else b
  }

  function MaxReal(a: real, b: real): real {
    if a >= b then a else b
  }

  /** `floatW = round(min(320, max(200, 0.5 * max(1, width))))` and
      `floatH = round(floatW * 9 / 16)`, for a wrapper of whole-pixel width. */
  function FloatSizeFor(rectWidth: int): FloatSize {
    var w := if rectWidth >= 1 then rectWidth else 1;
    var fw := Round(MinReal(320.0, MaxReal(200.0, w as real * 0.5)));
    FloatSize(fw, Round(fw as real * 9.0 / 16.0))
  }

  /** The floating box is 200 to 320 pixels wide, half the wrapper's width
      rounded when that lies in range, and the nearest whole height to 16:9. */
  lemma FloatSizeBounds(rectWidth: int)
    ensures 200 <= FloatSizeFor(rectWidth).width <= 320
    ensures 113 <= FloatSizeFor(rectWidth).height <= 180
    ensures -8 < 16 * FloatSizeFor(rectWidth).height - 9 * FloatSizeFor(rectWidth).width <= 8
    ensures rectWidth <= 400 ==> FloatSizeFor(rectWidth).width == 200
    ensures rectWidth >= 640 ==> FloatSizeFor(rectWidth).width == 320
    ensures 400 <= rectWidth <= 640 ==> FloatSizeFor(rectWidth).width == (rectWidth + 1) / 2
  {
    var s := FloatSizeFor(rectWidth);
    var w := if rectWidth >= 1 then rectWidth else 1;
    var x := MinReal(320.0, MaxReal(200.0, w as real * 0.5));
    assert 200.0 <= x <= 320.0;
    assert s.width == (x + 0.5).Floor;
    if 400 <= rectWidth <= 640 {
      assert x == rectWidth as real * 0.5;
      var q := (rectWidth + 1) / 2;
      assert q as real <= x + 0.5 < q as real + 1.0;
    }
    var y := s.width as real * 9.0 / 16.0 + 0.5;
    assert s.height == y.Floor;
    assert s.height as real <= y < s.height as real + 1.0;
  }

  /** The floating width never shrinks as the wrapper grows. */
  lemma FloatSizeMonotone(a: int, b: int)
    requires a <= b
    ensures FloatSizeFor(a).width <= FloatSizeFor(b).width
  {
    var wa := if a >= 1 then a else 1;
    var wb := if b >= 1 then b else 1;
    var xa := MinReal(320.0, MaxReal(200.0, wa as real * 0.5));
    var xb := MinReal(320.0, MaxReal(200.0, wb as real * 0.5));
    assert xa <= xb;
    assert (xa + 0.5).Floor <= (xb + 0.5).Floor;
  }

  /** `active && active.iframe && active.iframe.contentWindow` */
  predicate ActiveAttached(c: Controller) {
    c.active.Some? && c.active.value in c.frames && c.frames[c.active.value].attached
  }

  /** The loop of `setupVideoThumbnails`: wrappers without a thumbnail are
      skipped, and a wrapper gets its handler only if `__boundClick` is not
      yet set. */
  function Bind(bound: seq<WrapperId>, found: seq<WrapperView>): seq<WrapperId>
    decreases |found|
  {
    if |found| == 0 then bound
    else
      var w := found[0];
      if !w.hasThumbnail || w.id in bound then Bind(bound, found[1..])
      else Bind(bound + [w.id], found[1..])
  }

  predicate NoDuplicates(s: seq<WrapperId>) {
    forall i, j :: 0 <= i < j < |s| ==> s[i] != s[j]
  }

  /** Re-scanning installs each handler at most once: the bound list only
      grows, never repeats a wrapper, covers every wrapper found with a
      thumbnail, holds nothing else, and a second scan of the same wrappers
      changes nothing. */
  lemma {:induction false} BindSpec(bound: seq<WrapperId>, found: seq<WrapperView>)
    requires NoDuplicates(bound)
    ensures NoDuplicates(Bind(bound, found))
    ensures |bound| <= |Bind(bound, found)| && Bind(bound, found)[..|bound|] == bound
    ensures forall k :: 0 <= k < |found| && found[k].hasThumbnail ==> found[k].id in Bind(bound, found)
    ensures forall x :: x in Bind(bound, found) ==>
      x in bound || exists k :: 0 <= k < |found| && found[k].hasThumbnail && found[k].id == x
    ensures Bind(Bind(bound, found), found) == Bind(bound, found)
    decreases |found|
  {
    if |found| > 0 {
      var w := found[0];
      var b1 := if !w.hasThumbnail || w.id in bound then bound else bound + [w.id];
      BindSpec(b1, found[1..]);
      var r := Bind(b1, found[1..]);
      assert r == Bind(bound, found);
      assert r[..|bound|] == bound by {
        assert r[..|b1|][..|bound|] == r[..|bound|];
      }
      forall k | 0 <= k < |found| && found[k].hasThumbnail ensures found[k].id in r {
        if k == 0 {
          assert w.id in b1;
          assert w.id in r[..|b1|];
        } else {
          assert found[k] == found[1..][k - 1];
        }
      }
      forall x | x in r
        ensures x in bound || exists k :: 0 <= k < |found| && found[k].hasThumbnail && found[k].id == x
      {
        if x !in b1 {
          var k :| 0 <= k < |found[1..]| && found[1..][k].hasThumbnail && found[1..][k].id == x;
          assert found[k + 1] == found[1..][k];
        } else if x !in bound {
          assert x == w.id;
        }
      }
      BindCovered(r, found);
    }
  }

  /** Scanning wrappers that are all already bound (or have no thumbnail)
      changes nothing. */
  lemma {:induction false} BindCovered(bound: seq<WrapperId>, found: seq<WrapperView>)
    requires forall k :: 0 <= k < |found| && found[k].hasThumbnail ==> found[k].id in bound
    ensures Bind(bound, found) == bound
    decreases |found|
  {
    if |found| > 0 {
      BindCovered(bound, found[1..]);
    }
  }

  /** Whether `w` still shows a thumbnail whose click handler is installed. */
  predicate Clickable(c: Controller, w: WrapperId) {
    w in c.bound && w !in c.played
  }

  /** The thumbnail click handler followed by `createPlayerInWrapper`. A
      wrapper without an installed handler, or whose thumbnail is gone,
      cannot be clicked. */
  function Click(c: Controller, w: WrapperId, videoId: string, rectWidth: int): Outcome {
    if !Clickable(c, w) then Outcome(c, [])
    else
      var released :=
        if ActiveAttached(c) then
          var a := c.active.value;
          Outcome(c.(active := None, observing := c.observing - {a}), [PostPause(a), Disconnect(a)])
        else Outcome(c, []);
      Create(released, w, videoId, rectWidth)
  }

  /** `createPlayerInWrapper`: a fresh docked iframe, observed and active. */
  function Create(o: Outcome, w: WrapperId, videoId: string, rectWidth: int): Outcome {
    var c := o.next;
    var id := c.nextId;
    var frame := Frame(w, videoId, true, Docked, FloatSizeFor(rectWidth));
    Outcome(
      c.(frames := c.frames[id := frame], active := Some(id), observing := c.observing + {id},
          played := c.played + {w}, nextId := id + 1),
      o.effects + [Effect.Create(id, w, videoId)])
  }

  /** The intersection-observer callback of iframe `id`: nothing once its
      observer is disconnected or when `id` is not the active iframe;
      otherwise float when the wrapper is out of view and dock when in view. */
  function Observe(c: Controller, id: IframeId, isIntersecting: bool): Controller {
    if id !in c.observing || c.active != Some(id) || id !in c.frames then c
    else c.(frames := c.frames[id := c.frames[id].(mode := if isIntersecting then Docked else Floating)])
  }

  /** The pause test of the message listener: either of the two shapes the
      player uses to report state 2. */
  predicate IsPause(data: Json) {
    || (Field(data, "event") == Some(JString("infoDelivery"))
        && Truthy(Field(data, "info"))
        && Field(Field(data, "info").value, "playerState") == Some(JNumber(2.0)))
    || (Field(data, "event") == Some(JString("onStateChange"))
        && Field(data, "info") == Some(JNumber(2.0)))
  }

  /** Every check the listener makes before it redocks. */
  predicate Redocks(c: Controller, m: Message) {
    && m.data.Text? && m.data.raw != ""
    && m.data.parsed.Some? && Truthy(m.data.parsed)
    && ActiveAttached(c)
    && m.source == c.active
    && IsPause(m.data.parsed.value)
  }

  /** The `message` listener: redock the active iframe on a pause from it. */
  function Receive(c: Controller, m: Message): Controller {
    if Redocks(c, m) then
      var a := c.active.value;
      c.(frames := c.frames[a := c.frames[a].(mode := Docked)])
    else c
  }

  /** `jobslist` lost its contents: every iframe leaves the document. */
  function ClearList(c: Controller): Controller {
    c.(frames := map id | id in c.frames :: c.frames[id].(attached := false))
  }

  datatype Event =
    | Clicked(wrapper: WrapperId, videoId: string, rectWidth: int)
    | Intersection(frame: IframeId, isIntersecting: bool)
    | Received(message: Message)
    | ListCleared
    | Rescanned(found: seq<WrapperView>)

  function Step(c: Controller, ev: Event): Controller {
    match ev
    case Clicked(w, v, width) => Click(c, w, v, width).next
    case Intersection(id, b) => Observe(c, id, b)
    case Received(m) => Receive(c, m)
    case ListCleared => ClearList(c)
    case Rescanned(found) => c.(bound := Bind(c.bound, found))
  }

  /** Bookkeeping every reachable controller satisfies: the active iframe
      exists and is observed, ids are fresh, handlers are not duplicated. */
  ghost predicate Inv(c: Controller) {
    && (c.active.Some? ==> c.active.value in c.frames && c.active.value in c.observing)
    && (forall id :: id in c.frames ==> id < c.nextId)
    && c.observing <= c.frames.Keys
    && NoDuplicates(c.bound)
  }

  lemma InitialInv()
    ensures Inv(Initial)
  {
  }

  lemma StepKeepsInv(c: Controller, ev: Event)
    requires Inv(c)
    ensures Inv(Step(c, ev))
  {
    if ev.Rescanned? {
      BindSpec(c.bound, ev.found);
    }
  }

  /** The hand-off: when the active iframe is still in the document, the
      click posts it a pause, disconnects its observer, and only then creates
      the new iframe, which gets a fresh id and becomes the only active one. */
  lemma ClickHandOff(c: Controller, w: WrapperId, videoId: string, rectWidth: int)
    requires Inv(c)
    requires Clickable(c, w)
    ensures var o := Click(c, w, videoId, rectWidth);
      && o.next.active == Some(c.nextId)
      && c.nextId !in c.frames
      && o.next.frames[c.nextId] == Frame(w, videoId, true, Docked, FloatSizeFor(rectWidth))
      && (ActiveAttached(c) ==>
            && o.effects == [PostPause(c.active.value), Disconnect(c.active.value), Effect.Create(c.nextId, w, videoId)]
            && c.active.value != c.nextId
            && c.active.value !in o.next.observing)
      && (!ActiveAttached(c) ==> o.effects == [Effect.Create(c.nextId, w, videoId)])
      && (forall id :: id in c.frames ==> id in o.next.frames && o.next.frames[id] == c.frames[id])
      && !Clickable(o.next, w)
  {
  }

  /** A wrapper whose thumbnail is gone ignores clicks. */
  lemma ClickOnPlayedIgnored(c: Controller, w: WrapperId, videoId: string, rectWidth: int)
    requires w in c.played
    ensures Click(c, w, videoId, rectWidth) == Outcome(c, [])
  {
  }

  /** Only the active iframe responds: an observer callback or a message for
      any other iframe changes nothing, even when that iframe's observer was
      never disconnected (its `contentWindow` was gone at hand-off). */
  lemma OnlyActiveResponds(c: Controller, id: IframeId, isIntersecting: bool, m: Message)
    requires c.active != Some(id)
    ensures Observe(c, id, isIntersecting) == c
    ensures m.source == Some(id) ==> Receive(c, m) == c
  {
  }

  /** Whatever happens, an iframe that is not the active one keeps its mode.
      So an iframe released while floating stays floating for good. */
  lemma InactiveFrameKeepsMode(c: Controller, ev: Event, id: IframeId)
    requires Inv(c) && id in c.frames && c.active != Some(id)
    ensures id in Step(c, ev).frames
    ensures Step(c, ev).frames[id].mode == c.frames[id].mode
    ensures Step(c, ev).frames[id].floatSize == c.frames[id].floatSize
  {
    match ev
    case Clicked(w, v, width) =>
      assert id != c.nextId;
    case Intersection(j, b) =>
    case Received(m) =>
    case ListCleared =>
      assert ClearList(c).frames[id] == c.frames[id].(attached := false);
    case Rescanned(found) =>
  }

  /** The active, observed iframe floats exactly when its wrapper is out of
      view; nothing else changes, in particular not its floating size. */
  lemma ObserveActive(c: Controller, id: IframeId, isIntersecting: bool)
    requires Inv(c) && c.active == Some(id)
    ensures Observe(c, id, isIntersecting).frames.Keys == c.frames.Keys
    ensures Observe(c, id, isIntersecting).frames[id].mode == (if isIntersecting then Docked else Floating)
    ensures Observe(c, id, isIntersecting).frames[id].floatSize == c.frames[id].floatSize
    ensures forall j :: j in c.frames && j != id ==> Observe(c, id, isIntersecting).frames[j] == c.frames[j]
    ensures Observe(c, id, isIntersecting).active == c.active
    ensures Observe(c, id, isIntersecting).observing == c.observing
    ensures Observe(c, id, isIntersecting).bound == c.bound
    ensures Observe(c, id, isIntersecting).played == c.played
    ensures Observe(c, id, isIntersecting).nextId == c.nextId
  {
  }

  /** A message changes the controller only if it is a non-empty string
      that parses to a truthy value, comes from the active iframe's window
      while that iframe is in the document, and reports a pause; then it
      docks that iframe and neither recreates nor replaces it. */
  lemma ReceiveSpec(c: Controller, m: Message)
    requires Inv(c)
    ensures !Redocks(c, m) ==> Receive(c, m) == c
    ensures Redocks(c, m) ==>
      && Receive(c, m).active == c.active
      && Receive(c, m).frames.Keys == c.frames.Keys
      && Receive(c, m).frames[c.active.value] == c.frames[c.active.value].(mode := Docked)
      && Receive(c, m).observing == c.observing
      && Receive(c, m).nextId == c.nextId
      && Receive(c, m).bound == c.bound
      && Receive(c, m).played == c.played
      && (forall j :: j in c.frames && j != c.active.value ==> Receive(c, m).frames[j] == c.frames[j])
  {
  }

  /** Both message shapes report a pause, other states do not. */
  lemma PauseShapes(n: real)
    ensures IsPause(PlayerEvent("onStateChange", JNumber(2.0)))
    ensures IsPause(PlayerEvent("infoDelivery", JObject([Member("playerState", JNumber(2.0))])))
    ensures n != 2.0 ==> !IsPause(PlayerEvent("onStateChange", JNumber(n)))
    ensures n != 2.0 ==> !IsPause(PlayerEvent("infoDelivery", JObject([Member("playerState", JNumber(n))])))
  {
    var info := JObject([Member("playerState", JNumber(n))]);
    var two := JObject([Member("playerState", JNumber(2.0))]);
    PlayerEventFields("infoDelivery", info);
    PlayerEventFields("infoDelivery", two);
    PlayerEventFields("onStateChange", JNumber(n));
    PlayerEventFields("onStateChange", JNumber(2.0));
    assert "infoDelivery" != "onStateChange" by { assert "infoDelivery"[0] != "onStateChange"[0]; }
  }

  /** The intended picture: no iframe in the document floats unless it is
      the active one. */
  ghost predicate OnlyActiveFloats(c: Controller) {
    forall id :: id in c.frames && c.frames[id].attached && c.frames[id].mode == Floating ==> c.active == Some(id)
  }

  /** The click handler with the released iframe also restyled to its
      docked form, as the observer and the message listener do. */
  function ClickCorrected(c: Controller, w: WrapperId, videoId: string, rectWidth: int): Outcome {
    if !Clickable(c, w) then Outcome(c, [])
    else
      var released :=
        if ActiveAttached(c) then
          var a := c.active.value;
          Outcome(
            c.(frames := c.frames[a := c.frames[a].(mode := Docked)], active := None, observing := c.observing - {a}),
            [PostPause(a), Disconnect(a)])
        else Outcome(c, []);
      Create(released, w, videoId, rectWidth)
  }

  function StepCorrected(c: Controller, ev: Event): Controller {
    match ev
    case Clicked(w, v, width) => ClickCorrected(c, w, v, width).next
    case _ => Step(c, ev)
  }

  /** With the corrected click, at most one iframe in the document is ever
      floating, and it is the active one. */
  lemma StepCorrectedKeepsOnlyActiveFloats(c: Controller, ev: Event)
    requires Inv(c) && OnlyActiveFloats(c)
    ensures Inv(StepCorrected(c, ev))
    ensures OnlyActiveFloats(StepCorrected(c, ev))
  {
    StepKeepsInv(c, ev);
    if ev.Clicked? {
      var next := StepCorrected(c, ev);
      forall id | id in next.frames && next.frames[id].attached && next.frames[id].mode == Floating
        ensures next.active == Some(id)
      {
        if id != c.nextId {
          assert id in c.frames;
        }
      }
    }
  }

  /** As written, the released iframe keeps its floating style: click a
      first thumbnail, scroll its wrapper out of view, click a second
      thumbnail, and the paused first player stays fixed in the corner
      beside the new active one. */
  lemma ReleasedPlayerKeepsFloating()
    ensures var c0 := Initial.(bound := [7, 8]);
      var c1 := Click(c0, 7, "first", 560).next;
      var c2 := Observe(c1, 0, false);
      var c3 := Click(c2, 8, "second", 560).next;
      && 0 in c3.frames && c3.frames[0].attached && c3.frames[0].mode == Floating
      && c3.active == Some(1)
      && !OnlyActiveFloats(c3)
  {
  }
}

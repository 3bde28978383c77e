/** The video controller of playing_vid_stays/app.js: one player at a time;
    a click removes the previous one, and the current one is moved to the
    document body at 320 by 180 when its wrapper leaves the viewport and
    back into the wrapper at 560 by 315 when it returns. */
module BodyFloat {
  import opened Options
  import opened Browser

  /** Where the iframe element sits: inside its wrapper, or appended to
      `document.body`. */
  datatype Place = InWrapper(wrapper: WrapperId) | OnBody

  /** An iframe in the document, with its place and pixel size. */
  datatype Frame = Frame(place: Place, width: int, height: int)

  datatype Current = Current(frame: IframeId, wrapper: WrapperId)

  datatype State = State(current: Option<Current>, frames: map<IframeId, Frame>, nextId: IframeId)

  const Initial: State := State(None, map[], 0)

  const DockedWidth: int := 560
  const DockedHeight: int := 315
  const FloatWidth: int := 320
  const FloatHeight: int := 180

  /** The thumbnail click handler: remove the previous player from the
      document, then create the new one in the clicked wrapper. */
  function Click(s: State, w: WrapperId): State {
    var kept := if s.current.Some? then s.frames - {s.current.value.frame} else s.frames;
    var id := s.nextId;
    State(Some(Current(id, w)), kept[id := Frame(InWrapper(w), DockedWidth, DockedHeight)], id + 1)
  }

  /** The observer callback of iframe `id`. Observers are never disconnected,
      so the guard on the current video is what silences old ones. */
  function Observe(s: State, id: IframeId, isIntersecting: bool): State {
    if s.current.None? || s.current.value.frame != id then s
    else if !isIntersecting then s.(frames := s.frames[id := Frame(OnBody, FloatWidth, FloatHeight)])
    else s.(frames := s.frames[id := Frame(InWrapper(s.current.value.wrapper), DockedWidth, DockedHeight)])
  }

  datatype Event = Clicked(wrapper: WrapperId) | Intersection(frame: IframeId, isIntersecting: bool)

  function Step(s: State, ev: Event): State {
    match ev
    case Clicked(w) => Click(s, w)
    case Intersection(id, b) => Observe(s, id, b)
  }

  /** The only iframe in the document is the current one, and it is either
      on the body at the floating size or in its own wrapper at full size. */
  ghost predicate Inv(s: State) {
    && (s.current.None? ==> s.frames == map[])
    && (s.current.Some? ==>
          && s.frames.Keys == {s.current.value.frame}
          && s.current.value.frame < s.nextId
          && var f := s.frames[s.current.value.frame];
             || f == Frame(OnBody, FloatWidth, FloatHeight)
             || f == Frame(InWrapper(s.current.value.wrapper), DockedWidth, DockedHeight))
  }

  lemma InitialInv()
    ensures Inv(Initial)
  {
  }

  lemma StepKeepsInv(s: State, ev: Event)
    requires Inv(s)
    ensures Inv(Step(s, ev))
  {
  }

  /** A click leaves exactly one player, the new one, docked in the clicked
      wrapper at full size; the previous player is gone from the document. */
  lemma ClickSpec(s: State, w: WrapperId)
    requires Inv(s)
    ensures var t := Click(s, w);
      && t.current == Some(Current(s.nextId, w))
      && t.frames == map[s.nextId := Frame(InWrapper(w), DockedWidth, DockedHeight)]
      && (s.current.Some? ==> s.current.value.frame !in t.frames)
  {
    var kept := if s.current.Some? then s.frames - {s.current.value.frame} else s.frames;
    assert kept == map[];
  }

  /** The current player sits on the body exactly when its wrapper is out
      of view; an old player's observer changes nothing. */
  lemma ObserveSpec(s: State, id: IframeId, isIntersecting: bool)
    requires Inv(s)
    ensures s.current.Some? && s.current.value.frame == id ==>
      Observe(s, id, isIntersecting).frames[id].place == (if isIntersecting then InWrapper(s.current.value.wrapper) else OnBody)
    ensures (s.current.None? || s.current.value.frame != id) ==> Observe(s, id, isIntersecting) == s
  {
  }
}

/** The video controller of floating_vid_backup/app.js: one current video,
    floated at its original size when its wrapper leaves the viewport, and
    returned to its spot on the next click or when the player reports a
    pause. */
module ReturnToSpot {
  import opened Options
  import opened Browser

  datatype Mode = Docked | Floating

  /** The inline style of an iframe: docked in its wrapper or fixed in the
      corner, with the pixel size written into it. */
  datatype Style = Style(mode: Mode, width: int, height: int)

  /** `currentFloatingVideo` with `floatingOriginalParent`. */
  datatype Current = Current(frame: IframeId, wrapper: WrapperId)

  /** `observer` is the iframe whose observer `floatingObserver` holds;
      `originalWidth` and `originalHeight` are the wrapper size measured at
      the last click. */
  datatype State = State(
    current: Option<Current>,
    observer: Option<IframeId>,
    styles: map<IframeId, Style>,
    originalWidth: int,
    originalHeight: int,
    nextId: IframeId)

  const Initial: State := State(None, None, map[], 0, 0, 0)

  /** `returnVideoToSpot`: dock the current video at the stored size, forget
      it, and disconnect the observer. */
  function ReturnVideoToSpot(s: State): State {
    match s.current
    case None => s
    case Some(cur) =>
      var docked := Style(Docked, s.originalWidth, s.originalHeight);
      s.(current := None, observer := None,
         styles := if cur.frame in s.styles then s.styles[cur.frame := docked] else s.styles)
  }

  /** The thumbnail click handler; `offsetWidth` and `offsetHeight` are the
      wrapper's measured size. */
  function Click(s: State, w: WrapperId, offsetWidth: int, offsetHeight: int): State {
    var s1 := if s.current.Some? then ReturnVideoToSpot(s) else s;
    var id := s1.nextId;
    s1.(current := Some(Current(id, w)), observer := Some(id),
        styles := s1.styles[id := Style(Docked, offsetWidth, offsetHeight)],
        originalWidth := offsetWidth, originalHeight := offsetHeight, nextId := id + 1)
  }

  /** The observer callback of iframe `id`, acting only while its observer
      is connected and `id` is the current video. */
  function Observe(s: State, id: IframeId, isIntersecting: bool): State {
    if s.observer != Some(id) || s.current.None? || s.current.value.frame != id then s
    else
      var style := Style(if isIntersecting then Docked else Floating, s.originalWidth, s.originalHeight);
      s.(styles := s.styles[id := style])
  }

  /** The pause test of `handleYouTubeMessage`: only the `infoDelivery`
      shape is recognised. */
  predicate IsPause(data: Json) {
    && Field(data, "event") == Some(JString("infoDelivery"))
    && Truthy(Field(data, "info"))
    && Field(Field(data, "info").value, "playerState") == Some(JNumber(2.0))
  }

  /** `handleYouTubeMessage`; the message's source is not consulted. */
  function Receive(s: State, m: Message): State {
    if !m.data.Text? || m.data.raw == "" || s.current.None? then s
    else if m.data.parsed.Some? && IsPause(m.data.parsed.value) then ReturnVideoToSpot(s)
    else s
  }

  datatype Event =
    | Clicked(wrapper: WrapperId, offsetWidth: int, offsetHeight: int)
    | Intersection(frame: IframeId, isIntersecting: bool)
    | Received(message: Message)

  function Step(s: State, ev: Event): State {
    match ev
    case Clicked(w, ow, oh) => Click(s, w, ow, oh)
    case Intersection(id, b) => Observe(s, id, b)
    case Received(m) => Receive(s, m)
  }

  /** The observer belongs to the current video, whose style carries the
      stored size; every other iframe is docked; ids are fresh. */
  ghost predicate Inv(s: State) {
    && s.observer == (if s.current.Some? then Some(s.current.value.frame) else None)
    && (s.current.Some? ==>
          && s.current.value.frame in s.styles
          && s.styles[s.current.value.frame].width == s.originalWidth
          && s.styles[s.current.value.frame].height == s.originalHeight)
    && (forall id :: id in s.styles && (s.current.None? || id != s.current.value.frame) ==>
          s.styles[id].mode == Docked)
    && (forall id :: id in s.styles ==> id < s.nextId)
  }

  lemma InitialInv()
    ensures Inv(Initial)
  {
  }

  /** Every event keeps the invariant: in this version a video that stops
      being current is always back in its spot. */
  lemma StepKeepsInv(s: State, ev: Event)
    requires Inv(s)
    ensures Inv(Step(s, ev))
  {
    match ev
    case Clicked(w, ow, oh) =>
      var s1 := if s.current.Some? then ReturnVideoToSpot(s) else s;
      assert Inv(s1);
    case Intersection(id, b) =>
    case Received(m) =>
  }

  /** Whatever happens, an iframe that is not the current video keeps its
      style: observers and messages reach only the current video, and a
      click gives the new video a fresh iframe. */
  lemma NonCurrentKeepsStyle(s: State, ev: Event, id: IframeId)
    requires Inv(s) && id in s.styles && (s.current.None? || s.current.value.frame != id)
    ensures id in Step(s, ev).styles && Step(s, ev).styles[id] == s.styles[id]
  {
    match ev
    case Clicked(w, ow, oh) =>
      assert id != s.nextId;
    case Intersection(j, b) =>
    case Received(m) =>
  }

  /** `returnVideoToSpot` docks the current video at its stored size and
      leaves nothing current; with nothing current it does nothing. */
  lemma ReturnVideoToSpotSpec(s: State)
    requires Inv(s)
    ensures ReturnVideoToSpot(s).current.None? && ReturnVideoToSpot(s).observer.None?
    ensures s.current.None? ==> ReturnVideoToSpot(s) == s
    ensures s.current.Some? ==>
      ReturnVideoToSpot(s).styles == s.styles[s.current.value.frame := Style(Docked, s.originalWidth, s.originalHeight)]
    ensures forall id :: id in ReturnVideoToSpot(s).styles ==> ReturnVideoToSpot(s).styles[id].mode == Docked
  {
  }

  /** Floating keeps the original size: the current video's style differs
      between the two states only in its mode. */
  lemma FloatKeepsSize(s: State, isIntersecting: bool)
    requires Inv(s) && s.current.Some?
    ensures var id := s.current.value.frame;
      && Observe(s, id, isIntersecting).styles[id] == s.styles[id].(mode := if isIntersecting then Docked else Floating)
      && Observe(s, id, isIntersecting).current == s.current
  {
  }

  /** Whoever posts it, a pause report returns the current video and every
      other message (not text, empty, not JSON, or not a pause) changes
      nothing; the `onStateChange` shape is not recognised. */
  lemma ReceiveSpec(s: State, m: Message, other: Option<IframeId>, n: real)
    requires Inv(s)
    ensures Receive(s, m.(source := other)) == Receive(s, m)
    ensures s.current.Some? && m.data.Text? && m.data.raw != "" && m.data.parsed.Some? && IsPause(m.data.parsed.value) ==>
      Receive(s, m) == ReturnVideoToSpot(s)
    ensures !(s.current.Some? && m.data.Text? && m.data.raw != "" && m.data.parsed.Some? && IsPause(m.data.parsed.value)) ==>
      Receive(s, m) == s
    ensures m.data == Text("{\"event\":\"onStateChange\",\"info\":2}", Some(PlayerEvent("onStateChange", JNumber(n)))) ==>
      Receive(s, m) == s
  {
    PlayerEventFields("onStateChange", JNumber(n));
    assert "onStateChange" != "infoDelivery" by { assert "onStateChange"[0] != "infoDelivery"[0]; }
  }

  /** Observer callbacks of any iframe other than the current one do
      nothing. */
  lemma StaleObserverIgnored(s: State, id: IframeId, isIntersecting: bool)
    requires Inv(s)
    requires s.current.None? || s.current.value.frame != id
    ensures Observe(s, id, isIntersecting) == s
  {
  }
}

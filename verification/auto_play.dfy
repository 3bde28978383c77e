/** The inline players of vids_auto_play/app.js: every player is embedded
    muted, and an intersection observer tells each one to play while any
    part of it is in view and to pause once it is entirely out of view.
    The observer's 0.5 threshold only adds deliveries when half visibility
    is crossed; each delivery still branches on `isIntersecting`, so a
    player dropping below half visible is told to play again. */
module AutoPlay {
  import opened Options
  import opened Browser

  datatype Command = PlayVideo | PauseVideo

  /** One entry of an observer batch. `attached` is false for an iframe a
      re-render has removed, whose `contentWindow` is null. */
  datatype Sighting = Sighting(frame: IframeId, isIntersecting: bool, attached: bool)

  function CommandFor(isIntersecting: bool): Command {
    if isIntersecting then PlayVideo else PauseVideo
  }

  /** The observer callback: one command per entry, in order. Posting to a
      removed iframe throws, which abandons the rest of the batch. */
  function Dispatch(batch: seq<Sighting>): (r: seq<(IframeId, Command)>)
    ensures |r| <= |batch|
    decreases |batch|
  {
    if |batch| == 0 || !batch[0].attached then []
    else [(batch[0].frame, CommandFor(batch[0].isIntersecting))] + Dispatch(batch[1..])
  }

  /** Commands are sent exactly for the entries before the first removed
      iframe, each the play or pause command its visibility calls for. */
  lemma {:induction false} DispatchSpec(batch: seq<Sighting>)
    ensures |Dispatch(batch)| <= |batch|
    ensures forall k :: 0 <= k < |Dispatch(batch)| ==>
      batch[k].attached && Dispatch(batch)[k] == (batch[k].frame, CommandFor(batch[k].isIntersecting))
    ensures |Dispatch(batch)| < |batch| ==> !batch[|Dispatch(batch)|].attached
    decreases |batch|
  {
    if |batch| > 0 && batch[0].attached {
      DispatchSpec(batch[1..]);
      forall k | 0 <= k < |Dispatch(batch)|
        ensures batch[k].attached && Dispatch(batch)[k] == (batch[k].frame, CommandFor(batch[k].isIntersecting))
      {
        if k > 0 {
          assert Dispatch(batch)[k] == Dispatch(batch[1..])[k - 1];
          assert batch[k] == batch[1..][k - 1];
        }
      }
      if |Dispatch(batch)| < |batch| {
        assert batch[|Dispatch(batch)|] == batch[1..][|Dispatch(batch[1..])|];
      }
    }
  }

  /** The last command each player has received, after `sent` arrives. */
  function Deliver(last: map<IframeId, Command>, sent: seq<(IframeId, Command)>): map<IframeId, Command>
    decreases |sent|
  {
    if |sent| == 0 then last else Deliver(last[sent[0].0 := sent[0].1], sent[1..])
  }

  /** Whether the last entry for `id` in the batch was intersecting. */
  function LastSighting(batch: seq<Sighting>, id: IframeId): Option<bool>
    decreases |batch|
  {
    if |batch| == 0 then None
    else
      var later := LastSighting(batch[1..], id);
      if later.Some? then later
      else if batch[0].frame == id then Some(batch[0].isIntersecting)
      else None
  }

  /** After any batch, every player seen among the entries that were
      told something (those before the first removed iframe) was last told
      to play exactly when its last such entry was intersecting, and every
      other player's last command is untouched. When no iframe of the
      batch was removed, those entries are the whole batch. */
  lemma {:induction false} LastCommandFollowsLastSighting(last: map<IframeId, Command>, batch: seq<Sighting>, id: IframeId)
    ensures var told := batch[..|Dispatch(batch)|];
      LastSighting(told, id).Some? ==>
        id in Deliver(last, Dispatch(batch)) &&
        Deliver(last, Dispatch(batch))[id] == CommandFor(LastSighting(told, id).value)
    ensures var told := batch[..|Dispatch(batch)|];
      LastSighting(told, id).None? ==>
        (id in Deliver(last, Dispatch(batch)) <==> id in last) &&
        (id in last ==> Deliver(last, Dispatch(batch))[id] == last[id])
    ensures (forall k :: 0 <= k < |batch| ==> batch[k].attached) ==> batch[..|Dispatch(batch)|] == batch
    decreases |batch|
  {
    if |batch| > 0 && batch[0].attached {
      var s := batch[0];
      var sent := Dispatch(batch);
      var told := batch[..|sent|];
      assert sent[0] == (s.frame, CommandFor(s.isIntersecting));
      assert sent[1..] == Dispatch(batch[1..]);
      assert told[0] == s;
      assert told[1..] == batch[1..][..|Dispatch(batch[1..])|];
      var last' := last[s.frame := CommandFor(s.isIntersecting)];
      assert Deliver(last, sent) == Deliver(last', Dispatch(batch[1..]));
      LastCommandFollowsLastSighting(last', batch[1..], id);
      if forall k :: 0 <= k < |batch| ==> batch[k].attached {
        assert forall k :: 0 <= k < |batch[1..]| ==> batch[1..][k].attached by {
          forall k | 0 <= k < |batch[1..]| ensures batch[1..][k].attached {
            assert batch[1..][k] == batch[k + 1];
          }
        }
        assert batch[1..][..|Dispatch(batch[1..])|] == batch[1..];
        assert told == [s] + told[1..];
      }
    }
  }
}

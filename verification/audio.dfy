/**
 * The lazily created firecracker sound (`ensureFireAudio`, `startFireAudio`,
 * `stopFireAudio`). Only the element's paused flag and playback position are
 * modelled; `SOUND_ENABLED` is the constant true, so the disabled branch of
 * `ensureFireAudio` never runs and is not part of the model.
 */
module Audio {
  import opened Wrappers

  /** The state of the audio element: paused or playing, and `currentTime`. */
  datatype Handle = Handle(paused: bool, position: real)

  /** A freshly created media element is paused at the start. */
  const NewHandle := Handle(true, 0.0)

  /**
   * `ensureFireAudio` on the value of `fireAudio`: an existing element is
   * reused; otherwise one is created, unless creating it throws, which is
   * caught and leaves `fireAudio` null.
   */
  function Ensured(h: Option<Handle>, creationFails: bool): (r: Option<Handle>)
    ensures h.Some? ==> r == h
    ensures h.None? && !creationFails ==> r == Some(NewHandle)
    ensures r.None? <==> h.None? && creationFails
  {
    if h.Some? then h else if creationFails then None else Some(NewHandle)
  }

  /**
   * The effect of `a.play()` guarded by `if (!a.paused) return`: a playing
   * element is left alone; a paused one starts when the browser allows it and
   * stays paused when the returned promise is rejected (the rejection is
   * swallowed). The position is not touched.
   */
  function Played(h: Option<Handle>, playAllowed: bool): (r: Option<Handle>)
    ensures r.None? <==> h.None?
    ensures h.Some? && !h.value.paused ==> r == h
    ensures h.Some? ==> r.value.position == h.value.position
    ensures h.Some? ==> (r.value.paused <==> h.value.paused && !playAllowed)
  {
    if h.None? || !h.value.paused || !playAllowed then h
    else Some(h.value.(paused := false))
  }

  /** `stopFireAudio`: without an element nothing happens; otherwise it is paused and rewound. */
  function Stopped(h: Option<Handle>): (r: Option<Handle>)
    ensures r.None? <==> h.None?
    ensures r.Some? ==> r.value == Handle(true, 0.0)
  {
    if h.None? then None else Some(Handle(true, 0.0))
  }

  /** Stopping twice ends in the same state as stopping once. */
  lemma StopIdempotent(h: Option<Handle>)
    ensures Stopped(Stopped(h)) == Stopped(h)
  {
  }

  /** Starting an element that is already playing is a no-op. */
  lemma StartWhilePlaying(h: Option<Handle>, creationFails: bool, playAllowed: bool)
    requires h.Some? && !h.value.paused
    ensures Played(Ensured(h, creationFails), playAllowed) == h
  {
  }

  /** The module-level `fireAudio` variable and the elements appended to the page. */
  class FireAudio {
    var handle: Option<Handle>
    var created: nat

    /** At most one element is ever appended, and `fireAudio` refers to it. */
    ghost predicate Valid()
      reads this
    {
      created <= 1 && (handle.Some? <==> created == 1)
    }

    constructor ()
      ensures Valid() && handle == None && created == 0
    {
      handle := None;
      created := 0;
    }

    method Ensure(creationFails: bool) returns (a: Option<Handle>)
      requires Valid()
      modifies this
      ensures Valid()
      ensures handle == Ensured(old(handle), creationFails) && a == handle
      ensures created == if old(handle).None? && !creationFails then 1 else old(created)
    {
      if handle.Some? {
        return handle;
      }
      if creationFails {
        handle := None;
      } else {
        handle := Some(NewHandle);
        created := created + 1;
      }
      a := handle;
    }

    method Start(creationFails: bool, playAllowed: bool)
      requires Valid()
      modifies this
      ensures Valid()
      ensures handle == Played(Ensured(old(handle), creationFails), playAllowed)
    {
      var a := Ensure(creationFails);
      if a.None? {
        return;
      }
      if !a.value.paused {
        return;
      }
      if playAllowed {
        handle := Some(a.value.(paused := false));
      }
    }

    method Stop()
      requires Valid()
      modifies this
      ensures Valid()
      ensures handle == Stopped(old(handle)) && created == old(created)
    {
      if handle.None? {
        return;
      }
      handle := Some(handle.value.(paused := true, position := 0.0));
    }
  }
}

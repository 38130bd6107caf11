/**
  The playback controller as a state machine over the player's two slots:
  the video that is playing and the video that is paused. Each operation is
  a function from the old slots to the new slots and the outcome it reports
  (one outcome per kind of message the player prints; the operation tells
  which of its messages is meant). The class in module Player
  performs these steps in place.
 */
module Playback {
  import opened Wrappers
  import opened Catalogue

  /** The two slots of the player; `None` is an empty slot. */
  datatype PlayerState = PlayerState(playing: Option<Video>, paused: Option<Video>)

  /**
    What an operation reports, one constructor per kind of message. The
    operation tells which message is meant: `NoVideoPlaying` stands for the
    stop, pause and continue errors alike, and `Played` for the stop notice
    of the implicit stop (when `stopped` is present) followed by the play notice.
   */
  datatype Outcome =
    | VideoDoesNotExist                            // play with an unknown id
    | NoVideoPlaying                               // stop, pause or continue while stopped
    | NotPaused                                    // continue while playing unpaused
    | AlreadyPaused(video: Video)                  // pause while paused
    | Played(video: Video, stopped: Option<Video>) // play; `stopped` is the video the implicit stop ended
    | Stopping(video: Video)                       // stop while something plays
    | Pausing(video: Video)                        // pause while playing unpaused
    | Continuing(video: Video)                     // continue while paused

  /** The slots after an operation, with what the operation reported. */
  datatype Step = Step(state: PlayerState, outcome: Outcome)

  /** What the player shows as currently playing. */
  datatype Status = NothingPlaying | NowPlaying(video: Video, isPaused: bool)

  /** Both slots empty: the state of a new player. */
  const Stopped := PlayerState(None, None)

  /** The paused slot is empty or holds the playing video. */
  ghost predicate Inv(s: PlayerState) {
    s.paused.None? || s.paused == s.playing
  }

  /** The playing video, if any, is a catalogue record. */
  ghost predicate InCatalogue(lib: Library, s: PlayerState) {
    s.playing.Some? ==> s.playing.value in lib.videos
  }

  /**
    Plays the video with the given id. An unknown id changes nothing; a
    known one first stops whatever plays, then plays the record unpaused.
   */
  function Play(lib: Library, s: PlayerState, id: string): (r: Step)
    requires lib.Valid()
    ensures !lib.HasId(id) ==> r == Step(s, VideoDoesNotExist)
    ensures lib.HasId(id) ==>
      && r.state.playing.Some?
      && r.state.playing.value.id == id
      && r.state.playing.value in lib.videos
      && r.state.paused.None?
      && r.outcome == Played(r.state.playing.value, s.playing)
  {
    match lib.GetVideo(id)
    case None => Step(s, VideoDoesNotExist)
    case Some(v) =>
      var stopped := if s.playing.Some? then Some(Stop(s).outcome.video) else None;
      Step(PlayerState(Some(v), None), Played(v, stopped))
  }

  /**
    Stops playback. While stopped it reports an error and changes nothing;
    otherwise both slots end empty.
   */
  function Stop(s: PlayerState): (r: Step)
    ensures r.outcome == NoVideoPlaying <==> s.playing.None?
    ensures s.playing.None? ==> r.state == s
    ensures s.playing.Some? ==> r == Step(Stopped, Stopping(s.playing.value))
    ensures Inv(s) ==> r.state == Stopped
  {
    if s.playing.None? then Step(s, NoVideoPlaying)
    else Step(PlayerState(None, None), Stopping(s.playing.value))
  }

  /**
    Plays the catalogue entry at `k`, the index drawn from `0` to the
    catalogue size minus one inclusive. The draw has no value to give when
    the catalogue is empty, so the range must not be empty.
   */
  function PlayRandom(lib: Library, s: PlayerState, k: int): (r: Step)
    requires lib.Valid()
    requires 0 <= k <= |lib.videos| - 1
    ensures r.state == PlayerState(Some(lib.videos[k]), None)
    ensures r.outcome == Played(lib.videos[k], s.playing)
  {
    GetListedVideo(lib, k);
    Play(lib, s, lib.videos[k].id)
  }

  /**
    Pauses playback. The playing slot never changes; only a playing,
    unpaused video moves into the paused slot.
   */
  function Pause(s: PlayerState): (r: Step)
    ensures r.state.playing == s.playing
    ensures s.playing.None? ==> r == Step(s, NoVideoPlaying)
    ensures s.playing.Some? && s.paused.Some? ==> r == Step(s, AlreadyPaused(s.paused.value))
    ensures s.playing.Some? && s.paused.None? ==>
      r.state.paused == s.playing && r.outcome == Pausing(s.playing.value)
    ensures Inv(s) ==> Inv(r.state)
  {
    if s.playing.None? then Step(s, NoVideoPlaying)
    else if s.paused.Some? then Step(s, AlreadyPaused(s.paused.value))
    else Step(PlayerState(s.playing, s.playing), Pausing(s.playing.value))
  }

  /**
    Resumes playback. The playing slot never changes; only a paused video
    leaves the paused slot, every other state reports an error unchanged.
   */
  function Continue(s: PlayerState): (r: Step)
    ensures r.state.playing == s.playing
    ensures s.playing.None? ==> r == Step(s, NoVideoPlaying)
    ensures s.playing.Some? && s.paused.None? ==> r == Step(s, NotPaused)
    ensures s.playing.Some? && s.paused.Some? ==>
      r.state.paused.None? && r.outcome == Continuing(s.paused.value)
    ensures Inv(s) ==> Inv(r.state)
  {
    if s.playing.None? then Step(s, NoVideoPlaying)
    else if s.paused.Some? then Step(PlayerState(s.playing, None), Continuing(s.paused.value))
    else Step(s, NotPaused)
  }

  /** What the player shows: nothing, or the playing video and whether it is paused. */
  function ShowStatus(s: PlayerState): (r: Status)
    ensures r == NothingPlaying <==> s.playing.None?
    ensures r.NowPlaying? ==> r.video == s.playing.value && (r.isPaused <==> s.paused.Some?)
  {
    if s.playing.None? then NothingPlaying
    else NowPlaying(s.playing.value, s.paused.Some?)
  }

  // ---------------------------------------------------------------------
  // Sequences of operations on one player

  /** One call on the player; a random play carries the index it drew. */
  datatype Command =
    | PlayCmd(id: string)
    | StopCmd
    | PauseCmd
    | ContinueCmd
    | PlayRandomCmd(index: int)

  /** A random play's index must lie in the range the draw takes it from. */
  predicate Admissible(lib: Library, c: Command) {
    c.PlayRandomCmd? ==> 0 <= c.index <= |lib.videos| - 1
  }

  function Apply(lib: Library, s: PlayerState, c: Command): Step
    requires lib.Valid() && Admissible(lib, c)
  {
    match c
    case PlayCmd(id) => Play(lib, s, id)
    case StopCmd => Stop(s)
    case PauseCmd => Pause(s)
    case ContinueCmd => Continue(s)
    case PlayRandomCmd(k) => PlayRandom(lib, s, k)
  }

  /** The slots after performing the commands in order. */
  function Run(lib: Library, s: PlayerState, cmds: seq<Command>): PlayerState
    requires lib.Valid()
    requires forall i | 0 <= i < |cmds| :: Admissible(lib, cmds[i])
    decreases |cmds|
  {
    if cmds == [] then s
    else Run(lib, Apply(lib, s, cmds[0]).state, cmds[1..])
  }

  /** Every operation keeps the paused slot empty or equal to the playing one, and plays only catalogue records. */
  lemma StepKeepsInvariant(lib: Library, s: PlayerState, c: Command)
    requires lib.Valid() && Admissible(lib, c)
    requires Inv(s) && InCatalogue(lib, s)
    ensures Inv(Apply(lib, s, c).state) && InCatalogue(lib, Apply(lib, s, c).state)
  {
  }

  /** The invariant holds after any sequence of operations that starts where it holds. */
  lemma {:induction false} RunKeepsInvariant(lib: Library, s: PlayerState, cmds: seq<Command>)
    requires lib.Valid()
    requires forall i | 0 <= i < |cmds| :: Admissible(lib, cmds[i])
    requires Inv(s) && InCatalogue(lib, s)
    ensures Inv(Run(lib, s, cmds)) && InCatalogue(lib, Run(lib, s, cmds))
    decreases |cmds|
  {
    if cmds != [] {
      StepKeepsInvariant(lib, s, cmds[0]);
      RunKeepsInvariant(lib, Apply(lib, s, cmds[0]).state, cmds[1..]);
    }
  }

  /** Every state a new player can reach satisfies the invariant. */
  lemma ReachableStatesAreConsistent(lib: Library, cmds: seq<Command>)
    requires lib.Valid()
    requires forall i | 0 <= i < |cmds| :: Admissible(lib, cmds[i])
    ensures Inv(Run(lib, Stopped, cmds)) && InCatalogue(lib, Run(lib, Stopped, cmds))
  {
    RunKeepsInvariant(lib, Stopped, cmds);
  }

  /** Playing a known id shows that video as playing and not paused, whatever came before. */
  lemma PlayThenShow(lib: Library, s: PlayerState, id: string)
    requires lib.Valid() && lib.HasId(id)
    ensures var st := ShowStatus(Play(lib, s, id).state);
      st.NowPlaying? && st.video.id == id && !st.isPaused
  {
  }

  /** Stopping from any state shows nothing playing. */
  lemma StopThenShow(s: PlayerState)
    ensures ShowStatus(Stop(s).state) == NothingPlaying
  {
  }

  /** A second pause changes nothing and reports the video as already paused. */
  lemma PauseIdempotent(s: PlayerState)
    requires Inv(s)
    ensures var once := Pause(s);
      && Pause(once.state).state == once.state
      && (s.playing.Some? ==> Pause(once.state).outcome == AlreadyPaused(s.playing.value))
  {
  }

  /** Pausing and then continuing a playing, unpaused video restores the exact state. */
  lemma PauseContinueRoundTrip(s: PlayerState)
    requires s.playing.Some? && s.paused.None?
    ensures Pause(s).outcome == Pausing(s.playing.value)
    ensures Continue(Pause(s).state) == Step(s, Continuing(s.playing.value))
  {
  }

  /**
    The inclusive draw from `0` to size minus one reaches every catalogue
    video and nothing else.
   */
  lemma PlayRandomCoversCatalogue(lib: Library, s: PlayerState)
    requires lib.Valid()
    ensures forall k | 0 <= k <= |lib.videos| - 1 :: PlayRandom(lib, s, k).state.playing.value in lib.videos
    ensures forall v | v in lib.videos ::
      exists k :: 0 <= k <= |lib.videos| - 1 && PlayRandom(lib, s, k).state == PlayerState(Some(v), None)
  {
    forall v | v in lib.videos
      ensures exists k :: 0 <= k <= |lib.videos| - 1 && PlayRandom(lib, s, k).state == PlayerState(Some(v), None)
    {
      var k :| 0 <= k < |lib.videos| && lib.videos[k] == v;
      assert PlayRandom(lib, s, k).state == PlayerState(Some(v), None);
    }
  }
}

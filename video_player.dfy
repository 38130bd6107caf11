/**
  The video player object: its two slots are fields that each operation
  overwrites in place. Every method performs the step its Playback function
  describes and keeps the player's invariant.
 */
module Player {
  import opened Wrappers
  import opened Catalogue
  import opened Playback

  class VideoPlayer {
    const library: Library
    var playing: Option<Video>
    var paused: Option<Video>

    /** The current slots as a value. */
    function State(): PlayerState
      reads this
    {
      PlayerState(playing, paused)
    }

    /** The catalogue is loaded and the slots are consistent with each other and with it. */
    ghost predicate Valid()
      reads this
    {
      library.Valid() && Inv(State()) && InCatalogue(library, State())
    }

    /** A new player over a loaded catalogue, with nothing playing. */
    constructor(library: Library)
      requires library.Valid()
      ensures Valid() && this.library == library && State() == Stopped
    {
      this.library := library;
      playing := None;
      paused := None;
    }

    method PlayVideo(id: string) returns (outcome: Outcome)
      requires Valid()
      modifies this
      ensures Valid()
      ensures Step(State(), outcome) == Play(library, old(State()), id)
    {
      var searched := library.GetVideo(id);
      if searched.None? {
        outcome := VideoDoesNotExist;
      } else {
        var stopped := None;
        if playing.Some? {
          var stopOutcome := StopVideo();
          stopped := Some(stopOutcome.video);
        }
        playing := searched;
        paused := None;
        outcome := Played(searched.value, stopped);
      }
    }

    method StopVideo() returns (outcome: Outcome)
      requires Valid()
      modifies this
      ensures Valid()
      ensures Step(State(), outcome) == Stop(old(State()))
    {
      if playing.None? {
        outcome := NoVideoPlaying;
      } else {
        outcome := Stopping(playing.value);
        playing := None;
        paused := None;
      }
    }

    /** Plays the catalogue entry at `k`, the index the random draw produced. */
    method PlayRandomVideo(k: int) returns (outcome: Outcome)
      requires Valid()
      requires 0 <= k <= |library.videos| - 1
      modifies this
      ensures Valid()
      ensures Step(State(), outcome) == PlayRandom(library, old(State()), k)
    {
      var videos := library.videos;
      outcome := PlayVideo(videos[k].id);
    }

    method PauseVideo() returns (outcome: Outcome)
      requires Valid()
      modifies this
      ensures Valid()
      ensures Step(State(), outcome) == Pause(old(State()))
    {
      if playing.None? {
        outcome := NoVideoPlaying;
      } else if paused.Some? {
        outcome := AlreadyPaused(paused.value);
      } else {
        paused := playing;
        outcome := Pausing(paused.value);
      }
    }

    method ContinueVideo() returns (outcome: Outcome)
      requires Valid()
      modifies this
      ensures Valid()
      ensures Step(State(), outcome) == Continue(old(State()))
    {
      if playing.None? {
        outcome := NoVideoPlaying;
      } else if paused.Some? {
        outcome := Continuing(paused.value);
        paused := None;
      } else {
        outcome := NotPaused;
      }
    }

    /**
      Reports what is playing. The record shown is looked up again in the
      catalogue by the playing video's id, which finds the playing video
      itself.
     */
    method ShowPlaying() returns (status: Status)
      requires Valid()
      ensures status == ShowStatus(State())
    {
      if playing.None? {
        status := NothingPlaying;
      } else {
        GetListedPlaying();
        var video := library.GetVideo(playing.value.id);
        status := NowPlaying(video.value, paused.Some?);
      }
    }

    /** The playing video is found again under its own id. */
    lemma GetListedPlaying()
      requires Valid() && playing.Some?
      ensures library.GetVideo(playing.value.id) == playing
    {
      var i :| 0 <= i < |library.videos| && library.videos[i] == playing.value;
      GetListedVideo(library, i);
    }
  }
}

/**
  A session on a two-video catalogue: play one video, switch to the other,
  pause, resume, stop, and ask for an id the catalogue lacks.
 */
module Walkthrough {
  import opened Wrappers
  import opened Catalogue
  import opened Playback
  import opened Player

  const Amy := Video("v1", "Amy", [])
  const Bob := Video("v2", "Bob", ["funny"])

  function SampleLibrary(): (lib: Library)
    ensures lib.Valid()
  {
    var lib := Library(map["v1" := Amy, "v2" := Bob], [Amy, Bob]);
    assert lib.videos[0].id == "v1" && lib.videos[1].id == "v2";
    lib
  }

  /** The outcomes the session reports, in order, and the player ends stopped. */
  method Session() returns (outcomes: seq<Outcome>, last: Status)
    ensures outcomes == [
      Played(Bob, None),
      Played(Amy, Some(Bob)),
      Pausing(Amy),
      AlreadyPaused(Amy),
      Continuing(Amy),
      NotPaused,
      Stopping(Amy),
      NoVideoPlaying,
      VideoDoesNotExist
    ]
    ensures last == NothingPlaying
  {
    var lib := SampleLibrary();
    assert lib.HasId("v1") by { assert lib.videos[0].id == "v1"; }
    assert lib.HasId("v2") by { assert lib.videos[1].id == "v2"; }
    assert !lib.HasId("nonexistent") by { assert lib.videos == [Amy, Bob]; }
    var player := new VideoPlayer(lib);
    var o1 := player.PlayVideo("v2");
    var o2 := player.PlayVideo("v1");
    var o3 := player.PauseVideo();
    var o4 := player.PauseVideo();
    var o5 := player.ContinueVideo();
    var o6 := player.ContinueVideo();
    var o7 := player.StopVideo();
    var o8 := player.StopVideo();
    var o9 := player.PlayVideo("nonexistent");
    outcomes := [o1, o2, o3, o4, o5, o6, o7, o8, o9];
    last := player.ShowPlaying();
  }
}

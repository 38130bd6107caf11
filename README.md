# Video player playback controller, in Dafny

This project models the playback controller of a small video catalogue player.
`VideoPlayer` keeps two slots: the video that is playing and the video that is
paused. It offers play, stop, play-random, pause, continue and show-playing
over a read-only catalogue of videos. Each operation either makes a guarded
transition or reports a named failure and leaves both slots unchanged.

Layout:

- `wrappers.dfy` (module `Wrappers`): `Option`, which stands for Python's `None` or an object.
- `catalogue.dfy` (module `Catalogue`): `Video` records and the `Library`. The library is a
  dictionary from id to record, plus the list of its values that `get_all_videos`
  returns. `Library.Valid` states what a loaded library looks like, and `GetVideo`
  is `get_video`.
- `playback.dfy` (module `Playback`): the specification. The player keeps two
  object slots rather than an id and a paused flag; they form a `PlayerState`, and
  `Playback.Inv` relates them. There is one `Outcome` constructor per kind of
  message the player prints; the operation tells which message is meant
  (`NoVideoPlaying` stands for the stop, pause and continue errors alike, and
  `Played` for the implicit stop's notice followed by the play notice).
  Each operation is a function from the old slots to the new slots plus the
  outcome. The lemmas cover the slot invariant, idempotence, the pause/continue
  round trip and the random draw.
- `video_player.dfy` (module `Player`): class
  `VideoPlayer` with mutable fields `playing` and `paused`. Its methods overwrite
  these fields in place, and `PlayVideo` calls `StopVideo` for the implicit stop.
  Each method's postcondition says that the new fields and the reported outcome
  are the step its `Playback` function gives. Each method also keeps `Valid()`:
  the catalogue is loaded, the paused slot is empty or holds the playing video,
  and the playing video is a catalogue record.
- `walkthrough.dfy` (module `Walkthrough`): a session on a two-video catalogue,
  with every reported outcome stated.

## Model

| member | source | states |
|---|---|---|
| Catalogue.Library.GetVideo | src/video_player.py:33-36 | the lookup finds a record exactly when some listed video has that id; a found record carries the requested id and is one of the listed videos |
| Catalogue.GetListedVideo | src/video_player.py:60 | looking up a listed video's id gives back that very video |
| Playback.Play | src/video_player.py:27-43 | an unknown id leaves both slots unchanged and reports that the video does not exist; a known id, from any prior state, leaves that catalogue record playing and the paused slot empty, and reports the video stopped on the way (if any) and the video started |
| Playback.Stop | src/video_player.py:46-53 | it reports "no video playing" exactly when the playing slot is empty, and then changes nothing; otherwise both slots end empty and the stopped video is reported; from any consistent state the result is the stopped state |
| Playback.PlayRandom | src/video_player.py:55-60 | for an index in the inclusive range from 0 to size minus one, the catalogue video at that index ends up playing, unpaused, with the previous video reported as stopped |
| Playback.Pause | src/video_player.py:62-70 | the playing slot never changes; while stopped it reports "no video playing" unchanged; while paused it reports "already paused" with that video, unchanged; while playing unpaused the paused slot takes the playing video; the slot invariant is kept |
| Playback.Continue | src/video_player.py:73-82 | the playing slot never changes; while stopped, or playing but not paused, it reports the matching error and changes nothing; while paused it empties the paused slot and reports the resumed video; the slot invariant is kept |
| Playback.ShowStatus | src/video_player.py:84-93 | it shows nothing exactly when no video plays; otherwise it shows the playing video, marked paused exactly when the paused slot is filled |
| Playback.StepKeepsInvariant | src/video_player.py:39-82 | every operation keeps the paused slot empty or equal to the playing slot, and keeps the playing video a catalogue record |
| Playback.RunKeepsInvariant | src/video_player.py:27-82 | the invariant holds after any sequence of play, stop, pause, continue and random-play calls that starts from a state satisfying it |
| Playback.ReachableStatesAreConsistent | src/video_player.py:10-13 | the new player's state satisfies the invariant, so every state reachable from it does too |
| Playback.PlayThenShow | src/video_player.py:39-43 | after playing a known id from any state, the player shows that video as playing and not paused |
| Playback.StopThenShow | src/video_player.py:48-53 | after a stop from any state, the player shows nothing playing |
| Playback.PauseIdempotent | src/video_player.py:64-70 | a second pause leaves the state the first pause produced and, when something plays, reports it as already paused |
| Playback.PauseContinueRoundTrip | src/video_player.py:69-80 | from playing unpaused, pause then continue returns exactly to the starting state and reports the same video resumed |
| Playback.PlayRandomCoversCatalogue | src/video_player.py:57-60 | every index the inclusive draw can produce plays a catalogue video, and every catalogue video is played by some index in that range |
| Player.VideoPlayer.constructor | src/video_player.py:10-13 | a new player holds the given loaded catalogue with both slots empty |
| Player.VideoPlayer.PlayVideo | src/video_player.py:27-43 | the fields and the outcome are those `Playback.Play` gives for the old fields; the invariant is kept |
| Player.VideoPlayer.StopVideo | src/video_player.py:46-53 | the fields and the outcome are those `Playback.Stop` gives for the old fields; the invariant is kept |
| Player.VideoPlayer.PlayRandomVideo | src/video_player.py:55-60 | for an index in the draw's range, the fields and outcome are those `Playback.PlayRandom` gives; the invariant is kept |
| Player.VideoPlayer.PauseVideo | src/video_player.py:62-70 | the fields and the outcome are those `Playback.Pause` gives for the old fields; the invariant is kept |
| Player.VideoPlayer.ContinueVideo | src/video_player.py:73-82 | the fields and the outcome are those `Playback.Continue` gives for the old fields; the invariant is kept |
| Player.VideoPlayer.ShowPlaying | src/video_player.py:84-93 | the status shown, with the video looked up again by id, is `Playback.ShowStatus` of the current fields |
| Player.VideoPlayer.GetListedPlaying | src/video_player.py:91 | looking up the playing video's id in the catalogue gives back the playing video |
| Walkthrough.Session | src/video_player.py:27-93 | on that catalogue, the session reports these outcomes in order: play v2, play v1 (stopping v2), pause, pause again (already paused), continue, continue again (not paused), stop, stop again (nothing playing), an unknown id (does not exist); it ends with nothing playing |

## Left out

- Console output: the model returns an `Outcome` or `Status` naming the message a branch prints. It does not model the message text or the tag joining in `show_playing`.
- `number_of_videos` and `show_all_videos` only print. This includes the sort by title, which is used only for display.
- Loading the catalogue: `video_library.py` is not part of this model. The `VideoPlayer` constructor takes an already-loaded `Library` instead of building one, and `Library.Valid` states what the model assumes of it.
- `Player.VideoPlayer.PlayRandomVideo`: `randint` is not modelled. The drawn index is a parameter, and the inclusive range `0 <= k <= len - 1` is a precondition. An empty catalogue, which makes `randint(0, -1)` raise, is excluded by that precondition rather than modelled as an error outcome. Uniformity of the draw is not stated.
- Playlist, search and flag operations: they are stubs that only print "needs implementation".
- The unused `os.stat` import.

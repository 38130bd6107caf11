/**
  The read-only video catalogue the player looks videos up in. The library
  keeps its videos in a dictionary keyed by id and hands out the list of its
  values; it is loaded once and never changed afterwards.
 */
module Catalogue {
  import opened Wrappers

  /** One catalogue record: its id, title and tags. */
  datatype Video = Video(id: string, title: string, tags: seq<string>)

  /**
    The catalogue: `index` is the dictionary from id to record, `videos` the
    list of its values in the order the library hands them out.
   */
  datatype Library = Library(index: map<string, Video>, videos: seq<Video>) {

    /** True when some listed video has the given id. */
    ghost predicate HasId(id: string) {
      exists i :: 0 <= i < |videos| && videos[i].id == id
    }

    /**
      A loaded catalogue: each record is filed under its own id, the listing
      holds exactly the filed records, and no id is listed twice.
     */
    ghost predicate Valid() {
      && (forall id | id in index :: index[id].id == id)
      && (forall i | 0 <= i < |videos| :: videos[i].id in index && index[videos[i].id] == videos[i])
      && (forall id | id in index :: HasId(id))
      && (forall i, j | 0 <= i < j < |videos| :: videos[i].id != videos[j].id)
    }

    /** Looks a video up by id; `None` when the catalogue has no such id. */
    function GetVideo(id: string): (r: Option<Video>)
      requires Valid()
      ensures r.Some? <==> HasId(id)
      ensures r.Some? ==> r.value.id == id && r.value in videos
    {
      if id in index then
        assert HasId(id);
        var i :| 0 <= i < |videos| && videos[i].id == id;
        assert index[id] == videos[i];
        Some(index[id])
      else
        None
    }
  }

  /** Every listed video is found again under its own id. */
  lemma GetListedVideo(lib: Library, i: int)
    requires lib.Valid() && 0 <= i < |lib.videos|
    ensures lib.GetVideo(lib.videos[i].id) == Some(lib.videos[i])
  {
  }
}

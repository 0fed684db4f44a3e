/** `RecordingSink`: the per-speaker audio table the voice client writes into
    while `/record` listens, and `save_to_wav`, which turns it into one audio
    file per speaker. */
module Sink {
  import opened Naming
  import opened Arrivals

  /** One file `save_to_wav` produces: the speaker's name, the path, and the
      audio written to that path. */
  datatype SavedFile = SavedFile(name: string, filename: string, audio: Bytes)

  /** What one iteration of `save_to_wav` makes of one table entry. */
  function SavedEntry(info: Entry, uid: UserId, t: ClockTime): (f: SavedFile)
    ensures f.name == info.name && f.audio == Join(info.frames)
  {
    SavedFile(info.name, Filename(info.name, uid, t), Join(info.frames))
  }

  /** The sink. Python's dict keeps its keys in insertion order, and
      `save_to_wav` walks them in that order, so the dict is modelled as the
      map `audioData` together with `speakers`, its keys in insertion order.
      `arrivals` is the ghost log of every `write` so far. */
  class RecordingSink {
    var audioData: map<UserId, Entry>
    var speakers: seq<UserId>
    ghost var arrivals: seq<Arrival>

    /** The table is exactly the one the log determines, and the keys are in
        the order their speakers first spoke. */
    ghost predicate Valid()
      reads this
    {
      audioData == Table(arrivals) && speakers == SpeakerOrder(arrivals)
    }

    constructor ()
      ensures Valid()
      ensures arrivals == [] && audioData == map[] && speakers == []
    {
      audioData := map[];
      speakers := [];
      arrivals := [];
    }

    /** `write(user, data)`: create the speaker's entry on the first fragment,
        then append the fragment to it. */
    method Write(user: Member, data: Bytes)
      requires Valid()
      modifies this
      ensures Valid()
      ensures arrivals == old(arrivals) + [Arrival(user, data)]
      ensures audioData.Keys == old(audioData).Keys + {user.id}
      ensures user.id !in old(audioData) ==>
        audioData[user.id] == Entry(user.displayName, [data]) && speakers == old(speakers) + [user.id]
      ensures user.id in old(audioData) ==>
        && audioData[user.id].name == old(audioData)[user.id].name
        && audioData[user.id].frames == old(audioData)[user.id].frames + [data]
        && speakers == old(speakers)
      ensures forall u :: u in old(audioData) && u != user.id ==> audioData[u] == old(audioData)[u]
    {
      ghost var before := arrivals;
      TableStep(before, Arrival(user, data));
      SpeakerOrderStep(before, Arrival(user, data));
      assert user.id in audioData <==> user.id in speakers by {
        TableMeaning(before);
        SpeakerOrderMeaning(before);
      }
      if user.id !in audioData {
        audioData := audioData[user.id := Entry(user.displayName, [])];
        speakers := speakers + [user.id];
      }
      var info := audioData[user.id];
      audioData := audioData[user.id := info.(frames := info.frames + [data])];
      arrivals := arrivals + [Arrival(user, data)];
      assert audioData == Table(arrivals);
    }

    /** `save_to_wav`: one file per table entry, in insertion order, holding
        the entry's frames joined, under the entry's name, named with the time
        `clock(i)` the clock shows when the `i`-th file is made. What that
        means for the writes received so far is `SaveMeaning`. */
    method SaveToWav(clock: nat -> ClockTime) returns (files: seq<SavedFile>)
      requires Valid()
      ensures |files| == |speakers|
      ensures forall i :: 0 <= i < |files| ==>
        speakers[i] in audioData && files[i] == SavedEntry(audioData[speakers[i]], speakers[i], clock(i))
      ensures |files| == |Speakers(arrivals)|
      ensures forall i :: 0 <= i < |files| ==>
        && speakers[i] in Speakers(arrivals)
        && files[i].name == FirstName(arrivals, speakers[i])
        && files[i].filename == Filename(files[i].name, speakers[i], clock(i))
        && files[i].audio == Join(FramesOf(arrivals, speakers[i]))
      ensures forall i, j :: 0 <= i < j < |files| ==> files[i].filename != files[j].filename
    {
      assert forall u :: u in speakers ==> u in audioData by {
        TableMeaning(arrivals);
        SpeakerOrderMeaning(arrivals);
      }
      files := [];
      for i := 0 to |speakers|
        invariant |files| == i
        invariant forall k :: 0 <= k < i ==> files[k] == SavedEntry(audioData[speakers[k]], speakers[k], clock(k))
      {
        var uid := speakers[i];
        var info := audioData[uid];
        var frames := Join(info.frames);
        var filename := Filename(info.name, uid, clock(i));
        var saved := SavedFile(info.name, filename, frames);
        assert saved == SavedEntry(info, uid, clock(i));
        files := files + [saved];
      }
      assert audioData == Table(arrivals) && speakers == SpeakerOrder(arrivals);
      SaveMeaning(arrivals, clock, files);
    }
  }

  /** Saving the table that a log of writes leaves gives one file per distinct
      speaker and no more, in order of first speech; each carries the display
      name of that speaker's first fragment and exactly that speaker's
      fragments joined in arrival order; and no two files share a path. */
  lemma SaveMeaning(a: seq<Arrival>, clock: nat -> ClockTime, files: seq<SavedFile>)
    requires |files| == |SpeakerOrder(a)|
    requires forall i :: 0 <= i < |files| ==>
      SpeakerOrder(a)[i] in Table(a) &&
      files[i] == SavedEntry(Table(a)[SpeakerOrder(a)[i]], SpeakerOrder(a)[i], clock(i))
    ensures |files| == |Speakers(a)|
    ensures forall i :: 0 <= i < |files| ==>
      var u := SpeakerOrder(a)[i];
      && u in Speakers(a)
      && files[i].name == FirstName(a, u)
      && files[i].filename == Filename(files[i].name, u, clock(i))
      && files[i].audio == Join(FramesOf(a, u))
    ensures forall i, j :: 0 <= i < j < |files| ==> files[i].filename != files[j].filename
  {
    var order := SpeakerOrder(a);
    TableMeaning(a);
    SpeakerOrderMeaning(a);
    DistinctCount(order, Speakers(a));
    forall i, j | 0 <= i < j < |files| ensures files[i].filename != files[j].filename {
      FilenamesDistinct(files[i].name, order[i], clock(i), files[j].name, order[j], clock(j));
    }
  }

  /** A sequence without repeats has as many elements as the set it lists. */
  lemma {:induction false} DistinctCount(s: seq<UserId>, e: set<UserId>)
    requires forall i, j :: 0 <= i < j < |s| ==> s[i] != s[j]
    requires forall u :: u in s <==> u in e
    ensures |s| == |e|
  {
    if s != [] {
      var p := s[..|s| - 1];
      var last := s[|s| - 1];
      assert last !in p;
      forall u ensures u in p <==> u in e - {last} {
        if u in p {
          var i :| 0 <= i < |p| && p[i] == u;
          assert s[i] == u;
        }
        if u in s && u != last {
          var i :| 0 <= i < |s| && s[i] == u;
          assert p[i] == u;
        }
      }
      DistinctCount(p, e - {last});
    }
  }

  /** The sink's life during `/record`: a fresh sink receives every fragment
      the voice client delivers, in order, and is then saved. The result is
      one file per distinct speaker, in order of first speech, each carrying
      that speaker's first display name and exactly that speaker's fragments
      in arrival order, and no two files share a path; when nobody spoke
      there are no files. */
  method Record(deliveries: seq<Arrival>, clock: nat -> ClockTime) returns (files: seq<SavedFile>)
    ensures |files| == |SpeakerOrder(deliveries)| == |Speakers(deliveries)|
    ensures deliveries == [] ==> files == []
    ensures forall i :: 0 <= i < |files| ==>
      var u := SpeakerOrder(deliveries)[i];
      && u in Speakers(deliveries)
      && files[i].name == FirstName(deliveries, u)
      && files[i].filename == Filename(files[i].name, u, clock(i))
      && files[i].audio == Join(FramesOf(deliveries, u))
    ensures forall i, j :: 0 <= i < j < |files| ==> files[i].filename != files[j].filename
  {
    var sink := new RecordingSink();
    for i := 0 to |deliveries|
      invariant sink.Valid() && sink.arrivals == deliveries[..i]
    {
      sink.Write(deliveries[i].user, deliveries[i].data);
      assert deliveries[..i + 1] == deliveries[..i] + [deliveries[i]];
    }
    assert deliveries[..|deliveries|] == deliveries;
    files := sink.SaveToWav(clock);
  }
}

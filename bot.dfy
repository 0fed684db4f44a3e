/** The `/record` command once the voice client is connected: a fresh sink
    listens, is saved, and the saved files are transcribed and answered. */
module Bot {
  import opened Naming
  import opened Arrivals
  import opened Sink
  import opened Transcript

  /** What `save_to_wav` returns: each file's speaker name and path. */
  function Listing(files: seq<SavedFile>): (pairs: seq<(string, string)>)
    ensures |pairs| == |files|
    ensures forall i :: 0 <= i < |files| ==> pairs[i] == (files[i].name, files[i].filename)
  {
    if files == [] then [] else Listing(files[..|files| - 1]) + [(files[|files| - 1].name, files[|files| - 1].filename)]
  }

  /** Records the fragments the voice client delivers, saves one file per
      speaker and answers with the transcript. The "nobody said anything"
      reply comes exactly when no fragment at all arrived: a speaker who was
      heard but whose words were not recognised still gets a `name: ` line. */
  method RecordCommand(deliveries: seq<Arrival>, clock: nat -> ClockTime, transcribe: string -> string)
    returns (files: seq<SavedFile>, fullText: string, reply: Reply)
    ensures |files| == |SpeakerOrder(deliveries)| == |Speakers(deliveries)|
    ensures forall i :: 0 <= i < |files| ==>
      var u := SpeakerOrder(deliveries)[i];
      && u in Speakers(deliveries)
      && files[i].name == FirstName(deliveries, u)
      && files[i].filename == Filename(files[i].name, u, clock(i))
      && files[i].audio == Join(FramesOf(deliveries, u))
    ensures fullText == FullText(Recognised(Listing(files), transcribe))
    ensures reply == NothingSaid <==> deliveries == []
    ensures reply.Shown? ==>
      && |reply.excerpt| == (if |fullText| <= ShownLimit then |fullText| else ShownLimit)
      && reply.excerpt == fullText[..|reply.excerpt|]
  {
    files := Record(deliveries, clock);
    if deliveries != [] {
      assert deliveries[|deliveries| - 1].user.id in Speakers(deliveries);
    }
    fullText, reply := ProcessAudio(Listing(files), transcribe);
  }
}

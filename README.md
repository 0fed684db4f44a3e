# voice-bot: the recording sink and the transcript, in Dafny

The Discord bot records a voice channel for `/record`. A `RecordingSink`
collects the PCM fragments the voice client delivers and keys them by
speaker. `save_to_wav` then writes one WAV file per speaker, named
`recordings/<name>_<uid>_<HHMMSS>.wav`. `process_audio_and_respond`
transcribes each file and builds a transcript of one line per file,
`name: text`. It answers "nobody said anything" when the transcript is
blank, and otherwise shows its first 1900 characters.

This project models that core:

- `naming.dfy` (module `Naming`): the file name. It covers `str(uid)` and
  `strftime('%H%M%S')`, with their inverses, the shape of the path, and the
  fact that different speakers never share a path.
- `arrivals.dfy` (module `Arrivals`): the log of `write` calls. It gives
  the reference meaning of that log: who spoke, in which order each first
  spoke, under which name, and with which fragments. It also models
  `b"".join`.
- `sink.dfy` (module `Sink`): the `RecordingSink` class.
  - Python's dict is modelled as a map, `audioData`, beside its keys in
    insertion order, `speakers`. A ghost log `arrivals` holds every write
    so far.
  - `Valid()` says that the table and the key order are the ones the log
    determines. `Write` keeps `Valid()`.
  - `SaveToWav` walks the keys in insertion order.
- `transcript.dfy` (module `Transcript`): the text side.
  - Python's `str.strip` over the exact set of characters `str.isspace`
    accepts.
  - The transcript lines, the blank-transcript branch and the 1900-character
    excerpt.
- `bot.dfy` (module `Bot`): the `/record` command from a fresh sink to the
  reply.

The two ends are tied together in one proved consequence. The "nobody said
anything" reply is given exactly when no fragment arrived at all. Every
saved file contributes a line containing `": "`, so a speaker who was
heard but whose words were not recognised still makes the transcript
non-blank: `main.py` writes the `name: ` line regardless.

## Model

| member | source | states |
|---|---|---|
| Sink.RecordingSink.constructor | main.py:32-33 | a fresh sink has an empty table and no keys, and is the sink of the empty log |
| Sink.RecordingSink.Write | main.py:35-38 | a new speaker gets an entry with their display name and `[data]`, and their id is appended to the key order; a known speaker keeps the stored name and gets `data` appended to their frames; no other entry changes; no key is removed; the table stays the one the log of writes determines |
| Sink.RecordingSink.SaveToWav | main.py:40-52 | one file per table entry, in insertion order, each with the entry's name, its frames joined, and the path built from name, id and the clock reading of that iteration; in terms of the writes received, one file per distinct speaker, in order of first speech, with the first display name and exactly that speaker's fragments; no two files share a path |
| Sink.SaveMeaning | main.py:43-52 | saving the table a log of writes leaves gives as many files as distinct speakers, each with that speaker's first name, path and joined fragments, with all paths distinct |
| Sink.DistinctCount | main.py:43 | a key order without repeats that lists exactly the table's keys has as many entries as there are keys |
| Sink.Record | main.py:96-101 | a fresh sink fed any sequence of fragments and then saved yields one file per distinct speaker, in order of first speech, each with the first display name and that speaker's fragments joined in arrival order, and no two files share a path; an empty recording yields no files |
| Arrivals.SpeakersMeaning | main.py:36-37 | an id is among the speakers exactly when some fragment came from it |
| Arrivals.FirstIndex | main.py:36-37 | the position of a speaker's first fragment: a fragment from that speaker, with none from them before it |
| Arrivals.Table | main.py:35-38 | the definition of the dict after a log of writes, one write at a time: the sender's entry is created with its display name and no frames when missing, then the fragment is appended; what it holds is proved by TableMeaning |
| Arrivals.TableMeaning | main.py:35-38 | after any writes the keys are exactly the distinct speaker ids, each entry holds the display name of that speaker's first fragment, and its frames are exactly that speaker's fragments in arrival order |
| Arrivals.FramesOfSilent | main.py:36-38 | a speaker with no fragment has no frames |
| Arrivals.SpeakerOrder | main.py:36-43 | the definition of the dict's key order: a new sender's id goes at the end, a known one changes nothing; proved to list every speaker once (SpeakerOrderMeaning) in order of first speech (SpeakerOrderByFirstFragment) |
| Arrivals.SpeakerOrderMeaning | main.py:36-37 | the dict's key order lists every speaker exactly once and nobody else |
| Arrivals.SpeakerOrderByFirstFragment | main.py:36-43 | the dict iterates its keys in the order their speakers first spoke: first positions strictly increase along the key order |
| Arrivals.Join | main.py:44 | the definition of `b"".join`: the fragments laid end to end; its byte layout is proved by JoinLayout |
| Arrivals.JoinConcat | main.py:44 | joining two runs of fragments is joining each and concatenating the results |
| Arrivals.JoinLayout | main.py:44 | the joined payload is as long as all fragments together, and byte `k` of fragment `i` sits at that fragment's offset plus `k` |
| Arrivals.JoinLength | main.py:44 | the joined payload's length is the total length of the fragments |
| Naming.DigitChar | main.py:45 | a digit below ten prints as the decimal digit character of that value |
| Naming.DigitValue | main.py:45 | reading a digit character back gives the digit that prints as it |
| Naming.Decimal | main.py:45 | `str(uid)` is a non-empty string of decimal digits with no leading zero |
| Naming.DecimalRoundTrip | main.py:45 | reading `str(uid)` back as a decimal number gives `uid` |
| Naming.DecimalInjective | main.py:45 | different ids print differently |
| Naming.TwoDigits | main.py:45 | a value below 100 prints as exactly two decimal digits |
| Naming.TwoDigitsValue | main.py:45 | two zero-padded digits read back as the value they print |
| Naming.Hhmmss | main.py:45 | `strftime('%H%M%S')` is six decimal digits |
| Naming.TimeRoundTrip | main.py:45 | the time stamp reads back to the clock time it was made from |
| Naming.Filename | main.py:45 | the definition of the f-string path `recordings/{name}_{uid}_{HHMMSS}.wav`; its shape is proved by FilenameShape and its uniqueness per speaker by FilenamesDistinct |
| Naming.FilenameShape | main.py:45 | the path starts with `recordings/`, continues with `name_uid_`, ends with `.wav`, and its six characters before `.wav` read back to the clock time |
| Naming.FilenamesDistinct | main.py:45 | two different speaker ids never give the same path, whatever the names and times |
| Naming.SeparatorVersusDigit | main.py:45 | where one id is shorter than the other, the two paths differ at the `_` before the shorter id |
| Transcript.LeadingSpacesMeaning | main.py:61 | the leading whitespace run is all whitespace and is followed by a non-whitespace character or the end |
| Transcript.TrailingSpacesMeaning | main.py:61 | the trailing whitespace run is all whitespace and is preceded by a non-whitespace character or the start |
| Transcript.Strip | main.py:61 | the definition of `str.strip()`: the leading whitespace run is cut, then the trailing one; its meaning is proved by StripMeaning |
| Transcript.StripMeaning | main.py:61 | `strip()` leaves a contiguous slice of the text with only whitespace before and after it; the slice is empty exactly when the text is all whitespace, and otherwise neither starts nor ends with whitespace |
| Transcript.StripCore | main.py:61 | stripping a text wrapped in any whitespace gives back exactly that text when its ends are not whitespace |
| Transcript.StripIdempotent | main.py:61 | stripping twice is stripping once |
| Transcript.Line | main.py:62 | the definition of the line `f"{username}: {text}\n"` for one file |
| Transcript.FullText | main.py:58-62 | the definition of the transcript: the lines of the files, in the order of the files; its structure is proved by FullTextConcat, FullTextLines and FullTextBlank |
| Transcript.FullTextConcat | main.py:58-62 | the transcript of two runs of files is the first transcript followed by the second |
| Transcript.FullTextLines | main.py:58-62 | the `i`-th file's line `name: stripped text` stands between the lines of the files before it and those after it |
| Transcript.FullTextBlank | main.py:65-67 | the transcript is all whitespace exactly when there are no files |
| Transcript.Recognised | main.py:58-61 | the definition of what recognition yields per file: the file's speaker name beside the stripped text `transcribe` gives for the file, in the order of the files |
| Transcript.Excerpt | main.py:69 | `full_text[:1900]` is a prefix of the transcript, as long as the transcript or 1900 characters, whichever is less |
| Transcript.ProcessAudio | main.py:55-69 | the loop builds exactly the in-order concatenation of `name: strip(text)` lines; the "nobody said anything" reply comes exactly when the file list is empty; otherwise the reply shows the transcript's first 1900 characters |
| Bot.Listing | main.py:51-52 | `save_to_wav` returns each file's `(name, filename)` pair, one per saved file, in order |
| Bot.RecordCommand | main.py:96-102 | recording then responding gives one file per distinct speaker, with its first name, its path and its fragments; the transcript of those files; and the "nobody said anything" reply exactly when no fragment arrived |

## Left out

- The Discord plumbing is not modelled: intents, the bot, slash-command registration, `/join`, `/leave`, `on_ready`, the voice-client checks of `/record` (main.py:91-94) and `bot.run`. It is I/O against a service.
- `vc.listen`, `asyncio.sleep(duration)` and `vc.stop_listening` are not modelled. The delivery of fragments during the recording is the input sequence `deliveries`, and concurrency with the voice thread is not modelled.
- Whisper and the T5 summarizer are not modelled. Recognition is the parameter `transcribe`, from filename to text. The summary and its `try/except` (main.py:71-76) are calls into a language model and are not modelled.
- `os.makedirs`, the WAV header (2 channels, 16-bit samples, 48000 Hz) and `os.remove` are not modelled. They are file I/O. The model records the bytes each file would hold as `SavedFile.audio`.
- `datetime.now()` is the parameter `clock`. It gives the time read when the `i`-th file is named, so successive reads may differ, as they may in the source.
- The follow-up messages are not modelled: the per-file "recognising" notes, the empty-transcript notice, the transcript block and the summary. The model keeps only which reply is chosen and the excerpt it shows.
- `Sink.RecordingSink.Write`: Python appends to the entry's frame list in place. The model replaces the entry's value, so aliasing of that list is not modelled.
- Speaker ids are unbounded naturals, and display names are any string. The path is modelled only as text. A display name containing `/` can make `wave.open` fail, or, as with `../x`, put the file outside `recordings/`, where `os.remove` later deletes it. So `Naming.FilenameShape`'s "starts with `recordings/`" is a fact about the text of the path, not about where the file lands.
- main.py:61-62 writes `name: ` even when the stripped text is empty, and so does the model.

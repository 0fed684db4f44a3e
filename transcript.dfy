/** The text half of `process_audio_and_respond`: every speaker's recognised
    text is stripped and put on a line of its own, `name: text`, in the order
    of the files; a transcript with nothing but whitespace is answered with the
    "nobody said anything" message, any other is shown cut to 1900 characters. */
module Transcript {

  /** The characters Python's `str.isspace` accepts: tab to carriage return,
      the separators 0x1C-0x1F, space, NEL, no-break space and the Unicode
      space, line and paragraph separators. */
  const Whitespace: set<char> := {
    '\U{0009}', '\U{000A}', '\U{000B}', '\U{000C}', '\U{000D}', '\U{001C}', '\U{001D}', '\U{001E}',
    '\U{001F}', '\U{0020}', '\U{0085}', '\U{00A0}', '\U{1680}', '\U{2000}', '\U{2001}', '\U{2002}',
    '\U{2003}', '\U{2004}', '\U{2005}', '\U{2006}', '\U{2007}', '\U{2008}', '\U{2009}', '\U{200A}',
    '\U{2028}', '\U{2029}', '\U{202F}', '\U{205F}', '\U{3000}'
  }

  predicate IsSpace(c: char)
  {
    c in Whitespace
  }

  predicate IsBlank(s: string)
  {
    forall i :: 0 <= i < |s| ==> IsSpace(s[i])
  }

  /** How many whitespace characters `s` starts with. */
  function LeadingSpaces(s: string): (k: nat)
    ensures k <= |s|
  {
    if s != [] && IsSpace(s[0]) then 1 + LeadingSpaces(s[1..]) else 0
  }

  /** How many whitespace characters `s` ends with. */
  function TrailingSpaces(s: string): (k: nat)
    ensures k <= |s|
  {
    if s != [] && IsSpace(s[|s| - 1]) then 1 + TrailingSpaces(s[..|s| - 1]) else 0
  }

  /** The leading run is all whitespace and is followed by a character that
      is not. */
  lemma {:induction false} LeadingSpacesMeaning(s: string)
    ensures var k := LeadingSpaces(s);
      IsBlank(s[..k]) && (k < |s| ==> !IsSpace(s[k]))
  {
    if s != [] && IsSpace(s[0]) {
      LeadingSpacesMeaning(s[1..]);
      var k := LeadingSpaces(s);
      assert forall i :: 1 <= i < k ==> s[i] == s[1..][i - 1];
      if k < |s| {
        assert s[k] == s[1..][k - 1];
      }
    }
  }

  /** The trailing run is all whitespace and is preceded by a character that
      is not. */
  lemma {:induction false} TrailingSpacesMeaning(s: string)
    ensures var k := TrailingSpaces(s);
      IsBlank(s[|s| - k..]) && (k < |s| ==> !IsSpace(s[|s| - k - 1]))
  {
    if s != [] && IsSpace(s[|s| - 1]) {
      var p := s[..|s| - 1];
      TrailingSpacesMeaning(p);
      var k := TrailingSpaces(s);
      assert forall i :: |s| - k <= i < |s| - 1 ==> s[i] == p[i];
    }
  }

  /** `str.strip()`: leading whitespace cut, then trailing whitespace cut. */
  function Strip(s: string): string
  {
    var i := LeadingSpaces(s);
    s[i..|s| - TrailingSpaces(s[i..])]
  }

  /** What `Strip` leaves is the slice of `s` after its leading whitespace,
      with nothing but whitespace after it; it is empty exactly when `s` is
      all whitespace, and otherwise neither starts nor ends with whitespace. */
  lemma {:induction false} StripMeaning(s: string)
    ensures var r, i := Strip(s), LeadingSpaces(s);
      && i + |r| <= |s| && r == s[i..i + |r|]
      && IsBlank(s[..i]) && IsBlank(s[i + |r|..])
      && (r == [] <==> IsBlank(s))
      && (r != [] ==> !IsSpace(r[0]) && !IsSpace(r[|r| - 1]))
  {
    StripSlice(s);
    StripEmpty(s);
    StripEnds(s);
  }

  lemma {:induction false} StripSlice(s: string)
    ensures var r, i := Strip(s), LeadingSpaces(s);
      && i + |r| <= |s| && r == s[i..i + |r|]
      && IsBlank(s[..i]) && IsBlank(s[i + |r|..])
  {
    var i := LeadingSpaces(s);
    var t := s[i..];
    var n := TrailingSpaces(t);
    assert IsBlank(s[..i]) by {
      LeadingSpacesMeaning(s);
    }
    assert IsBlank(s[|s| - n..]) by {
      TrailingSpacesMeaning(t);
      assert s[|s| - n..] == t[|t| - n..];
    }
  }

  lemma {:induction false} StripEmpty(s: string)
    ensures Strip(s) == [] <==> IsBlank(s)
  {
    var i := LeadingSpaces(s);
    var t := s[i..];
    var n := TrailingSpaces(t);
    LeadingSpacesMeaning(s);
    TrailingSpacesMeaning(t);
    assert s[..i] + t == s;
    BlankConcat(s[..i], t);
    if n == |t| {
      assert t[|t| - n..] == t;
    }
    if i < |s| {
      assert t[0] == s[i];
    }
  }

  lemma {:induction false} StripEnds(s: string)
    ensures var r := Strip(s);
      r != [] ==> !IsSpace(r[0]) && !IsSpace(r[|r| - 1])
  {
    var i := LeadingSpaces(s);
    var t := s[i..];
    var n := TrailingSpaces(t);
    var r := Strip(s);
    LeadingSpacesMeaning(s);
    TrailingSpacesMeaning(t);
    assert r == t[..|t| - n];
    if r != [] {
      assert r[0] == s[i];
      assert r[|r| - 1] == t[|t| - n - 1];
    }
  }

  /** Two texts together are all whitespace exactly when each of them is. */
  lemma BlankConcat(x: string, y: string)
    ensures IsBlank(x + y) <==> IsBlank(x) && IsBlank(y)
  {
    if IsBlank(x) && IsBlank(y) {
      forall j | 0 <= j < |x + y| ensures IsSpace((x + y)[j]) {
        if j < |x| {
          assert (x + y)[j] == x[j];
        } else {
          assert (x + y)[j] == y[j - |x|];
        }
      }
    }
    if IsBlank(x + y) {
      forall j | 0 <= j < |x| ensures IsSpace(x[j]) {
        assert (x + y)[j] == x[j];
      }
      forall j | 0 <= j < |y| ensures IsSpace(y[j]) {
        assert (x + y)[|x| + j] == y[j];
      }
    }
  }

  /** Whatever whitespace surrounds a text with non-whitespace ends, `Strip`
      gives back exactly that text. */
  lemma {:induction false} StripCore(lead: string, core: string, trail: string)
    requires IsBlank(lead) && IsBlank(trail)
    requires core != [] ==> !IsSpace(core[0]) && !IsSpace(core[|core| - 1])
    ensures Strip(lead + core + trail) == core
  {
    var s := lead + core + trail;
    var i := LeadingSpaces(s);
    LeadingSpacesMeaning(s);
    assert forall j :: 0 <= j < |lead| ==> s[j] == lead[j];
    if core == [] {
      assert forall j :: |lead| <= j < |s| ==> s[j] == trail[j - |lead|];
    } else {
      assert s[|lead|] == core[0];
      assert i == |lead|;
      var t := s[i..];
      assert t == core + trail;
      assert forall j :: |core| <= j < |t| ==> t[j] == trail[j - |core|];
      assert t[|core| - 1] == core[|core| - 1];
      TrailingSpacesMeaning(t);
      assert TrailingSpaces(t) == |trail|;
    }
  }

  /** Stripping twice is stripping once. */
  lemma {:induction false} StripIdempotent(s: string)
    ensures Strip(Strip(s)) == Strip(s)
  {
    var r := Strip(s);
    StripMeaning(s);
    assert [] + r + [] == r;
    StripCore([], r, []);
  }

  /** One speaker's name and the stripped text recognised from that
      speaker's file. */
  datatype Heard = Heard(username: string, text: string)

  /** `f"{username}: {text}\n"`. */
  function Line(h: Heard): string
  {
    h.username + ": " + h.text + "\n"
  }

  /** The transcript: one line per file, in the order of the files. */
  function FullText(heard: seq<Heard>): string
  {
    if heard == [] then "" else FullText(heard[..|heard| - 1]) + Line(heard[|heard| - 1])
  }

  /** The transcript of two runs of files is the one after the other. */
  lemma {:induction false} FullTextConcat(a: seq<Heard>, b: seq<Heard>)
    ensures FullText(a + b) == FullText(a) + FullText(b)
    decreases |b|
  {
    if b == [] {
      assert a + b == a;
    } else {
      var b', last := b[..|b| - 1], Line(b[|b| - 1]);
      assert (a + b)[..|a + b| - 1] == a + b';
      FullTextConcat(a, b');
      calc {
        FullText(a + b);
        FullText(a + b') + last;
        FullText(a) + FullText(b') + last;
        FullText(a) + (FullText(b') + last);
        FullText(a) + FullText(b);
      }
    }
  }

  /** The `i`-th speaker's line stands between the lines of those before and
      those after. */
  lemma {:induction false} FullTextLines(heard: seq<Heard>, i: nat)
    requires i < |heard|
    ensures FullText(heard) == FullText(heard[..i]) + Line(heard[i]) + FullText(heard[i + 1..])
  {
    assert heard[..i + 1] + heard[i + 1..] == heard;
    FullTextConcat(heard[..i + 1], heard[i + 1..]);
    FullTextPrefix(heard, i);
  }

  lemma {:induction false} FullTextPrefix(heard: seq<Heard>, i: nat)
    requires i < |heard|
    ensures FullText(heard[..i + 1]) == FullText(heard[..i]) + Line(heard[i])
  {
    assert heard[..i + 1][..i] == heard[..i];
  }

  /** Every line has a colon in it, so the transcript is blank exactly when
      there were no files: the "nobody said anything" branch is never taken
      for a recording in which someone was heard, however silent. */
  lemma {:induction false} FullTextBlank(heard: seq<Heard>)
    ensures IsBlank(FullText(heard)) <==> heard == []
  {
    if heard != [] {
      var p, h := FullText(heard[..|heard| - 1]), heard[|heard| - 1];
      assert FullText(heard) == p + Line(h);
      assert FullText(heard)[|p| + |h.username|] == ':';
    }
  }

  /** At most this many characters of the transcript are shown. */
  const ShownLimit := 1900

  /** `full_text[:1900]`: the first 1900 characters, or all of them if there
      are fewer. */
  function Excerpt(s: string): (r: string)
    ensures |r| == if |s| <= ShownLimit then |s| else ShownLimit
    ensures r == s[..|r|]
  {
    if |s| <= ShownLimit then s else s[..ShownLimit]
  }

  /** The answer posted once recognition is over. */
  datatype Reply = NothingSaid | Shown(excerpt: string)

  /** What recognition hears in each saved file, in the order of the files:
      the speaker's name beside the text `transcribe` gives for the file,
      stripped. */
  function Recognised(files: seq<(string, string)>, transcribe: string -> string): seq<Heard>
  {
    seq(|files|, i requires 0 <= i < |files| => Heard(files[i].0, Strip(transcribe(files[i].1))))
  }

  /** `process_audio_and_respond`: transcribes the files one by one, adding a
      line per file, then picks the reply: "nobody said anything" when the
      stripped transcript is empty, otherwise its first 1900 characters.
      Recognition is the parameter `transcribe`, from filename to text. */
  method ProcessAudio(files: seq<(string, string)>, transcribe: string -> string)
    returns (fullText: string, reply: Reply)
    ensures fullText == FullText(Recognised(files, transcribe))
    ensures reply == NothingSaid <==> files == []
    ensures reply.Shown? ==>
      && |reply.excerpt| == (if |fullText| <= ShownLimit then |fullText| else ShownLimit)
      && reply.excerpt == fullText[..|reply.excerpt|]
  {
    ghost var heard := Recognised(files, transcribe);
    fullText := "";
    for i := 0 to |files|
      invariant fullText == FullText(heard[..i])
    {
      var (username, filename) := files[i];
      var text := Strip(transcribe(filename));
      var line := username + ": " + text + "\n";
      fullText := fullText + line;
      FullTextPrefix(heard, i);
    }
    assert heard[..|heard|] == heard;
    FullTextBlank(heard);
    StripMeaning(fullText);
    if Strip(fullText) == [] {
      reply := NothingSaid;
      return;
    }
    reply := Shown(Excerpt(fullText));
  }
}

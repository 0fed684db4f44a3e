/** What the voice transport hands to a sink, in arrival order, and the
    reference meaning of such a log: which speakers it contains, in which order
    they first spoke, which name each was first seen under, and which audio
    fragments belong to each. The sink's table is proved equal to these. */
module Arrivals {

  /** Speaker ids are Discord snowflakes: non-negative integers. */
  type UserId = nat

  newtype byte = x: int | 0 <= x < 256
  type Bytes = seq<byte>

  /** The part of a Discord member the sink reads. */
  datatype Member = Member(id: UserId, displayName: string)

  /** One `write(user, data)` call: a fragment of PCM from one speaker. */
  datatype Arrival = Arrival(user: Member, data: Bytes)

  /** One row of the sink's table: `{"name": ..., "frames": [...]}`. */
  datatype Entry = Entry(name: string, frames: seq<Bytes>)

  /** The distinct ids of everyone who sent a fragment. */
  function Speakers(a: seq<Arrival>): set<UserId>
  {
    if a == [] then {} else Speakers(a[..|a| - 1]) + {a[|a| - 1].user.id}
  }

  /** A speaker of the log is exactly someone some fragment came from. */
  lemma {:induction false} SpeakersMeaning(a: seq<Arrival>, u: UserId)
    ensures u in Speakers(a) <==> exists i :: 0 <= i < |a| && a[i].user.id == u
  {
    if a != [] {
      var p := a[..|a| - 1];
      SpeakersMeaning(p, u);
      if u in Speakers(p) {
        var i :| 0 <= i < |p| && p[i].user.id == u;
        assert a[i] == p[i];
      }
      if u !in Speakers(a) {
        forall i | 0 <= i < |a| ensures a[i].user.id != u {
          if i < |p| { assert a[i] == p[i]; }
        }
      }
    }
  }

  lemma SpeakersStep(a: seq<Arrival>, x: Arrival)
    ensures Speakers(a + [x]) == Speakers(a) + {x.user.id}
  {
    assert (a + [x])[..|a|] == a;
  }

  /** Where a speaker's first fragment stands in the log. */
  function FirstIndex(a: seq<Arrival>, u: UserId): (k: nat)
    requires u in Speakers(a)
    ensures k < |a| && a[k].user.id == u
    ensures forall j :: 0 <= j < k ==> a[j].user.id != u
  {
    var p := a[..|a| - 1];
    if u in Speakers(p) then
      var k := FirstIndex(p, u);
      assert forall j :: 0 <= j <= k ==> a[j] == p[j];
      k
    else
      SpeakersMeaning(p, u);
      assert forall j :: 0 <= j < |p| ==> a[j] == p[j];
      |a| - 1
  }

  lemma FirstIndexStep(a: seq<Arrival>, x: Arrival, u: UserId)
    requires u in Speakers(a + [x])
    ensures u in Speakers(a) ==> FirstIndex(a + [x], u) == FirstIndex(a, u)
    ensures u !in Speakers(a) ==> FirstIndex(a + [x], u) == |a|
  {
    assert (a + [x])[..|a|] == a;
  }

  /** The name a speaker was first seen under. */
  function FirstName(a: seq<Arrival>, u: UserId): string
    requires u in Speakers(a)
  {
    a[FirstIndex(a, u)].user.displayName
  }

  /** A speaker's fragments, all and only, in the order they arrived. */
  function FramesOf(a: seq<Arrival>, u: UserId): seq<Bytes>
  {
    if a == [] then []
    else
      var last := a[|a| - 1];
      FramesOf(a[..|a| - 1], u) + (if last.user.id == u then [last.data] else [])
  }

  /** The table after a log of writes, one write at a time: the sender's
      entry is created with the sender's display name and no frames if there
      is none yet, and then the fragment is appended to its frames. */
  function Table(a: seq<Arrival>): map<UserId, Entry>
  {
    if a == [] then map[]
    else
      var t, x := Table(a[..|a| - 1]), a[|a| - 1];
      var e := if x.user.id in t then t[x.user.id] else Entry(x.user.displayName, []);
      t[x.user.id := e.(frames := e.frames + [x.data])]
  }

  lemma TableStep(a: seq<Arrival>, x: Arrival)
    ensures var e := if x.user.id in Table(a) then Table(a)[x.user.id] else Entry(x.user.displayName, []);
      Table(a + [x]) == Table(a)[x.user.id := e.(frames := e.frames + [x.data])]
  {
    assert (a + [x])[..|a|] == a;
  }

  /** After any log of writes the table has one key per distinct speaker and
      no other, each entry holds the display name of that speaker's first
      fragment, and its frames are that speaker's fragments, all and only, in
      arrival order. */
  lemma {:induction false} TableMeaning(a: seq<Arrival>)
    ensures Table(a).Keys == Speakers(a)
    ensures forall u :: u in Speakers(a) ==> Table(a)[u] == Entry(FirstName(a, u), FramesOf(a, u))
  {
    if a != [] {
      var p, x := a[..|a| - 1], a[|a| - 1];
      assert a == p + [x];
      TableMeaning(p);
      SpeakersStep(p, x);
      forall u | u in Speakers(a) ensures Table(a)[u] == Entry(FirstName(a, u), FramesOf(a, u)) {
        TableEntryStep(p, x, u);
      }
    }
  }

  /** One write keeps a speaker's entry equal to that speaker's first name and
      fragments. */
  lemma TableEntryStep(p: seq<Arrival>, x: Arrival, u: UserId)
    requires Table(p).Keys == Speakers(p)
    requires u in Speakers(p) ==> Table(p)[u] == Entry(FirstName(p, u), FramesOf(p, u))
    requires u in Speakers(p + [x])
    ensures Table(p + [x])[u] == Entry(FirstName(p + [x], u), FramesOf(p + [x], u))
  {
    var a := p + [x];
    assert a[..|a| - 1] == p;
    FirstIndexStep(p, x, u);
    if u in Speakers(p) {
      assert a[FirstIndex(p, u)] == p[FirstIndex(p, u)];
    } else {
      FramesOfSilent(p, u);
    }
  }

  /** Someone who never spoke has no fragments. */
  lemma {:induction false} FramesOfSilent(a: seq<Arrival>, u: UserId)
    requires u !in Speakers(a)
    ensures FramesOf(a, u) == []
  {
    if a != [] {
      FramesOfSilent(a[..|a| - 1], u);
    }
  }

  /** The ids in the order their speakers first spoke: a new sender is put
      at the end, a known one leaves the order as it is. */
  function SpeakerOrder(a: seq<Arrival>): seq<UserId>
  {
    if a == [] then []
    else
      var q, x := SpeakerOrder(a[..|a| - 1]), a[|a| - 1];
      if x.user.id in q then q else q + [x.user.id]
  }

  /** The order lists every speaker exactly once and nobody else. */
  lemma {:induction false} SpeakerOrderMeaning(a: seq<Arrival>)
    ensures var r := SpeakerOrder(a);
      && (forall i, j :: 0 <= i < j < |r| ==> r[i] != r[j])
      && (forall u :: u in r <==> u in Speakers(a))
  {
    if a != [] {
      var p, x := a[..|a| - 1], a[|a| - 1];
      SpeakerOrderMeaning(p);
      var q := SpeakerOrder(p);
      assert Speakers(a) == Speakers(p) + {x.user.id};
      if x.user.id !in q {
        var r := q + [x.user.id];
        assert SpeakerOrder(a) == r;
        forall i, j | 0 <= i < j < |r| ensures r[i] != r[j] {
          assert r[i] == q[i] && q[i] in q;
          if j < |q| {
            assert r[j] == q[j];
          } else {
            assert r[j] == x.user.id;
          }
        }
      }
    }
  }

  lemma SpeakerOrderStep(a: seq<Arrival>, x: Arrival)
    ensures SpeakerOrder(a + [x]) ==
      if x.user.id in SpeakerOrder(a) then SpeakerOrder(a) else SpeakerOrder(a) + [x.user.id]
  {
    assert (a + [x])[..|a|] == a;
  }

  /** Whoever is listed earlier spoke first: first positions strictly increase
      along the order. */
  lemma {:induction false} SpeakerOrderByFirstFragment(a: seq<Arrival>)
    ensures var r := SpeakerOrder(a);
      && (forall i :: 0 <= i < |r| ==> r[i] in Speakers(a))
      && (forall i, j :: 0 <= i < j < |r| ==> FirstIndex(a, r[i]) < FirstIndex(a, r[j]))
  {
    if a != [] {
      var p, x := a[..|a| - 1], a[|a| - 1];
      assert a == p + [x];
      SpeakerOrderByFirstFragment(p);
      SpeakerOrderStep(p, x);
      SpeakerOrderMeaning(a);
      SpeakersStep(p, x);
      var q := SpeakerOrder(p);
      SpeakerOrderMeaning(p);
      forall u | u in q ensures FirstIndex(a, u) == FirstIndex(p, u) < |p| {
        FirstIndexStep(p, x, u);
      }
      if x.user.id !in q {
        FirstIndexStep(p, x, x.user.id);
      }
    }
  }

  /** `b"".join(frames)`: the fragments laid end to end. */
  function Join(frames: seq<Bytes>): Bytes
  {
    if frames == [] then [] else Join(frames[..|frames| - 1]) + frames[|frames| - 1]
  }

  /** Joining two runs of fragments is joining each and laying them end to end. */
  lemma {:induction false} JoinConcat(f: seq<Bytes>, g: seq<Bytes>)
    ensures Join(f + g) == Join(f) + Join(g)
    decreases |g|
  {
    if g == [] {
      assert f + g == f;
    } else {
      var g', last := g[..|g| - 1], g[|g| - 1];
      assert (f + g)[..|f + g| - 1] == f + g';
      JoinConcat(f, g');
      calc {
        Join(f + g);
        Join(f + g') + last;
        Join(f) + Join(g') + last;
        Join(f) + (Join(g') + last);
        Join(f) + Join(g);
      }
    }
  }

  /** Total number of bytes in a run of fragments. */
  function TotalLength(frames: seq<Bytes>): nat
  {
    if frames == [] then 0 else TotalLength(frames[..|frames| - 1]) + |frames[|frames| - 1]|
  }

  /** The joined payload loses and adds no byte: the `k`-th byte of a fragment
      lands at that fragment's offset plus `k`. */
  lemma {:induction false} JoinLayout(frames: seq<Bytes>, i: nat, k: nat)
    requires i < |frames| && k < |frames[i]|
    ensures |Join(frames)| == TotalLength(frames)
    ensures TotalLength(frames[..i]) + k < |Join(frames)|
    ensures Join(frames)[TotalLength(frames[..i]) + k] == frames[i][k]
  {
    var pre, post := frames[..i], frames[i + 1..];
    assert Join(frames) == Join(pre) + (frames[i] + Join(post)) by {
      JoinConcat(pre, frames[i..]);
      JoinConcat([frames[i]], post);
      assert frames[i..] == [frames[i]] + post;
      assert frames == pre + frames[i..];
      assert Join([frames[i]]) == frames[i] by {
        assert [frames[i]][..0] == [];
      }
    }
    JoinLength(frames);
    JoinLength(pre);
  }

  lemma {:induction false} JoinLength(frames: seq<Bytes>)
    ensures |Join(frames)| == TotalLength(frames)
  {
    if frames != [] {
      JoinLength(frames[..|frames| - 1]);
    }
  }
}

/**
 * The conversation page's timeline (buildTimeline in internal/server/handlers.go):
 * the messages in order, each followed by the revisions published right after it,
 * and at the end the revisions that carry no anchor.
 */
module Timeline {
  import opened Wrappers
  import opened Models

  datatype TimelineItem = MessageItem(message: Message) | RevisionMarker(revision: Revision)

  /** The revisions anchored to message `id`, in order. */
  function AnchoredTo(revisions: seq<Revision>, id: int): (r: seq<Revision>)
    ensures |r| <= |revisions|
    ensures forall x | x in r :: x in revisions && x.afterMessageId == Some(id)
  {
    if revisions == [] then []
    else
      var last := revisions[|revisions| - 1];
      AnchoredTo(revisions[..|revisions| - 1], id) + (if last.afterMessageId == Some(id) then [last] else [])
  }

  /** The revisions with no anchor, in order. */
  function Unanchored(revisions: seq<Revision>): (r: seq<Revision>)
    ensures forall x | x in r :: x in revisions && x.afterMessageId.None?
  {
    if revisions == [] then []
    else
      var last := revisions[|revisions| - 1];
      Unanchored(revisions[..|revisions| - 1]) + (if last.afterMessageId.None? then [last] else [])
  }

  /** The revisions anchored to any message id in `ids`, in order. */
  function AnchoredIn(revisions: seq<Revision>, ids: set<int>): seq<Revision> {
    if revisions == [] then []
    else
      var last := revisions[|revisions| - 1];
      AnchoredIn(revisions[..|revisions| - 1], ids)
        + (if last.afterMessageId.Some? && last.afterMessageId.value in ids then [last] else [])
  }

  function Markers(revisions: seq<Revision>): (r: seq<TimelineItem>)
    ensures |r| == |revisions|
    ensures forall i | 0 <= i < |r| :: r[i] == RevisionMarker(revisions[i])
  {
    seq(|revisions|, i requires 0 <= i < |revisions| => RevisionMarker(revisions[i]))
  }

  lemma MarkersSnoc(revisions: seq<Revision>, j: int)
    requires 0 <= j < |revisions|
    ensures Markers(revisions[..j + 1]) == Markers(revisions[..j]) + [RevisionMarker(revisions[j])]
  {
    var a, b := Markers(revisions[..j + 1]), Markers(revisions[..j]) + [RevisionMarker(revisions[j])];
    assert |a| == |b|;
    forall k | 0 <= k < |a| ensures a[k] == b[k] {
      if k < j {
        assert b[k] == Markers(revisions[..j])[k];
      }
    }
  }

  /** Each message followed by the markers of the revisions anchored to it. */
  function Interleave(messages: seq<Message>, revisions: seq<Revision>): seq<TimelineItem> {
    if messages == [] then []
    else
      var last := messages[|messages| - 1];
      Interleave(messages[..|messages| - 1], revisions)
        + [MessageItem(last)] + Markers(AnchoredTo(revisions, last.id))
  }

  lemma InterleaveSnoc(messages: seq<Message>, revisions: seq<Revision>, i: int)
    requires 0 <= i < |messages|
    ensures Interleave(messages[..i + 1], revisions)
      == Interleave(messages[..i], revisions) + [MessageItem(messages[i])] + Markers(AnchoredTo(revisions, messages[i].id))
  {
    assert messages[..i + 1][..i] == messages[..i];
  }

  /** The timeline the page shows. */
  function TimelineOf(messages: seq<Message>, revisions: seq<Revision>): seq<TimelineItem> {
    Interleave(messages, revisions) + Markers(Unanchored(revisions))
  }

  /** The revisions filed under `id` so far; a missing key is no revisions. */
  function Filed(revByMsg: map<int, seq<Revision>>, id: int): seq<Revision> {
    if id in revByMsg then revByMsg[id] else []
  }

  /** The first half of buildTimeline: revisions filed by anchor, and those without one. */
  method FileRevisions(revisions: seq<Revision>) returns (revByMsg: map<int, seq<Revision>>, orphanRevs: seq<Revision>)
    ensures forall id :: Filed(revByMsg, id) == AnchoredTo(revisions, id)
    ensures orphanRevs == Unanchored(revisions)
  {
    revByMsg := map[];
    orphanRevs := [];
    for i := 0 to |revisions|
      invariant orphanRevs == Unanchored(revisions[..i])
      invariant forall id :: Filed(revByMsg, id) == AnchoredTo(revisions[..i], id)
    {
      var rev := revisions[i];
      assert revisions[..i + 1][..i] == revisions[..i];
      if rev.afterMessageId.Some? {
        var id := rev.afterMessageId.value;
        revByMsg := revByMsg[id := Filed(revByMsg, id) + [rev]];
      } else {
        orphanRevs := orphanRevs + [rev];
      }
    }
    assert revisions[..|revisions|] == revisions;
  }

  /** Appends a revision marker for each revision, in order. */
  method AppendMarkers(items: seq<TimelineItem>, revs: seq<Revision>) returns (out: seq<TimelineItem>)
    ensures out == items + Markers(revs)
  {
    out := items;
    for j := 0 to |revs|
      invariant out == items + Markers(revs[..j])
    {
      MarkersSnoc(revs, j);
      out := out + [RevisionMarker(revs[j])];
    }
    assert revs[..|revs|] == revs;
  }

  /** buildTimeline */
  method BuildTimeline(messages: seq<Message>, revisions: seq<Revision>) returns (items: seq<TimelineItem>)
    ensures items == TimelineOf(messages, revisions)
  {
    var revByMsg, orphanRevs := FileRevisions(revisions);

    items := [];
    for i := 0 to |messages|
      invariant items == Interleave(messages[..i], revisions)
    {
      InterleaveSnoc(messages, revisions, i);
      var m := messages[i];
      items := items + [MessageItem(m)];
      if m.id in revByMsg {
        items := AppendMarkers(items, revByMsg[m.id]);
      }
      assert Filed(revByMsg, m.id) == AnchoredTo(revisions, m.id);
    }
    assert messages[..|messages|] == messages;
    // legacy revisions, published before anchors were recorded
    items := AppendMarkers(items, orphanRevs);
  }

  /** The messages of a timeline, in order. */
  function MessagesOf(items: seq<TimelineItem>): seq<Message> {
    if items == [] then []
    else
      var last := items[|items| - 1];
      MessagesOf(items[..|items| - 1]) + (if last.MessageItem? then [last.message] else [])
  }

  lemma {:induction false} MessagesOfAppend(a: seq<TimelineItem>, b: seq<TimelineItem>)
    ensures MessagesOf(a + b) == MessagesOf(a) + MessagesOf(b)
  {
    if b == [] {
      assert a + b == a;
    } else {
      var b' := b[..|b| - 1];
      assert (a + b)[..|a + b| - 1] == a + b';
      MessagesOfAppend(a, b');
    }
  }

  lemma {:induction false} MessagesOfMarkers(revisions: seq<Revision>)
    ensures MessagesOf(Markers(revisions)) == []
  {
    if revisions != [] {
      var init := revisions[..|revisions| - 1];
      assert Markers(revisions)[..|revisions| - 1] == Markers(init);
      MessagesOfMarkers(init);
    }
  }

  lemma {:induction false} MessagesOfInterleave(messages: seq<Message>, revisions: seq<Revision>)
    ensures MessagesOf(Interleave(messages, revisions)) == messages
  {
    if messages != [] {
      var init, last := messages[..|messages| - 1], messages[|messages| - 1];
      MessagesOfInterleave(init, revisions);
      MessagesOfStep(Interleave(init, revisions), last, AnchoredTo(revisions, last.id));
      assert messages == init + [last];
    }
  }

  /** A message followed by markers adds just that message. */
  lemma MessagesOfStep(items: seq<TimelineItem>, m: Message, revisions: seq<Revision>)
    ensures MessagesOf(items + [MessageItem(m)] + Markers(revisions)) == MessagesOf(items) + [m]
  {
    MessagesOfAppend(items + [MessageItem(m)], Markers(revisions));
    MessagesOfAppend(items, [MessageItem(m)]);
    MessagesOfMarkers(revisions);
    assert MessagesOf([MessageItem(m)]) == [m] by {
      assert [MessageItem(m)][..0] == [];
    }
  }

  /** Every message appears exactly once, in input order, and nothing else is a message. */
  lemma TimelineMessages(messages: seq<Message>, revisions: seq<Revision>)
    ensures MessagesOf(TimelineOf(messages, revisions)) == messages
  {
    MessagesOfInterleave(messages, revisions);
    MessagesOfAppend(Interleave(messages, revisions), Markers(Unanchored(revisions)));
    MessagesOfMarkers(Unanchored(revisions));
  }

  lemma {:induction false} InterleaveAppend(a: seq<Message>, b: seq<Message>, revisions: seq<Revision>)
    ensures Interleave(a + b, revisions) == Interleave(a, revisions) + Interleave(b, revisions)
  {
    if b == [] {
      assert a + b == a;
    } else {
      var b' := b[..|b| - 1];
      assert (a + b)[..|a + b| - 1] == a + b';
      InterleaveAppend(a, b', revisions);
    }
  }

  lemma TimelineAround(messages: seq<Message>, revisions: seq<Revision>, i: int)
    requires 0 <= i < |messages|
    ensures TimelineOf(messages, revisions)
      == Interleave(messages[..i], revisions)
         + ([MessageItem(messages[i])] + Markers(AnchoredTo(revisions, messages[i].id)))
         + (Interleave(messages[i + 1..], revisions) + Markers(Unanchored(revisions)))
  {
    var x, y := messages[..i + 1], messages[i + 1..];
    assert messages == x + y;
    InterleaveAppend(x, y, revisions);
    InterleaveSnoc(messages, revisions, i);
    Regroup(Interleave(messages[..i], revisions), [MessageItem(messages[i])], Markers(AnchoredTo(revisions, messages[i].id)),
      Interleave(y, revisions), Markers(Unanchored(revisions)));
  }

  lemma Regroup(a: seq<TimelineItem>, b: seq<TimelineItem>, c: seq<TimelineItem>, d: seq<TimelineItem>, e: seq<TimelineItem>)
    ensures (a + b + c + d) + e == a + (b + c) + (d + e)
  {
  }

  /**
   * Each message is followed immediately by the markers of the revisions anchored to
   * it, in their input order; exactly the earlier messages come before it.
   */
  lemma MessageThenItsRevisions(messages: seq<Message>, revisions: seq<Revision>, i: int)
    requires 0 <= i < |messages|
    ensures exists before, after ::
      && TimelineOf(messages, revisions)
           == before + [MessageItem(messages[i])] + Markers(AnchoredTo(revisions, messages[i].id)) + after
      && MessagesOf(before) == messages[..i]
  {
    var before := Interleave(messages[..i], revisions);
    var after := Interleave(messages[i + 1..], revisions) + Markers(Unanchored(revisions));
    TimelineAround(messages, revisions, i);
    MessagesOfInterleave(messages[..i], revisions);
    Ungroup(before, [MessageItem(messages[i])], Markers(AnchoredTo(revisions, messages[i].id)), after);
  }

  lemma Ungroup(a: seq<TimelineItem>, b: seq<TimelineItem>, c: seq<TimelineItem>, d: seq<TimelineItem>)
    ensures a + (b + c) + d == a + b + c + d
  {
  }

  /** A revision anchored to a message that is not in the list does not appear. */
  lemma {:induction false} DanglingAnchorDropped(messages: seq<Message>, revisions: seq<Revision>, rev: Revision)
    requires rev.afterMessageId.Some?
    requires forall m | m in messages :: m.id != rev.afterMessageId.value
    ensures RevisionMarker(rev) !in TimelineOf(messages, revisions)
  {
    NotInInterleave(messages, revisions, rev);
  }

  lemma {:induction false} NotInInterleave(messages: seq<Message>, revisions: seq<Revision>, rev: Revision)
    requires rev.afterMessageId.Some?
    requires forall m | m in messages :: m.id != rev.afterMessageId.value
    ensures RevisionMarker(rev) !in Interleave(messages, revisions)
  {
    if messages != [] {
      var init, last := messages[..|messages| - 1], messages[|messages| - 1];
      NotInInterleave(init, revisions, rev);
      assert last in messages;
    }
  }

  /** Adding one id to a set of ids whose revisions were counted adds that id's revisions. */
  lemma {:induction false} AnchoredInAdd(revisions: seq<Revision>, ids: set<int>, id: int)
    requires id !in ids
    ensures |AnchoredIn(revisions, ids + {id})| == |AnchoredIn(revisions, ids)| + |AnchoredTo(revisions, id)|
  {
    if revisions != [] {
      AnchoredInAdd(revisions[..|revisions| - 1], ids, id);
    }
  }

  function Ids(messages: seq<Message>): set<int> {
    set m | m in messages :: m.id
  }

  predicate DistinctIds(messages: seq<Message>) {
    forall i, j | 0 <= i < j < |messages| :: messages[i].id != messages[j].id
  }

  lemma {:induction false} InterleaveLength(messages: seq<Message>, revisions: seq<Revision>)
    requires DistinctIds(messages)
    ensures |Interleave(messages, revisions)| == |messages| + |AnchoredIn(revisions, Ids(messages))|
  {
    if messages == [] {
      assert Ids(messages) == {};
      EmptyIdsAnchorNothing(revisions);
    } else {
      var init, last := messages[..|messages| - 1], messages[|messages| - 1];
      InterleaveLength(init, revisions);
      assert Ids(messages) == Ids(init) + {last.id} by {
        assert messages == init + [last];
      }
      assert last.id !in Ids(init);
      AnchoredInAdd(revisions, Ids(init), last.id);
    }
  }

  lemma {:induction false} EmptyIdsAnchorNothing(revisions: seq<Revision>)
    ensures AnchoredIn(revisions, {}) == []
  {
    if revisions != [] {
      EmptyIdsAnchorNothing(revisions[..|revisions| - 1]);
    }
  }

  /**
   * With distinct message ids, the timeline has one item per message, one per
   * revision anchored to a listed message, and one per revision without an anchor.
   */
  lemma TimelineLength(messages: seq<Message>, revisions: seq<Revision>)
    requires DistinctIds(messages)
    ensures |TimelineOf(messages, revisions)|
      == |messages| + |AnchoredIn(revisions, Ids(messages))| + |Unanchored(revisions)|
  {
    InterleaveLength(messages, revisions);
  }

  /** Three messages, a revision published after the second and one without anchor. */
  lemma Example(m1: Message, m2: Message, m3: Message, rev: Revision, legacy: Revision)
    requires m1.id == 1 && m2.id == 2 && m3.id == 3
    requires rev.afterMessageId == Some(2) && legacy.afterMessageId == None
    ensures TimelineOf([m1, m2, m3], [rev, legacy])
      == [MessageItem(m1), MessageItem(m2), RevisionMarker(rev), MessageItem(m3), RevisionMarker(legacy)]
  {
    ExampleInterleave(m1, m2, m3, rev, legacy);
    ExampleRevisions(rev, legacy);
    ExampleMarkers(rev, legacy);
  }

  lemma ExampleInterleave(m1: Message, m2: Message, m3: Message, rev: Revision, legacy: Revision)
    requires m1.id == 1 && m2.id == 2 && m3.id == 3
    requires rev.afterMessageId == Some(2) && legacy.afterMessageId == None
    ensures Interleave([m1, m2, m3], [rev, legacy])
      == [MessageItem(m1), MessageItem(m2), RevisionMarker(rev), MessageItem(m3)]
  {
    var revs := [rev, legacy];
    ExampleRevisions(rev, legacy);
    ExampleMarkers(rev, legacy);
    var ms := [m1, m2, m3];
    var i1, i2 := Interleave(ms[..1], revs), Interleave(ms[..2], revs);
    assert i1 == [MessageItem(m1)] by {
      InterleaveSnoc(ms, revs, 0);
      assert ms[..0] == [] && ms[0] == m1;
    }
    assert i2 == [MessageItem(m1), MessageItem(m2), RevisionMarker(rev)] by {
      InterleaveSnoc(ms, revs, 1);
      assert ms[1] == m2;
    }
    InterleaveSnoc(ms, revs, 2);
    assert ms[2] == m3 && ms[..3] == ms;
  }

  lemma ExampleRevisions(rev: Revision, legacy: Revision)
    requires rev.afterMessageId == Some(2) && legacy.afterMessageId == None
    ensures var revs := [rev, legacy];
      && AnchoredTo(revs, 1) == [] && AnchoredTo(revs, 2) == [rev] && AnchoredTo(revs, 3) == []
      && Unanchored(revs) == [legacy]
  {
    assert [rev] + [legacy] == [rev, legacy];
    assert [] + [rev] == [rev];
    AnchoredToSnoc([], rev, 1);
    AnchoredToSnoc([], rev, 2);
    AnchoredToSnoc([], rev, 3);
    AnchoredToSnoc([rev], legacy, 1);
    AnchoredToSnoc([rev], legacy, 2);
    AnchoredToSnoc([rev], legacy, 3);
    assert [rev][..0] == [];
    assert Unanchored([rev]) == [];
    assert [rev, legacy][..1] == [rev];
  }

  lemma AnchoredToSnoc(revisions: seq<Revision>, x: Revision, id: int)
    ensures AnchoredTo(revisions + [x], id) == AnchoredTo(revisions, id) + (if x.afterMessageId == Some(id) then [x] else [])
  {
    assert (revisions + [x])[..|revisions|] == revisions;
  }

  lemma ExampleMarkers(rev: Revision, legacy: Revision)
    ensures Markers([]) == [] && Markers([rev]) == [RevisionMarker(rev)] && Markers([legacy]) == [RevisionMarker(legacy)]
  {
  }
}

/** Merge groups of batches (controllers/classController.js): a batch that
    belongs to a merge group shares its notes and meeting schedule with every
    other batch of the group. */
module MergeGroups {
  import opened Common
  import opened Ordering

  /** A row of `batch_merge_members`. */
  datatype MergeMember = MergeMember(batchId: Id, groupId: Id)

  /** Which store calls of the resolution report an error. `thrown` stands
      for an exception raised anywhere inside the helper. */
  datatype ResolveFaults = ResolveFaults(memberLookup: bool, groupLookup: bool, thrown: bool)

  const NoFaults := ResolveFaults(false, false, false)

  /** The membership rows of one batch. */
  function MembershipOf(members: seq<MergeMember>, batchId: Id): (rows: seq<MergeMember>)
    ensures forall m :: m in rows <==> m in members && m.batchId == batchId
  {
    if members == [] then []
    else
      var rest := MembershipOf(members[1..], batchId);
      assert forall m :: m in members[1..] ==> m in members;
      assert forall m :: m in members ==> m == members[0] || m in members[1..];
      if members[0].batchId == batchId then [members[0]] + rest else rest
  }

  /** The batch ids of a group's membership rows, in store order. */
  function GroupBatchIds(members: seq<MergeMember>, groupId: Id): (ids: seq<Id>)
    ensures forall k :: k in ids <==> exists m :: m in members && m.groupId == groupId && m.batchId == k
  {
    if members == [] then []
    else
      var rest := GroupBatchIds(members[1..], groupId);
      assert forall m :: m in members[1..] ==> m in members;
      assert forall m :: m in members ==> m == members[0] || m in members[1..];
      if members[0].groupId == groupId then [members[0].batchId] + rest else rest
  }

  /** getMergedBatchIds: every batch of the caller's merge group, or just
      the caller when it is in no group (no row, or more than one row, so
      that `.single()` fails) or when any lookup fails. */
  function ResolveGroup(members: seq<MergeMember>, batchId: Id, faults: ResolveFaults): (ids: seq<Id>)
    ensures batchId in ids
    ensures faults.thrown || faults.memberLookup || faults.groupLookup ==> ids == [batchId]
    ensures Single(MembershipOf(members, batchId)).None? ==> ids == [batchId]
    ensures !faults.thrown && !faults.memberLookup && !faults.groupLookup
            && Single(MembershipOf(members, batchId)).Some? ==>
              forall k :: k in ids <==>
                exists m :: m in members && m.batchId == k
                         && m.groupId == Single(MembershipOf(members, batchId)).value.groupId
  {
    if faults.thrown || faults.memberLookup then [batchId]
    else
      match Single(MembershipOf(members, batchId))
      case None => [batchId]
      case Some(own) =>
        if faults.groupLookup then [batchId]
        else
          assert own in MembershipOf(members, batchId);
          GroupBatchIds(members, own.groupId)
  }

  /** A consistent store: a batch belongs to at most one merge group, once. */
  predicate OneMembershipPerBatch(members: seq<MergeMember>) {
    forall i, j :: 0 <= i < j < |members| ==> members[i].batchId != members[j].batchId
  }

  lemma {:induction false} NoMembership(members: seq<MergeMember>, batchId: Id)
    requires forall i :: 0 <= i < |members| ==> members[i].batchId != batchId
    ensures MembershipOf(members, batchId) == []
  {
    if members != [] {
      NoMembership(members[1..], batchId);
    }
  }

  lemma {:induction false} SoleMembership(members: seq<MergeMember>, m: MergeMember)
    requires OneMembershipPerBatch(members)
    requires m in members
    ensures MembershipOf(members, m.batchId) == [m]
  {
    if members[0] == m {
      forall i | 0 <= i < |members[1..]| ensures members[1..][i].batchId != m.batchId {
        assert members[1..][i] == members[i + 1];
      }
      NoMembership(members[1..], m.batchId);
    } else {
      var k :| 0 <= k < |members| && members[k] == m;
      assert members[0].batchId != m.batchId;
      assert members[1..][k - 1] == m;
      SoleMembership(members[1..], m);
    }
  }

  /** Every batch a resolution returns resolves to the very same list: all
      members of one group share one set (and order) of batch ids. */
  lemma GroupMembersResolveAlike(members: seq<MergeMember>, a: Id, b: Id)
    requires OneMembershipPerBatch(members)
    requires a in ResolveGroup(members, b, NoFaults)
    ensures ResolveGroup(members, a, NoFaults) == ResolveGroup(members, b, NoFaults)
  {
    if a != b {
      var own := Single(MembershipOf(members, b)).value;
      var m :| m in members && m.batchId == a && m.groupId == own.groupId;
      SoleMembership(members, m);
    }
  }

  /** A row of `notes`; the remaining columns are carried unchanged. */
  datatype Note = Note(noteId: nat, batchId: Id, createdAt: string)

  /** A row of `gmeets`. */
  datatype GMeet = GMeet(meetId: nat, batchId: Id, date: string, time: string)

  datatype Fetch<T> = ServerError | Fetched(rows: seq<T>)

  function NoteKey(n: Note): Key { [Txt(n.createdAt)] }

  function MeetKey(g: GMeet): Key { [Txt(g.date), Txt(g.time)] }

  /** getNotesByBatch: the notes of every batch in the caller's merge group,
      newest first; a failing query answers 500. */
  function NotesByBatch(members: seq<MergeMember>, notes: seq<Note>, batchId: Id,
                        faults: ResolveFaults, queryFails: bool): (r: Fetch<Note>)
    ensures r.ServerError? <==> queryFails
    ensures r.Fetched? ==>
              && multiset(r.rows) == multiset(Filter(notes, (n: Note) => n.batchId in ResolveGroup(members, batchId, faults)))
              && SortedBy(r.rows, NoteKey, true)
  {
    if queryFails then ServerError
    else
      var ids := ResolveGroup(members, batchId, faults);
      Fetched(SortBy(Filter(notes, (n: Note) => n.batchId in ids), NoteKey, true))
  }

  /** getGMeetsByBatch: the meetings of every batch in the caller's merge
      group, by date and then time; a failing query answers 500. */
  function GMeetsByBatch(members: seq<MergeMember>, meets: seq<GMeet>, batchId: Id,
                         faults: ResolveFaults, queryFails: bool): (r: Fetch<GMeet>)
    ensures r.ServerError? <==> queryFails
    ensures r.Fetched? ==>
              && multiset(r.rows) == multiset(Filter(meets, (g: GMeet) => g.batchId in ResolveGroup(members, batchId, faults)))
              && SortedBy(r.rows, MeetKey, false)
  {
    if queryFails then ServerError
    else
      var ids := ResolveGroup(members, batchId, faults);
      Fetched(SortBy(Filter(meets, (g: GMeet) => g.batchId in ids), MeetKey, false))
  }

  /** A fetched note belongs to a batch of the resolved group, and every such
      note is fetched. */
  lemma NotesExactlyOfGroup(members: seq<MergeMember>, notes: seq<Note>, batchId: Id,
                            faults: ResolveFaults, n: Note)
    requires NotesByBatch(members, notes, batchId, faults, false).Fetched?
    ensures n in NotesByBatch(members, notes, batchId, faults, false).rows
            <==> n in notes && n.batchId in ResolveGroup(members, batchId, faults)
  {
    var r := NotesByBatch(members, notes, batchId, faults, false);
    assert n in r.rows <==> n in multiset(r.rows);
  }

  /** A fetched meeting belongs to a batch of the resolved group, and every
      such meeting is fetched. */
  lemma GMeetsExactlyOfGroup(members: seq<MergeMember>, meets: seq<GMeet>, batchId: Id,
                             faults: ResolveFaults, g: GMeet)
    requires GMeetsByBatch(members, meets, batchId, faults, false).Fetched?
    ensures g in GMeetsByBatch(members, meets, batchId, faults, false).rows
            <==> g in meets && g.batchId in ResolveGroup(members, batchId, faults)
  {
    var r := GMeetsByBatch(members, meets, batchId, faults, false);
    assert g in r.rows <==> g in multiset(r.rows);
  }

  /** Two batches of one merge group are shown the same notes and the same
      meetings. */
  lemma GroupMembersShareClasses(members: seq<MergeMember>, notes: seq<Note>, meets: seq<GMeet>, a: Id, b: Id)
    requires OneMembershipPerBatch(members)
    requires a in ResolveGroup(members, b, NoFaults)
    ensures NotesByBatch(members, notes, a, NoFaults, false) == NotesByBatch(members, notes, b, NoFaults, false)
    ensures GMeetsByBatch(members, meets, a, NoFaults, false) == GMeetsByBatch(members, meets, b, NoFaults, false)
  {
    GroupMembersResolveAlike(members, a, b);
  }
}

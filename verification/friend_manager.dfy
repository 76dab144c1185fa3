/** The friends dialog (`src/components/FriendManager.tsx`): reading the
    current user's friends from the directed `friends` edge table and the
    `users` table, and removing a friend in both directions. The tables are
    values passed in; whether a backend call reports an error is a boolean
    parameter. */
module FriendManager {
  import opened Wrappers
  import Seqs

  /** A row of the `friends` table: `userId` lists `friendId` as a friend. */
  datatype Edge = Edge(userId: string, friendId: string)

  /** A row of the `users` table, as shown in the dialog. */
  datatype User = User(id: string, name: Option<string>, email: string, image: Option<string>)

  /** The friendship is stored in both directions. */
  ghost predicate Symmetric(edges: seq<Edge>)
  {
    forall e :: e in edges ==> Edge(e.friendId, e.userId) in edges
  }

  /** The `friend_id` column of the rows whose `user_id` is `me`, in row
      order. */
  function FriendIds(edges: seq<Edge>, me: string): (ids: seq<string>)
    ensures forall f :: f in ids <==> Edge(me, f) in edges
  {
    var mine := Seqs.Filter(edges, (e: Edge) => e.userId == me);
    assert forall f :: Edge(me, f) in edges ==> Edge(me, f) in mine;
    Seqs.Map(mine, (e: Edge) => e.friendId)
  }

  /** `friendIds` is the `friend_id` column of the rows read at the strictly
      increasing indices that are exactly the rows of `me`. */
  lemma FriendIdsFollowRows(edges: seq<Edge>, me: string)
    ensures exists rows: seq<Edge>, idx: seq<nat> ::
      && Seqs.SelectedAt(rows, edges, idx)
      && (forall i :: 0 <= i < |edges| ==> (edges[i].userId == me <==> i in idx))
      && |FriendIds(edges, me)| == |rows|
      && (forall k :: 0 <= k < |rows| ==> FriendIds(edges, me)[k] == rows[k].friendId)
  {
    var p := (e: Edge) => e.userId == me;
    Seqs.FilterIsSelection(edges, p);
    var idx := Seqs.Positions(edges, p);
    var rows := Seqs.Filter(edges, p);
    var ids := FriendIds(edges, me);
    assert ids == Seqs.Map(rows, (e: Edge) => e.friendId);
    assert Seqs.SelectedAt(rows, edges, idx);
    assert |ids| == |rows| && forall k :: 0 <= k < |rows| ==> ids[k] == rows[k].friendId;
  }

  /** The users whose id is among `ids` (`.in('id', ids)`), in table order;
      callers may rely on membership only. */
  function UsersWithIds(users: seq<User>, ids: seq<string>): (r: seq<User>)
    ensures forall k :: 0 <= k < |r| ==> r[k] in users && r[k].id in ids
    ensures forall i :: 0 <= i < |users| && users[i].id in ids ==> users[i] in r
    ensures multiset(r) <= multiset(users)
  {
    Seqs.FilterSubMultiset(users, (u: User) => u.id in ids);
    Seqs.Filter(users, (u: User) => u.id in ids)
  }

  /** `fetchFriends`: the new friends list. Without a current user, or when
      a query reports an error, the list is kept; with no edge rows it
      becomes empty; otherwise it is exactly the users `me` has an edge to. */
  function FetchFriends(me: Option<string>, friends: seq<User>, edges: seq<Edge>, users: seq<User>,
                        edgesQueryFails: bool, usersQueryFails: bool): (r: seq<User>)
    ensures me.None? || edgesQueryFails ==> r == friends
    ensures me.Some? && !edgesQueryFails && (forall e :: e in edges ==> e.userId != me.value) ==> r == []
    ensures me.Some? && !edgesQueryFails && usersQueryFails && (exists e :: e in edges && e.userId == me.value) ==> r == friends
    ensures me.Some? && !edgesQueryFails && !usersQueryFails ==>
      && (forall k :: 0 <= k < |r| ==> r[k] in users && Edge(me.value, r[k].id) in edges)
      && (forall i :: 0 <= i < |users| && Edge(me.value, users[i].id) in edges ==> users[i] in r)
      && multiset(r) <= multiset(users)
  {
    if me.None? || edgesQueryFails then friends
    else
      var ids := FriendIds(edges, me.value);
      assert ids != [] ==> Edge(me.value, ids[0]) in edges;
      if ids == [] then
        []
      else if usersQueryFails then
        friends
      else UsersWithIds(users, ids)
  }

  /** The delete filter: the row `(me, f)` or the row `(f, me)`. */
  predicate DeleteMatches(e: Edge, me: string, friendId: string)
  {
    || (e.userId == me && e.friendId == friendId)
    || (e.userId == friendId && e.friendId == me)
  }

  /** The edge table after deleting the rows the filter matches. */
  function DeleteEdges(edges: seq<Edge>, me: string, friendId: string): (r: seq<Edge>)
    ensures Edge(me, friendId) !in r && Edge(friendId, me) !in r
    ensures forall e :: e in r <==> e in edges && e != Edge(me, friendId) && e != Edge(friendId, me)
  {
    Seqs.Filter(edges, (e: Edge) => !DeleteMatches(e, me, friendId))
  }

  /** The local list without the entries whose id is `friendId`. */
  function WithoutFriend(friends: seq<User>, friendId: string): (r: seq<User>)
    ensures forall u :: u in r <==> u in friends && u.id != friendId
  {
    Seqs.Filter(friends, (u: User) => u.id != friendId)
  }

  /** The dialog's friends list together with the `friends` table. */
  datatype Friends = Friends(list: seq<User>, edges: seq<Edge>)

  /** `removeFriend`: without a current user, or when the delete reports an
      error, nothing changes; otherwise both directions of the edge are
      deleted and the friend is dropped from the local list. */
  function RemoveFriend(me: Option<string>, st: Friends, friendId: string, deleteFails: bool): (r: Friends)
    ensures me.None? || deleteFails ==> r == st
    ensures me.Some? && !deleteFails ==>
      && Edge(me.value, friendId) !in r.edges
      && Edge(friendId, me.value) !in r.edges
      && (forall e :: e in r.edges <==> e in st.edges && e != Edge(me.value, friendId) && e != Edge(friendId, me.value))
      && (forall u :: u in r.list <==> u in st.list && u.id != friendId)
  {
    if me.None? || deleteFails then st
    else Friends(WithoutFriend(st.list, friendId), DeleteEdges(st.edges, me.value, friendId))
  }

  /** The local list after a removal keeps the other entries in their
      original order. */
  lemma RemoveKeepsOrder(me: string, st: Friends, friendId: string)
    ensures exists idx ::
      && Seqs.SelectedAt(RemoveFriend(Some(me), st, friendId, false).list, st.list, idx)
      && (forall i :: 0 <= i < |st.list| ==> (st.list[i].id != friendId <==> i in idx))
  {
    var p := (u: User) => u.id != friendId;
    Seqs.FilterIsSelection(st.list, p);
    var idx := Seqs.Positions(st.list, p);
    assert Seqs.SelectedAt(RemoveFriend(Some(me), st, friendId, false).list, st.list, idx);
  }

  /** Removing a friend not in the list leaves the list as it was. */
  lemma RemoveAbsentKeepsList(me: Option<string>, st: Friends, friendId: string, deleteFails: bool)
    requires forall u :: u in st.list ==> u.id != friendId
    ensures RemoveFriend(me, st, friendId, deleteFails).list == st.list
  {
    Seqs.FilterKeepsAll(st.list, (u: User) => u.id != friendId);
  }

  /** Removing keeps the table symmetric. */
  lemma RemovePreservesSymmetry(me: Option<string>, st: Friends, friendId: string, deleteFails: bool)
    requires Symmetric(st.edges)
    ensures Symmetric(RemoveFriend(me, st, friendId, deleteFails).edges)
  {
  }

  /** Removing the same friend a second time changes nothing. */
  lemma RemoveTwiceIsOnce(me: Option<string>, st: Friends, friendId: string)
    ensures var once := RemoveFriend(me, st, friendId, false);
      RemoveFriend(me, once, friendId, false) == once
  {
    var once := RemoveFriend(me, st, friendId, false);
    if me.Some? {
      Seqs.FilterIdempotent(st.list, (u: User) => u.id != friendId);
      Seqs.FilterIdempotent(st.edges, (e: Edge) => !DeleteMatches(e, me.value, friendId));
    }
  }

  /** After a removal, fetching again finds no edge to the removed friend,
      and the removed friend no longer lists the current user. */
  lemma RemoveThenFetch(me: string, st: Friends, users: seq<User>, friendId: string)
    ensures var after := RemoveFriend(Some(me), st, friendId, false);
      && friendId !in FriendIds(after.edges, me)
      && me !in FriendIds(after.edges, friendId)
      && forall u :: u in FetchFriends(Some(me), after.list, after.edges, users, false, false) ==> u.id != friendId
  {
  }
}

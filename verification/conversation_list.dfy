/** The sidebar list (`src/components/ConversationList.tsx`): the search box
    filters conversations by name, case-insensitively, and each row shows an
    unread badge and a selection highlight. */
module ConversationList {
  import opened Wrappers
  import Seqs
  import Text

  datatype Conversation = Conversation(
    id: string,
    name: string,
    avatar: string,
    lastMessage: string,
    time: string,
    unread: int,
    isOnline: bool)

  /** The search predicate: the lower-cased name contains the lower-cased
      query. */
  predicate Matches(c: Conversation, query: string)
  {
    Text.Contains(Text.ToLower(c.name), Text.ToLower(query))
  }

  /** `filteredConversations`: the conversations whose name matches the
      query, in list order. The list itself is a value and is not changed. */
  function Filtered(conversations: seq<Conversation>, query: string): (r: seq<Conversation>)
    // soundness: every kept row matches
    ensures forall k :: 0 <= k < |r| ==> r[k] in conversations && Matches(r[k], query)
    // completeness: every matching row is kept
    ensures forall i :: 0 <= i < |conversations| && Matches(conversations[i], query) ==> conversations[i] in r
    ensures |r| <= |conversations|
  {
    Seqs.Filter(conversations, c => Matches(c, query))
  }

  /** The filtered list is the conversation list read at the increasing
      indices of exactly the matching rows: order is kept, nothing is added. */
  lemma FilteredIsOrderedSelection(conversations: seq<Conversation>, query: string)
    ensures exists idx ::
      && Seqs.SelectedAt(Filtered(conversations, query), conversations, idx)
      && (forall i :: 0 <= i < |conversations| ==> (Matches(conversations[i], query) <==> i in idx))
  {
    var p := c => Matches(c, query);
    Seqs.FilterIsSelection(conversations, p);
    var idx := Seqs.Positions(conversations, p);
    assert Seqs.SelectedAt(Filtered(conversations, query), conversations, idx);
  }

  /** An empty query shows the whole list. */
  lemma EmptyQueryKeepsAll(conversations: seq<Conversation>)
    ensures Filtered(conversations, "") == conversations
  {
    forall k | 0 <= k < |conversations|
      ensures Matches(conversations[k], "")
    {
      Text.ContainsEmpty(Text.ToLower(conversations[k].name));
    }
    Seqs.FilterKeepsAll(conversations, c => Matches(c, ""));
  }

  /** Filtering the filtered list again with the same query changes nothing. */
  lemma FilterTwiceIsOnce(conversations: seq<Conversation>, query: string)
    ensures Filtered(Filtered(conversations, query), query) == Filtered(conversations, query)
  {
    Seqs.FilterIdempotent(conversations, c => Matches(c, query));
  }

  /** A query and its upper-cased form select the same conversations. */
  lemma UpperCasedQuerySameResult(conversations: seq<Conversation>, query: string)
    ensures Filtered(conversations, Text.ToUpper(query)) == Filtered(conversations, query)
  {
    Text.LowerOfUpper(query);
    Seqs.FilterCongruent(conversations, c => Matches(c, Text.ToUpper(query)), c => Matches(c, query));
  }

  /** What one rendered row shows: the id it reports when clicked, whether it
      is highlighted, and the unread count on its badge, if any. */
  datatype Row = Row(id: string, highlighted: bool, badge: Option<int>)

  /** The unread badge is shown exactly for a positive unread count. */
  predicate ShowsBadge(c: Conversation)
  {
    c.unread > 0
  }

  /** A row is highlighted exactly when its id is the selected id. */
  predicate IsHighlighted(c: Conversation, selected: Option<string>)
  {
    selected.Some? && selected.value == c.id
  }

  function RowOf(c: Conversation, selected: Option<string>): Row
  {
    Row(c.id, IsHighlighted(c, selected), if ShowsBadge(c) then Some(c.unread) else None)
  }

  /** The rows rendered for the filtered list. */
  function Rows(conversations: seq<Conversation>, query: string, selected: Option<string>): (rows: seq<Row>)
    ensures |rows| == |Filtered(conversations, query)|
    ensures forall k :: 0 <= k < |rows| ==>
      var c := Filtered(conversations, query)[k];
      && rows[k].id == c.id
      && (rows[k].highlighted <==> selected == Some(c.id))
      && (rows[k].badge.Some? <==> c.unread > 0)
      && (rows[k].badge.Some? ==> rows[k].badge.value == c.unread)
  {
    Seqs.Map(Filtered(conversations, query), c => RowOf(c, selected))
  }

  /** Conversation ids are pairwise distinct. */
  predicate DistinctIds(conversations: seq<Conversation>)
  {
    forall i, j :: 0 <= i < j < |conversations| ==> conversations[i].id != conversations[j].id
  }

  /** Filtering keeps ids distinct. */
  lemma FilteredKeepsDistinctIds(conversations: seq<Conversation>, query: string)
    requires DistinctIds(conversations)
    ensures DistinctIds(Filtered(conversations, query))
  {
    var r := Filtered(conversations, query);
    var p := c => Matches(c, query);
    Seqs.FilterIsSelection(conversations, p);
    var idx := Seqs.Positions(conversations, p);
    forall j, k | 0 <= j < k < |r| ensures r[j].id != r[k].id {
      assert r[j] == conversations[idx[j]] && r[k] == conversations[idx[k]];
    }
  }

  /** With distinct ids at most one row is highlighted, and none when
      nothing is selected or the selected conversation is filtered out. */
  lemma AtMostOneHighlighted(conversations: seq<Conversation>, query: string, selected: Option<string>)
    requires DistinctIds(conversations)
    ensures var rows := Rows(conversations, query, selected);
      forall j, k :: 0 <= j < k < |rows| ==> !(rows[j].highlighted && rows[k].highlighted)
    ensures selected.None? ==> forall row :: row in Rows(conversations, query, selected) ==> !row.highlighted
    ensures (forall i :: 0 <= i < |conversations| && selected == Some(conversations[i].id) ==> !Matches(conversations[i], query))
      ==> forall row :: row in Rows(conversations, query, selected) ==> !row.highlighted
  {
    var r := Filtered(conversations, query);
    var rows := Rows(conversations, query, selected);
    FilteredKeepsDistinctIds(conversations, query);
    forall j, k | 0 <= j < k < |rows|
      ensures !(rows[j].highlighted && rows[k].highlighted)
    {
      assert rows[j].id == r[j].id && rows[k].id == r[k].id;
    }
    if forall i :: 0 <= i < |conversations| && selected == Some(conversations[i].id) ==> !Matches(conversations[i], query) {
      forall k | 0 <= k < |rows| ensures !rows[k].highlighted {
        assert r[k] in conversations && Matches(r[k], query);
      }
    }
  }
}

/** The open-conversation pane (`src/components/ChatArea.tsx`): selecting a
    conversation by id and the send handler that appends the typed message.
    The module-level record of conversations is the `Store`; the message id
    (`Date.now()`) and the formatted time are passed in. */
module ChatArea {
  import opened Wrappers
  import Text

  datatype Message = Message(id: string, text: string, sent: bool, time: string)

  datatype Conversation = Conversation(
    id: string,
    name: string,
    avatar: string,
    isOnline: bool,
    lastSeen: Option<string>,
    messages: seq<Message>)

  /** The conversations, keyed by conversation id. */
  type Store = map<string, Conversation>

  /** The component's state: the shared store, the text in the input box and
      the conversation on display (`null` shows the placeholder). */
  datatype ChatState = ChatState(store: Store, input: string, conversation: Option<Conversation>)

  /** Reading `.messages` of a missing store entry throws. */
  datatype SendError = NoSuchConversation

  /** A conversation id selects something only when it is truthy: not `null`
      and not the empty string. */
  predicate IsSelected(conversationId: Option<string>)
  {
    conversationId.Some? && conversationId.value != ""
  }

  /** The effect run when `conversationId` changes: the stored conversation
      under that id, or none for a null, empty or unknown id. */
  function Lookup(store: Store, conversationId: Option<string>): (r: Option<Conversation>)
    ensures r.None? <==> conversationId.None? || conversationId.value == "" || conversationId.value !in store
    ensures r.Some? ==> r.value == store[conversationId.value]
  {
    if IsSelected(conversationId) && conversationId.value in store
    then Some(store[conversationId.value])
    else None
  }

  /** The send button is enabled exactly when the input holds a character
      other than white space. */
  function CanSend(input: string): (enabled: bool)
    ensures enabled <==> exists i :: 0 <= i < |input| && !Text.IsSpace(input[i])
  {
    Text.Trim(input) != []
  }

  /** `handleSendMessage`: with a non-blank input and a selected conversation,
      append the raw input as a sent message to that conversation, store the
      updated conversation, display it and clear the input; otherwise do
      nothing. */
  function Send(st: ChatState, conversationId: Option<string>, msgId: string, time: string): (r: Result<ChatState, SendError>)
    // a blank input or no selection leaves everything as it was
    ensures !CanSend(st.input) || !IsSelected(conversationId) ==> r == Success(st)
    // an unknown id raises and changes nothing
    ensures r.Failure? <==> CanSend(st.input) && IsSelected(conversationId) && conversationId.value !in st.store
    ensures CanSend(st.input) && IsSelected(conversationId) && r.Success? ==>
      var key := conversationId.value;
      var before := st.store[key];
      var st' := r.value;
      && st'.store.Keys == st.store.Keys
      // only the selected entry is replaced
      && (forall k :: k in st.store && k != key ==> st'.store[k] == st.store[k])
      // the header fields are copied
      && st'.store[key].id == before.id
      && st'.store[key].name == before.name
      && st'.store[key].avatar == before.avatar
      && st'.store[key].isOnline == before.isOnline
      && st'.store[key].lastSeen == before.lastSeen
      // one message more, the old ones an unchanged prefix
      && |st'.store[key].messages| == |before.messages| + 1
      && st'.store[key].messages[..|before.messages|] == before.messages
      // the new message is last, sent, and carries the untrimmed input
      && st'.store[key].messages[|before.messages|] == Message(msgId, st.input, true, time)
      && st'.conversation == Some(st'.store[key])
      && st'.input == ""
  {
    if !CanSend(st.input) || !IsSelected(conversationId) then Success(st)
    else if conversationId.value !in st.store then Failure(NoSuchConversation)
    else
      Success(Deliver(st, conversationId.value, Message(msgId, st.input, true, time)))
  }

  /** The state after appending `msg` to the conversation stored under `key`:
      the updated conversation is stored, displayed, and the input cleared. */
  function Deliver(st: ChatState, key: string, msg: Message): (st': ChatState)
    requires key in st.store
  {
    var before := st.store[key];
    var updated := before.(messages := before.messages + [msg]);
    ChatState(st.store[key := updated], "", Some(updated))
  }

  /** After a send, looking the conversation up again finds the updated entry
      on display, and every other id finds what it found before. */
  lemma SendThenLookup(st: ChatState, conversationId: Option<string>, msgId: string, time: string, other: Option<string>)
    requires !Text.IsBlank(st.input) && IsSelected(conversationId) && conversationId.value in st.store
    ensures Send(st, conversationId, msgId, time).Success?
    ensures var st' := Send(st, conversationId, msgId, time).value;
      && st'.conversation.Some?
      && Lookup(st'.store, conversationId) == st'.conversation
      && (other != conversationId ==> Lookup(st'.store, other) == Lookup(st.store, other))
  {
  }

  /** Triggering send again right after a send that did not raise does
      nothing: either the first call was already a no-op, or it cleared the
      input. */
  lemma SendTwiceSendsOnce(st: ChatState, conversationId: Option<string>, msgId: string, time: string, msgId': string, time': string)
    ensures Send(st, conversationId, msgId, time).Success? ==>
      var st' := Send(st, conversationId, msgId, time).value;
      Send(st', conversationId, msgId', time') == Success(st')
  {
  }
}

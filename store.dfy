/**
 * The client application state of src/store/index.ts: one record of documents, chats,
 * insights and UI flags, and the actions that update it. `Apply` is what one action does
 * to the record (the function each action hands to `set`); the class `AppStore` holds
 * the record in mutable fields, and each of its methods is proved to perform `Apply`.
 */
module Store {
  import opened Wrappers

  /** A `Date`, as milliseconds since the epoch. */
  type Timestamp = nat

  /** A stored file as the documents API lists it (src/types/index.ts). */
  datatype Document = Document(
    id: string, name: string, mimeType: string, size: nat, path: string, createdAt: string, url: Option<string>)

  datatype Role = User | System | Assistant

  datatype ChatMessage = ChatMessage(id: string, role: Role, content: string, createdAt: Timestamp)

  datatype Chat = Chat(id: string, title: string, messages: seq<ChatMessage>, createdAt: Timestamp, updatedAt: Timestamp)

  datatype DocumentInsight = DocumentInsight(id: string, documentId: string, content: string, createdAt: Timestamp)

  /** `'chat' | 'documents' | 'insights'`. */
  datatype View = ChatView | DocumentsView | InsightsView

  /** The data fields of `AppState`. */
  datatype AppState = AppState(
    documents: seq<Document>,
    selectedDocument: Option<Document>,
    isUploading: bool,
    chats: seq<Chat>,
    currentChat: Option<Chat>,
    isLoadingChat: bool,
    insights: seq<DocumentInsight>,
    isLoadingInsights: bool,
    sidebarOpen: bool,
    currentView: View)

  /** The state the store is created with. */
  const Initial := AppState([], None, false, [], None, false, [], false, true, ChatView)

  /** The actions of `AppState`; `now` is the `new Date()` that `addMessageToCurrentChat` reads. */
  datatype Action =
    | SetDocuments(newDocuments: seq<Document>)
    | AddDocument(document: Document)
    | RemoveDocument(documentId: string)
    | SetSelectedDocument(selection: Option<Document>)
    | SetIsUploading(uploading: bool)
    | AddChat(chat: Chat)
    | SetChats(newChats: seq<Chat>)
    | SetCurrentChat(current: Option<Chat>)
    | AddMessageToCurrentChat(message: ChatMessage, now: Timestamp)
    | SetIsLoadingChat(loadingChat: bool)
    | SetInsights(newInsights: seq<DocumentInsight>)
    | AddInsight(insight: DocumentInsight)
    | SetIsLoadingInsights(loadingInsights: bool)
    | ToggleSidebar
    | SetCurrentView(view: View)

  /** `documents.filter((doc) => doc.id !== id)`. */
  function WithoutDocument(documents: seq<Document>, id: string): (r: seq<Document>)
    ensures |r| <= |documents|
    ensures forall d :: d in r <==> d in documents && d.id != id
  {
    if documents == [] then []
    else (if documents[0].id != id then [documents[0]] else []) + WithoutDocument(documents[1..], id)
  }

  /** `{...chat, messages: [...chat.messages, message], updatedAt: now}`. */
  function WithMessage(chat: Chat, message: ChatMessage, now: Timestamp): (r: Chat)
    ensures r.id == chat.id && r.title == chat.title && r.createdAt == chat.createdAt
    ensures r.messages == chat.messages + [message] && r.updatedAt == now
  {
    chat.(messages := chat.messages + [message], updatedAt := now)
  }

  /** `chats.map((chat) => chat.id === updated.id ? updated : chat)`. */
  function ReplaceChat(chats: seq<Chat>, updated: Chat): (r: seq<Chat>)
    ensures |r| == |chats|
    ensures forall i :: 0 <= i < |r| ==> r[i] == (if chats[i].id == updated.id then updated else chats[i])
  {
    seq(|chats|, i requires 0 <= i < |chats| => if chats[i].id == updated.id then updated else chats[i])
  }

  /**
   * The new state after one action, as the function each action passes to `set` computes it.
   * Each field changes only under the actions that name it.
   */
  function Apply(s: AppState, action: Action): (r: AppState)
    ensures r.documents != s.documents ==> action.SetDocuments? || action.AddDocument? || action.RemoveDocument?
    ensures r.selectedDocument != s.selectedDocument ==> action.SetSelectedDocument?
    ensures r.isUploading != s.isUploading ==> action.SetIsUploading?
    ensures r.chats != s.chats ==> action.AddChat? || action.SetChats? || action.AddMessageToCurrentChat?
    ensures r.currentChat != s.currentChat ==>
      action.AddChat? || action.SetCurrentChat? || action.AddMessageToCurrentChat?
    ensures r.isLoadingChat != s.isLoadingChat ==> action.SetIsLoadingChat?
    ensures r.insights != s.insights ==> action.SetInsights? || action.AddInsight?
    ensures r.isLoadingInsights != s.isLoadingInsights ==> action.SetIsLoadingInsights?
    ensures r.sidebarOpen != s.sidebarOpen <==> action.ToggleSidebar?
    ensures r.currentView != s.currentView ==> action.SetCurrentView?
  {
    match action
    case SetDocuments(ds) => s.(documents := ds)
    case AddDocument(d) => s.(documents := s.documents + [d])
    case RemoveDocument(id) => s.(documents := WithoutDocument(s.documents, id))
    case SetSelectedDocument(d) => s.(selectedDocument := d)
    case SetIsUploading(b) => s.(isUploading := b)
    case AddChat(c) => s.(chats := s.chats + [c], currentChat := Some(c))
    case SetChats(cs) => s.(chats := cs)
    case SetCurrentChat(c) => s.(currentChat := c)
    case AddMessageToCurrentChat(m, now) =>
      if s.currentChat.None? then s
      else
        var updated := WithMessage(s.currentChat.value, m, now);
        s.(currentChat := Some(updated), chats := ReplaceChat(s.chats, updated))
    case SetIsLoadingChat(b) => s.(isLoadingChat := b)
    case SetInsights(ins) => s.(insights := ins)
    case AddInsight(i) => s.(insights := s.insights + [i])
    case SetIsLoadingInsights(b) => s.(isLoadingInsights := b)
    case ToggleSidebar => s.(sidebarOpen := !s.sidebarOpen)
    case SetCurrentView(v) => s.(currentView := v)
  }

  class AppStore {
    var documents: seq<Document>
    var selectedDocument: Option<Document>
    var isUploading: bool
    var chats: seq<Chat>
    var currentChat: Option<Chat>
    var isLoadingChat: bool
    var insights: seq<DocumentInsight>
    var isLoadingInsights: bool
    var sidebarOpen: bool
    var currentView: View

    /** The record the fields hold. */
    function State(): AppState
      reads this
    {
      AppState(documents, selectedDocument, isUploading, chats, currentChat, isLoadingChat,
               insights, isLoadingInsights, sidebarOpen, currentView)
    }

    constructor ()
      ensures State() == Initial
      ensures documents == [] && chats == [] && insights == []
      ensures selectedDocument == None && currentChat == None
      ensures !isUploading && !isLoadingChat && !isLoadingInsights
      ensures sidebarOpen && currentView == ChatView
    {
      documents, selectedDocument, isUploading := [], None, false;
      chats, currentChat, isLoadingChat := [], None, false;
      insights, isLoadingInsights := [], false;
      sidebarOpen, currentView := true, ChatView;
    }

    method SetDocuments(ds: seq<Document>)
      modifies this
      ensures State() == Apply(old(State()), Action.SetDocuments(ds))
    {
      documents := ds;
    }

    method AddDocument(document: Document)
      modifies this
      ensures State() == Apply(old(State()), Action.AddDocument(document))
    {
      documents := documents + [document];
    }

    method RemoveDocument(id: string)
      modifies this
      ensures State() == Apply(old(State()), Action.RemoveDocument(id))
    {
      documents := WithoutDocument(documents, id);
    }

    method SetSelectedDocument(document: Option<Document>)
      modifies this
      ensures State() == Apply(old(State()), Action.SetSelectedDocument(document))
    {
      selectedDocument := document;
    }

    method SetIsUploading(uploading: bool)
      modifies this
      ensures State() == Apply(old(State()), Action.SetIsUploading(uploading))
    {
      isUploading := uploading;
    }

    method AddChat(chat: Chat)
      modifies this
      ensures State() == Apply(old(State()), Action.AddChat(chat))
    {
      chats := chats + [chat];
      currentChat := Some(chat);
    }

    method SetChats(cs: seq<Chat>)
      modifies this
      ensures State() == Apply(old(State()), Action.SetChats(cs))
    {
      chats := cs;
    }

    method SetCurrentChat(chat: Option<Chat>)
      modifies this
      ensures State() == Apply(old(State()), Action.SetCurrentChat(chat))
    {
      currentChat := chat;
    }

    method AddMessageToCurrentChat(message: ChatMessage, now: Timestamp)
      modifies this
      ensures State() == Apply(old(State()), Action.AddMessageToCurrentChat(message, now))
    {
      if currentChat.None? {
        return;
      }
      var updatedChat := WithMessage(currentChat.value, message, now);
      var updatedChats := ReplaceChat(chats, updatedChat);
      currentChat := Some(updatedChat);
      chats := updatedChats;
    }

    method SetIsLoadingChat(loading: bool)
      modifies this
      ensures State() == Apply(old(State()), Action.SetIsLoadingChat(loading))
    {
      isLoadingChat := loading;
    }

    method SetInsights(newInsights: seq<DocumentInsight>)
      modifies this
      ensures State() == Apply(old(State()), Action.SetInsights(newInsights))
    {
      insights := newInsights;
    }

    method AddInsight(insight: DocumentInsight)
      modifies this
      ensures State() == Apply(old(State()), Action.AddInsight(insight))
    {
      insights := insights + [insight];
    }

    method SetIsLoadingInsights(loading: bool)
      modifies this
      ensures State() == Apply(old(State()), Action.SetIsLoadingInsights(loading))
    {
      isLoadingInsights := loading;
    }

    method ToggleSidebar()
      modifies this
      ensures State() == Apply(old(State()), Action.ToggleSidebar)
    {
      sidebarOpen := !sidebarOpen;
    }

    method SetCurrentView(view: View)
      modifies this
      ensures State() == Apply(old(State()), Action.SetCurrentView(view))
    {
      currentView := view;
    }
  }

  // ---------------------------------------------------------------- documents

  /** `addDocument` appends at the end, keeps the earlier documents, and changes nothing else. */
  lemma AddDocumentAppends(s: AppState, d: Document)
    ensures var r := Apply(s, AddDocument(d));
      && |r.documents| == |s.documents| + 1 && r.documents[|s.documents|] == d
      && r.documents[..|s.documents|] == s.documents
      && r == s.(documents := r.documents)
  {
  }

  /** The filter distributes over concatenation, so it keeps the surviving documents in order. */
  lemma {:induction false} WithoutDocumentConcat(a: seq<Document>, b: seq<Document>, id: string)
    ensures WithoutDocument(a + b, id) == WithoutDocument(a, id) + WithoutDocument(b, id)
  {
    if a == [] {
      assert a + b == b;
    } else {
      assert (a + b)[1..] == a[1..] + b;
      WithoutDocumentConcat(a[1..], b, id);
    }
  }

  /** A document list with no document of that id is left as it is. */
  lemma {:induction false} WithoutAbsentDocument(documents: seq<Document>, id: string)
    requires forall i :: 0 <= i < |documents| ==> documents[i].id != id
    ensures WithoutDocument(documents, id) == documents
  {
    if documents != [] {
      WithoutAbsentDocument(documents[1..], id);
    }
  }

  /**
   * `removeDocument(id)` leaves exactly the documents whose id differs, in their order,
   * changes no other field, and doing it twice is doing it once.
   */
  lemma RemoveDocumentFilters(s: AppState, id: string)
    ensures var r := Apply(s, RemoveDocument(id));
      && (forall d :: d in r.documents <==> d in s.documents && d.id != id)
      && r == s.(documents := r.documents)
      && Apply(r, RemoveDocument(id)) == r
  {
    var kept := WithoutDocument(s.documents, id);
    forall i | 0 <= i < |kept|
      ensures kept[i].id != id
    {
      assert kept[i] in kept;
    }
    WithoutAbsentDocument(kept, id);
  }

  // ---------------------------------------------------------------- chats

  /** The current chat, when there is one, is one of the listed chats. */
  predicate CurrentChatListed(s: AppState) {
    s.currentChat.Some? ==> s.currentChat.value in s.chats
  }

  /** `addChat` appends the chat, selects it, and changes nothing else. */
  lemma AddChatSelects(s: AppState, c: Chat)
    ensures var r := Apply(s, AddChat(c));
      && r.chats == s.chats + [c] && r.currentChat == Some(c)
      && r == s.(chats := r.chats, currentChat := r.currentChat)
      && CurrentChatListed(r)
  {
  }

  /** Without a current chat, `addMessageToCurrentChat` changes nothing. */
  lemma AddMessageWithoutChat(s: AppState, m: ChatMessage, now: Timestamp)
    requires s.currentChat.None?
    ensures Apply(s, AddMessageToCurrentChat(m, now)) == s
  {
  }

  /**
   * With a current chat, `addMessageToCurrentChat` makes the current chat a copy with the
   * message appended and the new time, puts that copy in place of every listed chat with
   * the same id, leaves the other chats and all other fields alone, and keeps a listed
   * current chat listed.
   */
  lemma AddMessageUpdatesChat(s: AppState, m: ChatMessage, now: Timestamp)
    requires s.currentChat.Some?
    ensures var c, r := s.currentChat.value, Apply(s, AddMessageToCurrentChat(m, now));
      && r.currentChat.Some?
      && r.currentChat.value.id == c.id && r.currentChat.value.title == c.title
      && r.currentChat.value.messages == c.messages + [m]
      && r.currentChat.value.createdAt == c.createdAt && r.currentChat.value.updatedAt == now
      && |r.chats| == |s.chats|
      && (forall i :: 0 <= i < |s.chats| && s.chats[i].id == c.id ==> r.chats[i] == r.currentChat.value)
      && (forall i :: 0 <= i < |s.chats| && s.chats[i].id != c.id ==> r.chats[i] == s.chats[i])
      && r == s.(chats := r.chats, currentChat := r.currentChat)
      && (CurrentChatListed(s) ==> CurrentChatListed(r))
  {
    var c := s.currentChat.value;
    var r := Apply(s, AddMessageToCurrentChat(m, now));
    if c in s.chats {
      var i :| 0 <= i < |s.chats| && s.chats[i] == c;
      assert r.chats[i] == r.currentChat.value;
    }
  }

  /** Adding a message again to the same chat is not a no-op: the chat grows by one message each time. */
  lemma AddMessageGrowsChat(s: AppState, m1: ChatMessage, m2: ChatMessage, t1: Timestamp, t2: Timestamp)
    requires s.currentChat.Some?
    ensures var r := Apply(Apply(s, AddMessageToCurrentChat(m1, t1)), AddMessageToCurrentChat(m2, t2));
      && r.currentChat.Some?
      && r.currentChat.value.messages == s.currentChat.value.messages + [m1, m2]
  {
    var c := s.currentChat.value;
    assert c.messages + [m1] + [m2] == c.messages + [m1, m2];
  }

  // ---------------------------------------------------------------- insights and UI

  /** `addInsight` appends the insight and changes nothing else. */
  lemma AddInsightAppends(s: AppState, insight: DocumentInsight)
    ensures var r := Apply(s, AddInsight(insight));
      && r.insights == s.insights + [insight] && r == s.(insights := r.insights)
  {
  }

  /** `toggleSidebar` negates `sidebarOpen` alone, so toggling twice restores the state. */
  lemma ToggleSidebarTwice(s: AppState)
    ensures Apply(s, ToggleSidebar).sidebarOpen == !s.sidebarOpen
    ensures Apply(s, ToggleSidebar) == s.(sidebarOpen := !s.sidebarOpen)
    ensures Apply(Apply(s, ToggleSidebar), ToggleSidebar) == s
  {
  }

  /** Each document setter replaces its one field with its argument and leaves every other field as it was. */
  lemma DocumentSettersReplaceOneField(s: AppState, ds: seq<Document>, d: Option<Document>, b: bool)
    ensures Apply(s, SetDocuments(ds)) == s.(documents := ds)
    ensures Apply(s, SetSelectedDocument(d)) == s.(selectedDocument := d)
    ensures Apply(s, SetIsUploading(b)) == s.(isUploading := b)
  {
  }

  /** Each chat setter replaces its one field with its argument and leaves every other field as it was. */
  lemma ChatSettersReplaceOneField(s: AppState, cs: seq<Chat>, c: Option<Chat>, b: bool)
    ensures Apply(s, SetChats(cs)) == s.(chats := cs)
    ensures Apply(s, SetCurrentChat(c)) == s.(currentChat := c)
    ensures Apply(s, SetIsLoadingChat(b)) == s.(isLoadingChat := b)
  {
  }

  /** The insight and view setters replace their one field and leave every other field as it was. */
  lemma InsightSettersReplaceOneField(s: AppState, ins: seq<DocumentInsight>, b: bool, v: View)
    ensures Apply(s, SetInsights(ins)) == s.(insights := ins)
    ensures Apply(s, SetIsLoadingInsights(b)) == s.(isLoadingInsights := b)
    ensures Apply(s, SetCurrentView(v)) == s.(currentView := v)
  {
  }
}

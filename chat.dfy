/** The chat router: the access gate shared by reading and writing (chat
    members, and guests holding the chat's link token), the message log, and
    the issuing of the permanent guest link. */
module Chats {
  import opened Common
  import opened Store

  // ------------------------------------------------------------ access gate

  /** JavaScript truthiness of an optional string: absent, null and "" are all falsy. */
  predicate Present(token: Option<string>)
  {
    token.Some? && token.value != ""
  }

  /** The user is the chat's creator or its participant. */
  predicate IsMember(c: Chat, userId: Id)
  {
    c.creatorId == userId || c.participantId == Some(userId)
  }

  /** Some chat holds this guest token. */
  ghost predicate HoldsToken(chats: seq<Row<Chat>>, token: string)
  {
    exists i :: 0 <= i < |chats| && chats[i].data.guestToken == Some(token)
  }

  /** The chat with this id exists and the user is one of its members. */
  ghost predicate MemberOf(chats: seq<Row<Chat>>, chatId: Id, userId: Id)
  {
    exists i :: 0 <= i < |chats| && chats[i].id == chatId && IsMember(chats[i].data, userId)
  }

  /** `findUnique({ where: { guestToken } })`: the position of the chat holding the token. */
  function TokenIndex(chats: seq<Row<Chat>>, token: string): (r: Option<nat>)
    ensures r.Some? ==> r.value < |chats| && chats[r.value].data.guestToken == Some(token)
    ensures r.None? <==> !HoldsToken(chats, token)
  {
    FirstIndex(chats, (c: Row<Chat>) => c.data.guestToken == Some(token))
  }

  /** The gate of getMessages. A truthy guest token selects the chat holding
      it; otherwise the chat is looked up by id, and a truthy user id must
      then be a member. No chat is NOT_FOUND, a non-member FORBIDDEN, no
      credential at all UNAUTHORIZED. */
  function Authorize(chats: seq<Row<Chat>>, chatId: Id, userId: Option<Id>, guestToken: Option<string>): (r: Result<Row<Chat>>)
    requires UniqueIds(chats)
    ensures r.Ok? ==> r.value in chats
    ensures Present(guestToken) ==>
      && (r.Ok? <==> HoldsToken(chats, guestToken.value))
      && (r.Ok? ==> r.value.data.guestToken == guestToken)
      && (r.Err? ==> r.code == NotFound)
    ensures !Present(guestToken) ==>
      && (r.Ok? ==> r.value.id == chatId)
      && (r.Ok? <==> userId.Some? && MemberOf(chats, chatId, userId.value))
      && (r == Err(NotFound) <==> !HasId(chats, chatId))
      && (r == Err(Unauthorized) <==> HasId(chats, chatId) && userId.None?)
      && (r == Err(Forbidden) <==> HasId(chats, chatId) && userId.Some? && !MemberOf(chats, chatId, userId.value))
  {
    var found := if Present(guestToken) then TokenIndex(chats, guestToken.value) else IndexOfId(chats, chatId);
    if found.None? then Err(NotFound)
    else
      var chat := chats[found.value];
      assert chat in chats;
      if Present(guestToken) then
        if chat.data.guestToken != guestToken then Err(Forbidden) else Ok(chat)
      else if userId.Some? then
        assert MemberOf(chats, chatId, userId.value) ==> IsMember(chat.data, userId.value);
        if !IsMember(chat.data, userId.value) then Err(Forbidden) else Ok(chat)
      else Err(Unauthorized)
  }

  // ------------------------------------------------------------ getMessages

  /** What getMessages returns about the chat itself. */
  datatype ChatView = ChatView(id: Id, chatType: ChatType, creatorId: Id, participantId: Option<Id>)

  datatype MessagesPage = MessagesPage(messages: seq<Row<Message>>, chat: ChatView)

  function ViewOfChat(c: Row<Chat>): ChatView
  {
    ChatView(c.id, c.data.chatType, c.data.creatorId, c.data.participantId)
  }

  /** `message.findMany({ where: { chatId }, orderBy: { createdAt: "asc" } })`. */
  function ChatMessages(messages: seq<Row<Message>>, chatId: Id): (r: seq<Row<Message>>)
    ensures forall m :: m in r <==> m in messages && m.data.chatId == chatId
    ensures CreatedAscending(messages) ==> CreatedAscending(r)
  {
    var p := (m: Row<Message>) => m.data.chatId == chatId;
    assert CreatedAscending(messages) ==> CreatedAscending(Filter(messages, p)) by {
      if CreatedAscending(messages) {
        FilterAscending(messages, p);
      }
    }
    Filter(messages, p)
  }

  /** getMessages as written: once the gate admits the caller, the messages
      are fetched by the chat id the caller passed, even on the guest path
      where the gate selected the chat by its token. */
  function GetMessagesAsWritten(chats: seq<Row<Chat>>, messages: seq<Row<Message>>, chatId: Id, userId: Option<Id>, guestToken: Option<string>): (r: Result<MessagesPage>)
    requires UniqueIds(chats)
    ensures r.Err? <==> Authorize(chats, chatId, userId, guestToken).Err?
    ensures r.Err? ==> r.code == Authorize(chats, chatId, userId, guestToken).code
    ensures r.Ok? ==> r.value.chat == ViewOfChat(Authorize(chats, chatId, userId, guestToken).value)
    ensures r.Ok? ==> forall m :: m in r.value.messages <==> m in messages && m.data.chatId == chatId
    ensures r.Ok? && CreatedAscending(messages) ==> CreatedAscending(r.value.messages)
  {
    match Authorize(chats, chatId, userId, guestToken)
    case Err(code) => Err(code)
    case Ok(chat) => Ok(MessagesPage(ChatMessages(messages, chatId), ViewOfChat(chat)))
  }

  /** A guest holding the link of one chat reads another chat's messages by
      passing that chat's id. */
  lemma GuestReadsOtherChat()
    ensures var chats := [Row(0, 0, Chat(Internal, 1, Some(2), Some("t"))), Row(1, 1, Chat(Internal, 3, Some(4), None))];
      var messages := [Row(2, 2, Message(1, 3, "private"))];
      var r := GetMessagesAsWritten(chats, messages, 1, None, Some("t"));
      && r.Ok? && r.value.chat.id == 0
      && r.value.messages == [Row(2, 2, Message(1, 3, "private"))]
  {
    var chats := [Row(0, 0, Chat(Internal, 1, Some(2), Some("t"))), Row(1, 1, Chat(Internal, 3, Some(4), None))];
    var messages := [Row(2, 2, Message(1, 3, "private"))];
    assert HoldsToken(chats, "t") by {
      assert chats[0].data.guestToken == Some("t");
    }
    var p := (m: Row<Message>) => m.data.chatId == 1;
    assert Filter(messages, p) == messages;
  }

  /** The guest screen passes a chat id that no message carries; as written,
      the guest then reads the chat's header and an empty log. */
  lemma GuestSeesNothing(chats: seq<Row<Chat>>, messages: seq<Row<Message>>, chatId: Id, token: string)
    requires UniqueIds(chats) && token != ""
    requires forall m :: m in messages ==> m.data.chatId != chatId
    ensures var r := GetMessagesAsWritten(chats, messages, chatId, None, Some(token));
      && (r.Ok? <==> HoldsToken(chats, token))
      && (r.Ok? ==> r.value.messages == [])
  {
    FilterNone(messages, (m: Row<Message>) => m.data.chatId == chatId);
  }

  /** getMessages with the messages fetched for the chat the gate admitted:
      every returned message belongs to the returned chat. */
  function GetMessages(chats: seq<Row<Chat>>, messages: seq<Row<Message>>, chatId: Id, userId: Option<Id>, guestToken: Option<string>): (r: Result<MessagesPage>)
    requires UniqueIds(chats)
    ensures r.Err? <==> Authorize(chats, chatId, userId, guestToken).Err?
    ensures r.Err? ==> r.code == Authorize(chats, chatId, userId, guestToken).code
    ensures r.Ok? ==> r.value.chat == ViewOfChat(Authorize(chats, chatId, userId, guestToken).value)
    ensures r.Ok? ==> exists c :: c in chats && r.value.chat == ViewOfChat(c)
    ensures r.Ok? ==> forall m :: m in r.value.messages <==> m in messages && m.data.chatId == r.value.chat.id
    ensures r.Ok? && CreatedAscending(messages) ==> CreatedAscending(r.value.messages)
  {
    match Authorize(chats, chatId, userId, guestToken)
    case Err(code) => Err(code)
    case Ok(chat) => Ok(MessagesPage(ChatMessages(messages, chat.id), ViewOfChat(chat)))
  }

  /** In the store, a chat's log is read oldest first. */
  lemma LogOldestFirst(t: Tables, chatId: Id, userId: Option<Id>, guestToken: Option<string>)
    requires t.Valid()
    ensures (StampedUniqueIds(t.chats, t.clock);
             var r := GetMessages(t.chats, t.messages, chatId, userId, guestToken);
             r.Ok? ==> CreatedAscending(r.value.messages))
  {
    StampedAscending(t.messages, t.clock);
  }

  /** On a member's read the two readings agree; they differ only on the guest path. */
  lemma GetMessagesAgreeForMembers(chats: seq<Row<Chat>>, messages: seq<Row<Message>>, chatId: Id, userId: Option<Id>, guestToken: Option<string>)
    requires UniqueIds(chats) && !Present(guestToken)
    ensures GetMessages(chats, messages, chatId, userId, guestToken) == GetMessagesAsWritten(chats, messages, chatId, userId, guestToken)
  {
  }

  // ------------------------------------------------------------ sendMessage

  /** The checks of sendMessage, in order: non-empty content (input schema),
      the chat by id, then the guest token against the chat's stored token
      when one is supplied, and otherwise the sender's membership. */
  function SendGate(chats: seq<Row<Chat>>, chatId: Id, content: string, senderId: Id, guestToken: Option<string>): (r: Option<ErrorCode>)
    requires UniqueIds(chats)
    ensures r == Some(BadRequest) <==> content == ""
    ensures content != "" ==> (r == Some(NotFound) <==> !HasId(chats, chatId))
    ensures r.None? <==>
      && content != ""
      && (if Present(guestToken) then exists i :: 0 <= i < |chats| && chats[i].id == chatId && chats[i].data.guestToken == guestToken
          else MemberOf(chats, chatId, senderId))
    ensures r.Some? ==> r.value in {BadRequest, NotFound, Forbidden}
  {
    if content == "" then Some(BadRequest)
    else match IndexOfId(chats, chatId)
      case None => Some(NotFound)
      case Some(k) =>
        var chat := chats[k];
        if Present(guestToken) then
          if chat.data.guestToken == guestToken then None else Some(Forbidden)
        else
          if IsMember(chat.data, senderId) then None else Some(Forbidden)
  }

  /** sendMessage, as a change of the store: a message admitted by the gate
      is appended to the log, and nothing else changes. */
  function SendEffect(t: Tables, chatId: Id, content: string, senderId: Id, guestToken: Option<string>): (out: (Tables, Result<Row<Message>>))
    requires t.Valid()
    ensures out.0.Valid()
    ensures (StampedUniqueIds(t.chats, t.clock);
             out.1.Err? <==> SendGate(t.chats, chatId, content, senderId, guestToken).Some?)
    ensures (StampedUniqueIds(t.chats, t.clock);
             out.1.Err? ==> out.0 == t && Some(out.1.code) == SendGate(t.chats, chatId, content, senderId, guestToken))
  {
    StampedUniqueIds(t.chats, t.clock);
    match SendGate(t.chats, chatId, content, senderId, guestToken)
    case Some(code) => (t, Err(code))
    case None => (InsertMessage(t, Message(chatId, senderId, content)), Ok(Row(t.clock, t.clock, Message(chatId, senderId, content))))
  }

  /** sendMessage: the handler, which leaves the store and answers as `SendEffect` says. */
  method SendMessage(db: Database, chatId: Id, content: string, senderId: Id, guestToken: Option<string>) returns (r: Result<Row<Message>>)
    requires db.Valid()
    modifies db
    ensures db.Valid()
    ensures (db.tables, r) == SendEffect(old(db.tables), chatId, content, senderId, guestToken)
  {
    if content == "" {
      return Err(BadRequest);
    }
    StampedUniqueIds(db.tables.chats, db.tables.clock);
    var found := IndexOfId(db.tables.chats, chatId);
    if found.None? {
      return Err(NotFound);
    }
    var chat := db.tables.chats[found.value];
    var hasAccess;
    if Present(guestToken) {
      hasAccess := chat.data.guestToken == guestToken;
    } else {
      hasAccess := IsMember(chat.data, senderId);
    }
    if !hasAccess {
      return Err(Forbidden);
    }
    var message := Row(db.tables.clock, db.tables.clock, Message(chatId, senderId, content));
    db.tables := InsertMessage(db.tables, message.data);
    return Ok(message);
  }

  /** An accepted message is appended as the newest row of the log, nothing
      else changes but the counter, and it is the last message a member
      reading that chat sees. */
  lemma SentMessageIsRead(t: Tables, chatId: Id, content: string, senderId: Id, guestToken: Option<string>, reader: Id)
    requires t.Valid()
    ensures var out := SendEffect(t, chatId, content, senderId, guestToken);
      out.1.Ok? ==>
        && out.0 == t.(messages := t.messages + [out.1.value], clock := t.clock + 1)
        && out.1.value.data == Message(chatId, senderId, content)
        && (MemberOf(t.chats, chatId, reader) ==>
              (StampedUniqueIds(out.0.chats, out.0.clock);
               var page := GetMessages(out.0.chats, out.0.messages, chatId, Some(reader), None);
               page.Ok? && out.1.value in page.value.messages
               && page.value.messages[|page.value.messages| - 1] == out.1.value))
  {
    var out := SendEffect(t, chatId, content, senderId, guestToken);
    if out.1.Ok? && MemberOf(t.chats, chatId, reader) {
      StampedUniqueIds(t.chats, t.clock);
      var page := GetMessages(out.0.chats, out.0.messages, chatId, Some(reader), None);
      var p := (m: Row<Message>) => m.data.chatId == chatId;
      FilterAppendLast(t.messages, out.1.value, p);
    }
  }

  /** Filtering a table extended by one matching row ends in that row. */
  lemma {:induction false} FilterAppendLast<T(!new)>(s: seq<T>, x: T, p: T -> bool)
    requires p(x)
    ensures Filter(s + [x], p) == Filter(s, p) + [x]
  {
    if s != [] {
      assert (s + [x])[1..] == s[1..] + [x];
      FilterAppendLast(s[1..], x, p);
    } else {
      assert Filter([x], p) == [x] + Filter([], p);
    }
  }

  /** A guest whose token is not the chat's cannot write, even when it opens another chat. */
  lemma ForeignTokenRejected(chats: seq<Row<Chat>>, chatId: Id, content: string, senderId: Id, token: string, k: nat)
    requires UniqueIds(chats) && content != "" && token != ""
    requires k < |chats| && chats[k].id == chatId && chats[k].data.guestToken != Some(token)
    ensures SendGate(chats, chatId, content, senderId, Some(token)) == Some(Forbidden)
  {
  }

  // --------------------------------------------------- generateExternalLink

  type Byte = b: int | 0 <= b < 256

  /** The lower-case hex digit of a nibble. */
  function HexDigit(n: nat): (c: char)
    requires n < 16
    ensures IsHexDigit(c)
  {
    if n < 10 then ('0' as int + n) as char else ('a' as int + n - 10) as char
  }

  predicate IsHexDigit(c: char)
  {
    '0' <= c <= '9' || 'a' <= c <= 'f'
  }

  /** `Buffer.toString('hex')`: two lower-case hex digits per byte, high nibble first. */
  function Hex(bytes: seq<Byte>): (s: string)
    ensures |s| == 2 * |bytes|
    ensures forall i :: 0 <= i < |s| ==> IsHexDigit(s[i])
  {
    if bytes == [] then ""
    else [HexDigit(bytes[0] / 16), HexDigit(bytes[0] % 16)] + Hex(bytes[1..])
  }

  /** The value of a lower-case hex digit. */
  function DigitValue(c: char): (v: nat)
    requires IsHexDigit(c)
    ensures v < 16 && HexDigit(v) == c
  {
    if '0' <= c <= '9' then c as int - '0' as int else c as int - 'a' as int + 10
  }

  /** Reading a hex string back into bytes. */
  function Unhex(s: string): (bytes: seq<Byte>)
    requires |s| % 2 == 0 && forall i :: 0 <= i < |s| ==> IsHexDigit(s[i])
    ensures |bytes| * 2 == |s|
  {
    if s == [] then []
    else
      assert IsHexDigit(s[0]) && IsHexDigit(s[1]);
      [DigitValue(s[0]) * 16 + DigitValue(s[1])] + Unhex(s[2..])
  }

  /** A byte reads back from its two digits. */
  lemma ByteDigits(b: Byte)
    ensures DigitValue(HexDigit(b / 16)) * 16 + DigitValue(HexDigit(b % 16)) == b
  {
  }

  /** The hex encoding loses nothing: distinct random bytes give distinct tokens. */
  lemma {:induction false} HexRoundTrip(bytes: seq<Byte>)
    ensures Unhex(Hex(bytes)) == bytes
  {
    if bytes != [] {
      var s := Hex(bytes);
      assert s[2..] == Hex(bytes[1..]);
      HexRoundTrip(bytes[1..]);
      ByteDigits(bytes[0]);
    }
  }

  const ExternalChatUrlPrefix := "https://spordateur.com/chat/external/"

  datatype Link = Link(url: string, token: string)

  function LinkFor(token: string): (l: Link)
    ensures l.token == token && l.url == ExternalChatUrlPrefix + token
  {
    Link(ExternalChatUrlPrefix + token, token)
  }

  /** generateExternalLink, as a change of the store. A member of the chat
      gets the chat's existing token if it has a truthy one; otherwise the
      hex of 32 fresh random bytes is stored as the chat's token. A token some
      other chat already holds breaks the column's uniqueness and the update
      fails with an error the handler does not catch. */
  function LinkEffect(t: Tables, chatId: Id, userId: Id, entropy: seq<Byte>): (out: (Tables, Result<Link>))
    requires t.Valid() && |entropy| == 32
    ensures out.0.Valid()
    ensures out.0.swipes == t.swipes && out.0.matches == t.matches && out.0.messages == t.messages && out.0.users == t.users
  {
    match IndexOfId(t.chats, chatId)
    case None => (t, Err(NotFound))
    case Some(k) =>
      var chat := t.chats[k].data;
      if !IsMember(chat, userId) then (t, Err(Forbidden))
      else if Present(chat.guestToken) then (t, Ok(LinkFor(chat.guestToken.value)))
      else
        var token := Hex(entropy);
        if TokenIndex(t.chats, token).Some? then (t, Err(InternalServerError))
        else (SetGuestToken(t, k, token), Ok(LinkFor(token)))
  }

  /** generateExternalLink: the handler, which leaves the store and answers as `LinkEffect` says. */
  method GenerateExternalLink(db: Database, chatId: Id, userId: Id, entropy: seq<Byte>) returns (r: Result<Link>)
    requires db.Valid() && |entropy| == 32
    modifies db
    ensures db.Valid()
    ensures (db.tables, r) == LinkEffect(old(db.tables), chatId, userId, entropy)
  {
    var found := IndexOfId(db.tables.chats, chatId);
    if found.None? {
      return Err(NotFound);
    }
    var chat := db.tables.chats[found.value].data;
    if !IsMember(chat, userId) {
      return Err(Forbidden);
    }
    if Present(chat.guestToken) {
      return Ok(LinkFor(chat.guestToken.value));
    }
    var guestToken := Hex(entropy);
    if TokenIndex(db.tables.chats, guestToken).Some? {
      return Err(InternalServerError);
    }
    db.tables := SetGuestToken(db.tables, found.value, guestToken);
    return Ok(LinkFor(guestToken));
  }

  /** The chat at position `k` with the given guest token. */
  function WithToken(t: Tables, k: nat, token: string): Tables
    requires k < |t.chats|
  {
    t.(chats := t.chats[k := TokenSet(t.chats[k], token)])
  }

  /** Only members get a link, and the only change is the token of that one
      chat, which had none that counts. */
  lemma LinkOnlyForMembers(t: Tables, chatId: Id, userId: Id, entropy: seq<Byte>)
    requires t.Valid() && |entropy| == 32
    ensures var out := LinkEffect(t, chatId, userId, entropy);
      && (out.1.Ok? ==> MemberOf(t.chats, chatId, userId))
      && (out.1 == Err(NotFound) <==> !HasId(t.chats, chatId))
      && (|| out.0 == t
          || exists k :: && 0 <= k < |t.chats| && t.chats[k].id == chatId
                         && !Present(t.chats[k].data.guestToken) && out.1.Ok?
                         && out.0 == WithToken(t, k, out.1.value.token))
  {
    var out := LinkEffect(t, chatId, userId, entropy);
    match IndexOfId(t.chats, chatId)
    case None =>
    case Some(k) =>
      assert t.chats[k].id == chatId;
      if out.0 != t {
        assert out.0 == WithToken(t, k, out.1.value.token);
      }
  }

  /** A member gets a link: the chat's truthy token unchanged if it has one,
      and otherwise a fresh one unless another chat holds it already; a
      non-member of a stored chat is FORBIDDEN. Every link is the external-chat
      URL of its token. */
  lemma LinkForMembers(t: Tables, chatId: Id, userId: Id, entropy: seq<Byte>)
    requires t.Valid() && |entropy| == 32
    ensures var out := LinkEffect(t, chatId, userId, entropy);
      && (HasId(t.chats, chatId) && !MemberOf(t.chats, chatId, userId) ==> out.1 == Err(Forbidden))
      && (MemberOf(t.chats, chatId, userId) && !HoldsToken(t.chats, Hex(entropy)) ==> out.1.Ok?)
      && (forall k :: 0 <= k < |t.chats| && t.chats[k].id == chatId && IsMember(t.chats[k].data, userId) ==>
            Present(t.chats[k].data.guestToken) ==> out.0 == t && out.1 == Ok(LinkFor(t.chats[k].data.guestToken.value)))
      && (out.1.Ok? ==> out.1.value.url == ExternalChatUrlPrefix + out.1.value.token)
  {
    StampedUniqueIds(t.chats, t.clock);
  }

  /** A freshly issued token is the hex of the random bytes: 64 digits, from which the bytes read back. */
  lemma NewTokenIsHex(t: Tables, chatId: Id, userId: Id, entropy: seq<Byte>)
    requires t.Valid() && |entropy| == 32
    ensures var out := LinkEffect(t, chatId, userId, entropy);
      out.1.Ok? && out.0 != t ==>
        && out.1.value.token == Hex(entropy) && |out.1.value.token| == 64
        && Unhex(out.1.value.token) == entropy
  {
    HexRoundTrip(entropy);
  }

  /** The link never rotates: asking again returns the same link and changes nothing. */
  lemma LinkIsStable(t: Tables, chatId: Id, userId: Id, entropy: seq<Byte>, entropy': seq<Byte>)
    requires t.Valid() && |entropy| == 32 && |entropy'| == 32
    ensures var first := LinkEffect(t, chatId, userId, entropy);
      first.1.Ok? ==> LinkEffect(first.0, chatId, userId, entropy') == (first.0, first.1)
  {
    var first := LinkEffect(t, chatId, userId, entropy);
    if first.1.Ok? && first.0 != t {
      var k := IndexOfId(t.chats, chatId).value;
      var t1 := first.0;
      assert t1.chats[k].id == chatId;
      StampedUniqueIds(t1.chats, t1.clock);
      var k1 := IndexOfId(t1.chats, chatId).value;
      assert k1 == k;
      assert |Hex(entropy)| == 64;
    }
  }

  /** The issued token opens the chat to a guest, for reading and for writing. */
  lemma LinkOpensChat(t: Tables, chatId: Id, userId: Id, entropy: seq<Byte>, anyChatId: Id, content: string, senderId: Id)
    requires t.Valid() && |entropy| == 32 && content != ""
    ensures var out := LinkEffect(t, chatId, userId, entropy);
      out.1.Ok? ==>
        (StampedUniqueIds(out.0.chats, out.0.clock);
         var page := GetMessagesAsWritten(out.0.chats, out.0.messages, anyChatId, None, Some(out.1.value.token));
         var fixedPage := GetMessages(out.0.chats, out.0.messages, anyChatId, None, Some(out.1.value.token));
         && page.Ok? && page.value.chat.id == chatId
         && fixedPage.Ok? && fixedPage.value.messages == ChatMessages(out.0.messages, chatId)
         && SendGate(out.0.chats, chatId, content, senderId, Some(out.1.value.token)).None?)
  {
    var out := LinkEffect(t, chatId, userId, entropy);
    if out.1.Ok? {
      var t1 := out.0;
      var token := out.1.value.token;
      StampedUniqueIds(t1.chats, t1.clock);
      TokensPairwise(t1.chats);
      var k := IndexOfId(t.chats, chatId).value;
      assert t1.chats[k].id == chatId && t1.chats[k].data.guestToken == Some(token);
      assert |Hex(entropy)| == 64;
      assert token != "";
      assert HoldsToken(t1.chats, token);
      var c := Authorize(t1.chats, anyChatId, None, Some(token)).value;
      var j :| 0 <= j < |t1.chats| && t1.chats[j] == c;
      assert j == k;
    }
  }
}

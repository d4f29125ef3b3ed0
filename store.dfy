/** The relational store the handlers share (the Prisma client): one table per
    entity, each a sequence of rows in insertion order, and a monotone counter
    that supplies fresh ids and creation stamps. */
module Store {
  import opened Common

  datatype UserStatus = Active | Blocked | Invisible

  datatype User = User(
    email: string,
    passwordHash: string,
    name: string,
    age: int,
    gender: string,
    bio: Option<string>,
    location: string,
    sports: seq<string>,
    images: seq<string>,
    status: UserStatus)

  datatype Direction = Like | Pass

  datatype Swipe = Swipe(fromUserId: Id, toUserId: Id, direction: Direction)

  datatype Match = Match(fromUserId: Id, toUserId: Id, chatId: Id)

  datatype ChatType = Internal | External

  /** `participantId` is null for guest chats; `guestToken` is null until a link is issued. */
  datatype Chat = Chat(chatType: ChatType, creatorId: Id, participantId: Option<Id>, guestToken: Option<string>)

  datatype Message = Message(chatId: Id, senderId: Id, content: string)

  datatype PartnerStatus = Pending | Approved | Rejected | Suspended

  datatype Partner = Partner(
    email: string,
    passwordHash: string,
    companyName: string,
    description: Option<string>,
    websiteLink: Option<string>,
    address: string,
    status: PartnerStatus)

  /** `price` is a JavaScript number; the model keeps it as a real. */
  datatype Offer = Offer(
    partnerId: Id,
    title: string,
    price: real,
    description: string,
    datetime: string,
    location: string,
    imageUrl: string,
    sport: string,
    isActive: bool)

  datatype Reservation = Reservation(offerId: Id, userId: Id)

  datatype Admin = Admin(email: string, passwordHash: string, name: string)

  /** Both orderings of a user pair name the same unordered pair. */
  predicate SamePair(m: Match, a: Id, b: Id)
  {
    (m.fromUserId == a && m.toUserId == b) || (m.fromUserId == b && m.toUserId == a)
  }

  /** At most one match per unordered user pair: no match repeats the pair of an earlier one. */
  ghost predicate OneMatchPerPair(matches: seq<Row<Match>>)
    decreases |matches|
  {
    matches == [] ||
    var n := |matches| - 1;
    && OneMatchPerPair(matches[..n])
    && forall i :: 0 <= i < n ==> !SamePair(matches[i].data, matches[n].data.fromUserId, matches[n].data.toUserId)
  }

  /** Every match names a chat that exists. */
  ghost predicate MatchChatsExist(matches: seq<Row<Match>>, chats: seq<Row<Chat>>)
  {
    forall i :: 0 <= i < |matches| ==> HasId(chats, matches[i].data.chatId)
  }

  /** `guestToken` is a unique column: a chat's token is held by no earlier chat. */
  ghost predicate GuestTokensUnique(chats: seq<Row<Chat>>)
    decreases |chats|
  {
    chats == [] ||
    var n := |chats| - 1;
    && GuestTokensUnique(chats[..n])
    && (chats[n].data.guestToken.Some? ==> forall i :: 0 <= i < n ==> chats[i].data.guestToken != chats[n].data.guestToken)
  }

  /** `email` is a unique column of the users. */
  ghost predicate UserEmailsUnique(users: seq<Row<User>>)
    decreases |users|
  {
    users == [] ||
    var n := |users| - 1;
    && UserEmailsUnique(users[..n])
    && forall i :: 0 <= i < n ==> users[i].data.email != users[n].data.email
  }

  /** `email` is a unique column of the partners. */
  ghost predicate PartnerEmailsUnique(partners: seq<Row<Partner>>)
    decreases |partners|
  {
    partners == [] ||
    var n := |partners| - 1;
    && PartnerEmailsUnique(partners[..n])
    && forall i :: 0 <= i < n ==> partners[i].data.email != partners[n].data.email
  }

  /** `email` is a unique column of the admins. */
  ghost predicate AdminEmailsUnique(admins: seq<Row<Admin>>)
    decreases |admins|
  {
    admins == [] ||
    var n := |admins| - 1;
    && AdminEmailsUnique(admins[..n])
    && forall i :: 0 <= i < n ==> admins[i].data.email != admins[n].data.email
  }

  /** The chat row with its guest token set. */
  function TokenSet(c: Row<Chat>, token: string): (r: Row<Chat>)
    ensures r.id == c.id && r.createdAt == c.createdAt && r.data.guestToken == Some(token)
  {
    Row(c.id, c.createdAt, c.data.(guestToken := Some(token)))
  }

  /** The tables of the store and the counter that stamps new rows. */
  datatype Tables = Tables(
    users: seq<Row<User>>,
    swipes: seq<Row<Swipe>>,
    matches: seq<Row<Match>>,
    chats: seq<Row<Chat>>,
    messages: seq<Row<Message>>,
    partners: seq<Row<Partner>>,
    offers: seq<Row<Offer>>,
    reservations: seq<Row<Reservation>>,
    admins: seq<Row<Admin>>,
    clock: nat)
  {
    /** The store's constraints: stamped tables, unique e-mails and guest
        tokens, one match per pair, and matches that reference real chats. */
    ghost predicate Valid()
    {
      && Stamped(users, clock) && Stamped(swipes, clock) && Stamped(matches, clock)
      && Stamped(chats, clock) && Stamped(messages, clock) && Stamped(partners, clock)
      && Stamped(offers, clock) && Stamped(reservations, clock) && Stamped(admins, clock)
      && UserEmailsUnique(users) && PartnerEmailsUnique(partners) && AdminEmailsUnique(admins)
      && OneMatchPerPair(matches) && MatchChatsExist(matches, chats)
      && GuestTokensUnique(chats)
    }
  }

  const Empty := Tables([], [], [], [], [], [], [], [], [], 0)

  // Each write below is one Prisma `create`, `update` or `delete` on one table:
  // a `create` stamps the new row with the clock and advances it, and no write
  // touches any other table.

  function InsertSwipe(t: Tables, data: Swipe): (r: Tables)
    requires t.Valid()
    ensures r.Valid()
  {
    StampedAppend(t.swipes, t.clock, data);
    Advance(t);
    t.(swipes := t.swipes + [Row(t.clock, t.clock, data)], clock := t.clock + 1)
  }

  /** A new chat carries no guest token yet. */
  function InsertChat(t: Tables, data: Chat): (r: Tables)
    requires t.Valid() && data.guestToken == None
    ensures r.Valid()
  {
    var row := Row(t.clock, t.clock, data);
    StampedAppend(t.chats, t.clock, data);
    TokensUniqueAppend(t.chats, row);
    ChatsExistGrow(t.matches, t.chats, row);
    Advance(t);
    t.(chats := t.chats + [row], clock := t.clock + 1)
  }

  /** A new match is the pair's first and names an existing chat. */
  function InsertMatch(t: Tables, data: Match): (r: Tables)
    requires t.Valid()
    requires forall i :: 0 <= i < |t.matches| ==> !SamePair(t.matches[i].data, data.fromUserId, data.toUserId)
    requires HasId(t.chats, data.chatId)
    ensures r.Valid()
  {
    var row := Row(t.clock, t.clock, data);
    StampedAppend(t.matches, t.clock, data);
    OneMatchAppend(t.matches, row);
    ChatsExistAppend(t.matches, t.chats, row);
    Advance(t);
    t.(matches := t.matches + [row], clock := t.clock + 1)
  }

  function InsertMessage(t: Tables, data: Message): (r: Tables)
    requires t.Valid()
    ensures r.Valid()
  {
    StampedAppend(t.messages, t.clock, data);
    Advance(t);
    t.(messages := t.messages + [Row(t.clock, t.clock, data)], clock := t.clock + 1)
  }

  /** A new user's e-mail is not taken. */
  function InsertUser(t: Tables, data: User): (r: Tables)
    requires t.Valid()
    requires forall i :: 0 <= i < |t.users| ==> t.users[i].data.email != data.email
    ensures r.Valid()
  {
    var row := Row(t.clock, t.clock, data);
    StampedAppend(t.users, t.clock, data);
    UserEmailsAppend(t.users, row);
    Advance(t);
    t.(users := t.users + [row], clock := t.clock + 1)
  }

  /** A new partner's e-mail is not taken. */
  function InsertPartner(t: Tables, data: Partner): (r: Tables)
    requires t.Valid()
    requires forall i :: 0 <= i < |t.partners| ==> t.partners[i].data.email != data.email
    ensures r.Valid()
  {
    var row := Row(t.clock, t.clock, data);
    StampedAppend(t.partners, t.clock, data);
    PartnerEmailsAppend(t.partners, row);
    Advance(t);
    t.(partners := t.partners + [row], clock := t.clock + 1)
  }

  function InsertOffer(t: Tables, data: Offer): (r: Tables)
    requires t.Valid()
    ensures r.Valid()
  {
    StampedAppend(t.offers, t.clock, data);
    Advance(t);
    t.(offers := t.offers + [Row(t.clock, t.clock, data)], clock := t.clock + 1)
  }

  /** Deleting the offer at position `k`; the others keep their order. */
  function DeleteOfferAt(t: Tables, k: nat): (r: Tables)
    requires t.Valid() && k < |t.offers|
    ensures r.Valid()
  {
    BelowRemove(t.offers, t.clock, t.clock, k);
    t.(offers := t.offers[..k] + t.offers[k + 1..])
  }

  /** Setting the guest token of the chat at position `k` to a token no chat holds. */
  function SetGuestToken(t: Tables, k: nat, token: string): (r: Tables)
    requires t.Valid() && k < |t.chats|
    requires forall i :: 0 <= i < |t.chats| ==> t.chats[i].data.guestToken != Some(token)
    ensures r.Valid()
  {
    var chats := t.chats[k := TokenSet(t.chats[k], token)];
    assert Stamped(chats, t.clock) by {
      BelowSameStamps(t.chats, chats, t.clock, t.clock);
    }
    assert MatchChatsExist(t.matches, chats) by {
      forall i | 0 <= i < |t.matches| ensures HasId(chats, t.matches[i].data.chatId) {
        var j :| 0 <= j < |t.chats| && t.chats[j].id == t.matches[i].data.chatId;
        assert chats[j].id == t.chats[j].id;
      }
    }
    TokensUniqueSet(t.chats, k, token);
    t.(chats := chats)
  }

  /** Every table stays stamped when the clock moves one tick ahead. */
  lemma Advance(t: Tables)
    requires t.Valid()
    ensures var later := t.clock + 1;
      && Stamped(t.users, later) && Stamped(t.swipes, later) && Stamped(t.matches, later)
      && Stamped(t.chats, later) && Stamped(t.messages, later) && Stamped(t.partners, later)
      && Stamped(t.offers, later) && Stamped(t.reservations, later) && Stamped(t.admins, later)
  {
  }

  /** The Prisma client: the one object whose state every handler reads and writes. */
  class Database {
    var tables: Tables

    ghost predicate Valid()
      reads this
    {
      tables.Valid()
    }

    /** An empty store. */
    constructor ()
      ensures Valid() && tables == Empty
    {
      tables := Empty;
    }
  }

  /** Appending a row stamped with the clock keeps a table stamped once the clock advances. */
  lemma StampedAppend<T>(rows: seq<Row<T>>, clock: nat, data: T)
    requires Stamped(rows, clock)
    ensures Stamped(rows + [Row(clock, clock, data)], clock + 1)
  {
    assert (rows + [Row(clock, clock, data)])[..|rows|] == rows;
  }

  lemma TokensUniqueAppend(chats: seq<Row<Chat>>, row: Row<Chat>)
    requires GuestTokensUnique(chats) && row.data.guestToken == None
    ensures GuestTokensUnique(chats + [row])
  {
    assert (chats + [row])[..|chats|] == chats;
  }

  /** Setting a token no chat holds keeps the tokens unique. */
  lemma {:induction false} TokensUniqueSet(chats: seq<Row<Chat>>, k: nat, token: string)
    requires GuestTokensUnique(chats) && k < |chats|
    requires forall i :: 0 <= i < |chats| ==> chats[i].data.guestToken != Some(token)
    ensures GuestTokensUnique(chats[k := TokenSet(chats[k], token)])
    decreases |chats|
  {
    var c := chats[k := TokenSet(chats[k], token)];
    var n := |chats| - 1;
    if k < n {
      TokensUniqueSet(chats[..n], k, token);
      assert c[..n] == chats[..n][k := TokenSet(chats[k], token)];
    } else {
      assert c[..n] == chats[..n];
    }
  }

  /** No two chats hold the same token. */
  lemma {:induction false} TokensPairwise(chats: seq<Row<Chat>>)
    requires GuestTokensUnique(chats)
    ensures forall i, j :: 0 <= i < j < |chats| && chats[j].data.guestToken.Some? ==> chats[i].data.guestToken != chats[j].data.guestToken
    decreases |chats|
  {
    if chats != [] {
      var n := |chats| - 1;
      TokensPairwise(chats[..n]);
      assert forall i :: 0 <= i < n ==> chats[..n][i] == chats[i];
    }
  }

  lemma ChatsExistGrow(matches: seq<Row<Match>>, chats: seq<Row<Chat>>, row: Row<Chat>)
    requires MatchChatsExist(matches, chats)
    ensures MatchChatsExist(matches, chats + [row])
  {
    var c := chats + [row];
    forall i | 0 <= i < |matches| ensures HasId(c, matches[i].data.chatId) {
      var k :| 0 <= k < |chats| && chats[k].id == matches[i].data.chatId;
      assert c[k] == chats[k];
    }
  }

  lemma ChatsExistAppend(matches: seq<Row<Match>>, chats: seq<Row<Chat>>, row: Row<Match>)
    requires MatchChatsExist(matches, chats) && HasId(chats, row.data.chatId)
    ensures MatchChatsExist(matches + [row], chats)
  {
    var m := matches + [row];
    forall i | 0 <= i < |m| ensures HasId(chats, m[i].data.chatId) {
      if i < |matches| { assert m[i] == matches[i]; }
    }
  }

  lemma OneMatchAppend(matches: seq<Row<Match>>, row: Row<Match>)
    requires OneMatchPerPair(matches)
    requires forall i :: 0 <= i < |matches| ==> !SamePair(matches[i].data, row.data.fromUserId, row.data.toUserId)
    ensures OneMatchPerPair(matches + [row])
  {
    var m := matches + [row];
    assert m[..|matches|] == matches;
    assert forall i :: 0 <= i < |matches| ==> m[i] == matches[i];
  }

  lemma UserEmailsAppend(users: seq<Row<User>>, row: Row<User>)
    requires UserEmailsUnique(users)
    requires forall i :: 0 <= i < |users| ==> users[i].data.email != row.data.email
    ensures UserEmailsUnique(users + [row])
  {
    var u := users + [row];
    assert u[..|users|] == users;
    assert forall i :: 0 <= i < |users| ==> u[i] == users[i];
  }

  lemma PartnerEmailsAppend(partners: seq<Row<Partner>>, row: Row<Partner>)
    requires PartnerEmailsUnique(partners)
    requires forall i :: 0 <= i < |partners| ==> partners[i].data.email != row.data.email
    ensures PartnerEmailsUnique(partners + [row])
  {
    var p := partners + [row];
    assert p[..|partners|] == partners;
    assert forall i :: 0 <= i < |partners| ==> p[i] == partners[i];
  }

  /** No two users share an e-mail. */
  lemma {:induction false} UserEmailsPairwise(users: seq<Row<User>>)
    requires UserEmailsUnique(users)
    ensures forall i, j :: 0 <= i < j < |users| ==> users[i].data.email != users[j].data.email
    decreases |users|
  {
    if users != [] {
      var n := |users| - 1;
      UserEmailsPairwise(users[..n]);
      assert forall i :: 0 <= i < n ==> users[..n][i] == users[i];
    }
  }

  /** No two partners share an e-mail. */
  lemma {:induction false} PartnerEmailsPairwise(partners: seq<Row<Partner>>)
    requires PartnerEmailsUnique(partners)
    ensures forall i, j :: 0 <= i < j < |partners| ==> partners[i].data.email != partners[j].data.email
    decreases |partners|
  {
    if partners != [] {
      var n := |partners| - 1;
      PartnerEmailsPairwise(partners[..n]);
      assert forall i :: 0 <= i < n ==> partners[..n][i] == partners[i];
    }
  }

  /** Removing one row keeps a table stamped. */
  lemma {:induction false} BelowRemove<T>(rows: seq<Row<T>>, idBound: nat, timeBound: nat, k: nat)
    requires Below(rows, idBound, timeBound) && k < |rows|
    ensures Below(rows[..k] + rows[k + 1..], idBound, timeBound)
    decreases |rows|
  {
    var n := |rows| - 1;
    var r := rows[..k] + rows[k + 1..];
    if k == n {
      assert r == rows[..n];
      BelowOrdered(rows, idBound, timeBound);
      if n > 0 {
        BelowWeaken(rows[..n], rows[n].id, rows[n].createdAt, idBound, timeBound);
      }
    } else {
      BelowRemove(rows[..n], rows[n].id, rows[n].createdAt, k);
      assert r[..|r| - 1] == rows[..n][..k] + rows[..n][k + 1..];
      assert r[|r| - 1] == rows[n];
    }
  }

  /** Only the stamps matter to `Below`. */
  lemma {:induction false} BelowSameStamps<T>(rows: seq<Row<T>>, rows': seq<Row<T>>, idBound: nat, timeBound: nat)
    requires Below(rows, idBound, timeBound) && |rows'| == |rows|
    requires forall i :: 0 <= i < |rows| ==> rows'[i].id == rows[i].id && rows'[i].createdAt == rows[i].createdAt
    ensures Below(rows', idBound, timeBound)
    decreases |rows|
  {
    if rows != [] {
      var n := |rows| - 1;
      BelowSameStamps(rows[..n], rows'[..n], rows[n].id, rows[n].createdAt);
    }
  }

  /** Raising the bounds keeps a table stamped. */
  lemma BelowWeaken<T>(rows: seq<Row<T>>, idBound: nat, timeBound: nat, idBound': nat, timeBound': nat)
    requires Below(rows, idBound, timeBound) && idBound <= idBound' && timeBound <= timeBound'
    ensures Below(rows, idBound', timeBound')
  {
  }

  /** No two admins share an e-mail. */
  lemma {:induction false} AdminEmailsPairwise(admins: seq<Row<Admin>>)
    requires AdminEmailsUnique(admins)
    ensures forall i, j :: 0 <= i < j < |admins| ==> admins[i].data.email != admins[j].data.email
    decreases |admins|
  {
    if admins != [] {
      var n := |admins| - 1;
      AdminEmailsPairwise(admins[..n]);
      assert forall i :: 0 <= i < n ==> admins[..n][i] == admins[i];
    }
  }

  /** Stamped rows have distinct ids. */
  lemma StampedUniqueIds<T>(rows: seq<Row<T>>, clock: nat)
    requires Stamped(rows, clock)
    ensures UniqueIds(rows)
  {
    BelowOrdered(rows, clock, clock);
  }

  /** Stamped rows are in ascending creation order. */
  lemma StampedAscending<T>(rows: seq<Row<T>>, clock: nat)
    requires Stamped(rows, clock)
    ensures CreatedAscending(rows)
  {
    BelowOrdered(rows, clock, clock);
  }
}

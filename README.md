# Spordateur backend route handlers, in Dafny

This project models the server-side decision code of the Spordateur tRPC
backend. That is four routers, each handler a short sequential transaction
over one relational store:

- **matching** (`matching.ts`): the swipe ledger, mutual-like detection that
  opens an INTERNAL chat and a match, the discovery feed, and the match
  listing;
- **chat** (`chat.ts`): the access gate (chat member, guest holding the
  chat's link token, or nobody), the message log, and the permanent guest
  link;
- **offers** (`offers.ts`): the approved-partner guard, and creating, listing
  and deleting a partner's offers;
- **auth** (`auth.ts`): user and partner registration, and the user, partner
  and admin logins.

The store is `Store.Database`, a class with one field `tables` of type
`Store.Tables`. `Tables` is a value holding one `seq<Row<T>>` per Prisma
model, plus the counter that hands out ids and `createdAt` stamps.
`Tables.Valid()` is the store invariant:

- every table is stamped in insertion order;
- e-mails of users, of partners and of admins are unique;
- `guestToken` is unique;
- there is at most one match per unordered user pair;
- every match names a stored chat.

The writes are pure functions on `Tables`, and each one preserves `Valid()`.
Each handler that writes is modelled twice:

- a function `XEffect(tables, input)` returning the new tables and the
  handler's answer (a value, or a tRPC error code);
- a method `X(db, input)` that changes `db.tables` step by step as the
  handler does, and is proved to end exactly where `XEffect` says.

The read-only handlers are functions over the tables. The lemmas state what
the handlers promise, in terms of the `Effect` functions.

Library calls are parameters:

- bcrypt is a `PasswordHasher` (a hash function and a verifier);
- zod's `email()`, `url()` and `datetime()` checks, and "`new URL(s)` does
  not throw", are the `Validators`;
- `randomBytes(32)` is a 32-byte `entropy` argument, and its hex encoding is
  modelled and proved injective.

## Model

| member | source | states |
|---|---|---|
| Common.FirstIndex | backend/trpc/routes/matching.ts:91-97 | `findFirst`: the position found satisfies the condition and no earlier one does; none is found exactly when no element satisfies it |
| Common.IndexOfId | backend/trpc/routes/chat.ts:132-134 | `findUnique` by id: the row found has the id; none is found exactly when no row has it |
| Common.Filter | backend/trpc/routes/chat.ts:90-104 | `findMany({ where })`: exactly the rows satisfying the condition, never more rows than the table |
| Common.FilterNone | backend/trpc/routes/chat.ts:90-91 | a condition no row meets filters every row out |
| Common.NewestFirst | backend/trpc/routes/offers.ts:91-94 | `findMany` ordered by `createdAt desc`: exactly the rows satisfying the condition |
| Common.FilterAscending | backend/trpc/routes/chat.ts:101-103 | filtering a table kept in creation order gives ascending `createdAt` |
| Common.NewestFirstDescending | backend/trpc/routes/offers.ts:93 | the newest-first listing of a table in creation order has strictly descending `createdAt` |
| Common.Take | backend/trpc/routes/matching.ts:59 | Prisma `take`: a prefix of at most `limit` elements, the whole list when it is shorter |
| Common.BelowOrdered | backend/trpc/routes/matching.ts:60-62 | in a stamped table, ids and creation stamps grow strictly along the table, and all lie below the counter |
| Common.RemoveAtMembers | backend/trpc/routes/offers.ts:132-134 | deleting by primary key removes exactly the rows with that id, one row |
| Store.InsertSwipe | backend/trpc/routes/matching.ts:78-84 | recording a swipe keeps the store invariant |
| Store.InsertChat | backend/trpc/routes/matching.ts:126-132 | a new chat, created without a guest token, keeps the store invariant |
| Store.InsertMatch | backend/trpc/routes/matching.ts:136-142 | a new match keeps the store invariant, given the pair had no match and its chat is stored |
| Store.InsertMessage | backend/trpc/routes/chat.ts:169-184 | a new message keeps the store invariant |
| Store.InsertUser | backend/trpc/routes/auth.ts:70-83 | a new user keeps the store invariant, given their e-mail is free |
| Store.InsertPartner | backend/trpc/routes/auth.ts:154-164 | a new partner keeps the store invariant, given their e-mail is free |
| Store.InsertOffer | backend/trpc/routes/offers.ts:62-74 | a new offer keeps the store invariant |
| Store.DeleteOfferAt | backend/trpc/routes/offers.ts:132-134 | deleting one offer keeps the store invariant |
| Store.SetGuestToken | backend/trpc/routes/chat.ts:228-231 | setting one chat's token keeps the store invariant, given no chat holds that token |
| Store.TokenSet | backend/trpc/routes/chat.ts:228-231 | the updated chat row keeps its id and stamp and now holds the token |
| Store.TokensUniqueSet | backend/trpc/routes/chat.ts:228-231 | setting a token no chat holds keeps `guestToken` unique |
| Store.TokensPairwise | backend/trpc/routes/chat.ts:33-34 | with `guestToken` unique, no two chats hold the same token, so the lookup by token is a `findUnique` |
| Store.UserEmailsPairwise | backend/trpc/routes/auth.ts:96-98 | with user e-mails unique, no two users share an e-mail |
| Store.PartnerEmailsPairwise | backend/trpc/routes/auth.ts:177-179 | with partner e-mails unique, no two partners share an e-mail |
| Store.AdminEmailsPairwise | backend/trpc/routes/auth.ts:214-216 | with admin e-mails unique, no two admins share an e-mail, so the lookup by e-mail is a `findUnique` |
| Store.OneMatchAppend | backend/trpc/routes/matching.ts:102-142 | a match appended for a pair with no match keeps "one match per unordered pair" |
| Store.ChatsExistAppend | backend/trpc/routes/matching.ts:136-142 | a match naming a stored chat keeps "every match names a stored chat" |
| Store.StampedUniqueIds | backend/trpc/routes/chat.ts:132-134 | ids in a stamped table are a primary key |
| Store.Database.constructor | backend/trpc/routes/matching.ts:19 | the Prisma client the routers share: the store starts empty and satisfies its invariant |
| Matching.SwipedTargets | backend/trpc/routes/matching.ts:25-37 | the ids excluded from the feed: exactly the targets of the requester's swipes |
| Matching.GetFeed | backend/trpc/routes/matching.ts:20-67 | at most `limit` users; each is someone other than the requester, never swiped by the requester, and neither BLOCKED nor INVISIBLE; newest first; a short feed holds every eligible user, and every eligible user left out is older than all those shown |
| Matching.TakeKeepsNewest | backend/trpc/routes/matching.ts:59-62 | capping a newest-first list keeps it descending, and everything cut off is older than everything kept |
| Matching.MatchedUser | backend/trpc/routes/matching.ts:204-207 | the other party of a match the user is in |
| Matching.ViewOf | backend/trpc/routes/matching.ts:209-214 | one listed match: its id, chat and stamp, with `matchedUser` the other party |
| Matching.Views | backend/trpc/routes/matching.ts:203-215 | the `map` over the matches: one view per match, in order |
| Matching.MatchesOf | backend/trpc/routes/matching.ts:166-201 | exactly the matches where the user is `fromUserId` or `toUserId`, newest first |
| Matching.GetMatches | backend/trpc/routes/matching.ts:161-219 | every listed entry is a match of the user, showing the other party; every match of the user is listed; newest first |
| Matching.ListingsNewestFirst | backend/trpc/routes/matching.ts:60-62 | in a valid store, the feed comes newest first and so does the match listing (matching.ts:198-200) |
| Matching.ReverseLike | backend/trpc/routes/matching.ts:91-97 | the position of a LIKE from target to requester; none exactly when there is no such LIKE |
| Matching.ExistingMatch | backend/trpc/routes/matching.ts:102-115 | the position of a match of the pair in either order; none exactly when the pair has no match |
| Matching.ReverseLikeAfterRecord | backend/trpc/routes/matching.ts:78-99 | after the swipe is recorded, a reverse LIKE exists exactly when the target had liked the requester, or when the swipe is a self-LIKE, which is its own reverse |
| Matching.SwipeEffect | backend/trpc/routes/matching.ts:69-159 | the swipe appends exactly one swipe row (requester, target, direction) whatever the history; it leaves users, messages, partners, offers, reservations and admins unchanged; it keeps the store invariant (one match per pair, every match's chat stored) |
| Matching.ProcessSwipe | backend/trpc/routes/matching.ts:69-159 | the handler (record the swipe, find the reverse LIKE, find an existing match, create the chat and then the match) ends in the state and answer `SwipeEffect` gives |
| Matching.SwipeMatchesIffMutualLike | backend/trpc/routes/matching.ts:88-99 | a swipe reports a match exactly when it is a LIKE and the target had liked the requester, or the requester likes themself |
| Matching.SwipeMatchIsStored | backend/trpc/routes/matching.ts:117-158 | a reported match is a stored match of the pair, with the reported ids, whose chat exists; a NoMatch answer adds no chat and no match |
| Matching.SwipeCreatesAtMostOne | backend/trpc/routes/matching.ts:102-150 | a swipe adds nothing, or, for a pair with no match, exactly one INTERNAL chat (creator = requester, participant = target) and one match naming that chat |
| Matching.ExistingMatchAt | backend/trpc/routes/matching.ts:102-115 | the existing-match lookup finds the first match of the pair |
| Matching.SwipeReusesMatch | backend/trpc/routes/matching.ts:117-124 | a mutual LIKE for a pair that has a match only records the swipe, and reports that match's id and chat |
| Matching.SwipeRepeatSameMatch | backend/trpc/routes/matching.ts:102-124 | repeating a LIKE that matched reports the same match, and creates no chat and no match |
| Matching.MutualLikeScenario | backend/trpc/routes/matching.ts:69-159 | U1 likes U2, then U2 likes U1: the first swipe gives NoMatch; the second creates chat 2 and match 3 and reports them |
| Matching.SingleMatchListing | backend/trpc/routes/matching.ts:203-215 | each party lists the one match, with the other party as `matchedUser` |
| Matching.PassThenLikeScenario | backend/trpc/routes/matching.ts:88-99 | an earlier PASS does not prevent a later mutual LIKE from matching |
| Chats.TokenIndex | backend/trpc/routes/chat.ts:33-39 | `findUnique({ where: { guestToken } })`: the chat found holds the token; none exactly when no chat holds it |
| Chats.Present | backend/trpc/routes/chat.ts:59 | JavaScript truthiness of the optional token: absent and `""` are both falsy |
| Chats.IsMember | backend/trpc/routes/chat.ts:71-73 | membership: the user is the chat's creator or its participant |
| Chats.Authorize | backend/trpc/routes/chat.ts:30-86 | with a truthy token, success exactly when some chat holds it, and otherwise NOT_FOUND; without one: NOT_FOUND exactly for an unknown chat, UNAUTHORIZED exactly with no user id, FORBIDDEN exactly for a non-member, success exactly for a member of that chat |
| Chats.ChatMessages | backend/trpc/routes/chat.ts:90-104 | exactly the messages of the chat id, in ascending `createdAt` |
| Chats.GetMessagesAsWritten | backend/trpc/routes/chat.ts:25-125 | fails exactly when the gate fails, with the gate's code; on success shows the chat the gate admitted, and returns exactly the messages of the chat id the caller passed, in ascending `createdAt` |
| Chats.GuestReadsOtherChat | backend/trpc/routes/chat.ts:32-39 | a guest holding chat 0's token who passes chat id 1 reads chat 1's message |
| Chats.GuestSeesNothing | backend/trpc/routes/chat.ts:90-91 | a guest who passes a chat id no message carries, as the guest screen does with `''`, is admitted exactly when some chat holds the token, and then reads an empty log |
| Chats.GetMessages | backend/trpc/routes/chat.ts:25-125 | fails exactly when the gate fails, with its code; on success shows the chat the gate admitted and returns exactly that chat's messages, in ascending `createdAt` |
| Chats.ViewOfChat | backend/trpc/routes/chat.ts:108-123 | the chat header: id, type, creator, and the participant, absent when the chat has none |
| Chats.LogOldestFirst | backend/trpc/routes/chat.ts:101-103 | in a valid store, a chat's log is read in ascending `createdAt` |
| Chats.GetMessagesAgreeForMembers | backend/trpc/routes/chat.ts:69-91 | without a guest token the corrected and the as-written reading agree |
| Chats.SendGate | backend/trpc/routes/chat.ts:12-17 | empty content is BAD_REQUEST; then an unknown chat is NOT_FOUND; the message passes exactly when a truthy token equals the chat's stored token, or, without one, when the sender is a member; any other outcome is FORBIDDEN |
| Chats.SendEffect | backend/trpc/routes/chat.ts:127-189 | a message is refused exactly when `SendGate` refuses it, with the gate's code, and a refusal leaves the store as it was; the store invariant is kept |
| Chats.SendMessage | backend/trpc/routes/chat.ts:127-189 | the handler ends in the state and answer `SendEffect` gives |
| Chats.SentMessageIsRead | backend/trpc/routes/chat.ts:169-184 | an accepted message, with the given chat, sender and content, is appended to the log, and nothing else changes but the counter; a member then reads it as the chat's last message |
| Chats.FilterAppendLast | backend/trpc/routes/chat.ts:90-104 | a newly appended message of a chat is last in its filtered log |
| Chats.ForeignTokenRejected | backend/trpc/routes/chat.ts:145-154 | a truthy token that is not the chat's is FORBIDDEN, even when it opens another chat |
| Chats.HexDigit | backend/trpc/routes/chat.ts:226 | a nibble's hex digit is a lower-case hex digit |
| Chats.Hex | backend/trpc/routes/chat.ts:226 | `toString('hex')`: two hex digits per byte |
| Chats.Unhex | backend/trpc/routes/chat.ts:226 | reading back an even-length hex string gives one byte per two digits |
| Chats.HexRoundTrip | backend/trpc/routes/chat.ts:226 | the bytes read back from their hex encoding, so distinct random bytes give distinct tokens |
| Chats.LinkEffect | backend/trpc/routes/chat.ts:191-239 | keeps the store invariant, and leaves the swipes, matches, messages and users unchanged |
| Chats.GenerateExternalLink | backend/trpc/routes/chat.ts:191-239 | the handler ends in the state and answer `LinkEffect` gives |
| Chats.LinkOnlyForMembers | backend/trpc/routes/chat.ts:196-231 | a link goes only to a member of the chat; NOT_FOUND exactly for an unknown chat; the store is unchanged, or only that chat's token changed, and only where the chat had no truthy token |
| Chats.LinkForMembers | backend/trpc/routes/chat.ts:207-238 | a non-member of a stored chat is FORBIDDEN; a member gets a link unless the fresh token collides with another chat's; a chat with a truthy token returns it unchanged and leaves the store alone; every link's URL is `https://spordateur.com/chat/external/` followed by its token |
| Chats.NewTokenIsHex | backend/trpc/routes/chat.ts:226 | a fresh token is the 64-digit hex of the random bytes, from which the bytes read back |
| Chats.LinkIsStable | backend/trpc/routes/chat.ts:218-224 | after a link is issued, asking again returns the same link and changes nothing |
| Chats.LinkOpensChat | backend/trpc/routes/chat.ts:32-68 | the issued token opens that chat to a guest: as written, reading shows that chat's header whatever chat id is passed; the corrected reading returns that chat's messages; and the guest may write to it |
| Offers.RequireApprovedPartner | backend/trpc/routes/offers.ts:25-45 | NOT_FOUND exactly for an unknown partner, FORBIDDEN exactly for a partner in any status but APPROVED; success returns that APPROVED partner |
| Offers.OfferSchemaOk | backend/trpc/routes/offers.ts:5-14 | `createOfferSchema`: title at least 3, price positive, description at least 10, a datetime, location at least 3, an image URL, sport at least 2 |
| Offers.NewOffer | backend/trpc/routes/offers.ts:62-74 | the stored offer is active and belongs to the input's partner |
| Offers.ViewOfOffer | backend/trpc/routes/offers.ts:76-85 | what createOffer returns: the offer's id and input fields, without the partner or the active flag |
| Offers.CreateOfferEffect | backend/trpc/routes/offers.ts:48-86 | keeps the store invariant |
| Offers.CreateOffer | backend/trpc/routes/offers.ts:48-86 | the handler ends in the state and answer `CreateOfferEffect` gives |
| Offers.CreateOfferOutcome | backend/trpc/routes/offers.ts:48-86 | success exactly for an input meeting the schema from an APPROVED partner, with an image that `new URL` parses; checks fail in order (schema BAD_REQUEST, partner NOT_FOUND, partner FORBIDDEN, image BAD_REQUEST); a failure changes nothing; a success appends one active offer with the input's fields and returns them |
| Offers.GetMyOffers | backend/trpc/routes/offers.ts:88-97 | exactly the partner's offers, newest first |
| Offers.MyOffersNewestFirst | backend/trpc/routes/offers.ts:93 | in a valid store, a partner's offers come newest first |
| Offers.CreatedOfferListedFirst | backend/trpc/routes/offers.ts:62-94 | a newly created offer heads its partner's listing |
| Offers.ReservationsOf | backend/trpc/routes/offers.ts:104-109 | exactly the reservations of the offer |
| Offers.DeleteOfferEffect | backend/trpc/routes/offers.ts:99-137 | keeps the store invariant |
| Offers.DeleteOffer | backend/trpc/routes/offers.ts:99-137 | the handler ends in the state and answer `DeleteOfferEffect` gives |
| Offers.DeleteOfferChecks | backend/trpc/routes/offers.ts:102-130 | success exactly for an APPROVED partner's own unreserved offer; checks fail in order (partner NOT_FOUND, partner FORBIDDEN, offer NOT_FOUND); a failure changes nothing |
| Offers.DeleteOfferOwnerThenReservations | backend/trpc/routes/offers.ts:118-130 | past the guard, someone else's offer is FORBIDDEN, and the partner's own offer with a reservation is BAD_REQUEST |
| Offers.DeleteOfferRemovesOnlyIt | backend/trpc/routes/offers.ts:132-136 | a successful delete removes exactly that offer, and leaves every other offer and every other table as it was |
| Auth.UserByEmail | backend/trpc/routes/auth.ts:46-48 | the user found has the e-mail; none exactly when no user has it |
| Auth.PartnerByEmail | backend/trpc/routes/auth.ts:141-143 | the partner found has the e-mail; none exactly when no partner has it |
| Auth.AdminByEmail | backend/trpc/routes/auth.ts:214-216 | the admin found has the e-mail; none exactly when no admin has it |
| Auth.FirstBadImage | backend/trpc/routes/auth.ts:57-66 | the first image `new URL` rejects, and all before it parse; none exactly when all parse |
| Auth.UserSchemaOk | backend/trpc/routes/auth.ts:6-16 | `userRegisterSchema`: an e-mail, password at least 6, name at least 2, age at least 18, at least one sport, 1 to 5 image URLs |
| Auth.NewUser | backend/trpc/routes/auth.ts:68-83 | the stored user is ACTIVE and holds the hash of the password, not the password |
| Auth.UserRegisterEffect | backend/trpc/routes/auth.ts:43-91 | keeps the store invariant |
| Auth.UserRegister | backend/trpc/routes/auth.ts:43-91 | the handler ends in the state and answer `UserRegisterEffect` gives |
| Auth.UserRegisterOutcome | backend/trpc/routes/auth.ts:43-91 | success exactly for a schema-valid input with a free e-mail whose images all parse; checks fail in order (schema BAD_REQUEST, taken e-mail CONFLICT, an image `new URL` rejects BAD_REQUEST); a failure adds no user; a success appends one ACTIVE user and returns only id, email, name and status |
| Auth.ImageCheckRedundant | backend/trpc/routes/auth.ts:15-66 | when zod's `url()` accepts only what `new URL` parses, the handler's image check rejects nothing the schema let through |
| Auth.UserLogin | backend/trpc/routes/auth.ts:93-136 | an unknown e-mail is UNAUTHORIZED; a BLOCKED user is FORBIDDEN whatever the password; then a wrong password is UNAUTHORIZED; otherwise the user's profile |
| Auth.ProfileOf | backend/trpc/routes/auth.ts:126-135 | what userLogin returns: the user's id, email, name, status, bio, location, sports and images, without the password hash |
| Auth.RegisterThenLogin | backend/trpc/routes/auth.ts:68-136 | with a sound hasher, a registered user logs in with the registered password and gets the registered profile |
| Auth.NewPartner | backend/trpc/routes/auth.ts:152-164 | the stored partner is PENDING and holds the hash of the password |
| Auth.PartnerSchemaOk | backend/trpc/routes/auth.ts:23-30 | `partnerRegisterSchema`: an e-mail, password at least 6, company name at least 2, a website URL when one is given |
| Auth.PartnerRegisterEffect | backend/trpc/routes/auth.ts:138-172 | keeps the store invariant |
| Auth.PartnerRegister | backend/trpc/routes/auth.ts:138-172 | the handler ends in the state and answer `PartnerRegisterEffect` gives |
| Auth.PartnerRegisterOutcome | backend/trpc/routes/auth.ts:138-172 | success exactly for a schema-valid input with a free e-mail; a rejected schema is BAD_REQUEST, then a taken e-mail CONFLICT; a failure changes nothing; a success appends one PENDING partner and returns only id, email, company name and status |
| Auth.PartnerLogin | backend/trpc/routes/auth.ts:174-209 | an unknown e-mail or a wrong password is UNAUTHORIZED; with the right password the partner logs in whatever their status |
| Auth.PartnerProfileOf | backend/trpc/routes/auth.ts:200-208 | what partnerLogin returns: the partner's id, email, company name, status, description, website and address, without the password hash |
| Auth.PendingPartnerLogsIn | backend/trpc/routes/auth.ts:162-209 | a partner registered moments ago, still PENDING, logs in with their password |
| Auth.AdminLogin | backend/trpc/routes/auth.ts:211-242 | an invalid e-mail is BAD_REQUEST; an unknown e-mail is UNAUTHORIZED; for the admin with that e-mail, the right password returns only id, email and name, and a wrong one is UNAUTHORIZED |

## Left out

- Concurrency: no handler runs in a transaction. The check-then-create of a match in `swipe` could race. Handlers are modelled as sequential calls, and no race-freedom is claimed.
- Foreign code is a parameter:
  - bcrypt's salt and cost factor are not modelled;
  - zod's string checks and `new URL` parsing are abstract predicates;
  - zod's `min` on strings counts UTF-16 code units, while the model counts characters.
- `randomBytes(32)` is an argument, not a random source.
- The uniqueness of a fresh token is not assumed. A fresh token that another chat already holds makes the update fail on the unique column, which the model answers with INTERNAL_SERVER_ERROR.
- `price` is a `real` rather than a binary64 float, and `datetime` is stored as the validated string rather than a `Date`.
- `limit` has no default: the schema's default of 20 is not modelled, and the caller always passes it. `limit` is a `nat`. A negative or fractional limit, which zod's `number()` would let through, is not modelled.
- `age` is an `int`, and its fractional values are not modelled.
- Row ids are natural numbers handed out by one counter, not CUIDs. An empty-string `userId` in `getMessages` is modelled as an absent one, which JavaScript treats the same.
- Foreign keys such as a swipe's or message's user are not checked. The handlers do not check them either, and a store failure on one is not modelled.
- Projections are not modelled. The message sender, the chat's creator and participant and `matchedUser` appear as ids only, without their names or images. `Matching.GetFeed` returns whole user rows, while the feed's `select` returns only id, name, age, bio, images, sports and location.
- Error message texts and `console.log` calls are left out.
- Router wiring, the Prisma client construction, the seed script and the mobile screens are not part of this model. The app router does not mount the matching and chat routers.
- Messages have no upper length bound, because the send schema only demands a non-empty content.

## Findings

| source | as written | input that shows it | evidently intended | confidence | as-written member | corrected member |
|---|---|---|---|---|---|---|
| backend/trpc/routes/chat.ts:90-91 | in guest mode the chat is selected by its token, but the messages are fetched by the `chatId` the caller passed | chats 0 (token "t") and 1; a guest sends token "t" with chat id 1 and gets chat 0's header with chat 1's messages (`Chats.GuestReadsOtherChat`) | the messages of the chat the token opens; the guest screen (app/chat/external/[token].tsx) passes chat id `''`, so as written guests read an empty log (`Chats.GuestSeesNothing`) | not executed | Chats.GetMessagesAsWritten | Chats.GetMessages |

/** The matching router: the swipe ledger, mutual-like detection with
    match and chat creation, the feed and the match listing. */
module Matching {
  import opened Common
  import opened Store

  /** The swipe ledger holds a LIKE from `fromUserId` to `toUserId`. */
  ghost predicate Liked(swipes: seq<Row<Swipe>>, fromUserId: Id, toUserId: Id)
  {
    exists i :: 0 <= i < |swipes| && swipes[i].data == Swipe(fromUserId, toUserId, Like)
  }

  /** The user `fromUserId` has swiped `toUserId` at least once, in either direction. */
  ghost predicate Swiped(swipes: seq<Row<Swipe>>, fromUserId: Id, toUserId: Id)
  {
    exists i :: 0 <= i < |swipes| && swipes[i].data.fromUserId == fromUserId && swipes[i].data.toUserId == toUserId
  }

  /** A user the feed may show to `currentUserId`. */
  ghost predicate FeedEligible(u: Row<User>, swipes: seq<Row<Swipe>>, currentUserId: Id)
  {
    u.id != currentUserId && !Swiped(swipes, currentUserId, u.id) && u.data.status == Active
  }

  // ---------------------------------------------------------------- getFeed

  /** The targets of every swipe `currentUserId` made (the `notIn` list, less the requester). */
  function SwipedTargets(swipes: seq<Row<Swipe>>, currentUserId: Id): (r: set<Id>)
    ensures forall id :: id in r <==> Swiped(swipes, currentUserId, id)
  {
    var r := set s | s in swipes && s.data.fromUserId == currentUserId :: s.data.toUserId;
    assert forall id :: Swiped(swipes, currentUserId, id) ==> id in r by {
      forall id | Swiped(swipes, currentUserId, id) ensures id in r {
        var i :| 0 <= i < |swipes| && swipes[i].data.fromUserId == currentUserId && swipes[i].data.toUserId == id;
        assert swipes[i] in swipes;
      }
    }
    r
  }

  /** The `where` clause of the feed query. */
  predicate FeedCandidate(u: Row<User>, excluded: set<Id>)
  {
    u.id !in excluded && u.data.status != Blocked && u.data.status != Invisible
  }

  /** getFeed: users other than the requester, never swiped by the requester,
      neither BLOCKED nor INVISIBLE, newest first, at most `limit` of them. */
  function GetFeed(users: seq<Row<User>>, swipes: seq<Row<Swipe>>, currentUserId: Id, limit: nat): (r: seq<Row<User>>)
    ensures |r| <= limit
    ensures forall u :: u in r ==> u in users && FeedEligible(u, swipes, currentUserId)
    ensures |r| < limit ==> forall u :: u in users && FeedEligible(u, swipes, currentUserId) ==> u in r
    ensures CreatedAscending(users) ==> CreatedDescending(r)
    ensures CreatedAscending(users) ==>
      forall u, v :: u in users && FeedEligible(u, swipes, currentUserId) && u !in r && v in r ==> u.createdAt < v.createdAt
  {
    var excluded := {currentUserId} + SwipedTargets(swipes, currentUserId);
    var p := (u: Row<User>) => FeedCandidate(u, excluded);
    var all := NewestFirst(users, p);
    assert forall u :: u in all <==> u in users && FeedEligible(u, swipes, currentUserId);
    var r := Take(all, limit);
    assert CreatedAscending(users) ==> CreatedDescending(r) && forall u, v :: u in all && u !in r && v in r ==> u.createdAt < v.createdAt by {
      if CreatedAscending(users) {
        NewestFirstDescending(users, p);
        TakeKeepsNewest(all, limit);
      }
    }
    r
  }

  /** Taking a prefix of a newest-first list keeps the newest: whatever is cut
      off is older than everything kept, and the prefix stays descending. */
  lemma TakeKeepsNewest(all: seq<Row<User>>, limit: nat)
    requires CreatedDescending(all)
    ensures CreatedDescending(Take(all, limit))
    ensures forall u, v :: u in all && u !in Take(all, limit) && v in Take(all, limit) ==> u.createdAt < v.createdAt
  {
    var r := Take(all, limit);
    forall u, v | u in all && u !in r && v in r ensures u.createdAt < v.createdAt {
      var k :| 0 <= k < |all| && all[k] == u;
      var j :| 0 <= j < |r| && r[j] == v;
      assert r == all[..limit];
      assert k >= limit;
    }
  }

  // ------------------------------------------------------------- getMatches

  predicate Involves(m: Match, userId: Id)
  {
    m.fromUserId == userId || m.toUserId == userId
  }

  /** The other party of a match, as the listing picks it. */
  function MatchedUser(m: Match, currentUserId: Id): (r: Id)
    requires Involves(m, currentUserId)
    ensures SamePair(m, currentUserId, r)
  {
    if m.fromUserId == currentUserId then m.toUserId else m.fromUserId
  }

  datatype MatchView = MatchView(id: Id, chatId: Id, matchedUserId: Id, createdAt: nat)

  /** How the listing shows one match to one of its parties. */
  function ViewOf(m: Row<Match>, currentUserId: Id): (v: MatchView)
    requires Involves(m.data, currentUserId)
    ensures v.id == m.id && v.chatId == m.data.chatId && v.createdAt == m.createdAt
    ensures SamePair(m.data, currentUserId, v.matchedUserId)
  {
    MatchView(m.id, m.data.chatId, MatchedUser(m.data, currentUserId), m.createdAt)
  }

  /** The `include` step of the listing: each selected match, shown. */
  function Views(rows: seq<Row<Match>>, currentUserId: Id): (r: seq<MatchView>)
    requires forall i :: 0 <= i < |rows| ==> Involves(rows[i].data, currentUserId)
    ensures |r| == |rows|
    ensures forall i :: 0 <= i < |rows| ==> r[i] == ViewOf(rows[i], currentUserId)
  {
    if rows == [] then [] else [ViewOf(rows[0], currentUserId)] + Views(rows[1..], currentUserId)
  }

  /** The `findMany` of the listing: the user's matches, newest first. */
  function MatchesOf(matches: seq<Row<Match>>, currentUserId: Id): (rows: seq<Row<Match>>)
    ensures forall m :: m in rows <==> m in matches && Involves(m.data, currentUserId)
    ensures CreatedAscending(matches) ==> CreatedDescending(rows)
  {
    var p := (m: Row<Match>) => Involves(m.data, currentUserId);
    assert CreatedAscending(matches) ==> CreatedDescending(NewestFirst(matches, p)) by {
      if CreatedAscending(matches) {
        NewestFirstDescending(matches, p);
      }
    }
    NewestFirst(matches, p)
  }

  /** getMatches: the matches where the user is either party, newest first,
      each shown with its chat and the other party. */
  function GetMatches(matches: seq<Row<Match>>, currentUserId: Id): (r: seq<MatchView>)
    ensures forall k :: 0 <= k < |r| ==>
      exists m :: m in matches && Involves(m.data, currentUserId) && r[k] == ViewOf(m, currentUserId)
    ensures forall m :: m in matches && Involves(m.data, currentUserId) ==> ViewOf(m, currentUserId) in r
    ensures CreatedAscending(matches) ==> forall i, j :: 0 <= i < j < |r| ==> r[i].createdAt > r[j].createdAt
  {
    var rows := MatchesOf(matches, currentUserId);
    assert forall i :: 0 <= i < |rows| ==> rows[i] in rows;
    var r := Views(rows, currentUserId);
    assert forall m :: m in matches && Involves(m.data, currentUserId) ==> ViewOf(m, currentUserId) in r by {
      forall m | m in matches && Involves(m.data, currentUserId) ensures ViewOf(m, currentUserId) in r {
        var k :| 0 <= k < |rows| && rows[k] == m;
        assert r[k] == ViewOf(m, currentUserId);
      }
    }
    r
  }

  // ------------------------------------------------------------------ swipe

  datatype SwipeResponse = NoMatch | Matched(matchId: Id, chatId: Id)

  /** The reverse-like lookup: the first LIKE from `targetUserId` to `currentUserId`. */
  function ReverseLike(swipes: seq<Row<Swipe>>, currentUserId: Id, targetUserId: Id): (r: Option<nat>)
    ensures r.Some? ==> r.value < |swipes| && swipes[r.value].data == Swipe(targetUserId, currentUserId, Like)
    ensures r.None? <==> !Liked(swipes, targetUserId, currentUserId)
  {
    FirstIndex(swipes, (s: Row<Swipe>) => s.data == Swipe(targetUserId, currentUserId, Like))
  }

  /** The existing-match lookup: the first match for the pair, in either ordering. */
  function ExistingMatch(matches: seq<Row<Match>>, a: Id, b: Id): (r: Option<nat>)
    ensures r.Some? ==> r.value < |matches| && SamePair(matches[r.value].data, a, b)
    ensures r.None? <==> forall i :: 0 <= i < |matches| ==> !SamePair(matches[i].data, a, b)
  {
    FirstIndex(matches, (m: Row<Match>) => SamePair(m.data, a, b))
  }

  /** Recording a swipe and then looking for the reverse LIKE finds one exactly
      when the target had already liked the swiper, or when a user likes
      themself: the swipe just recorded is then its own reverse. */
  lemma {:induction false} ReverseLikeAfterRecord(swipes: seq<Row<Swipe>>, clock: nat, currentUserId: Id, targetUserId: Id, direction: Direction)
    ensures Liked(swipes + [Row(clock, clock, Swipe(currentUserId, targetUserId, direction))], targetUserId, currentUserId)
        <==> Liked(swipes, targetUserId, currentUserId) || (direction == Like && currentUserId == targetUserId)
  {
    var s' := swipes + [Row(clock, clock, Swipe(currentUserId, targetUserId, direction))];
    if Liked(swipes, targetUserId, currentUserId) {
      var i :| 0 <= i < |swipes| && swipes[i].data == Swipe(targetUserId, currentUserId, Like);
      assert s'[i] == swipes[i];
    }
    if direction == Like && currentUserId == targetUserId {
      assert s'[|swipes|].data == Swipe(targetUserId, currentUserId, Like);
    }
    if Liked(s', targetUserId, currentUserId) {
      var i :| 0 <= i < |s'| && s'[i].data == Swipe(targetUserId, currentUserId, Like);
      if i < |swipes| {
        assert swipes[i] == s'[i];
      }
    }
  }

  /** swipe, as a change of the store: the swipe is recorded; a LIKE answered
      by an earlier LIKE reuses the pair's match if there is one, and otherwise
      creates an INTERNAL chat between the two users and then their match. */
  function SwipeEffect(t: Tables, currentUserId: Id, targetUserId: Id, direction: Direction): (out: (Tables, SwipeResponse))
    requires t.Valid()
    ensures out.0.Valid()
    ensures out.0.swipes == t.swipes + [Row(t.clock, t.clock, Swipe(currentUserId, targetUserId, direction))]
    ensures && out.0.users == t.users && out.0.messages == t.messages && out.0.partners == t.partners
            && out.0.offers == t.offers && out.0.reservations == t.reservations && out.0.admins == t.admins
  {
    var recorded := InsertSwipe(t, Swipe(currentUserId, targetUserId, direction));
    if direction == Pass || ReverseLike(recorded.swipes, currentUserId, targetUserId).None? then
      (recorded, NoMatch)
    else
      match ExistingMatch(recorded.matches, currentUserId, targetUserId)
      case Some(k) =>
        (recorded, Matched(recorded.matches[k].id, recorded.matches[k].data.chatId))
      case None =>
        var chatId := recorded.clock;
        var withChat := InsertChat(recorded, Chat(Internal, currentUserId, Some(targetUserId), None));
        assert withChat.chats[|withChat.chats| - 1].id == chatId;
        (InsertMatch(withChat, Match(currentUserId, targetUserId, chatId)), Matched(withChat.clock, chatId))
  }

  /** swipe: the handler's sequence of writes, which leaves the store and
      answers exactly as `SwipeEffect` says. */
  method ProcessSwipe(db: Database, currentUserId: Id, targetUserId: Id, direction: Direction) returns (r: SwipeResponse)
    requires db.Valid()
    modifies db
    ensures db.Valid()
    ensures (db.tables, r) == SwipeEffect(old(db.tables), currentUserId, targetUserId, direction)
  {
    var recorded := InsertSwipe(db.tables, Swipe(currentUserId, targetUserId, direction));
    db.tables := recorded;
    if direction == Like {
      var reverseLike := ReverseLike(recorded.swipes, currentUserId, targetUserId);
      if reverseLike.Some? {
        var existing := ExistingMatch(recorded.matches, currentUserId, targetUserId);
        if existing.Some? {
          var m := recorded.matches[existing.value];
          return Matched(m.id, m.data.chatId);
        }
        var chatId := recorded.clock;
        var withChat := InsertChat(recorded, Chat(Internal, currentUserId, Some(targetUserId), None));
        db.tables := withChat;
        assert withChat.chats[|withChat.chats| - 1].id == chatId;
        var matchId := withChat.clock;
        db.tables := InsertMatch(withChat, Match(currentUserId, targetUserId, chatId));
        return Matched(matchId, chatId);
      }
    }
    return NoMatch;
  }

  /** A swipe reports a match exactly when it is a LIKE and the target had
      already liked the swiper, or when a user likes themself. */
  lemma SwipeMatchesIffMutualLike(t: Tables, currentUserId: Id, targetUserId: Id, direction: Direction)
    requires t.Valid()
    ensures SwipeEffect(t, currentUserId, targetUserId, direction).1.Matched?
        <==> direction == Like && (Liked(t.swipes, targetUserId, currentUserId) || currentUserId == targetUserId)
  {
    ReverseLikeAfterRecord(t.swipes, t.clock, currentUserId, targetUserId, direction);
  }

  /** A reported match is a stored match of the pair whose chat is stored,
      and a PASS or an unanswered LIKE creates neither a chat nor a match. */
  lemma SwipeMatchIsStored(t: Tables, currentUserId: Id, targetUserId: Id, direction: Direction)
    requires t.Valid()
    ensures var (t', r) := SwipeEffect(t, currentUserId, targetUserId, direction);
      r.Matched? ==>
        exists i :: 0 <= i < |t'.matches| && t'.matches[i] .id == r.matchId && t'.matches[i].data.chatId == r.chatId
          && SamePair(t'.matches[i].data, currentUserId, targetUserId) && HasId(t'.chats, r.chatId)
    ensures var (t', r) := SwipeEffect(t, currentUserId, targetUserId, direction);
      r.NoMatch? ==> t'.matches == t.matches && t'.chats == t.chats
  {
    var (t', r) := SwipeEffect(t, currentUserId, targetUserId, direction);
    if r.Matched? {
      var recorded := InsertSwipe(t, Swipe(currentUserId, targetUserId, direction));
      match ExistingMatch(recorded.matches, currentUserId, targetUserId)
      case Some(k) =>
        assert t'.matches[k].id == r.matchId;
      case None =>
        var i := |t'.matches| - 1;
        assert t'.matches[i].id == r.matchId;
    }
  }

  /** A swipe adds at most one chat and one match, and a new match only for a
      pair that had none; the new chat is an INTERNAL chat between the two. */
  lemma SwipeCreatesAtMostOne(t: Tables, currentUserId: Id, targetUserId: Id, direction: Direction)
    requires t.Valid()
    ensures var t' := SwipeEffect(t, currentUserId, targetUserId, direction).0;
      || (t'.matches == t.matches && t'.chats == t.chats)
      || (&& (forall i :: 0 <= i < |t.matches| ==> !SamePair(t.matches[i].data, currentUserId, targetUserId))
          && |t'.chats| == |t.chats| + 1 && t'.chats[..|t.chats|] == t.chats
          && t'.chats[|t.chats|].data == Chat(Internal, currentUserId, Some(targetUserId), None)
          && |t'.matches| == |t.matches| + 1 && t'.matches[..|t.matches|] == t.matches
          && t'.matches[|t.matches|].data == Match(currentUserId, targetUserId, t'.chats[|t.chats|].id))
  {
  }

  /** The existing-match lookup finds the pair's first match. */
  lemma ExistingMatchAt(matches: seq<Row<Match>>, a: Id, b: Id, k: nat)
    requires k < |matches| && SamePair(matches[k].data, a, b)
    requires forall j :: 0 <= j < k ==> !SamePair(matches[j].data, a, b)
    ensures ExistingMatch(matches, a, b) == Some(k)
  {
  }

  /** A LIKE answered by an earlier LIKE, for a pair that already has a match,
      only records the swipe and reports that match. */
  lemma SwipeReusesMatch(t: Tables, currentUserId: Id, targetUserId: Id, k: nat)
    requires t.Valid() && Liked(t.swipes, targetUserId, currentUserId)
    requires ExistingMatch(t.matches, currentUserId, targetUserId) == Some(k)
    ensures SwipeEffect(t, currentUserId, targetUserId, Like)
      == (InsertSwipe(t, Swipe(currentUserId, targetUserId, Like)), Matched(t.matches[k].id, t.matches[k].data.chatId))
  {
    ReverseLikeAfterRecord(t.swipes, t.clock, currentUserId, targetUserId, Like);
  }

  /** Repeating a LIKE that matched reports the same match and creates nothing. */
  lemma SwipeRepeatSameMatch(t: Tables, currentUserId: Id, targetUserId: Id)
    requires t.Valid()
    ensures var first := SwipeEffect(t, currentUserId, targetUserId, Like);
      first.1.Matched? ==>
        var again := SwipeEffect(first.0, currentUserId, targetUserId, Like);
        again.1 == first.1 && again.0.matches == first.0.matches && again.0.chats == first.0.chats
  {
    var first := SwipeEffect(t, currentUserId, targetUserId, Like);
    if first.1.Matched? {
      var t1 := first.0;
      var recorded := InsertSwipe(t, Swipe(currentUserId, targetUserId, Like));
      var n := |t.swipes|;
      assert Liked(t1.swipes, targetUserId, currentUserId) by {
        ReverseLikeAfterRecord(t.swipes, t.clock, currentUserId, targetUserId, Like);
        var i := ReverseLike(recorded.swipes, currentUserId, targetUserId).value;
        assert t1.swipes[i] == recorded.swipes[i];
      }
      match ExistingMatch(recorded.matches, currentUserId, targetUserId)
      case Some(k) =>
        SwipeReusesMatch(t1, currentUserId, targetUserId, k);
      case None =>
        var m := |t.matches|;
        forall j | 0 <= j < m ensures !SamePair(t1.matches[j].data, currentUserId, targetUserId) {
          assert t1.matches[j] == t.matches[j];
        }
        ExistingMatchAt(t1.matches, currentUserId, targetUserId, m);
        SwipeReusesMatch(t1, currentUserId, targetUserId, m);
    }
  }

  /** In the store, the feed and the match listing come newest first. */
  lemma ListingsNewestFirst(t: Tables, currentUserId: Id, limit: nat)
    requires t.Valid()
    ensures CreatedDescending(GetFeed(t.users, t.swipes, currentUserId, limit))
    ensures var r := GetMatches(t.matches, currentUserId);
      forall i, j :: 0 <= i < j < |r| ==> r[i].createdAt > r[j].createdAt
  {
    StampedAscending(t.users, t.clock);
    StampedAscending(t.matches, t.clock);
  }

  // -------------------------------------------------------------- scenarios

  /** U1 likes U2, then U2 likes U1: the second swipe matches, creating chat 2
      and then match 3 (after swipes 0 and 1). */
  lemma MutualLikeScenario(u1: Id, u2: Id)
    requires u1 != u2
    ensures var first := SwipeEffect(Empty, u1, u2, Like);
      var second := SwipeEffect(first.0, u2, u1, Like);
      && first.1 == NoMatch && second.1 == Matched(3, 2)
      && second.0.matches == [Row(3, 3, Match(u2, u1, 2))]
      && second.0.chats == [Row(2, 2, Chat(Internal, u2, Some(u1), None))]
  {
    var first := SwipeEffect(Empty, u1, u2, Like);
    SwipeMatchesIffMutualLike(Empty, u1, u2, Like);
    assert first.0.swipes[0].data == Swipe(u1, u2, Like);
    SwipeMatchesIffMutualLike(first.0, u2, u1, Like);
  }

  /** Each party lists the one match with the other party. */
  lemma SingleMatchListing(u1: Id, u2: Id)
    ensures GetMatches([Row(3, 3, Match(u2, u1, 2))], u1) == [MatchView(3, 2, u2, 3)]
    ensures GetMatches([Row(3, 3, Match(u2, u1, 2))], u2) == [MatchView(3, 2, u1, 3)]
  {
    var p := (m: Row<Match>) => Involves(m.data, u1);
    assert NewestFirst([Row(3, 3, Match(u2, u1, 2))], p) == [Row(3, 3, Match(u2, u1, 2))];
  }

  /** U1 passes U2, U2 likes U1, U1 then likes U2: the earlier PASS does not
      stop the match. */
  lemma PassThenLikeScenario(u1: Id, u2: Id)
    requires u1 != u2
    ensures var (t1, pass) := SwipeEffect(Empty, u1, u2, Pass);
      var (t2, like) := SwipeEffect(t1, u2, u1, Like);
      var (t3, likeBack) := SwipeEffect(t2, u1, u2, Like);
      pass == NoMatch && like == NoMatch && likeBack.Matched?
  {
    var (t1, pass) := SwipeEffect(Empty, u1, u2, Pass);
    SwipeMatchesIffMutualLike(t1, u2, u1, Like);
    var (t2, like) := SwipeEffect(t1, u2, u1, Like);
    assert t2.swipes[1].data == Swipe(u2, u1, Like);
    SwipeMatchesIffMutualLike(t2, u1, u2, Like);
  }
}

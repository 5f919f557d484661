/**
 * The follow state of the search screen: who is signed in, the athletes loaded, and the
 * set of followed athlete ids, with the optimistic follow toggle that reverts when the
 * backend reports failure. The backend call itself is outside the model: its outcome is
 * a parameter of the toggle, and the call it would make is returned.
 */
module SearchFollow {
  import opened JsText
  import opened AthleteFilters

  type UserId = string

  /** The arguments of the backend call `toggleFollow(userId, athleteId, isFollowing)`. */
  datatype FollowCall = FollowCall(userId: UserId, athleteId: AthleteId, isFollowing: bool)

  /** `ids` with the membership of `id` flipped. */
  function Flip(ids: set<AthleteId>, id: AthleteId): (r: set<AthleteId>)
    ensures id in r <==> id !in ids
    ensures forall x :: x != id ==> (x in r <==> x in ids)
  {
    if id in ids then ids - {id} else ids + {id}
  }

  /** Flipping the same id twice gives back the original set. */
  lemma FlipTwice(ids: set<AthleteId>, id: AthleteId)
    ensures Flip(Flip(ids, id), id) == ids
  {
  }

  class SearchState {
    var currentUserId: Option<UserId>
    var allAthletes: seq<Athlete>
    var followedIds: set<AthleteId>

    /** The screen's initial state: nobody signed in, nothing loaded, nothing followed. */
    constructor ()
      ensures currentUserId.None? && allAthletes == [] && followedIds == {}
    {
      currentUserId := None;
      allAthletes := [];
      followedIds := {};
    }

    /** `loadData`: without a user nothing changes; otherwise the user, the fetched athletes
        (`[]` when none came back) and the ids of the followed athletes are recorded. */
    method Load(user: Option<UserId>, athletesData: Option<seq<Athlete>>, followedData: seq<Athlete>)
      modifies this
      ensures user.None? ==>
                currentUserId == old(currentUserId) && allAthletes == old(allAthletes) &&
                followedIds == old(followedIds)
      ensures user.Some? ==>
                currentUserId == user && allAthletes == OrDefault(athletesData) &&
                followedIds == FollowedIdSet(followedData)
    {
      if user.None? {
        return;
      }
      currentUserId := user;
      allAthletes := OrDefault(athletesData);
      followedIds := FollowedIdSet(followedData);
    }

    /** The optimistic update: a copy of the followed set with `athleteId` removed if it was
        followed and added otherwise, installed in place of the old set. */
    method ApplyOptimistic(athleteId: AthleteId) returns (wasFollowing: bool)
      modifies this`followedIds
      ensures wasFollowing == (athleteId in old(followedIds))
      ensures followedIds == Flip(old(followedIds), athleteId)
    {
      wasFollowing := athleteId in followedIds;
      var next := followedIds;
      if wasFollowing {
        next := next - {athleteId};
      } else {
        next := next + {athleteId};
      }
      followedIds := next;
    }

    /** `handleToggleFollow`: nothing happens without a user; otherwise the followed set is
        flipped for `athleteId`, the backend is asked to follow or unfollow according to the
        membership before the flip, and the old set is put back if it reports failure. */
    method ToggleFollow(athleteId: AthleteId, backendSucceeds: bool) returns (call: Option<FollowCall>)
      modifies this`followedIds
      ensures currentUserId.None? ==> call.None? && followedIds == old(followedIds)
      ensures currentUserId.Some? ==>
                call == Some(FollowCall(currentUserId.value, athleteId, athleteId in old(followedIds)))
      ensures currentUserId.Some? && backendSucceeds ==> followedIds == Flip(old(followedIds), athleteId)
      ensures currentUserId.Some? && !backendSucceeds ==> followedIds == old(followedIds)
    {
      if currentUserId.None? {
        return None;
      }
      var previous := followedIds;
      var isFollowing := ApplyOptimistic(athleteId);
      call := Some(FollowCall(currentUserId.value, athleteId, isFollowing));
      if !backendSucceeds {
        followedIds := previous;
      }
    }
  }

  /** Two successful toggles of the same athlete leave the followed set as it was. */
  method ToggleTwice(state: SearchState, athleteId: AthleteId)
    modifies state`followedIds
    ensures state.followedIds == old(state.followedIds)
  {
    var first := state.ToggleFollow(athleteId, true);
    var second := state.ToggleFollow(athleteId, true);
    FlipTwice(old(state.followedIds), athleteId);
  }
}

/** Per-card interface state on the public events page: expanded cards and
    descriptions (sets of event ids), likes (a liked set with per-event
    counters) and the comment threads. */
module CardState {
  import opened Types
  import opened Text

  /** `toggleCardExpansion` and `toggleDescriptionExpansion`: add the id if
      absent, remove it if present. */
  function ToggleMembership(s: set<string>, id: string): (r: set<string>)
    ensures id in r <==> id !in s
    ensures r - {id} == s - {id}
  {
    if id in s then s - {id} else s + {id}
  }

  /** Toggling twice restores the set. */
  lemma ToggleTwice(s: set<string>, id: string)
    ensures ToggleMembership(ToggleMembership(s, id), id) == s
  {
  }

  /** The liked events and the per-event like counters. */
  datatype Likes = Likes(liked: set<string>, counts: map<string, int>)

  /** A counter, an absent one reading as zero. */
  function LikeCount(l: Likes, id: string): int {
    if id in l.counts then l.counts[id] else 0
  }

  /** `toggleLike`: unlike and decrement, or like and increment. */
  function ToggleLike(l: Likes, id: string): (r: Likes)
    ensures id in r.liked <==> id !in l.liked
    ensures LikeCount(r, id) == LikeCount(l, id) + (if id in l.liked then -1 else 1)
    ensures r.liked - {id} == l.liked - {id}
    ensures r.counts - {id} == l.counts - {id}
  {
    if id in l.liked then Likes(l.liked - {id}, l.counts[id := LikeCount(l, id) - 1])
    else Likes(l.liked + {id}, l.counts[id := LikeCount(l, id) + 1])
  }

  /** Every counter is one exactly for liked events and zero otherwise. */
  ghost predicate CountsMatchLiked(l: Likes) {
    forall id :: LikeCount(l, id) == if id in l.liked then 1 else 0
  }

  /** Starting from nothing liked, toggling keeps the counters in step with
      the liked set, so a counter is never negative or above one. */
  lemma ToggleLikeKeepsCounts(l: Likes, id: string)
    requires CountsMatchLiked(l)
    ensures CountsMatchLiked(ToggleLike(l, id))
  {
    var r := ToggleLike(l, id);
    forall other ensures LikeCount(r, other) == if other in r.liked then 1 else 0 {
      if other != id {
        assert other in r.counts <==> other in r.counts - {id};
        assert other in l.counts <==> other in l.counts - {id};
        if other in r.counts {
          assert r.counts[other] == (l.counts - {id})[other];
        }
        assert other in r.liked <==> other in l.liked - {id};
      }
    }
  }

  /** The empty state satisfies the counter invariant. */
  lemma NoLikesMatch()
    ensures CountsMatchLiked(Likes({}, map[]))
  {
  }

  /** Liking and unliking restores both the liked set and the counter. */
  lemma ToggleLikeTwice(l: Likes, id: string)
    ensures ToggleLike(ToggleLike(l, id), id).liked == l.liked
    ensures LikeCount(ToggleLike(ToggleLike(l, id), id), id) == LikeCount(l, id)
  {
  }

  /** One comment under an event. */
  datatype Comment = Comment(id: string, author: string, text: string)

  /** An event's thread, an absent one reading as empty. */
  function Thread(threads: map<string, seq<Comment>>, eventId: string): seq<Comment> {
    if eventId in threads then threads[eventId] else []
  }

  /** `addComment`: a draft that trims to nothing, or no signed-in user,
      changes nothing; otherwise the trimmed draft is appended to the event's
      thread under the user's name and the draft is cleared. */
  function AddComment(threads: map<string, seq<Comment>>, draft: string, user: Option<User>,
                      eventId: string, stamp: string): (r: (map<string, seq<Comment>>, string))
    ensures IsBlank(draft) || user.None? ==> r == (threads, draft)
    ensures !IsBlank(draft) && user.Some? ==>
      && r.1 == ""
      && Thread(r.0, eventId) == Thread(threads, eventId) + [Comment(stamp, user.value.name, Trim(draft))]
      && r.0 - {eventId} == threads - {eventId}
  {
    TrimEmptyIffBlank(draft);
    var text := Trim(draft);
    if text == "" || user.None? then (threads, draft)
    else (threads[eventId := Thread(threads, eventId) + [Comment(stamp, user.value.name, text)]], "")
  }

  /** A stored comment is never blank and carries no outer white space. */
  lemma AddedCommentIsClean(threads: map<string, seq<Comment>>, draft: string, user: Option<User>,
                            eventId: string, stamp: string)
    requires !IsBlank(draft) && user.Some?
    ensures var t := Thread(AddComment(threads, draft, user, eventId, stamp).0, eventId);
      var c := t[|t| - 1];
      c.text != "" && !IsSpace(c.text[0]) && !IsSpace(c.text[|c.text| - 1])
  {
    TrimEmptyIffBlank(draft);
    TrimmedHasNoOuterSpace(draft);
  }
}

/**
  Announcements with denormalised counters, the relation tables behind them, and read tracking.
  Members reach published, unexpired announcements only; managers reach all of them.
 */
module Announcements {
  import opened Prelude

  type Id = nat
  type User = nat

  datatype Announcement = Announcement(
    isPublished: bool,
    expiresAt: Option<int>,
    viewsCount: int,
    likesCount: int,
    commentsCount: int)

  datatype State = State(
    announcements: map<Id, Announcement>,
    views: set<(Id, User)>,
    likes: set<(Id, User)>,
    comments: map<Id, Id>,             // comment to its announcement
    readStatus: map<(Id, User), bool>)

  datatype Request =
    | Create(isPublished: bool, expiresAt: Option<int>)
    | UpdateAnnouncement(id: Id, valid: bool, newPublished: Option<bool>, newExpiry: Option<Option<int>>)
    | DestroyAnnouncement(id: Id)
    | Publish(id: Id)
    | Unpublish(id: Id)
    | ManagerComment(id: Id, comment: Id, valid: bool)
    | DestroyComment(comment: Id)
    | Retrieve(id: Id, user: User)
    | Like(id: Id, user: User)
    | Unlike(id: Id, user: User)
    | MemberComment(id: Id, user: User, comment: Id, valid: bool)
    | MarkAsRead(id: Id, user: User)
    | MarkAsUnread(id: Id, user: User)

  datatype Response = Done | NotFound | Refused

  // ---------------------------------------------------------------- visibility and reading

  predicate IsVisible(a: Announcement, now: int) {
    a.isPublished && (a.expiresAt.None? || a.expiresAt.value > now)
  }

  function Visible(s: State, now: int): set<Id> {
    set i | i in s.announcements && IsVisible(s.announcements[i], now)
  }

  predicate HasRead(s: State, id: Id, u: User) {
    (id, u) in s.readStatus && s.readStatus[(id, u)]
  }

  function ReadIds(s: State, u: User): set<Id> {
    set k | k in s.readStatus && s.readStatus[k] && k.1 == u :: k.0
  }

  /** `filter_read_status` on the visible announcements. */
  function FilterReadStatus(s: State, now: int, u: User, value: string): set<Id> {
    if value == "unread" then Visible(s, now) - ReadIds(s, u)
    else if value == "read" then Visible(s, now) * ReadIds(s, u)
    else Visible(s, now)
  }

  // ---------------------------------------------------------------- requests

  function Track(s: State, id: Id, u: User): State
    requires id in s.announcements
  {
    var a := s.announcements[id];
    var viewed := if (id, u) in s.views then s
                  else s.(views := s.views + {(id, u)},
                          announcements := s.announcements[id := a.(viewsCount := a.viewsCount + 1)]);
    viewed.(readStatus := viewed.readStatus[(id, u) := true])
  }

  function AddLike(s: State, id: Id, u: User): State
    requires id in s.announcements
  {
    var a := s.announcements[id];
    s.(likes := s.likes + {(id, u)}, announcements := s.announcements[id := a.(likesCount := a.likesCount + 1)])
  }

  function RemoveLike(s: State, id: Id, u: User): State
    requires id in s.announcements
  {
    var a := s.announcements[id];
    s.(likes := s.likes - {(id, u)}, announcements := s.announcements[id := a.(likesCount := Max(0, a.likesCount - 1))])
  }

  function RemoveComment(s: State, comment: Id): State
    requires comment in s.comments && s.comments[comment] in s.announcements
  {
    var id := s.comments[comment];
    var a := s.announcements[id];
    s.(announcements := s.announcements[id := a.(commentsCount := Max(0, a.commentsCount - 1))],
       comments := s.comments - {comment})
  }

  function AddComment(s: State, id: Id, comment: Id): State
    requires id in s.announcements
  {
    var a := s.announcements[id];
    s.(comments := s.comments[comment := id],
       announcements := s.announcements[id := a.(commentsCount := a.commentsCount + 1)])
  }

  /** Deletes an announcement with all rows that refer to it. */
  function RemoveAnnouncement(s: State, id: Id): State {
    State(s.announcements - {id},
          set r | r in s.views && r.0 != id,
          set r | r in s.likes && r.0 != id,
          map c | c in s.comments && s.comments[c] != id :: s.comments[c],
          map k | k in s.readStatus && k.0 != id :: s.readStatus[k])
  }

  /** A new announcement is stored under an unused identifier with all counters zero. */
  ghost predicate CreateStep(s: State, q: Request, a: Response, s': State)
    requires q.Create?
  {
    && a == Done
    && exists id: Id :: id !in s.announcements &&
         s' == s.(announcements := s.announcements[id := Announcement(q.isPublished, q.expiresAt, 0, 0, 0)])
  }

  function MemberStep(s: State, q: Request, now: int): (Response, State)
    requires q.Retrieve? || q.Like? || q.Unlike? || q.MemberComment? || q.MarkAsRead? || q.MarkAsUnread?
  {
    if q.id !in Visible(s, now) then (NotFound, s)
    else
      match q
      case Retrieve(id, u) => (Done, Track(s, id, u))
      case Like(id, u) => (Done, if (id, u) in s.likes then s else AddLike(s, id, u))
      case Unlike(id, u) => if (id, u) !in s.likes then (Refused, s) else (Done, RemoveLike(s, id, u))
      case MemberComment(id, _, comment, valid) =>
        if !valid then (Refused, s) else (Done, AddComment(s, id, comment))
      case MarkAsRead(id, u) => (Done, s.(readStatus := s.readStatus[(id, u) := true]))
      case MarkAsUnread(id, u) =>
        if (id, u) in s.readStatus then (Done, s.(readStatus := s.readStatus[(id, u) := false])) else (Done, s)
      case _ => (Refused, s)
  }

  predicate IsManagerRequest(q: Request) {
    || q.UpdateAnnouncement? || q.DestroyAnnouncement? || q.Publish? || q.Unpublish?
    || q.ManagerComment? || q.DestroyComment?
  }

  function ManagerStep(s: State, q: Request): (Response, State)
    requires IsManagerRequest(q)
  {
    match q
    case UpdateAnnouncement(id, valid, newPublished, newExpiry) =>
      if id !in s.announcements then (NotFound, s)
      else if !valid then (Refused, s)
      else
        var a := s.announcements[id];
        var isPublished := if newPublished.Some? then newPublished.value else a.isPublished;
        var expiresAt := if newExpiry.Some? then newExpiry.value else a.expiresAt;
        (Done, s.(announcements := s.announcements[id := a.(isPublished := isPublished, expiresAt := expiresAt)]))
    case DestroyAnnouncement(id) =>
      if id !in s.announcements then (NotFound, s) else (Done, RemoveAnnouncement(s, id))
    case Publish(id) =>
      if id !in s.announcements then (NotFound, s)
      else if s.announcements[id].isPublished then (Refused, s)
      else (Done, s.(announcements := s.announcements[id := s.announcements[id].(isPublished := true)]))
    case Unpublish(id) =>
      if id !in s.announcements then (NotFound, s)
      else if !s.announcements[id].isPublished then (Refused, s)
      else (Done, s.(announcements := s.announcements[id := s.announcements[id].(isPublished := false)]))
    case ManagerComment(id, comment, valid) =>
      if id !in s.announcements then (NotFound, s)
      else if !valid then (Refused, s)
      else (Done, AddComment(s, id, comment))
    case DestroyComment(comment) =>
      if comment !in s.comments || s.comments[comment] !in s.announcements then (NotFound, s)
      else (Done, RemoveComment(s, comment))
    case _ => (Refused, s)
  }

  /** A comment is stored under an unused identifier. */
  ghost predicate Step(s: State, q: Request, now: int, a: Response, s': State) {
    match q
    case Create(_, _) => CreateStep(s, q, a, s')
    case UpdateAnnouncement(_, _, _, _) => (a, s') == ManagerStep(s, q)
    case DestroyAnnouncement(_) => (a, s') == ManagerStep(s, q)
    case Publish(_) => (a, s') == ManagerStep(s, q)
    case Unpublish(_) => (a, s') == ManagerStep(s, q)
    case ManagerComment(_, comment, _) => comment !in s.comments && (a, s') == ManagerStep(s, q)
    case DestroyComment(_) => (a, s') == ManagerStep(s, q)
    case MemberComment(_, _, comment, _) => comment !in s.comments && (a, s') == MemberStep(s, q, now)
    case _ => (a, s') == MemberStep(s, q, now)
  }

  // ---------------------------------------------------------------- the views

  class AnnouncementService {
    var announcements: map<Id, Announcement>
    var views: set<(Id, User)>
    var likes: set<(Id, User)>
    var comments: map<Id, Id>
    var readStatus: map<(Id, User), bool>

    ghost function Db(): State
      reads this
    {
      State(announcements, views, likes, comments, readStatus)
    }

    constructor ()
      ensures Db() == State(map[], {}, {}, map[], map[])
    {
      announcements, views, likes, comments, readStatus := map[], {}, {}, map[], map[];
    }

    method PerformCreate(q: Request, id: Id, now: int) returns (a: Response)
      requires q.Create? && id !in announcements
      modifies this`announcements
      ensures Step(old(Db()), q, now, a, Db())
    {
      announcements := announcements[id := Announcement(q.isPublished, q.expiresAt, 0, 0, 0)];
      a := Done;
    }

    method RetrieveView(id: Id, u: User, now: int) returns (a: Response)
      modifies this
      ensures Step(old(Db()), Retrieve(id, u), now, a, Db())
    {
      if id !in announcements || !IsVisible(announcements[id], now) {
        return NotFound;
      }
      var announcement := announcements[id];
      if (id, u) !in views {
        views := views + {(id, u)};
        announcement := announcement.(viewsCount := announcement.viewsCount + 1);
        announcements := announcements[id := announcement];
      }
      if (id, u) !in readStatus {
        readStatus := readStatus[(id, u) := false];
      }
      if !readStatus[(id, u)] {
        readStatus := readStatus[(id, u) := true];
      }
      assert readStatus == old(readStatus)[(id, u) := true];
      a := Done;
    }

    method LikeView(id: Id, u: User, now: int) returns (a: Response)
      modifies this
      ensures Step(old(Db()), Like(id, u), now, a, Db())
    {
      if id !in announcements || !IsVisible(announcements[id], now) {
        return NotFound;
      }
      if (id, u) !in likes {
        likes := likes + {(id, u)};
        announcements := announcements[id := announcements[id].(likesCount := announcements[id].likesCount + 1)];
      }
      a := Done;
    }

    method UnlikeView(id: Id, u: User, now: int) returns (a: Response)
      modifies this
      ensures Step(old(Db()), Unlike(id, u), now, a, Db())
    {
      if id !in announcements || !IsVisible(announcements[id], now) {
        return NotFound;
      }
      if (id, u) !in likes {
        return Refused;
      }
      likes := likes - {(id, u)};
      announcements := announcements[id := announcements[id].(likesCount := Max(0, announcements[id].likesCount - 1))];
      a := Done;
    }

    method InsertComment(id: Id, comment: Id)
      requires id in announcements
      modifies this`comments, this`announcements
      ensures Db() == AddComment(old(Db()), id, comment)
    {
      comments := comments[comment := id];
      announcements := announcements[id := announcements[id].(commentsCount := announcements[id].commentsCount + 1)];
    }

    method MemberCommentView(q: Request, now: int) returns (a: Response)
      requires q.MemberComment? && q.comment !in comments
      modifies this
      ensures Step(old(Db()), q, now, a, Db())
    {
      if q.id !in announcements || !IsVisible(announcements[q.id], now) {
        return NotFound;
      }
      if !q.valid {
        return Refused;
      }
      InsertComment(q.id, q.comment);
      a := Done;
    }

    method ManagerCommentView(q: Request, now: int) returns (a: Response)
      requires q.ManagerComment? && q.comment !in comments
      modifies this
      ensures Step(old(Db()), q, now, a, Db())
    {
      if q.id !in announcements {
        return NotFound;
      }
      if !q.valid {
        return Refused;
      }
      InsertComment(q.id, q.comment);
      a := Done;
    }

    method DestroyCommentView(comment: Id, now: int) returns (a: Response)
      modifies this
      ensures Step(old(Db()), DestroyComment(comment), now, a, Db())
    {
      if comment !in comments || comments[comment] !in announcements {
        return NotFound;
      }
      var id := comments[comment];
      var announcement := announcements[id];
      announcement := announcement.(commentsCount := Max(0, announcement.commentsCount - 1));
      announcements := announcements[id := announcement];
      comments := comments - {comment};
      a := Done;
    }

    method UpdateView(q: Request, now: int) returns (a: Response)
      requires q.UpdateAnnouncement?
      modifies this`announcements
      ensures Step(old(Db()), q, now, a, Db())
    {
      if q.id !in announcements {
        return NotFound;
      }
      if !q.valid {
        return Refused;
      }
      var announcement := announcements[q.id];
      if q.newPublished.Some? {
        announcement := announcement.(isPublished := q.newPublished.value);
      }
      if q.newExpiry.Some? {
        announcement := announcement.(expiresAt := q.newExpiry.value);
      }
      announcements := announcements[q.id := announcement];
      a := Done;
    }

    method DestroyView(id: Id, now: int) returns (a: Response)
      modifies this
      ensures Step(old(Db()), DestroyAnnouncement(id), now, a, Db())
    {
      if id !in announcements {
        return NotFound;
      }
      views := set r | r in views && r.0 != id;
      likes := set r | r in likes && r.0 != id;
      comments := map c | c in comments && comments[c] != id :: comments[c];
      readStatus := map k | k in readStatus && k.0 != id :: readStatus[k];
      announcements := announcements - {id};
      a := Done;
    }

    method MarkAsReadView(id: Id, u: User, now: int) returns (a: Response)
      modifies this
      ensures Step(old(Db()), MarkAsRead(id, u), now, a, Db())
    {
      if id !in announcements || !IsVisible(announcements[id], now) {
        return NotFound;
      }
      if (id, u) !in readStatus {
        readStatus := readStatus[(id, u) := false];
      }
      if !readStatus[(id, u)] {
        readStatus := readStatus[(id, u) := true];
      }
      assert readStatus == old(readStatus)[(id, u) := true];
      a := Done;
    }

    method MarkAsUnreadView(id: Id, u: User, now: int) returns (a: Response)
      modifies this
      ensures Step(old(Db()), MarkAsUnread(id, u), now, a, Db())
    {
      if id !in announcements || !IsVisible(announcements[id], now) {
        return NotFound;
      }
      if (id, u) in readStatus {
        readStatus := readStatus[(id, u) := false];
      }
      a := Done;
    }

    method SetPublished(id: Id, published: bool, now: int) returns (a: Response)
      modifies this
      ensures Step(old(Db()), if published then Publish(id) else Unpublish(id), now, a, Db())
    {
      if id !in announcements {
        return NotFound;
      }
      if announcements[id].isPublished == published {
        return Refused;
      }
      announcements := announcements[id := announcements[id].(isPublished := published)];
      a := Done;
    }

    /** The count shown to a member is the length of the member's list under the `unread` filter. */
    method UnreadCount(u: User, now: int) returns (count: nat)
      ensures count == |FilterReadStatus(Db(), now, u, "unread")|
    {
      var all := set i | i in announcements && IsVisible(announcements[i], now);
      var read := set k | k in readStatus && readStatus[k] && k.1 == u :: k.0;
      assert all == Visible(Db(), now) && read == ReadIds(Db(), u);
      count := |all - read|;
    }
  }

  // ---------------------------------------------------------------- runs

  datatype Transition = Transition(request: Request, now: int, response: Response, post: State)

  type Trace = seq<Transition>

  function Final(s: State, tr: Trace): State {
    if |tr| == 0 then s else tr[|tr| - 1].post
  }

  ghost predicate Run(s: State, tr: Trace) {
    |tr| == 0 ||
    var n := |tr| - 1;
    && Run(s, tr[..n])
    && Step(Final(s, tr[..n]), tr[n].request, tr[n].now, tr[n].response, tr[n].post)
  }

  const EMPTY := State(map[], {}, {}, map[], map[])

  // ---------------------------------------------------------------- counters

  function RowsOf(table: set<(Id, User)>, id: Id): set<(Id, User)> {
    set r | r in table && r.0 == id
  }

  function CommentsOf(comments: map<Id, Id>, id: Id): set<Id> {
    set c | c in comments && comments[c] == id
  }

  /** The counters of announcement `id` equal the numbers of its rows. */
  predicate Agrees(s: State, id: Id)
    requires id in s.announcements
  {
    var a := s.announcements[id];
    && a.viewsCount == |RowsOf(s.views, id)|
    && a.likesCount == |RowsOf(s.likes, id)|
    && a.commentsCount == |CommentsOf(s.comments, id)|
  }

  /** Rows only refer to existing announcements. */
  ghost predicate NoDanglingRows(s: State) {
    && (forall r :: r in s.views + s.likes ==> r.0 in s.announcements)
    && (forall c :: c in s.comments ==> s.comments[c] in s.announcements)
  }

  ghost predicate CountersAgree(s: State) {
    NoDanglingRows(s) && forall id :: id in s.announcements ==> Agrees(s, id)
  }

  lemma RowAdded(table: set<(Id, User)>, r: (Id, User), id: Id)
    requires r !in table
    ensures |RowsOf(table + {r}, id)| == |RowsOf(table, id)| + if r.0 == id then 1 else 0
  {
    assert RowsOf(table + {r}, id) == RowsOf(table, id) + if r.0 == id then {r} else {};
  }

  lemma RowRemoved(table: set<(Id, User)>, r: (Id, User), id: Id)
    requires r in table
    ensures |RowsOf(table - {r}, id)| == |RowsOf(table, id)| - if r.0 == id then 1 else 0
  {
    RowAdded(table - {r}, r, id);
    assert table - {r} + {r} == table;
  }

  lemma CommentAdded(comments: map<Id, Id>, c: Id, target: Id, id: Id)
    requires c !in comments
    ensures |CommentsOf(comments[c := target], id)| == |CommentsOf(comments, id)| + if target == id then 1 else 0
  {
    assert CommentsOf(comments[c := target], id) == CommentsOf(comments, id) + if target == id then {c} else {};
  }

  lemma CommentRemoved(comments: map<Id, Id>, c: Id, id: Id)
    requires c in comments
    ensures |CommentsOf(comments - {c}, id)| == |CommentsOf(comments, id)| - if comments[c] == id then 1 else 0
  {
    CommentAdded(comments - {c}, c, comments[c], id);
    assert (comments - {c})[c := comments[c]] == comments;
  }

  lemma NewAnnouncementHasNoRows(s: State, id: Id)
    requires NoDanglingRows(s) && id !in s.announcements
    ensures RowsOf(s.views, id) == {} && RowsOf(s.likes, id) == {} && CommentsOf(s.comments, id) == {}
  {
    assert forall r :: r in s.views || r in s.likes ==> r in s.views + s.likes;
  }

  lemma CreateKeepsCounters(s: State, q: Request, a: Response, s': State)
    requires CountersAgree(s) && q.Create? && CreateStep(s, q, a, s')
    ensures CountersAgree(s')
  {
    var id: Id :| id !in s.announcements &&
              s' == s.(announcements := s.announcements[id := Announcement(q.isPublished, q.expiresAt, 0, 0, 0)]);
    NewAnnouncementHasNoRows(s, id);
    forall i | i in s'.announcements ensures Agrees(s', i) {
      assert i != id ==> Agrees(s, i);
    }
  }

  lemma TrackAgrees(s: State, i: Id, u: User, id: Id)
    requires i in s.announcements && id in s.announcements && Agrees(s, id)
    ensures Agrees(Track(s, i, u), id)
  {
    if (i, u) !in s.views {
      RowAdded(s.views, (i, u), id);
    }
  }

  lemma AddLikeAgrees(s: State, i: Id, u: User, id: Id)
    requires i in s.announcements && id in s.announcements && Agrees(s, id) && (i, u) !in s.likes
    ensures Agrees(AddLike(s, i, u), id)
  {
    RowAdded(s.likes, (i, u), id);
  }

  lemma RemoveLikeAgrees(s: State, i: Id, u: User, id: Id)
    requires i in s.announcements && id in s.announcements && Agrees(s, id) && (i, u) in s.likes
    ensures Agrees(RemoveLike(s, i, u), id)
  {
    RowRemoved(s.likes, (i, u), id);
  }

  lemma AddCommentAgrees(s: State, i: Id, c: Id, id: Id)
    requires i in s.announcements && id in s.announcements && Agrees(s, id) && c !in s.comments
    ensures Agrees(AddComment(s, i, c), id)
  {
    CommentAdded(s.comments, c, i, id);
  }

  lemma RemoveCommentAgrees(s: State, c: Id, id: Id)
    requires c in s.comments && s.comments[c] in s.announcements && id in s.announcements && Agrees(s, id)
    ensures Agrees(RemoveComment(s, c), id)
  {
    CommentRemoved(s.comments, c, id);
  }

  lemma RemoveAnnouncementAgrees(s: State, i: Id, id: Id)
    requires id in s.announcements && id != i && Agrees(s, id)
    ensures Agrees(RemoveAnnouncement(s, i), id)
  {
    var after := RemoveAnnouncement(s, i);
    assert RowsOf(after.views, id) == RowsOf(s.views, id);
    assert RowsOf(after.likes, id) == RowsOf(s.likes, id);
    assert CommentsOf(after.comments, id) == CommentsOf(s.comments, id);
  }

  lemma MemberStepKeepsCounters(s: State, q: Request, now: int, id: Id)
    requires CountersAgree(s) && id in s.announcements
    requires q.Retrieve? || q.Like? || q.Unlike? || q.MemberComment? || q.MarkAsRead? || q.MarkAsUnread?
    requires q.MemberComment? ==> q.comment !in s.comments
    ensures var s' := MemberStep(s, q, now).1; id in s'.announcements && Agrees(s', id)
  {
    assert Agrees(s, id);
    assert q.id in Visible(s, now) ==> q.id in s.announcements;
    hide CountersAgree, Visible, RowsOf, CommentsOf;
    if q.id in Visible(s, now) {
      match q {
        case Retrieve(i, u) => TrackAgrees(s, i, u, id);
        case Like(i, u) => if (i, u) !in s.likes { AddLikeAgrees(s, i, u, id); }
        case Unlike(i, u) => if (i, u) in s.likes { RemoveLikeAgrees(s, i, u, id); }
        case MemberComment(i, _, c, _) => AddCommentAgrees(s, i, c, id);
        case _ =>
      }
    }
  }

  lemma ManagerStepKeepsCounters(s: State, q: Request, id: Id)
    requires CountersAgree(s) && IsManagerRequest(q)
    requires q.ManagerComment? ==> q.comment !in s.comments
    requires id in ManagerStep(s, q).1.announcements
    ensures Agrees(ManagerStep(s, q).1, id)
  {
    assert id in s.announcements;
    assert Agrees(s, id);
    hide CountersAgree, RowsOf, CommentsOf;
    match q {
      case ManagerComment(i, c, _) => if i in s.announcements { AddCommentAgrees(s, i, c, id); }
      case DestroyComment(c) =>
        if c in s.comments && s.comments[c] in s.announcements {
          RemoveCommentAgrees(s, c, id);
        }
      case DestroyAnnouncement(i) => if id != i { RemoveAnnouncementAgrees(s, i, id); }
      case _ =>
    }
  }

  lemma StepKeepsCounters(s: State, q: Request, now: int, a: Response, s': State)
    requires CountersAgree(s) && Step(s, q, now, a, s')
    ensures CountersAgree(s')
  {
    if q.Create? {
      CreateKeepsCounters(s, q, a, s');
    } else {
      StepKeepsRows(s, q, now, a, s');
      forall id | id in s'.announcements ensures Agrees(s', id) {
        if IsManagerRequest(q) {
          ManagerStepKeepsCounters(s, q, id);
        } else {
          MemberStepKeepsCounters(s, q, now, id);
        }
      }
    }
  }

  lemma StepKeepsRows(s: State, q: Request, now: int, a: Response, s': State)
    requires NoDanglingRows(s) && Step(s, q, now, a, s') && !q.Create?
    ensures NoDanglingRows(s') && s'.announcements.Keys <= s.announcements.Keys
  {
    assert forall r :: r in s.views || r in s.likes ==> r in s.views + s.likes;
  }

  /** In every state reachable from an empty database, each announcement's counters equal the numbers
      of its view, like and comment rows. */
  lemma {:induction false} CountersAlwaysAgree(s: State, tr: Trace)
    requires CountersAgree(s) && Run(s, tr)
    ensures CountersAgree(Final(s, tr))
  {
    if |tr| > 0 {
      var n := |tr| - 1;
      CountersAlwaysAgree(s, tr[..n]);
      StepKeepsCounters(Final(s, tr[..n]), tr[n].request, tr[n].now, tr[n].response, tr[n].post);
    }
  }

  /** The clamps never bite: when a like or comment is removed, its counter was positive. */
  lemma ClampsNeverBite(tr: Trace, q: Request, now: int, s': State)
    requires Run(EMPTY, tr) && Step(Final(EMPTY, tr), q, now, Done, s')
    ensures var s := Final(EMPTY, tr);
            && (q.Unlike? ==>
                && q.id in s.announcements && q.id in s'.announcements
                && s'.announcements[q.id].likesCount == s.announcements[q.id].likesCount - 1 >= 0)
            && (q.DestroyComment? ==>
                && q.comment in s.comments
                && var id := s.comments[q.comment];
                   && id in s.announcements && id in s'.announcements
                   && s'.announcements[id].commentsCount == s.announcements[id].commentsCount - 1 >= 0)
  {
    var s := Final(EMPTY, tr);
    CountersAlwaysAgree(EMPTY, tr);
    if q.Unlike? {
      assert Agrees(s, q.id);
      assert (q.id, q.user) in RowsOf(s.likes, q.id);
    }
    if q.DestroyComment? {
      assert Agrees(s, s.comments[q.comment]);
      assert q.comment in CommentsOf(s.comments, s.comments[q.comment]);
    }
  }

  // ---------------------------------------------------------------- reading

  /** The two filters partition the visible announcements; so the counts add up. */
  lemma FiltersPartition(s: State, now: int, u: User)
    ensures var read, unread := FilterReadStatus(s, now, u, "read"), FilterReadStatus(s, now, u, "unread");
            && read !! unread && read + unread == Visible(s, now)
            && |read| + |unread| == |Visible(s, now)|
    ensures forall id :: id in FilterReadStatus(s, now, u, "unread") <==> id in Visible(s, now) && !HasRead(s, id, u)
  {
    var read, unread := FilterReadStatus(s, now, u, "read"), FilterReadStatus(s, now, u, "unread");
    assert read + unread == Visible(s, now);
    forall id ensures id in ReadIds(s, u) <==> HasRead(s, id, u) {
      if HasRead(s, id, u) {
        assert (id, u) in s.readStatus;
      }
    }
  }

  function UnreadCount(s: State, now: int, u: User): nat {
    |FilterReadStatus(s, now, u, "unread")|
  }

  predicate Reads(q: Request, id: Id, u: User) {
    q == Retrieve(id, u) || q == MarkAsRead(id, u)
  }

  lemma ReadStatusAfter(s: State, q: Request, now: int, a: Response, s': State, id: Id, v: User)
    requires q.Retrieve? || q.MarkAsRead? || q.MarkAsUnread?
    requires Step(s, q, now, a, s')
    ensures Visible(s', now) == Visible(s, now)
    ensures HasRead(s', id, v) == if id == q.id && v == q.user && id in Visible(s, now) then !q.MarkAsUnread?
                                  else HasRead(s, id, v)
  {
  }

  /** Retrieving or marking one visible unread announcement lowers the reader's count by exactly one,
      marking a read one as unread raises it by exactly one, and nobody else's count moves. */
  lemma ReadingMovesOneCount(s: State, q: Request, now: int, a: Response, s': State, v: User)
    requires q.Retrieve? || q.MarkAsRead? || q.MarkAsUnread?
    requires Step(s, q, now, a, s')
    ensures UnreadCount(s', now, v) - UnreadCount(s, now, v) ==
              if v != q.user || q.id !in Visible(s, now) || HasRead(s, q.id, q.user) != q.MarkAsUnread? then 0
              else if q.MarkAsUnread? then 1 else -1
  {
    hide Step, Visible, FilterReadStatus, HasRead;
    var before, after := FilterReadStatus(s, now, v, "unread"), FilterReadStatus(s', now, v, "unread");
    forall id ensures id != q.id ==> (id in after <==> id in before) {
      UnreadAfter(s, q, now, a, s', v, id);
    }
    UnreadAfter(s, q, now, a, s', v, q.id);
    SetsDifferingAt(before, after, q.id);
  }

  lemma UnreadAfter(s: State, q: Request, now: int, a: Response, s': State, v: User, id: Id)
    requires q.Retrieve? || q.MarkAsRead? || q.MarkAsUnread?
    requires Step(s, q, now, a, s')
    ensures id in FilterReadStatus(s, now, v, "unread") <==> id in Visible(s, now) && !HasRead(s, id, v)
    ensures var isRead := if id == q.id && v == q.user then !q.MarkAsUnread? else HasRead(s, id, v);
            id in FilterReadStatus(s', now, v, "unread") <==> id in Visible(s, now) && !isRead
  {
    FiltersPartition(s, now, v);
    FiltersPartition(s', now, v);
    hide FilterReadStatus;
    ReadStatusAfter(s, q, now, a, s', id, v);
  }

  lemma SetsDifferingAt(before: set<Id>, after: set<Id>, x: Id)
    requires forall id :: id != x ==> (id in after <==> id in before)
    ensures |after| - |before| == (if x in after then 1 else 0) - (if x in before then 1 else 0)
  {
    if x in after && x !in before {
      assert after == before + {x};
    } else if x in before && x !in after {
      assert before == after + {x};
    } else {
      assert after == before;
    }
  }

  /** Whether the last request that touched the read status of `id` for `u` was a reading one. */
  function LastTouchReads(before: bool, tr: Trace, id: Id, u: User): bool {
    if |tr| == 0 then before
    else
      var t := tr[|tr| - 1];
      if t.response == Done && Reads(t.request, id, u) then true
      else if t.response == Done && (t.request == MarkAsUnread(id, u) || t.request == DestroyAnnouncement(id))
      then false
      else LastTouchReads(before, tr[..|tr| - 1], id, u)
  }

  lemma StepOnReadStatus(s: State, t: Transition, id: Id, u: User)
    requires Step(s, t.request, t.now, t.response, t.post)
    ensures HasRead(t.post, id, u) ==
              if t.response == Done && Reads(t.request, id, u) then true
              else if t.response == Done && (t.request == MarkAsUnread(id, u) || t.request == DestroyAnnouncement(id))
              then false
              else HasRead(s, id, u)
  {
  }

  /** After any run, an announcement counts as read by `u` exactly when the last successful request of
      `u` to retrieve it or mark it was a reading one, and it was not deleted since. */
  lemma {:induction false} ReadStatusIsLastTouch(s: State, tr: Trace, id: Id, u: User)
    requires Run(s, tr)
    ensures HasRead(Final(s, tr), id, u) == LastTouchReads(HasRead(s, id, u), tr, id, u)
  {
    if |tr| > 0 {
      var n := |tr| - 1;
      ReadStatusIsLastTouch(s, tr[..n], id, u);
      StepOnReadStatus(Final(s, tr[..n]), tr[n], id, u);
      hide Step, HasRead;
    }
  }

  // ---------------------------------------------------------------- what members reach

  predicate IsMemberRequest(q: Request) {
    q.Retrieve? || q.Like? || q.Unlike? || q.MemberComment? || q.MarkAsRead? || q.MarkAsUnread?
  }

  /** The announcement is absent, unpublished, or expired by `now`. */
  predicate IsHidden(s: State, id: Id, now: int) {
    || id !in s.announcements
    || !s.announcements[id].isPublished
    || (s.announcements[id].expiresAt.Some? && s.announcements[id].expiresAt.value <= now)
  }

  lemma ListedIff(s: State, now: int, u: User, id: Id)
    ensures id in FilterReadStatus(s, now, u, "read") + FilterReadStatus(s, now, u, "unread") <==> !IsHidden(s, id, now)
  {
    FiltersPartition(s, now, u);
    hide FilterReadStatus;
  }

  lemma NotFoundAnswer(s: State, q: Request, now: int, a: Response, s': State)
    requires IsMemberRequest(q) && Step(s, q, now, a, s')
    ensures a == NotFound <==> IsHidden(s, q.id, now)
    ensures a == NotFound ==> s' == s
  {
  }

  /** A member request is not found, and changes nothing, exactly when its announcement is hidden; and
      a hidden announcement is in neither the read nor the unread list, any other one is in one. */
  lemma NotFoundIff(s: State, q: Request, now: int, a: Response, s': State)
    requires IsMemberRequest(q) && Step(s, q, now, a, s')
    ensures a == NotFound <==> IsHidden(s, q.id, now)
    ensures a == NotFound ==> s' == s
    ensures forall u, id :: id in FilterReadStatus(s, now, u, "read") + FilterReadStatus(s, now, u, "unread")
                            <==> !IsHidden(s, id, now)
  {
    hide FilterReadStatus, MemberStep;
    NotFoundAnswer(s, q, now, a, s');
    hide Step, IsHidden;
    forall u, id
      ensures id in FilterReadStatus(s, now, u, "read") + FilterReadStatus(s, now, u, "unread")
              <==> !IsHidden(s, id, now)
    {
      ListedIff(s, now, u, id);
    }
  }

  /** A request that is reached is refused, without change, exactly for an invalid comment or update, an
      unlike without a like, and a publication that would change nothing. */
  lemma RefusedIff(s: State, q: Request, now: int, a: Response, s': State)
    requires (IsMemberRequest(q) || IsManagerRequest(q)) && Step(s, q, now, a, s') && a != NotFound
    ensures a == Refused <==>
              || ((q.MemberComment? || q.ManagerComment? || q.UpdateAnnouncement?) && !q.valid)
              || (q.Unlike? && (q.id, q.user) !in s.likes)
              || (q.Publish? && q.id in s.announcements && s.announcements[q.id].isPublished)
              || (q.Unpublish? && q.id in s.announcements && !s.announcements[q.id].isPublished)
    ensures a == Refused ==> s' == s
  {
  }

  /** A manager reaches an announcement exactly when it exists. */
  lemma ManagerFindsIff(s: State, q: Request, now: int, a: Response, s': State)
    requires IsManagerRequest(q) && !q.DestroyComment? && Step(s, q, now, a, s')
    ensures a == NotFound <==> q.id !in s.announcements
    ensures a != Done ==> s' == s
    ensures a == Done && q.Publish? ==> q.id in s'.announcements && s'.announcements[q.id].isPublished
    ensures a == Done && q.Unpublish? ==> q.id in s'.announcements && !s'.announcements[q.id].isPublished
    ensures a == Done && q.UpdateAnnouncement? ==>
              && q.id in s'.announcements
              && s'.announcements[q.id].isPublished ==
                   (if q.newPublished.Some? then q.newPublished.value else s.announcements[q.id].isPublished)
              && s'.announcements[q.id].expiresAt ==
                   (if q.newExpiry.Some? then q.newExpiry.value else s.announcements[q.id].expiresAt)
  {
  }

  /** Creating adds one announcement, published and expiring as sent, with nothing counted, and touches
      no other. */
  lemma CreateAdds(s: State, q: Request, now: int, a: Response, s': State) returns (id: Id)
    requires q.Create? && Step(s, q, now, a, s')
    ensures a == Done && id !in s.announcements && s'.announcements.Keys == s.announcements.Keys + {id}
    ensures s'.announcements[id].isPublished == q.isPublished && s'.announcements[id].expiresAt == q.expiresAt
    ensures s'.announcements[id].viewsCount == 0 && s'.announcements[id].likesCount == 0
    ensures s'.announcements[id].commentsCount == 0
    ensures forall i :: i in s.announcements ==> s'.announcements[i] == s.announcements[i]
    ensures s' == s.(announcements := s'.announcements)
  {
    id :| id !in s.announcements &&
          s' == s.(announcements := s.announcements[id := Announcement(q.isPublished, q.expiresAt, 0, 0, 0)]);
  }

  /** Transition t makes announcement `id` published: by publishing it, by an update that does, or by
      creating it, after it was deleted. */
  predicate Publishes(s: State, t: Transition, id: Id) {
    || t.request == Publish(id)
    || (t.request.UpdateAnnouncement? && t.request.id == id && t.request.newPublished == Some(true))
    || (id !in s.announcements && id in t.post.announcements)
  }

  predicate IsOff(s: State, id: Id) {
    id in s.announcements ==> !s.announcements[id].isPublished
  }

  lemma StepStaysOff(s: State, t: Transition, id: Id)
    requires IsOff(s, id) && Step(s, t.request, t.now, t.response, t.post) && !Publishes(s, t, id)
    ensures IsOff(t.post, id)
  {
  }

  lemma {:induction false} RunStaysOff(s: State, tr: Trace, id: Id)
    requires IsOff(s, id) && Run(s, tr)
    requires forall i :: 0 <= i < |tr| ==> !Publishes(Final(s, tr[..i]), tr[i], id)
    ensures IsOff(Final(s, tr), id)
  {
    if |tr| > 0 {
      var n := |tr| - 1;
      forall i | 0 <= i < n ensures !Publishes(Final(s, tr[..n][..i]), tr[..n][i], id) {
        assert tr[..n][..i] == tr[..i];
      }
      RunStaysOff(s, tr[..n], id);
      StepStaysOff(Final(s, tr[..n]), tr[n], id);
    }
  }

  /** Once unpublished, an announcement is not found by any member until something publishes it again. */
  lemma UnpublishedStaysHidden(s: State, off: Transition, tr: Trace, q: Request, now: int, a: Response, s': State)
    requires off.request.Unpublish? && off.response == Done
    requires Step(s, off.request, off.now, off.response, off.post) && Run(off.post, tr)
    requires forall i :: 0 <= i < |tr| ==> !Publishes(Final(off.post, tr[..i]), tr[i], off.request.id)
    requires IsMemberRequest(q) && q.id == off.request.id && Step(Final(off.post, tr), q, now, a, s')
    ensures a == NotFound && s' == Final(off.post, tr)
  {
    RunStaysOff(off.post, tr, off.request.id);
    NotFoundIff(Final(off.post, tr), q, now, a, s');
  }

  // ---------------------------------------------------------------- likes, views and comments over runs

  /** Whether the last successful like or unlike of `id` by `u` was a like, and `id` was not deleted since. */
  function LastLikes(before: bool, tr: Trace, id: Id, u: User): bool {
    if |tr| == 0 then before
    else
      var t := tr[|tr| - 1];
      if t.response == Done && t.request == Like(id, u) then true
      else if t.response == Done && (t.request == Unlike(id, u) || t.request == DestroyAnnouncement(id)) then false
      else LastLikes(before, tr[..|tr| - 1], id, u)
  }

  /** Whether `u` ever retrieved `id`, and it was not deleted since. */
  function EverViewed(before: bool, tr: Trace, id: Id, u: User): bool {
    if |tr| == 0 then before
    else
      var t := tr[|tr| - 1];
      if t.response == Done && t.request == Retrieve(id, u) then true
      else if t.response == Done && t.request == DestroyAnnouncement(id) then false
      else EverViewed(before, tr[..|tr| - 1], id, u)
  }

  lemma StepOnRows(s: State, t: Transition, id: Id, u: User)
    requires Step(s, t.request, t.now, t.response, t.post)
    ensures (id, u) in t.post.likes <==>
              || (t.response == Done && t.request == Like(id, u))
              || ((id, u) in s.likes && !(t.response == Done
                                          && (t.request == Unlike(id, u) || t.request == DestroyAnnouncement(id))))
    ensures (id, u) in t.post.views <==>
              || (t.response == Done && t.request == Retrieve(id, u))
              || ((id, u) in s.views && !(t.response == Done && t.request == DestroyAnnouncement(id)))
  {
  }

  /** After any run a user likes an announcement exactly when the last such request was a like, and has
      viewed it exactly when it was ever retrieved; so the counters count users. */
  lemma {:induction false} RowsAreLastTouches(s: State, tr: Trace, id: Id, u: User)
    requires Run(s, tr)
    ensures (id, u) in Final(s, tr).likes <==> LastLikes((id, u) in s.likes, tr, id, u)
    ensures (id, u) in Final(s, tr).views <==> EverViewed((id, u) in s.views, tr, id, u)
  {
    if |tr| > 0 {
      var n := |tr| - 1;
      RowsAreLastTouches(s, tr[..n], id, u);
      StepOnRows(Final(s, tr[..n]), tr[n], id, u);
      hide Step;
    }
  }

  /** Comments come by valid comment requests on announcements that are reached, under their own number,
      and go with their deletion or that of their announcement. */
  lemma StepOnComments(s: State, t: Transition, c: Id)
    requires Step(s, t.request, t.now, t.response, t.post)
    ensures c in t.post.comments && c !in s.comments <==>
              t.response == Done && (t.request.MemberComment? || t.request.ManagerComment?) && t.request.comment == c
    ensures c in t.post.comments && c !in s.comments ==> t.post.comments[c] == t.request.id
    ensures c in s.comments && c !in t.post.comments <==>
              && c in s.comments && t.response == Done
              && (t.request == DestroyComment(c) || t.request == DestroyAnnouncement(s.comments[c]))
    ensures c in s.comments && c in t.post.comments ==> t.post.comments[c] == s.comments[c]
  {
  }
}

/** The family-photos endpoints: uploading, the feed, likes, views,
    comments, deletion with its permission rule, profile updates and the
    user list, over an in-memory copy of the photo tables. Each endpoint is
    one atomic step of the store. */
module FamilyPhotos {
  import opened Common
  import opened PhotoModel

  // ------------------------------------------------------------ likes

  /** The like table after a toggle: the user's like on the photo is
      removed when there is one, and added (under the next serial id)
      otherwise. */
  function Toggled(ls: seq<Like>, photoId: nat, userId: nat, id: nat): seq<Like>
  {
    match FindLike(ls, photoId, userId)
    case Some(i) => ls[..i] + ls[i + 1..]
    case None => ls + [Like(id, photoId, userId)]
  }

  lemma LikePairsSnoc(ls: seq<Like>, l: Like)
    ensures LikePairs(ls + [l]) == LikePairs(ls) + {(l.photoId, l.userId)}
  {
    var r := ls + [l];
    forall x | x in LikePairs(r) ensures x in LikePairs(ls) + {(l.photoId, l.userId)} {
      var k :| 0 <= k < |r| && x == (r[k].photoId, r[k].userId);
      if k < |ls| {
        assert r[k] == ls[k];
      }
    }
    forall x | x in LikePairs(ls) ensures x in LikePairs(r) {
      var k :| 0 <= k < |ls| && x == (ls[k].photoId, ls[k].userId);
      assert r[k] == ls[k];
    }
    assert r[|ls|] == l;
  }

  /** The pair a like stands for is in the pair set exactly when the lookup finds it. */
  lemma FindLikeIsPair(ls: seq<Like>, photoId: nat, userId: nat)
    ensures FindLike(ls, photoId, userId).Some? <==> (photoId, userId) in LikePairs(ls)
  {
    if (photoId, userId) in LikePairs(ls) {
      var k :| 0 <= k < |ls| && (photoId, userId) == (ls[k].photoId, ls[k].userId);
    }
  }

  /** Taking one row out of distinct likes takes exactly its pair out. */
  lemma LikePairsRemove(ls: seq<Like>, i: nat)
    requires LikesDistinct(ls) && i < |ls|
    ensures LikesDistinct(ls[..i] + ls[i + 1..])
    ensures LikePairs(ls[..i] + ls[i + 1..]) == LikePairs(ls) - {(ls[i].photoId, ls[i].userId)}
  {
    var r := ls[..i] + ls[i + 1..];
    assert |r| == |ls| - 1;
    assert forall k :: 0 <= k < |r| ==> r[k] == ls[if k < i then k else k + 1];
    forall x | x in LikePairs(r) ensures x in LikePairs(ls) - {(ls[i].photoId, ls[i].userId)} {
      var k :| 0 <= k < |r| && x == (r[k].photoId, r[k].userId);
      var j := if k < i then k else k + 1;
      assert r[k] == ls[j] && j != i;
    }
    forall x | x in LikePairs(ls) - {(ls[i].photoId, ls[i].userId)} ensures x in LikePairs(r) {
      var j :| 0 <= j < |ls| && x == (ls[j].photoId, ls[j].userId);
      var k := if j < i then j else j - 1;
      assert r[k] == ls[j];
    }
  }

  /** Adding a like for a pair not yet liked keeps the likes distinct. */
  lemma LikesDistinctSnoc(ls: seq<Like>, l: Like)
    requires LikesDistinct(ls) && (l.photoId, l.userId) !in LikePairs(ls)
    ensures LikesDistinct(ls + [l])
  {
    var r := ls + [l];
    forall i, j | 0 <= i < j < |r| ensures !(r[i].photoId == r[j].photoId && r[i].userId == r[j].userId) {
      if j == |ls| {
        assert r[i] == ls[i];
        assert (ls[i].photoId, ls[i].userId) in LikePairs(ls);
      }
    }
  }

  /** Removing the found like takes exactly its pair out of the set;
      adding one puts exactly its pair in. Either way no pair is doubled. */
  lemma ToggleFlipsPair(ls: seq<Like>, photoId: nat, userId: nat, id: nat)
    requires LikesDistinct(ls)
    ensures LikesDistinct(Toggled(ls, photoId, userId, id))
    ensures (photoId, userId) in LikePairs(ls) ==>
      LikePairs(Toggled(ls, photoId, userId, id)) == LikePairs(ls) - {(photoId, userId)}
    ensures (photoId, userId) !in LikePairs(ls) ==>
      LikePairs(Toggled(ls, photoId, userId, id)) == LikePairs(ls) + {(photoId, userId)}
  {
    FindLikeIsPair(ls, photoId, userId);
    match FindLike(ls, photoId, userId)
    case Some(i) =>
      LikePairsRemove(ls, i);
    case None =>
      LikePairsSnoc(ls, Like(id, photoId, userId));
      LikesDistinctSnoc(ls, Like(id, photoId, userId));
  }

  /** Taking one row out keeps the like ids serial. */
  lemma LikesKeyedRemove(ls: seq<Like>, i: nat, next: nat)
    requires LikesKeyed(ls, next) && i < |ls|
    ensures LikesKeyed(ls[..i] + ls[i + 1..], next)
  {
    var r := ls[..i] + ls[i + 1..];
    forall k | 0 <= k < |r| ensures r[k] == ls[if k < i then k else k + 1] {
      if k < i {
        assert r[k] == ls[..i][k];
      } else {
        assert r[k] == ls[i + 1..][k - i];
      }
    }
    forall a, b | 0 <= a < b < |r| ensures r[a].id < r[b].id {
      assert r[a] == ls[if a < i then a else a + 1] && r[b] == ls[if b < i then b else b + 1];
    }
  }

  /** The toggle keeps like ids serial: a removal keeps the other rows in
      order, an insert takes the next id. */
  lemma ToggledKeepsKeyed(ls: seq<Like>, photoId: nat, userId: nat, next: nat)
    requires LikesKeyed(ls, next)
    ensures LikesKeyed(Toggled(ls, photoId, userId, next),
                       if FindLike(ls, photoId, userId).Some? then next else next + 1)
  {
    match FindLike(ls, photoId, userId)
    case Some(i) =>
      LikesKeyedRemove(ls, i, next);
    case None =>
      var r := ls + [Like(next, photoId, userId)];
      forall a, b | 0 <= a < b < |r| ensures r[a].id < r[b].id {
        assert r[a] == ls[a];
      }
  }

  /** Liking twice leaves the set of (photo, user) likes as it was. */
  lemma ToggleTwiceRestores(ls: seq<Like>, photoId: nat, userId: nat, id1: nat, id2: nat)
    requires LikesDistinct(ls)
    ensures LikePairs(Toggled(Toggled(ls, photoId, userId, id1), photoId, userId, id2)) == LikePairs(ls)
  {
    ToggleFlipsPair(ls, photoId, userId, id1);
    ToggleFlipsPair(Toggled(ls, photoId, userId, id1), photoId, userId, id2);
  }

  /** The users who like a photo. */
  ghost function Likers(ls: seq<Like>, photoId: nat): set<nat>
  {
    if ls == [] then {}
    else if ls[|ls| - 1].photoId == photoId then Likers(ls[..|ls| - 1], photoId) + {ls[|ls| - 1].userId}
    else Likers(ls[..|ls| - 1], photoId)
  }

  /** With one like per pair, a photo's like count is the number of
      distinct users who like it. */
  lemma {:induction false} LikeCountIsLikers(ls: seq<Like>, photoId: nat)
    requires LikesDistinct(ls)
    ensures |LikesOf(ls, photoId)| == |Likers(ls, photoId)|
    ensures forall u :: u in Likers(ls, photoId) <==> (photoId, u) in LikePairs(ls)
  {
    if ls != [] {
      var n := |ls| - 1;
      var init := ls[..n];
      assert ls == init + [ls[n]];
      assert LikesDistinct(init);
      LikeCountIsLikers(init, photoId);
      LikePairsSnoc(init, ls[n]);
      forall k | 0 <= k < n ensures (init[k].photoId, init[k].userId) != (ls[n].photoId, ls[n].userId) {
        assert init[k] == ls[k];
      }
    }
  }

  // ------------------------------------------------------------ views

  /** The view table after recording a view: unchanged when the user has
      already viewed the photo, one row longer otherwise. */
  function Viewed(vs: seq<View>, photoId: nat, userId: nat, id: nat): seq<View>
  {
    if FindView(vs, photoId, userId).Some? then vs else vs + [View(id, photoId, userId)]
  }

  /** Recording a view puts the pair in the set, doubling nothing. */
  lemma ViewedAddsPair(vs: seq<View>, photoId: nat, userId: nat, id: nat)
    requires ViewsDistinct(vs)
    ensures ViewsDistinct(Viewed(vs, photoId, userId, id))
    ensures ViewPairs(Viewed(vs, photoId, userId, id)) == ViewPairs(vs) + {(photoId, userId)}
  {
    var r := Viewed(vs, photoId, userId, id);
    match FindView(vs, photoId, userId)
    case Some(i) =>
      assert (vs[i].photoId, vs[i].userId) in ViewPairs(vs);
    case None =>
      forall x | x in ViewPairs(r) ensures x in ViewPairs(vs) + {(photoId, userId)} {
        var k :| 0 <= k < |r| && x == (r[k].photoId, r[k].userId);
        if k < |vs| {
          assert r[k] == vs[k];
        }
      }
      forall x | x in ViewPairs(vs) ensures x in ViewPairs(r) {
        var k :| 0 <= k < |vs| && x == (vs[k].photoId, vs[k].userId);
        assert r[k] == vs[k];
      }
      assert r[|vs|] == View(id, photoId, userId);
  }

  /** A second view by the same user changes nothing. */
  lemma ViewedIdempotent(vs: seq<View>, photoId: nat, userId: nat, id1: nat, id2: nat)
    ensures Viewed(Viewed(vs, photoId, userId, id1), photoId, userId, id2)
         == Viewed(vs, photoId, userId, id1)
  {
    var once := Viewed(vs, photoId, userId, id1);
    if FindView(vs, photoId, userId).None? {
      assert once[|vs|] == View(id1, photoId, userId);
    }
  }

  /** The users who have viewed a photo. */
  ghost function Viewers(vs: seq<View>, photoId: nat): set<nat>
  {
    if vs == [] then {}
    else if vs[|vs| - 1].photoId == photoId then Viewers(vs[..|vs| - 1], photoId) + {vs[|vs| - 1].userId}
    else Viewers(vs[..|vs| - 1], photoId)
  }

  /** With one view per pair, a photo's view count is the number of
      distinct users who have seen it. */
  lemma {:induction false} ViewCountIsViewers(vs: seq<View>, photoId: nat)
    requires ViewsDistinct(vs)
    ensures |ViewsOf(vs, photoId)| == |Viewers(vs, photoId)|
  {
    if vs != [] {
      var n := |vs| - 1;
      var init := vs[..n];
      assert ViewsDistinct(init);
      ViewCountIsViewers(init, photoId);
      if vs[n].photoId == photoId {
        forall k | 0 <= k < n ensures !(init[k].photoId == photoId && init[k].userId == vs[n].userId) {
          assert init[k] == vs[k];
        }
        ViewersAreViewPairs(init, photoId, vs[n].userId);
      }
    }
  }

  lemma {:induction false} ViewersAreViewPairs(vs: seq<View>, photoId: nat, u: nat)
    ensures u in Viewers(vs, photoId) <==>
      exists k :: 0 <= k < |vs| && vs[k].photoId == photoId && vs[k].userId == u
  {
    if vs != [] {
      var n := |vs| - 1;
      ViewersAreViewPairs(vs[..n], photoId, u);
      if u in Viewers(vs[..n], photoId) {
        var k :| 0 <= k < n && vs[..n][k].photoId == photoId && vs[..n][k].userId == u;
        assert vs[k] == vs[..n][k];
      }
      if k :| 0 <= k < n && vs[k].photoId == photoId && vs[k].userId == u {
        assert vs[..n][k] == vs[k];
      }
    }
  }

  // --------------------------------------------------------- comments

  /** A comment appended to the table shows up last among its photo's comments. */
  lemma CommentsOfAppend(cs: seq<Comment>, c: Comment, photoId: nat)
    ensures CommentsOf(cs + [c], photoId)
         == if c.photoId == photoId then CommentsOf(cs, photoId) + [c] else CommentsOf(cs, photoId)
  {
    assert (cs + [c])[..|cs|] == cs;
  }

  // ---------------------------------------------------------- profiles

  /** The user row after a profile update: a non-empty display name or
      bio replaces the stored one, an uploaded picture's key replaces the
      stored key, and everything else stays. */
  function Updated(u: User, displayName: string, bio: string, newKey: Option<string>): (r: User)
    ensures r.id == u.id && r.username == u.username && r.role == u.role
    ensures displayName != "" ==> r.displayName == displayName
    ensures displayName == "" ==> r.displayName == u.displayName
    ensures bio != "" ==> r.bio == bio
    ensures bio == "" ==> r.bio == u.bio
    ensures newKey.Some? ==> r.profileKey == newKey.value
    ensures newKey.None? ==> r.profileKey == u.profileKey
  {
    u.(displayName := if displayName != "" then displayName else u.displayName,
       bio := if bio != "" then bio else u.bio,
       profileKey := if newKey.Some? then newKey.value else u.profileKey)
  }

  /** Sending the same update twice has the effect of sending it once. */
  lemma UpdatedIdempotent(u: User, displayName: string, bio: string, newKey: Option<string>)
    ensures Updated(Updated(u, displayName, bio, newKey), displayName, bio, newKey)
         == Updated(u, displayName, bio, newKey)
  {
  }

  /** A user as the profile endpoints answer with it. */
  datatype UserCard = UserCard(
    id: nat, username: string, displayName: string, role: string,
    bio: string, profilePhotoUrl: Option<string>)

  /** The answer of `update_profile`: the stored display name as it is. */
  function ProfileCard(u: User): (r: UserCard)
    ensures r.id == u.id && r.username == u.username && r.displayName == u.displayName
    ensures r.role == u.role && r.bio == u.bio
    ensures r.profilePhotoUrl.None? <==> u.profileKey == ""
    ensures r.profilePhotoUrl == ImageUrl(u.profileKey)
  {
    UserCard(u.id, u.username, u.displayName, u.role, u.bio, ImageUrl(u.profileKey))
  }

  /** A row of `GET /users`: the display name falls back to the username. */
  function ListedCard(u: User): (r: UserCard)
    ensures r.id == u.id && r.username == u.username && r.role == u.role && r.bio == u.bio
    ensures r.displayName == ShownName(u)
    ensures r.profilePhotoUrl.None? <==> u.profileKey == ""
    ensures r.profilePhotoUrl == ImageUrl(u.profileKey)
  {
    UserCard(u.id, u.username, ShownName(u), u.role, u.bio, ImageUrl(u.profileKey))
  }

  /** The list shows a user just as the profile update answered, except
      that an empty display name shows as the username. */
  lemma ListedMatchesProfile(u: User)
    ensures u.displayName != "" ==> ListedCard(u) == ProfileCard(u)
    ensures u.displayName == "" ==> ListedCard(u) == ProfileCard(u).(displayName := u.username)
  {
  }

  // -------------------------------------------------------------- feed

  datatype Uploader = Uploader(
    id: nat, username: string, displayName: string, profilePhotoUrl: Option<string>)

  datatype Counts = Counts(likes: nat, comments: nat, views: nat)

  datatype Preview = Preview(username: string, text: string)

  /** One entry of `GET /feed`. */
  datatype FeedEntry = FeedEntry(
    id: nat, url: Option<string>, caption: Option<string>, timestamp: nat,
    uploader: Uploader, stats: Counts, recentComments: seq<Preview>)

  /** What `GET /{photo_id}/stats` answers. */
  datatype PhotoStats = PhotoStats(viewedBy: seq<string>, likedBy: seq<string>, commentCount: nat)

  /** The user row a foreign key points at. */
  function UserOf(us: seq<User>, id: nat): (r: User)
    requires id in UserIds(us)
    ensures r.id == id
  {
    if us[|us| - 1].id == id then us[|us| - 1] else UserOf(us[..|us| - 1], id)
  }

  /** The row found is a row of the table. */
  lemma {:induction false} UserOfIsRow(us: seq<User>, id: nat) returns (k: nat)
    requires id in UserIds(us)
    ensures k < |us| && us[k] == UserOf(us, id)
    decreases |us|
  {
    if us[|us| - 1].id == id {
      k := |us| - 1;
    } else {
      k := UserOfIsRow(us[..|us| - 1], id);
    }
  }

  /** Under serial user ids the row a foreign key leads to is the row the
      `.first()` lookup finds, so the permission check and the feed read
      the same user. */
  lemma UserOfIsFound(us: seq<User>, next: nat, id: nat)
    requires UsersKeyed(us, next) && id in UserIds(us)
    ensures FindUser(us, id).Some? && UserOf(us, id) == us[FindUser(us, id).value]
  {
    var k := UserOfIsRow(us, id);
    FindUserIsTheRow(us, next, k);
  }

  ghost predicate CommentersKnown(cs: seq<Comment>, us: seq<User>)
  {
    forall k :: 0 <= k < |cs| ==> cs[k].userId in UserIds(us)
  }

  /** Each comment as its author's username and its text. */
  function Previews(us: seq<User>, cs: seq<Comment>): (r: seq<Preview>)
    requires CommentersKnown(cs, us)
    ensures |r| == |cs|
    ensures forall k :: 0 <= k < |cs| ==>
      r[k].text == cs[k].text && r[k].username == UserOf(us, cs[k].userId).username
  {
    if cs == [] then []
    else Previews(us, cs[..|cs| - 1]) + [Preview(UserOf(us, cs[|cs| - 1].userId).username, cs[|cs| - 1].text)]
  }

  /** The authors of a photo's last comments are known users. */
  lemma RecentKnown(cs: seq<Comment>, us: seq<User>, photoId: nat)
    requires CommentersKnown(cs, us)
    ensures CommentersKnown(LastN(CommentsOf(cs, photoId), 3), us)
  {
    var own := CommentsOf(cs, photoId);
    assert CommentersKnown(own, us) by {
      forall k | 0 <= k < |own| ensures own[k].userId in UserIds(us) {
        assert own[k] in cs;
      }
    }
    var recent := LastN(own, 3);
    forall k | 0 <= k < |recent| ensures recent[k].userId in UserIds(us) {
      assert recent[k] == own[|own| - |recent| + k];
    }
  }

  /** The feed entry of one photo over the given tables. */
  function EntryOf(us: seq<User>, ls: seq<Like>, cs: seq<Comment>, vs: seq<View>, p: Photo): (r: FeedEntry)
    requires p.uploaderId in UserIds(us) && CommentersKnown(cs, us)
    ensures r.id == p.id && r.timestamp == p.timestamp
  {
    var up := UserOf(us, p.uploaderId);
    var own := CommentsOf(cs, p.id);
    var recent := LastN(own, 3);
    RecentKnown(cs, us, p.id);
    FeedEntry(p.id, ImageUrl(p.key), p.caption, p.timestamp,
              Uploader(up.id, up.username, ShownName(up), ImageUrl(up.profileKey)),
              Counts(|LikesOf(ls, p.id)|, |own|, |ViewsOf(vs, p.id)|),
              Previews(us, recent))
  }

  /** A feed entry carries the photo's caption, counts the photo's own
      rows, names its uploader (by display name, or username when that is
      empty) with username and profile picture, and previews the last three
      of its comments, oldest of the three first, with their authors. */
  lemma EntryOfShape(us: seq<User>, ls: seq<Like>, cs: seq<Comment>, vs: seq<View>, p: Photo)
    requires p.uploaderId in UserIds(us) && CommentersKnown(cs, us)
    ensures EntryOf(us, ls, cs, vs, p).url.Some? <==> p.key != ""
    ensures EntryOf(us, ls, cs, vs, p).url == ImageUrl(p.key)
    ensures EntryOf(us, ls, cs, vs, p).caption == p.caption
    ensures EntryOf(us, ls, cs, vs, p).uploader.id == p.uploaderId
    ensures EntryOf(us, ls, cs, vs, p).uploader.username == UserOf(us, p.uploaderId).username
    ensures EntryOf(us, ls, cs, vs, p).uploader.displayName == ShownName(UserOf(us, p.uploaderId))
    ensures EntryOf(us, ls, cs, vs, p).uploader.profilePhotoUrl.Some? <==> UserOf(us, p.uploaderId).profileKey != ""
    ensures EntryOf(us, ls, cs, vs, p).uploader.profilePhotoUrl == ImageUrl(UserOf(us, p.uploaderId).profileKey)
    ensures EntryOf(us, ls, cs, vs, p).stats
         == Counts(|LikesOf(ls, p.id)|, |CommentsOf(cs, p.id)|, |ViewsOf(vs, p.id)|)
    ensures |EntryOf(us, ls, cs, vs, p).recentComments| == Min(3, |CommentsOf(cs, p.id)|)
    ensures forall k :: 0 <= k < |EntryOf(us, ls, cs, vs, p).recentComments| ==>
      && EntryOf(us, ls, cs, vs, p).recentComments[k].text == LastN(CommentsOf(cs, p.id), 3)[k].text
      && EntryOf(us, ls, cs, vs, p).recentComments[k].username
         == UserOf(us, LastN(CommentsOf(cs, p.id), 3)[k].userId).username
  {
    var e := EntryOf(us, ls, cs, vs, p);
    var recent := LastN(CommentsOf(cs, p.id), 3);
    RecentKnown(cs, us, p.id);
    assert e.recentComments == Previews(us, recent);
  }

  /** The feed counts are counts of distinct users: one like and one view
      per (photo, user) pair. */
  lemma EntryCountsUsers(us: seq<User>, ls: seq<Like>, cs: seq<Comment>, vs: seq<View>, p: Photo)
    requires p.uploaderId in UserIds(us) && CommentersKnown(cs, us)
    requires LikesDistinct(ls) && ViewsDistinct(vs)
    ensures EntryOf(us, ls, cs, vs, p).stats.likes == |Likers(ls, p.id)|
    ensures EntryOf(us, ls, cs, vs, p).stats.views == |Viewers(vs, p.id)|
  {
    LikeCountIsLikers(ls, p.id);
    ViewCountIsViewers(vs, p.id);
  }

  // ------------------------------------------------- table maintenance

  /** A toggle keeps every like pointing at an existing photo and user,
      provided the like it adds does. */
  lemma ToggledKeepsLinks(ls: seq<Like>, ps: seq<Photo>, us: seq<User>, photoId: nat, userId: nat, id: nat)
    requires LikesLinked(ls, ps, us)
    requires FindLike(ls, photoId, userId).None? ==> photoId in PhotoIds(ps) && userId in UserIds(us)
    ensures LikesLinked(Toggled(ls, photoId, userId, id), ps, us)
  {
    var r := Toggled(ls, photoId, userId, id);
    match FindLike(ls, photoId, userId)
    case Some(i) =>
      forall k | 0 <= k < |r| ensures r[k].photoId in PhotoIds(ps) && r[k].userId in UserIds(us) {
        assert r[k] == ls[if k < i then k else k + 1];
      }
    case None =>
      forall k | 0 <= k < |r| ensures r[k].photoId in PhotoIds(ps) && r[k].userId in UserIds(us) {
        if k < |ls| {
          assert r[k] == ls[k];
        }
      }
  }

  lemma ViewedKeepsLinks(vs: seq<View>, ps: seq<Photo>, us: seq<User>, photoId: nat, userId: nat, id: nat)
    requires ViewsLinked(vs, ps, us)
    requires FindView(vs, photoId, userId).None? ==> photoId in PhotoIds(ps) && userId in UserIds(us)
    ensures ViewsLinked(Viewed(vs, photoId, userId, id), ps, us)
  {
    var r := Viewed(vs, photoId, userId, id);
    forall k | 0 <= k < |r| ensures r[k].photoId in PhotoIds(ps) && r[k].userId in UserIds(us) {
      if k < |vs| {
        assert r[k] == vs[k];
      }
    }
  }

  /** After the cascade every remaining row still points at an existing
      photo and user. */
  lemma CascadeKeepsLinks(ps: seq<Photo>, us: seq<User>, ls: seq<Like>, cs: seq<Comment>, vs: seq<View>, id: nat)
    requires PhotosLinked(ps, us) && LikesLinked(ls, ps, us)
    requires CommentsLinked(cs, ps, us) && ViewsLinked(vs, ps, us)
    ensures PhotosLinked(PhotosNot(ps, id), us)
    ensures LikesLinked(LikesNotOf(ls, id), PhotosNot(ps, id), us)
    ensures CommentsLinked(CommentsNotOf(cs, id), PhotosNot(ps, id), us)
    ensures ViewsLinked(ViewsNotOf(vs, id), PhotosNot(ps, id), us)
  {
    PhotosNotKeepsIds(ps, id);
    var ps' := PhotosNot(ps, id);
    forall k | 0 <= k < |ps'| ensures ps'[k].uploaderId in UserIds(us) {
      var j :| 0 <= j < |ps| && ps[j] == ps'[k];
    }
    var ls' := LikesNotOf(ls, id);
    forall k | 0 <= k < |ls'| ensures ls'[k].photoId in PhotoIds(ps') && ls'[k].userId in UserIds(us) {
      var j :| 0 <= j < |ls| && ls[j] == ls'[k];
    }
    var cs' := CommentsNotOf(cs, id);
    forall k | 0 <= k < |cs'| ensures cs'[k].photoId in PhotoIds(ps') && cs'[k].userId in UserIds(us) {
      var j :| 0 <= j < |cs| && cs[j] == cs'[k];
    }
    var vs' := ViewsNotOf(vs, id);
    forall k | 0 <= k < |vs'| ensures vs'[k].photoId in PhotoIds(ps') && vs'[k].userId in UserIds(us) {
      var j :| 0 <= j < |vs| && vs[j] == vs'[k];
    }
  }

  /** An insert the database refuses still uses up its serial value:
      moving the counters forward keeps the table invariant. */
  lemma RefusedInsertKeepsValid(
    us: seq<User>, ps: seq<Photo>, ls: seq<Like>, cs: seq<Comment>, vs: seq<View>,
    nu: nat, np: nat, nl: nat, nc: nat, nv: nat, clock: nat,
    np': nat, nl': nat, nc': nat, nv': nat)
    requires TablesValid(us, ps, ls, cs, vs, nu, np, nl, nc, nv, clock)
    requires np <= np' && nl <= nl' && nc <= nc' && nv <= nv'
    ensures TablesValid(us, ps, ls, cs, vs, nu, np', nl', nc', nv', clock)
  {
  }

  /** Who may delete a photo: its uploader, or a user whose role is "parent". */
  function MayDelete(us: seq<User>, p: Photo, requester: nat): (r: bool)
    ensures p.uploaderId == requester ==> r
    ensures p.uploaderId != requester ==>
      (r <==> FindUser(us, requester).Some? && us[FindUser(us, requester).value].role == "parent")
  {
    p.uploaderId == requester
    || (FindUser(us, requester).Some? && us[FindUser(us, requester).value].role == "parent")
  }

  // ------------------------------------- what each endpoint preserves

  lemma CreateKeepsValid(
    us: seq<User>, ps: seq<Photo>, ls: seq<Like>, cs: seq<Comment>, vs: seq<View>,
    nu: nat, np: nat, nl: nat, nc: nat, nv: nat, clock: nat, u: User)
    requires TablesValid(us, ps, ls, cs, vs, nu, np, nl, nc, nv, clock) && u.id == nu
    ensures TablesValid(us + [u], ps, ls, cs, vs, nu + 1, np, nl, nc, nv, clock)
  {
    UserIdsAppend(us, u);
    var r := us + [u];
    forall i, j | 0 <= i < j < |r| ensures r[i].id < r[j].id {
      assert r[i] == us[i];
    }
  }

  lemma UploadKeepsValid(
    us: seq<User>, ps: seq<Photo>, ls: seq<Like>, cs: seq<Comment>, vs: seq<View>,
    nu: nat, np: nat, nl: nat, nc: nat, nv: nat, clock: nat, p: Photo)
    requires TablesValid(us, ps, ls, cs, vs, nu, np, nl, nc, nv, clock)
    requires p.id == np && p.timestamp == clock && p.key != "" && p.uploaderId in UserIds(us)
    ensures TablesValid(us, ps + [p], ls, cs, vs, nu, np + 1, nl, nc, nv, clock + 1)
  {
    PhotoIdsAppend(ps, p);
    var r := ps + [p];
    forall i, j | 0 <= i < j < |r| ensures r[i].id < r[j].id && r[i].timestamp < r[j].timestamp {
      assert r[i] == ps[i];
    }
  }

  lemma LikeKeepsValid(
    us: seq<User>, ps: seq<Photo>, ls: seq<Like>, cs: seq<Comment>, vs: seq<View>,
    nu: nat, np: nat, nl: nat, nc: nat, nv: nat, clock: nat, photoId: nat, userId: nat)
    requires TablesValid(us, ps, ls, cs, vs, nu, np, nl, nc, nv, clock)
    requires FindLike(ls, photoId, userId).None? ==> photoId in PhotoIds(ps) && userId in UserIds(us)
    ensures TablesValid(us, ps, Toggled(ls, photoId, userId, nl), cs, vs, nu, np,
                        if FindLike(ls, photoId, userId).Some? then nl else nl + 1, nc, nv, clock)
  {
    ToggleFlipsPair(ls, photoId, userId, nl);
    ToggledKeepsLinks(ls, ps, us, photoId, userId, nl);
    ToggledKeepsKeyed(ls, photoId, userId, nl);
  }

  lemma ViewKeepsValid(
    us: seq<User>, ps: seq<Photo>, ls: seq<Like>, cs: seq<Comment>, vs: seq<View>,
    nu: nat, np: nat, nl: nat, nc: nat, nv: nat, clock: nat, photoId: nat, userId: nat)
    requires TablesValid(us, ps, ls, cs, vs, nu, np, nl, nc, nv, clock)
    requires photoId in PhotoIds(ps) && userId in UserIds(us)
    ensures TablesValid(us, ps, ls, cs, Viewed(vs, photoId, userId, nv), nu, np, nl, nc, nv + 1, clock)
  {
    ViewedAddsPair(vs, photoId, userId, nv);
    ViewedKeepsLinks(vs, ps, us, photoId, userId, nv);
    var r := Viewed(vs, photoId, userId, nv);
    forall i, j | 0 <= i < j < |r| ensures r[i].id < r[j].id {
      assert i < |vs|;
    }
  }

  lemma CommentKeepsValid(
    us: seq<User>, ps: seq<Photo>, ls: seq<Like>, cs: seq<Comment>, vs: seq<View>,
    nu: nat, np: nat, nl: nat, nc: nat, nv: nat, clock: nat, c: Comment)
    requires TablesValid(us, ps, ls, cs, vs, nu, np, nl, nc, nv, clock)
    requires c.id == nc && c.photoId in PhotoIds(ps) && c.userId in UserIds(us)
    ensures TablesValid(us, ps, ls, cs + [c], vs, nu, np, nl, nc + 1, nv, clock)
  {
    var r := cs + [c];
    forall k | 0 <= k < |r| ensures r[k].photoId in PhotoIds(ps) && r[k].userId in UserIds(us) && r[k].id < nc + 1 {
      if k < |cs| {
        assert r[k] == cs[k];
      }
    }
    forall i, j | 0 <= i < j < |r| ensures r[i].id < r[j].id {
      assert r[i] == cs[i];
    }
  }

  lemma DeleteKeepsValid(
    us: seq<User>, ps: seq<Photo>, ls: seq<Like>, cs: seq<Comment>, vs: seq<View>,
    nu: nat, np: nat, nl: nat, nc: nat, nv: nat, clock: nat, id: nat)
    requires TablesValid(us, ps, ls, cs, vs, nu, np, nl, nc, nv, clock)
    ensures TablesValid(us, PhotosNot(ps, id), LikesNotOf(ls, id), CommentsNotOf(cs, id),
                        ViewsNotOf(vs, id), nu, np, nl, nc, nv, clock)
  {
    var ps' := PhotosNot(ps, id);
    forall k | 0 <= k < |ps'| ensures ps'[k].id < np && ps'[k].timestamp < clock && ps'[k].key != "" {
      var j :| 0 <= j < |ps| && ps[j] == ps'[k];
    }
    PhotosNotKeepsOrder(ps, id);
    LikesNotOfKeepsDistinct(ls, id);
    ViewsNotOfKeepsDistinct(vs, id);
    LikesNotOfKeepsKeyed(ls, id, nl);
    CommentsNotOfKeepsKeyed(cs, id, nc);
    ViewsNotOfKeepsKeyed(vs, id, nv);
    CascadeKeepsLinks(ps, us, ls, cs, vs, id);
  }

  lemma UpdateKeepsValid(
    us: seq<User>, ps: seq<Photo>, ls: seq<Like>, cs: seq<Comment>, vs: seq<View>,
    nu: nat, np: nat, nl: nat, nc: nat, nv: nat, clock: nat, i: nat, u: User)
    requires TablesValid(us, ps, ls, cs, vs, nu, np, nl, nc, nv, clock)
    requires i < |us| && u.id == us[i].id
    ensures TablesValid(us[i := u], ps, ls, cs, vs, nu, np, nl, nc, nv, clock)
  {
    UserIdsSameKeys(us, us[i := u]);
    var r := us[i := u];
    assert forall k :: 0 <= k < |r| ==> r[k].id == us[k].id;
  }

  /** The feed window: newest first, `offset` skipped, the uploader of
      every photo in it known. */
  lemma FeedWindow(ps: seq<Photo>, us: seq<User>, offset: nat, limit: nat)
    requires PhotosLinked(ps, us) && UploadOrder(ps)
    ensures forall k :: 0 <= k < |Page(Reverse(ps), offset, limit)| ==>
      offset + k < |ps| && Page(Reverse(ps), offset, limit)[k] == ps[|ps| - 1 - offset - k]
    ensures PhotosLinked(Page(Reverse(ps), offset, limit), us)
    ensures forall i, j :: 0 <= i < j < |Page(Reverse(ps), offset, limit)| ==>
      Page(Reverse(ps), offset, limit)[i].timestamp > Page(Reverse(ps), offset, limit)[j].timestamp
  {
    var page := Page(Reverse(ps), offset, limit);
    assert forall k :: 0 <= k < |page| ==> page[k] == ps[|ps| - 1 - offset - k];
  }

  /** The feed entries of the given photos, in the given order. */
  function FeedOf(us: seq<User>, ls: seq<Like>, cs: seq<Comment>, vs: seq<View>, page: seq<Photo>)
    : seq<FeedEntry>
    requires PhotosLinked(page, us) && CommentersKnown(cs, us)
  {
    seq(|page|, k requires 0 <= k < |page| => EntryOf(us, ls, cs, vs, page[k]))
  }

  /** Entry `k` of the feed over the newest-first window is the entry of
      the photo uploaded `offset + k` uploads before the latest one. */
  lemma FeedNewestFirst(us: seq<User>, ls: seq<Like>, cs: seq<Comment>, vs: seq<View>,
                        ps: seq<Photo>, offset: nat, limit: nat)
    requires PhotosLinked(ps, us) && UploadOrder(ps) && CommentersKnown(cs, us)
    ensures PhotosLinked(Page(Reverse(ps), offset, limit), us)
    ensures forall k :: 0 <= k < |FeedOf(us, ls, cs, vs, Page(Reverse(ps), offset, limit))| ==>
      && offset + k < |ps|
      && FeedOf(us, ls, cs, vs, Page(Reverse(ps), offset, limit))[k] == EntryOf(us, ls, cs, vs, ps[|ps| - 1 - offset - k])
  {
    FeedWindow(ps, us, offset, limit);
    var page := Page(Reverse(ps), offset, limit);
    var feed := FeedOf(us, ls, cs, vs, page);
    forall k | 0 <= k < |feed|
      ensures offset + k < |ps| && feed[k] == EntryOf(us, ls, cs, vs, ps[|ps| - 1 - offset - k])
    {
      assert feed[k] == EntryOf(us, ls, cs, vs, page[k]);
    }
  }

  /** One more photo of the window is one more entry of the feed. */
  lemma FeedStep(us: seq<User>, ls: seq<Like>, cs: seq<Comment>, vs: seq<View>, page: seq<Photo>, i: nat)
    requires PhotosLinked(page, us) && CommentersKnown(cs, us)
    requires i < |page|
    ensures FeedOf(us, ls, cs, vs, page)[..i + 1]
         == FeedOf(us, ls, cs, vs, page)[..i] + [EntryOf(us, ls, cs, vs, page[i])]
  {
    var full := FeedOf(us, ls, cs, vs, page);
    PrefixSnoc(full, i);
  }

  /** Builds the feed one photo at a time, as the endpoint's loop does. */
  method BuildFeed(us: seq<User>, ls: seq<Like>, cs: seq<Comment>, vs: seq<View>, page: seq<Photo>)
    returns (feed: seq<FeedEntry>)
    requires PhotosLinked(page, us) && CommentersKnown(cs, us)
    ensures feed == FeedOf(us, ls, cs, vs, page)
  {
    feed := [];
    var i := 0;
    while i < |page|
      invariant 0 <= i <= |page|
      invariant feed == FeedOf(us, ls, cs, vs, page)[..i]
    {
      FeedStep(us, ls, cs, vs, page, i);
      feed := feed + [EntryOf(us, ls, cs, vs, page[i])];
      i := i + 1;
    }
  }

  /** `GET /{photo_id}/stats` over the given tables: who viewed and who
      liked the photo, and how many comments it has. */
  function StatsOf(us: seq<User>, ps: seq<Photo>, ls: seq<Like>, cs: seq<Comment>, vs: seq<View>,
                   photoId: nat): (r: Result<PhotoStats>)
    requires LikesLinked(ls, ps, us) && ViewsLinked(vs, ps, us)
    ensures r.Err? <==> FindPhoto(ps, photoId).None?
    ensures r.Err? ==> r.error == NotFound
    ensures r.Ok? ==>
      && |r.value.viewedBy| == |ViewsOf(vs, photoId)|
      && forall k :: 0 <= k < |r.value.viewedBy| ==>
           r.value.viewedBy[k] == UserOf(us, ViewsOf(vs, photoId)[k].userId).username
    ensures r.Ok? ==>
      && |r.value.likedBy| == |LikesOf(ls, photoId)|
      && forall k :: 0 <= k < |r.value.likedBy| ==>
           r.value.likedBy[k] == UserOf(us, LikesOf(ls, photoId)[k].userId).username
    ensures r.Ok? ==> r.value.commentCount == |CommentsOf(cs, photoId)|
  {
    if FindPhoto(ps, photoId).None? then Err(NotFound)
    else
      var own := ViewsOf(vs, photoId);
      var liked := LikesOf(ls, photoId);
      Ok(PhotoStats(
        seq(|own|, k requires 0 <= k < |own| => UserOf(us, own[k].userId).username),
        seq(|liked|, k requires 0 <= k < |liked| => UserOf(us, liked[k].userId).username),
        |CommentsOf(cs, photoId)|))
  }

  /** The stats endpoint and the feed agree on a photo's counts. */
  lemma StatsAgreeWithFeed(us: seq<User>, ps: seq<Photo>, ls: seq<Like>, cs: seq<Comment>, vs: seq<View>,
                           i: nat)
    requires LikesLinked(ls, ps, us) && ViewsLinked(vs, ps, us) && CommentersKnown(cs, us)
    requires PhotosLinked(ps, us) && i < |ps|
    ensures StatsOf(us, ps, ls, cs, vs, ps[i].id).Ok?
    ensures |StatsOf(us, ps, ls, cs, vs, ps[i].id).value.likedBy| == EntryOf(us, ls, cs, vs, ps[i]).stats.likes
    ensures |StatsOf(us, ps, ls, cs, vs, ps[i].id).value.viewedBy| == EntryOf(us, ls, cs, vs, ps[i]).stats.views
    ensures StatsOf(us, ps, ls, cs, vs, ps[i].id).value.commentCount == EntryOf(us, ls, cs, vs, ps[i]).stats.comments
  {
    PhotoIdsExact(ps, ps[i].id);
    FindPhotoIsMember(ps, ps[i].id);
    EntryOfShape(us, ls, cs, vs, ps[i]);
  }

  // ------------------------------------------------------------- store

  /** The photo tables, the serial counters of their keys and the clock
      upload instants are read from. */
  class PhotoStore {
    var users: seq<User>
    var photos: seq<Photo>
    var likes: seq<Like>
    var comments: seq<Comment>
    var views: seq<View>
    var nextUserId: nat
    var nextPhotoId: nat
    var nextLikeId: nat
    var nextCommentId: nat
    var nextViewId: nat
    var clock: nat

    /** The declared keys and foreign keys hold, and the endpoint checks
        have kept likes and views at one per (photo, user) pair. */
    ghost predicate Valid()
      reads this
    {
      TablesValid(users, photos, likes, comments, views,
                  nextUserId, nextPhotoId, nextLikeId, nextCommentId, nextViewId, clock)
    }

    /** Empty tables. */
    constructor ()
      ensures Valid()
      ensures users == [] && photos == [] && likes == [] && comments == [] && views == []
      ensures nextUserId == 1 && nextPhotoId == 1 && nextLikeId == 1
      ensures nextCommentId == 1 && nextViewId == 1 && clock == 0
    {
      users, photos, likes, comments, views := [], [], [], [], [];
      nextUserId, nextPhotoId, nextLikeId, nextCommentId, nextViewId := 1, 1, 1, 1, 1;
      clock := 0;
    }

    /** `POST /users`: a child account from a JSON body that must carry
        both `username` and `display_name`. */
    method CreateUser(data: map<string, string>) returns (r: Result<string>)
      requires Valid()
      modifies this
      ensures Valid()
      ensures "username" !in data || "display_name" !in data ==>
        r == Err(MissingField) && unchanged(this)
      ensures "username" in data && "display_name" in data ==>
        && r == Ok("success")
        && users == old(users) + [User(old(nextUserId), data["username"], data["display_name"], "child", "", "")]
        && nextUserId == old(nextUserId) + 1
        && photos == old(photos) && likes == old(likes) && comments == old(comments)
        && views == old(views) && clock == old(clock) && nextPhotoId == old(nextPhotoId)
        && nextLikeId == old(nextLikeId) && nextCommentId == old(nextCommentId) && nextViewId == old(nextViewId)
    {
      if "username" !in data || "display_name" !in data {
        return Err(MissingField);
      }
      var u := User(nextUserId, data["username"], data["display_name"], "child", "", "");
      CreateKeepsValid(users, photos, likes, comments, views, nextUserId, nextPhotoId, nextLikeId, nextCommentId, nextViewId, clock, u);
      users := users + [u];
      nextUserId := nextUserId + 1;
      r := Ok("success");
    }

    /** `POST /upload`: record a photo whose object is already stored under
        `key`, stamped with the current instant. A refused insert has
        already drawn its serial id, so the counter moves on either way. */
    method UploadPhoto(key: string, caption: Option<string>, uploaderId: nat) returns (r: Result<string>)
      requires Valid()
      requires key != ""
      modifies this
      ensures Valid()
      ensures FindUser(old(users), uploaderId).None? ==>
        && r == Err(ForeignKeyViolation)
        && nextPhotoId == old(nextPhotoId) + 1 && clock == old(clock)
        && users == old(users) && photos == old(photos) && likes == old(likes)
        && comments == old(comments) && views == old(views)
        && nextUserId == old(nextUserId) && nextLikeId == old(nextLikeId)
        && nextCommentId == old(nextCommentId) && nextViewId == old(nextViewId)
      ensures FindUser(old(users), uploaderId).Some? ==>
        && r == Ok("Photo posted to feed!")
        && photos == old(photos) + [Photo(old(nextPhotoId), key, caption, old(clock), uploaderId, None)]
        && nextPhotoId == old(nextPhotoId) + 1 && clock == old(clock) + 1
        && users == old(users) && likes == old(likes) && comments == old(comments) && views == old(views)
        && nextUserId == old(nextUserId) && nextLikeId == old(nextLikeId)
        && nextCommentId == old(nextCommentId) && nextViewId == old(nextViewId)
    {
      if FindUser(users, uploaderId).None? {
        RefusedInsertKeepsValid(users, photos, likes, comments, views, nextUserId, nextPhotoId, nextLikeId, nextCommentId, nextViewId, clock,
                                nextPhotoId + 1, nextLikeId, nextCommentId, nextViewId);
        nextPhotoId := nextPhotoId + 1;
        return Err(ForeignKeyViolation);
      }
      FindUserIsMember(users, uploaderId);
      var p := Photo(nextPhotoId, key, caption, clock, uploaderId, None);
      UploadKeepsValid(users, photos, likes, comments, views, nextUserId, nextPhotoId, nextLikeId, nextCommentId, nextViewId, clock, p);
      photos := photos + [p];
      nextPhotoId := nextPhotoId + 1;
      clock := clock + 1;
      r := Ok("Photo posted to feed!");
    }

    /** `POST /{photo_id}/like`: toggle the user's like on the photo. A like
        the foreign keys refuse has already drawn its serial id. */
    method LikePhoto(photoId: nat, userId: nat) returns (r: Result<string>)
      requires Valid()
      modifies this
      ensures Valid()
      ensures FindLike(old(likes), photoId, userId).Some? ==>
        && r == Ok("Unliked")
        && likes == Toggled(old(likes), photoId, userId, old(nextLikeId))
        && users == old(users) && photos == old(photos) && comments == old(comments)
        && views == old(views) && clock == old(clock) && nextUserId == old(nextUserId)
        && nextPhotoId == old(nextPhotoId) && nextLikeId == old(nextLikeId)
        && nextCommentId == old(nextCommentId) && nextViewId == old(nextViewId)
      ensures FindLike(old(likes), photoId, userId).None?
              && (FindPhoto(old(photos), photoId).None? || FindUser(old(users), userId).None?) ==>
        && r == Err(ForeignKeyViolation)
        && nextLikeId == old(nextLikeId) + 1 && likes == old(likes)
        && users == old(users) && photos == old(photos) && comments == old(comments)
        && views == old(views) && clock == old(clock) && nextUserId == old(nextUserId)
        && nextPhotoId == old(nextPhotoId) && nextCommentId == old(nextCommentId) && nextViewId == old(nextViewId)
      ensures FindLike(old(likes), photoId, userId).None?
              && FindPhoto(old(photos), photoId).Some? && FindUser(old(users), userId).Some? ==>
        && r == Ok("Liked")
        && likes == Toggled(old(likes), photoId, userId, old(nextLikeId))
        && nextLikeId == old(nextLikeId) + 1
        && users == old(users) && photos == old(photos) && comments == old(comments)
        && views == old(views) && clock == old(clock) && nextUserId == old(nextUserId)
        && nextPhotoId == old(nextPhotoId) && nextCommentId == old(nextCommentId) && nextViewId == old(nextViewId)
    {
      if FindLike(likes, photoId, userId).Some? {
        LikeKeepsValid(users, photos, likes, comments, views, nextUserId, nextPhotoId, nextLikeId, nextCommentId, nextViewId, clock, photoId, userId);
        likes := Toggled(likes, photoId, userId, nextLikeId);
        return Ok("Unliked");
      }
      if FindPhoto(photos, photoId).None? || FindUser(users, userId).None? {
        RefusedInsertKeepsValid(users, photos, likes, comments, views, nextUserId, nextPhotoId, nextLikeId, nextCommentId, nextViewId, clock,
                                nextPhotoId, nextLikeId + 1, nextCommentId, nextViewId);
        nextLikeId := nextLikeId + 1;
        return Err(ForeignKeyViolation);
      }
      FindPhotoIsMember(photos, photoId);
      FindUserIsMember(users, userId);
      LikeKeepsValid(users, photos, likes, comments, views, nextUserId, nextPhotoId, nextLikeId, nextCommentId, nextViewId, clock, photoId, userId);
      likes := Toggled(likes, photoId, userId, nextLikeId);
      nextLikeId := nextLikeId + 1;
      r := Ok("Liked");
    }

    /** `POST /{photo_id}/view`: record the user's first view of the photo.
        A view the foreign keys refuse has already drawn its serial id. */
    method RecordView(photoId: nat, userId: nat) returns (r: Result<string>)
      requires Valid()
      modifies this
      ensures Valid()
      ensures FindView(old(views), photoId, userId).Some? ==>
        r == Ok("already_viewed") && unchanged(this)
      ensures FindView(old(views), photoId, userId).None?
              && (FindPhoto(old(photos), photoId).None? || FindUser(old(users), userId).None?) ==>
        && r == Err(ForeignKeyViolation)
        && nextViewId == old(nextViewId) + 1 && views == old(views)
        && users == old(users) && photos == old(photos) && likes == old(likes)
        && comments == old(comments) && clock == old(clock) && nextUserId == old(nextUserId)
        && nextPhotoId == old(nextPhotoId) && nextLikeId == old(nextLikeId) && nextCommentId == old(nextCommentId)
      ensures FindView(old(views), photoId, userId).None?
              && FindPhoto(old(photos), photoId).Some? && FindUser(old(users), userId).Some? ==>
        && r == Ok("view_recorded")
        && views == Viewed(old(views), photoId, userId, old(nextViewId))
        && nextViewId == old(nextViewId) + 1
        && users == old(users) && photos == old(photos) && likes == old(likes)
        && comments == old(comments) && clock == old(clock) && nextUserId == old(nextUserId)
        && nextPhotoId == old(nextPhotoId) && nextLikeId == old(nextLikeId) && nextCommentId == old(nextCommentId)
    {
      if FindView(views, photoId, userId).Some? {
        return Ok("already_viewed");
      }
      if FindPhoto(photos, photoId).None? || FindUser(users, userId).None? {
        RefusedInsertKeepsValid(users, photos, likes, comments, views, nextUserId, nextPhotoId, nextLikeId, nextCommentId, nextViewId, clock,
                                nextPhotoId, nextLikeId, nextCommentId, nextViewId + 1);
        nextViewId := nextViewId + 1;
        return Err(ForeignKeyViolation);
      }
      FindPhotoIsMember(photos, photoId);
      FindUserIsMember(users, userId);
      ViewKeepsValid(users, photos, likes, comments, views, nextUserId, nextPhotoId, nextLikeId, nextCommentId, nextViewId, clock, photoId, userId);
      views := Viewed(views, photoId, userId, nextViewId);
      nextViewId := nextViewId + 1;
      r := Ok("view_recorded");
    }

    /** `DELETE /{photo_id}`: the uploader or a parent removes a photo, and
        the cascade removes its likes, comments and views. A requester who
        is not the uploader must exist. */
    method DeletePhoto(photoId: nat, userId: nat) returns (r: Result<string>)
      requires Valid()
      requires FindPhoto(photos, photoId).Some?
               && photos[FindPhoto(photos, photoId).value].uploaderId != userId
               ==> FindUser(users, userId).Some?
      modifies this
      ensures Valid()
      ensures FindPhoto(old(photos), photoId).None? ==>
        r == Err(NotFound) && unchanged(this)
      ensures FindPhoto(old(photos), photoId).Some?
              && !MayDelete(old(users), old(photos)[FindPhoto(old(photos), photoId).value], userId) ==>
        r == Err(Forbidden) && unchanged(this)
      ensures FindPhoto(old(photos), photoId).Some?
              && MayDelete(old(users), old(photos)[FindPhoto(old(photos), photoId).value], userId) ==>
        && r == Ok("Photo and file deleted")
        && photos == PhotosNot(old(photos), photoId)
        && likes == LikesNotOf(old(likes), photoId)
        && comments == CommentsNotOf(old(comments), photoId)
        && views == ViewsNotOf(old(views), photoId)
        && users == old(users) && clock == old(clock) && nextUserId == old(nextUserId)
        && nextPhotoId == old(nextPhotoId) && nextLikeId == old(nextLikeId)
        && nextCommentId == old(nextCommentId) && nextViewId == old(nextViewId)
    {
      var found := FindPhoto(photos, photoId);
      if found.None? {
        return Err(NotFound);
      }
      var photo := photos[found.value];
      if !MayDelete(users, photo, userId) {
        return Err(Forbidden);
      }
      Cascade(photoId);
      r := Ok("Photo and file deleted");
    }

    /** The cascade of a delete: the photo row and every like, comment and
        view row that points at it. */
    method Cascade(photoId: nat)
      requires Valid()
      modifies this`photos, this`likes, this`comments, this`views
      ensures Valid()
      ensures && photos == PhotosNot(old(photos), photoId)
              && likes == LikesNotOf(old(likes), photoId)
              && comments == CommentsNotOf(old(comments), photoId)
              && views == ViewsNotOf(old(views), photoId)
    {
      var ps, ls, cs, vs := PhotosNot(photos, photoId), LikesNotOf(likes, photoId), CommentsNotOf(comments, photoId), ViewsNotOf(views, photoId);
      DeleteKeepsValid(users, photos, likes, comments, views, nextUserId, nextPhotoId, nextLikeId, nextCommentId, nextViewId, clock, photoId);
      assert TablesValid(users, ps, ls, cs, vs, nextUserId, nextPhotoId, nextLikeId, nextCommentId, nextViewId, clock);
      photos, likes, comments, views := ps, ls, cs, vs;
    }

    /** `POST /{photo_id}/comment`: append one comment and answer with its
        text. A comment the foreign key refuses has already drawn its serial
        id; a missing photo is caught before any insert. */
    method AddComment(photoId: nat, userId: nat, text: string) returns (r: Result<string>)
      requires Valid()
      modifies this
      ensures Valid()
      ensures FindPhoto(old(photos), photoId).None? ==>
        r == Err(NotFound) && unchanged(this)
      ensures FindPhoto(old(photos), photoId).Some? && FindUser(old(users), userId).None? ==>
        && r == Err(ForeignKeyViolation)
        && nextCommentId == old(nextCommentId) + 1 && comments == old(comments)
        && users == old(users) && photos == old(photos) && likes == old(likes)
        && views == old(views) && clock == old(clock) && nextUserId == old(nextUserId)
        && nextPhotoId == old(nextPhotoId) && nextLikeId == old(nextLikeId) && nextViewId == old(nextViewId)
      ensures FindPhoto(old(photos), photoId).Some? && FindUser(old(users), userId).Some? ==>
        && r == Ok(text)
        && comments == old(comments) + [Comment(old(nextCommentId), photoId, userId, text)]
        && nextCommentId == old(nextCommentId) + 1
        && users == old(users) && photos == old(photos) && likes == old(likes)
        && views == old(views) && clock == old(clock) && nextUserId == old(nextUserId)
        && nextPhotoId == old(nextPhotoId) && nextLikeId == old(nextLikeId) && nextViewId == old(nextViewId)
    {
      if FindPhoto(photos, photoId).None? {
        return Err(NotFound);
      }
      if FindUser(users, userId).None? {
        RefusedInsertKeepsValid(users, photos, likes, comments, views, nextUserId, nextPhotoId, nextLikeId, nextCommentId, nextViewId, clock,
                                nextPhotoId, nextLikeId, nextCommentId + 1, nextViewId);
        nextCommentId := nextCommentId + 1;
        return Err(ForeignKeyViolation);
      }
      FindPhotoIsMember(photos, photoId);
      FindUserIsMember(users, userId);
      var c := Comment(nextCommentId, photoId, userId, text);
      CommentKeepsValid(users, photos, likes, comments, views, nextUserId, nextPhotoId, nextLikeId, nextCommentId, nextViewId, clock, c);
      comments := comments + [c];
      nextCommentId := nextCommentId + 1;
      r := Ok(text);
    }

    /** `POST /profile/update`: non-empty fields and a newly stored picture
        replace the user's own; the answer is the updated user. */
    method UpdateProfile(userId: nat, displayName: string, bio: string, newKey: Option<string>)
      returns (r: Result<UserCard>)
      requires Valid()
      requires newKey.Some? ==> newKey.value != ""
      modifies this
      ensures Valid()
      ensures FindUser(old(users), userId).None? ==>
        r == Err(NotFound) && unchanged(this)
      ensures FindUser(old(users), userId).Some? ==>
        && users == old(users)[FindUser(old(users), userId).value
                     := Updated(old(users)[FindUser(old(users), userId).value], displayName, bio, newKey)]
        && r == Ok(ProfileCard(users[FindUser(old(users), userId).value]))
        && photos == old(photos) && likes == old(likes) && comments == old(comments)
        && views == old(views) && clock == old(clock) && nextUserId == old(nextUserId)
        && nextPhotoId == old(nextPhotoId) && nextLikeId == old(nextLikeId)
        && nextCommentId == old(nextCommentId) && nextViewId == old(nextViewId)
    {
      var found := FindUser(users, userId);
      if found.None? {
        return Err(NotFound);
      }
      var i := found.value;
      var u := Updated(users[i], displayName, bio, newKey);
      UpdateKeepsValid(users, photos, likes, comments, views, nextUserId, nextPhotoId, nextLikeId, nextCommentId, nextViewId, clock, i, u);
      users := users[i := u];
      r := Ok(ProfileCard(u));
    }

    /** `GET /feed`: photos newest first, `offset` skipped, at most `limit`
        of them, each as its feed entry; a negative `limit` or `offset`
        reaches the database, which rejects it. */
    method GetFeed(limit: int, offset: int) returns (r: Result<seq<FeedEntry>>)
      requires Valid()
      ensures r.Err? <==> limit < 0 || offset < 0
      ensures r.Err? ==> r.error == NegativeWindow
      ensures r.Ok? ==> |r.value| == Min(limit, if offset <= |photos| then |photos| - offset else 0)
      ensures r.Ok? ==> PhotosLinked(Page(Reverse(photos), offset, limit), users)
      ensures r.Ok? ==> r.value == FeedOf(users, likes, comments, views, Page(Reverse(photos), offset, limit))
      ensures r.Ok? ==> forall i, j :: 0 <= i < j < |r.value| ==> r.value[i].timestamp > r.value[j].timestamp
    {
      if limit < 0 || offset < 0 {
        return Err(NegativeWindow);
      }
      FeedWindow(photos, users, offset, limit);
      assert CommentersKnown(comments, users);
      var page := Page(Reverse(photos), offset, limit);
      var feed := BuildFeed(users, likes, comments, views, page);
      r := Ok(feed);
    }

    /** `GET /users`: every user in table order, display name falling back
        to the username. */
    method GetAllUsers() returns (list: seq<UserCard>)
      ensures |list| == |users|
      ensures forall k :: 0 <= k < |users| ==> list[k] == ListedCard(users[k])
    {
      list := [];
      var i := 0;
      while i < |users|
        invariant 0 <= i <= |users|
        invariant |list| == i
        invariant forall k :: 0 <= k < i ==> list[k] == ListedCard(users[k])
      {
        var u := users[i];
        list := list + [UserCard(u.id, u.username, ShownName(u), u.role, u.bio, ImageUrl(u.profileKey))];
        i := i + 1;
      }
    }
  }
}

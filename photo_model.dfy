/** The photo tables: users, photos, likes, comments and views, the object
    URL a stored key is served under, and the table queries the photo
    endpoints are built from. Rows are kept in insertion (serial id) order;
    an empty string stands for an absent or empty text column. */
module PhotoModel {
  import opened Common

  /** A row of `users`, with the columns the photo endpoints read and write. */
  datatype User = User(
    id: nat, username: string, displayName: string, role: string,
    bio: string, profileKey: string)

  /** A row of `photos`. `key` names the stored object; the caption is
      nullable; `timestamp` is the upload instant, as a tick of a clock that
      only moves forward. */
  datatype Photo = Photo(
    id: nat, key: string, caption: Option<string>, timestamp: nat,
    uploaderId: nat, albumId: Option<nat>)

  datatype Like = Like(id: nat, photoId: nat, userId: nat)

  datatype Comment = Comment(id: nat, photoId: nat, userId: nat, text: string)

  datatype View = View(id: nat, photoId: nat, userId: nat)

  /** Default public host of the object store, and the bucket photos live in. */
  const ExternalHost := "ford-home-pi.local:9000"
  const Bucket := "family-photos"

  /** The browser-reachable URL of a stored object; none for an empty key. */
  function ImageUrl(key: string): (r: Option<string>)
    ensures r.None? <==> key == ""
    ensures r.Some? ==>
      r.value == "http://" + ExternalHost + "/" + Bucket + "/" + key
  {
    if key == "" then None else Some("http://" + ExternalHost + "/" + Bucket + "/" + key)
  }

  /** Distinct keys are served under distinct URLs. */
  lemma ImageUrlInjective(k1: string, k2: string)
    requires ImageUrl(k1) == ImageUrl(k2)
    ensures k1 == k2
  {
    if k1 != "" {
      var prefix := "http://" + ExternalHost + "/" + Bucket + "/";
      assert ImageUrl(k1).value == prefix + k1 && ImageUrl(k2).value == prefix + k2;
      assert (prefix + k1)[|prefix|..] == k1;
      assert (prefix + k2)[|prefix|..] == k2;
    }
  }

  /** The name a user is shown under: the display name, or the username when
      the display name is empty. */
  function ShownName(u: User): (r: string)
    ensures r == u.username || r == u.displayName
    ensures r == u.username <== u.displayName == ""
    ensures u.displayName != "" ==> r == u.displayName
  {
    if u.displayName != "" then u.displayName else u.username
  }

  // ---------------------------------------------------------------- keys

  ghost function UserIds(us: seq<User>): set<nat>
  {
    if us == [] then {} else UserIds(us[..|us| - 1]) + {us[|us| - 1].id}
  }

  ghost function PhotoIds(ps: seq<Photo>): set<nat>
  {
    if ps == [] then {} else PhotoIds(ps[..|ps| - 1]) + {ps[|ps| - 1].id}
  }

  lemma {:induction false} UserIdsExact(us: seq<User>, id: nat)
    ensures id in UserIds(us) <==> exists i :: 0 <= i < |us| && us[i].id == id
  {
    if us != [] {
      var n := |us| - 1;
      UserIdsExact(us[..n], id);
      if id in UserIds(us[..n]) {
        var i :| 0 <= i < n && us[..n][i].id == id;
        assert us[i].id == id;
      }
      if i :| 0 <= i < n && us[i].id == id {
        assert us[..n][i].id == id;
      }
    }
  }

  lemma {:induction false} PhotoIdsExact(ps: seq<Photo>, id: nat)
    ensures id in PhotoIds(ps) <==> exists i :: 0 <= i < |ps| && ps[i].id == id
  {
    if ps != [] {
      var n := |ps| - 1;
      PhotoIdsExact(ps[..n], id);
      if id in PhotoIds(ps[..n]) {
        var i :| 0 <= i < n && ps[..n][i].id == id;
        assert ps[i].id == id;
      }
      if i :| 0 <= i < n && ps[i].id == id {
        assert ps[..n][i].id == id;
      }
    }
  }

  lemma {:induction false} UserIdsSameKeys(a: seq<User>, b: seq<User>)
    requires |a| == |b| && forall k :: 0 <= k < |a| ==> a[k].id == b[k].id
    ensures UserIds(a) == UserIds(b)
  {
    if a != [] {
      var n := |a| - 1;
      forall k | 0 <= k < n ensures a[..n][k].id == b[..n][k].id {
        assert a[..n][k] == a[k] && b[..n][k] == b[k];
      }
      UserIdsSameKeys(a[..n], b[..n]);
    }
  }

  lemma UserIdsAppend(us: seq<User>, u: User)
    ensures UserIds(us + [u]) == UserIds(us) + {u.id}
  {
    assert (us + [u])[..|us|] == us;
  }

  lemma PhotoIdsAppend(ps: seq<Photo>, p: Photo)
    ensures PhotoIds(ps + [p]) == PhotoIds(ps) + {p.id}
  {
    assert (ps + [p])[..|ps|] == ps;
  }

  /** Position of the first user with the given id, as `.first()` finds it. */
  function FindUser(us: seq<User>, id: int): (r: Option<nat>)
    ensures r.Some? ==> r.value < |us| && us[r.value].id == id
    ensures r.Some? ==> forall j :: 0 <= j < r.value ==> us[j].id != id
    ensures r.None? <==> forall j :: 0 <= j < |us| ==> us[j].id != id
  {
    if us == [] then None
    else if us[0].id == id then Some(0)
    else match FindUser(us[1..], id)
      case None => None
      case Some(k) => Some(k + 1)
  }

  /** Position of the first photo with the given id. */
  function FindPhoto(ps: seq<Photo>, id: int): (r: Option<nat>)
    ensures r.Some? ==> r.value < |ps| && ps[r.value].id == id
    ensures r.Some? ==> forall j :: 0 <= j < r.value ==> ps[j].id != id
    ensures r.None? <==> forall j :: 0 <= j < |ps| ==> ps[j].id != id
  {
    if ps == [] then None
    else if ps[0].id == id then Some(0)
    else match FindPhoto(ps[1..], id)
      case None => None
      case Some(k) => Some(k + 1)
  }

  /** Position of the like a user gave a photo, if any. */
  function FindLike(ls: seq<Like>, photoId: int, userId: int): (r: Option<nat>)
    ensures r.Some? ==> r.value < |ls| && ls[r.value].photoId == photoId && ls[r.value].userId == userId
    ensures r.None? <==> forall j :: 0 <= j < |ls| ==> !(ls[j].photoId == photoId && ls[j].userId == userId)
  {
    if ls == [] then None
    else if ls[0].photoId == photoId && ls[0].userId == userId then Some(0)
    else match FindLike(ls[1..], photoId, userId)
      case None => None
      case Some(k) => Some(k + 1)
  }

  /** Position of the view a user recorded on a photo, if any. */
  function FindView(vs: seq<View>, photoId: int, userId: int): (r: Option<nat>)
    ensures r.Some? ==> r.value < |vs| && vs[r.value].photoId == photoId && vs[r.value].userId == userId
    ensures r.None? <==> forall j :: 0 <= j < |vs| ==> !(vs[j].photoId == photoId && vs[j].userId == userId)
  {
    if vs == [] then None
    else if vs[0].photoId == photoId && vs[0].userId == userId then Some(0)
    else match FindView(vs[1..], photoId, userId)
      case None => None
      case Some(k) => Some(k + 1)
  }

  /** A user id found in the table belongs to the id set, and an id of the
      set is found. */
  lemma FindUserIsMember(us: seq<User>, id: nat)
    ensures FindUser(us, id).Some? <==> id in UserIds(us)
  {
    UserIdsExact(us, id);
  }

  lemma FindPhotoIsMember(ps: seq<Photo>, id: nat)
    ensures FindPhoto(ps, id).Some? <==> id in PhotoIds(ps)
  {
    PhotoIdsExact(ps, id);
  }

  /** Under serial keys an id names one row: the lookup finds exactly the
      row that carries it. */
  lemma FindUserIsTheRow(us: seq<User>, next: nat, i: nat)
    requires UsersKeyed(us, next) && i < |us|
    ensures FindUser(us, us[i].id) == Some(i)
  {
    assert FindUser(us, us[i].id).Some?;
  }

  lemma FindPhotoIsTheRow(ps: seq<Photo>, i: nat)
    requires UploadOrder(ps) && i < |ps|
    ensures FindPhoto(ps, ps[i].id) == Some(i)
  {
    assert FindPhoto(ps, ps[i].id).Some?;
  }

  // ------------------------------------------------------- per-photo rows

  /** The likes of one photo, in table order (`photo.likes`). */
  function LikesOf(ls: seq<Like>, photoId: nat): (r: seq<Like>)
    ensures forall k :: 0 <= k < |r| ==> r[k] in ls && r[k].photoId == photoId
    ensures |r| <= |ls|
  {
    if ls == [] then []
    else if ls[|ls| - 1].photoId == photoId then LikesOf(ls[..|ls| - 1], photoId) + [ls[|ls| - 1]]
    else LikesOf(ls[..|ls| - 1], photoId)
  }

  /** Every row the filter selects is listed. */
  lemma {:induction false} LikesOfComplete(ls: seq<Like>, photoId: nat, l: Like)
    requires l in ls && l.photoId == photoId
    ensures l in LikesOf(ls, photoId)
    decreases |ls|
  {
    if ls[|ls| - 1] != l {
      assert l in ls[..|ls| - 1];
      LikesOfComplete(ls[..|ls| - 1], photoId, l);
    }
  }

  /** The likes of every other photo: what the cascade leaves. */
  function LikesNotOf(ls: seq<Like>, photoId: nat): (r: seq<Like>)
    ensures forall k :: 0 <= k < |r| ==> r[k] in ls && r[k].photoId != photoId
  {
    if ls == [] then []
    else if ls[|ls| - 1].photoId == photoId then LikesNotOf(ls[..|ls| - 1], photoId)
    else LikesNotOf(ls[..|ls| - 1], photoId) + [ls[|ls| - 1]]
  }

  /** Every row the filter selects is kept. */
  lemma {:induction false} LikesNotOfComplete(ls: seq<Like>, photoId: nat, l: Like)
    requires l in ls && l.photoId != photoId
    ensures l in LikesNotOf(ls, photoId)
    decreases |ls|
  {
    if ls[|ls| - 1] != l {
      assert l in ls[..|ls| - 1];
      LikesNotOfComplete(ls[..|ls| - 1], photoId, l);
    }
  }

  function CommentsOf(cs: seq<Comment>, photoId: nat): (r: seq<Comment>)
    ensures forall k :: 0 <= k < |r| ==> r[k] in cs && r[k].photoId == photoId
    ensures |r| <= |cs|
  {
    if cs == [] then []
    else if cs[|cs| - 1].photoId == photoId then CommentsOf(cs[..|cs| - 1], photoId) + [cs[|cs| - 1]]
    else CommentsOf(cs[..|cs| - 1], photoId)
  }

  /** Every row the filter selects is listed. */
  lemma {:induction false} CommentsOfComplete(cs: seq<Comment>, photoId: nat, c: Comment)
    requires c in cs && c.photoId == photoId
    ensures c in CommentsOf(cs, photoId)
    decreases |cs|
  {
    if cs[|cs| - 1] != c {
      assert c in cs[..|cs| - 1];
      CommentsOfComplete(cs[..|cs| - 1], photoId, c);
    }
  }

  function CommentsNotOf(cs: seq<Comment>, photoId: nat): (r: seq<Comment>)
    ensures forall k :: 0 <= k < |r| ==> r[k] in cs && r[k].photoId != photoId
  {
    if cs == [] then []
    else if cs[|cs| - 1].photoId == photoId then CommentsNotOf(cs[..|cs| - 1], photoId)
    else CommentsNotOf(cs[..|cs| - 1], photoId) + [cs[|cs| - 1]]
  }

  /** Every row the filter selects is kept. */
  lemma {:induction false} CommentsNotOfComplete(cs: seq<Comment>, photoId: nat, c: Comment)
    requires c in cs && c.photoId != photoId
    ensures c in CommentsNotOf(cs, photoId)
    decreases |cs|
  {
    if cs[|cs| - 1] != c {
      assert c in cs[..|cs| - 1];
      CommentsNotOfComplete(cs[..|cs| - 1], photoId, c);
    }
  }

  function ViewsOf(vs: seq<View>, photoId: nat): (r: seq<View>)
    ensures forall k :: 0 <= k < |r| ==> r[k] in vs && r[k].photoId == photoId
    ensures |r| <= |vs|
  {
    if vs == [] then []
    else if vs[|vs| - 1].photoId == photoId then ViewsOf(vs[..|vs| - 1], photoId) + [vs[|vs| - 1]]
    else ViewsOf(vs[..|vs| - 1], photoId)
  }

  /** Every row the filter selects is listed. */
  lemma {:induction false} ViewsOfComplete(vs: seq<View>, photoId: nat, v: View)
    requires v in vs && v.photoId == photoId
    ensures v in ViewsOf(vs, photoId)
    decreases |vs|
  {
    if vs[|vs| - 1] != v {
      assert v in vs[..|vs| - 1];
      ViewsOfComplete(vs[..|vs| - 1], photoId, v);
    }
  }

  function ViewsNotOf(vs: seq<View>, photoId: nat): (r: seq<View>)
    ensures forall k :: 0 <= k < |r| ==> r[k] in vs && r[k].photoId != photoId
  {
    if vs == [] then []
    else if vs[|vs| - 1].photoId == photoId then ViewsNotOf(vs[..|vs| - 1], photoId)
    else ViewsNotOf(vs[..|vs| - 1], photoId) + [vs[|vs| - 1]]
  }

  /** Every row the filter selects is kept. */
  lemma {:induction false} ViewsNotOfComplete(vs: seq<View>, photoId: nat, v: View)
    requires v in vs && v.photoId != photoId
    ensures v in ViewsNotOf(vs, photoId)
    decreases |vs|
  {
    if vs[|vs| - 1] != v {
      assert v in vs[..|vs| - 1];
      ViewsNotOfComplete(vs[..|vs| - 1], photoId, v);
    }
  }

  function PhotosNot(ps: seq<Photo>, id: nat): (r: seq<Photo>)
    ensures forall k :: 0 <= k < |r| ==> r[k] in ps && r[k].id != id
  {
    if ps == [] then []
    else if ps[|ps| - 1].id == id then PhotosNot(ps[..|ps| - 1], id)
    else PhotosNot(ps[..|ps| - 1], id) + [ps[|ps| - 1]]
  }

  /** Every row the filter selects is kept. */
  lemma {:induction false} PhotosNotComplete(ps: seq<Photo>, id: nat, p: Photo)
    requires p in ps && p.id != id
    ensures p in PhotosNot(ps, id)
    decreases |ps|
  {
    if ps[|ps| - 1] != p {
      assert p in ps[..|ps| - 1];
      PhotosNotComplete(ps[..|ps| - 1], id, p);
    }
  }

  // ------------------------------------------------- (photo, user) pairs

  /** The (photo, user) pairs the like rows stand for. */
  ghost function LikePairs(ls: seq<Like>): set<(nat, nat)>
  {
    set k | 0 <= k < |ls| :: (ls[k].photoId, ls[k].userId)
  }

  ghost function ViewPairs(vs: seq<View>): set<(nat, nat)>
  {
    set k | 0 <= k < |vs| :: (vs[k].photoId, vs[k].userId)
  }

  /** No user likes the same photo twice. */
  ghost predicate LikesDistinct(ls: seq<Like>)
  {
    forall i, j :: 0 <= i < j < |ls| ==>
      !(ls[i].photoId == ls[j].photoId && ls[i].userId == ls[j].userId)
  }

  /** No user is recorded as viewing the same photo twice. */
  ghost predicate ViewsDistinct(vs: seq<View>)
  {
    forall i, j :: 0 <= i < j < |vs| ==>
      !(vs[i].photoId == vs[j].photoId && vs[i].userId == vs[j].userId)
  }

  // ------------------------------------------------ schema constraints

  /** Serial user ids: increasing along the table, as rows are appended
      when their ids are handed out, and all below the next one. In
      particular `users.id` is a key: no two rows share an id. */
  ghost predicate UsersKeyed(us: seq<User>, next: nat)
  {
    && (forall i :: 0 <= i < |us| ==> us[i].id < next)
    && (forall i, j :: 0 <= i < j < |us| ==> us[i].id < us[j].id)
  }

  /** Serial photo ids below the next one, upload instants before the
      clock, and a storage key on every photo. */
  ghost predicate PhotosKeyed(ps: seq<Photo>, next: nat, clock: nat)
  {
    forall i :: 0 <= i < |ps| ==> ps[i].id < next && ps[i].timestamp < clock && ps[i].key != ""
  }

  /** Rows are appended as they are uploaded, so ids and upload instants
      both increase along the table; no two photos share an id. */
  ghost predicate UploadOrder(ps: seq<Photo>)
  {
    forall i, j :: 0 <= i < j < |ps| ==> ps[i].id < ps[j].id && ps[i].timestamp < ps[j].timestamp
  }

  /** Serial like ids: increasing along the table and below the next one. */
  ghost predicate LikesKeyed(ls: seq<Like>, next: nat)
  {
    && (forall i :: 0 <= i < |ls| ==> ls[i].id < next)
    && (forall i, j :: 0 <= i < j < |ls| ==> ls[i].id < ls[j].id)
  }

  /** Serial comment ids: increasing along the table and below the next one. */
  ghost predicate CommentsKeyed(cs: seq<Comment>, next: nat)
  {
    && (forall i :: 0 <= i < |cs| ==> cs[i].id < next)
    && (forall i, j :: 0 <= i < j < |cs| ==> cs[i].id < cs[j].id)
  }

  /** Serial view ids: increasing along the table and below the next one. */
  ghost predicate ViewsKeyed(vs: seq<View>, next: nat)
  {
    && (forall i :: 0 <= i < |vs| ==> vs[i].id < next)
    && (forall i, j :: 0 <= i < j < |vs| ==> vs[i].id < vs[j].id)
  }

  /** `photos.uploader_id` references `users.id`. */
  ghost predicate PhotosLinked(ps: seq<Photo>, us: seq<User>)
  {
    forall k :: 0 <= k < |ps| ==> ps[k].uploaderId in UserIds(us)
  }

  ghost predicate LikesLinked(ls: seq<Like>, ps: seq<Photo>, us: seq<User>)
  {
    forall k :: 0 <= k < |ls| ==> ls[k].photoId in PhotoIds(ps) && ls[k].userId in UserIds(us)
  }

  ghost predicate CommentsLinked(cs: seq<Comment>, ps: seq<Photo>, us: seq<User>)
  {
    forall k :: 0 <= k < |cs| ==> cs[k].photoId in PhotoIds(ps) && cs[k].userId in UserIds(us)
  }

  ghost predicate ViewsLinked(vs: seq<View>, ps: seq<Photo>, us: seq<User>)
  {
    forall k :: 0 <= k < |vs| ==> vs[k].photoId in PhotoIds(ps) && vs[k].userId in UserIds(us)
  }

  /** Every declared key, foreign key and ordering of the photo tables,
      and one like and one view per (photo, user) pair. */
  ghost predicate TablesValid(
    us: seq<User>, ps: seq<Photo>, ls: seq<Like>, cs: seq<Comment>, vs: seq<View>,
    nextUserId: nat, nextPhotoId: nat, nextLikeId: nat, nextCommentId: nat, nextViewId: nat,
    clock: nat)
  {
    && UsersKeyed(us, nextUserId)
    && PhotosKeyed(ps, nextPhotoId, clock)
    && UploadOrder(ps)
    && LikesKeyed(ls, nextLikeId)
    && CommentsKeyed(cs, nextCommentId)
    && ViewsKeyed(vs, nextViewId)
    && PhotosLinked(ps, us)
    && LikesLinked(ls, ps, us)
    && CommentsLinked(cs, ps, us)
    && ViewsLinked(vs, ps, us)
    && LikesDistinct(ls)
    && ViewsDistinct(vs)
  }

  // ------------------------------------------------------ the cascade

  /** Removing one photo keeps every other photo id. */
  lemma PhotosNotKeepsIds(ps: seq<Photo>, id: nat)
    ensures forall x :: x in PhotoIds(ps) && x != id ==> x in PhotoIds(PhotosNot(ps, id))
    ensures id !in PhotoIds(PhotosNot(ps, id))
  {
    var r := PhotosNot(ps, id);
    forall x | x in PhotoIds(ps) && x != id
      ensures x in PhotoIds(r)
    {
      PhotoIdsExact(ps, x);
      var i :| 0 <= i < |ps| && ps[i].id == x;
      PhotosNotComplete(ps, id, ps[i]);
      var k :| 0 <= k < |r| && r[k] == ps[i];
      PhotoIdsExact(r, x);
    }
    PhotoIdsExact(r, id);
  }

  /** The rows that stay keep their relative order, so the upload
      instants stay increasing. */
  lemma {:induction false} PhotosNotKeepsOrder(ps: seq<Photo>, id: nat)
    requires UploadOrder(ps)
    ensures UploadOrder(PhotosNot(ps, id))
  {
    if ps != [] {
      var n := |ps| - 1;
      assert UploadOrder(ps[..n]);
      PhotosNotKeepsOrder(ps[..n], id);
      var init := PhotosNot(ps[..n], id);
      forall k | 0 <= k < |init| ensures init[k].id < ps[n].id && init[k].timestamp < ps[n].timestamp {
        var j :| 0 <= j < n && ps[..n][j] == init[k];
        assert ps[j] == init[k];
      }
    }
  }

  /** The cascade keeps the surviving likes in table order, so their
      serial ids stay increasing and below the counter. */
  lemma {:induction false} LikesNotOfKeepsKeyed(ls: seq<Like>, photoId: nat, next: nat)
    requires LikesKeyed(ls, next)
    ensures LikesKeyed(LikesNotOf(ls, photoId), next)
    decreases |ls|
  {
    var r := LikesNotOf(ls, photoId);
    forall k | 0 <= k < |r| ensures r[k].id < next {
      var j :| 0 <= j < |ls| && ls[j] == r[k];
    }
    if ls != [] {
      var n := |ls| - 1;
      assert LikesKeyed(ls[..n], next);
      LikesNotOfKeepsKeyed(ls[..n], photoId, next);
      var init := LikesNotOf(ls[..n], photoId);
      forall k | 0 <= k < |init| ensures init[k].id < ls[n].id {
        var j :| 0 <= j < n && ls[..n][j] == init[k];
        assert ls[j] == init[k];
      }
    }
  }

  /** The cascade keeps the surviving comments in table order, so their
      serial ids stay increasing and below the counter. */
  lemma {:induction false} CommentsNotOfKeepsKeyed(cs: seq<Comment>, photoId: nat, next: nat)
    requires CommentsKeyed(cs, next)
    ensures CommentsKeyed(CommentsNotOf(cs, photoId), next)
    decreases |cs|
  {
    var r := CommentsNotOf(cs, photoId);
    forall k | 0 <= k < |r| ensures r[k].id < next {
      var j :| 0 <= j < |cs| && cs[j] == r[k];
    }
    if cs != [] {
      var n := |cs| - 1;
      assert CommentsKeyed(cs[..n], next);
      CommentsNotOfKeepsKeyed(cs[..n], photoId, next);
      var init := CommentsNotOf(cs[..n], photoId);
      forall k | 0 <= k < |init| ensures init[k].id < cs[n].id {
        var j :| 0 <= j < n && cs[..n][j] == init[k];
        assert cs[j] == init[k];
      }
    }
  }

  /** The cascade keeps the surviving views in table order, so their
      serial ids stay increasing and below the counter. */
  lemma {:induction false} ViewsNotOfKeepsKeyed(vs: seq<View>, photoId: nat, next: nat)
    requires ViewsKeyed(vs, next)
    ensures ViewsKeyed(ViewsNotOf(vs, photoId), next)
    decreases |vs|
  {
    var r := ViewsNotOf(vs, photoId);
    forall k | 0 <= k < |r| ensures r[k].id < next {
      var j :| 0 <= j < |vs| && vs[j] == r[k];
    }
    if vs != [] {
      var n := |vs| - 1;
      assert ViewsKeyed(vs[..n], next);
      ViewsNotOfKeepsKeyed(vs[..n], photoId, next);
      var init := ViewsNotOf(vs[..n], photoId);
      forall k | 0 <= k < |init| ensures init[k].id < vs[n].id {
        var j :| 0 <= j < n && vs[..n][j] == init[k];
        assert vs[j] == init[k];
      }
    }
  }

  lemma {:induction false} LikesNotOfKeepsDistinct(ls: seq<Like>, photoId: nat)
    requires LikesDistinct(ls)
    ensures LikesDistinct(LikesNotOf(ls, photoId))
  {
    if ls != [] {
      var n := |ls| - 1;
      assert LikesDistinct(ls[..n]);
      LikesNotOfKeepsDistinct(ls[..n], photoId);
      var init := LikesNotOf(ls[..n], photoId);
      forall k | 0 <= k < |init|
        ensures !(init[k].photoId == ls[n].photoId && init[k].userId == ls[n].userId)
      {
        var j :| 0 <= j < n && ls[..n][j] == init[k];
        assert ls[j] == init[k];
      }
    }
  }

  lemma {:induction false} ViewsNotOfKeepsDistinct(vs: seq<View>, photoId: nat)
    requires ViewsDistinct(vs)
    ensures ViewsDistinct(ViewsNotOf(vs, photoId))
  {
    if vs != [] {
      var n := |vs| - 1;
      assert ViewsDistinct(vs[..n]);
      ViewsNotOfKeepsDistinct(vs[..n], photoId);
      var init := ViewsNotOf(vs[..n], photoId);
      forall k | 0 <= k < |init|
        ensures !(init[k].photoId == vs[n].photoId && init[k].userId == vs[n].userId)
      {
        var j :| 0 <= j < n && vs[..n][j] == init[k];
        assert vs[j] == init[k];
      }
    }
  }

  /** A photo none of whose rows are in a table has no rows there. */
  lemma {:induction false} NoLikesOf(ls: seq<Like>, id: nat)
    requires forall k :: 0 <= k < |ls| ==> ls[k].photoId != id
    ensures LikesOf(ls, id) == []
  {
    if ls != [] {
      NoLikesOf(ls[..|ls| - 1], id);
    }
  }

  lemma {:induction false} NoCommentsOf(cs: seq<Comment>, id: nat)
    requires forall k :: 0 <= k < |cs| ==> cs[k].photoId != id
    ensures CommentsOf(cs, id) == []
  {
    if cs != [] {
      NoCommentsOf(cs[..|cs| - 1], id);
    }
  }

  lemma {:induction false} NoViewsOf(vs: seq<View>, id: nat)
    requires forall k :: 0 <= k < |vs| ==> vs[k].photoId != id
    ensures ViewsOf(vs, id) == []
  {
    if vs != [] {
      NoViewsOf(vs[..|vs| - 1], id);
    }
  }

  /** After the cascade nothing refers to the deleted photo any more, and
      every row of every other photo is still there. */
  lemma {:induction false} CascadeLeavesNothing(ps: seq<Photo>, ls: seq<Like>, cs: seq<Comment>, vs: seq<View>, id: nat)
    ensures FindPhoto(PhotosNot(ps, id), id).None?
    ensures LikesOf(LikesNotOf(ls, id), id) == []
    ensures CommentsOf(CommentsNotOf(cs, id), id) == []
    ensures ViewsOf(ViewsNotOf(vs, id), id) == []
    ensures forall l :: l in ls && l.photoId != id ==> l in LikesNotOf(ls, id)
    ensures forall c :: c in cs && c.photoId != id ==> c in CommentsNotOf(cs, id)
    ensures forall v :: v in vs && v.photoId != id ==> v in ViewsNotOf(vs, id)
  {
    NoLikesOf(LikesNotOf(ls, id), id);
    NoCommentsOf(CommentsNotOf(cs, id), id);
    NoViewsOf(ViewsNotOf(vs, id), id);
    forall l | l in ls && l.photoId != id ensures l in LikesNotOf(ls, id) {
      LikesNotOfComplete(ls, id, l);
    }
    forall c | c in cs && c.photoId != id ensures c in CommentsNotOf(cs, id) {
      CommentsNotOfComplete(cs, id, c);
    }
    forall v | v in vs && v.photoId != id ensures v in ViewsNotOf(vs, id) {
      ViewsNotOfComplete(vs, id, v);
    }
  }
}
